# Periodics and roundRobin in Dafny

The model covers two small state-keeping components for polled embedded main loops.

- **Periodics** is a table of named intervals. `refresh` takes one clock reading. It marks every entry whose period has elapsed since its reference time, and moves that reference forward by whole periods. The elapsed time is computed modulo 2^32 (`DIFTIM`), so a millisecond counter that wraps around still gives the right answer. `check` by name or by 1-based index is a consuming read: it returns the mark and clears it. `set` registers a name or updates its period. `reset` re-bases every entry. `unset` empties the table.
- **roundRobin** is a fixed-capacity circular buffer of `dataRecord`s. `add` overwrites the slot after the newest one, wrapping to slot 0, and latches `wrap` on the first lap. `get` returns the newest record. `first` and `next` walk the live records from oldest to newest with an internal cursor.

Layout:

- `periodics_types.dfy` (module `PeriodicsTypes`) models `Periodics.h`: the 32-bit `Tick`, `DIFTIM` as `Diftim`, the wrapping `unsigned long` addition as `AddTicks`, the 16-byte name field and `period_struct` as `Period`.
- `periodics.dfy` (module `Periodics`) is `Periodics.cpp`. Class `Periodics` has the fields `rows` and `periods`. The entry array is a `seq<Period>`, and the NULL array is the empty sequence, so `Valid()` is `rows == |periods|`. The lookups, refresh and reset are proved against functions on entries: `FindName`, `CatchUp`, `RefreshEntry` and `Rebased`; the constructor, `CheckIndex`, `Set` and `Unset` are specified directly on `rows` and `periods`.
- `round_robin_types.dfy` (module `RoundRobinTypes`) models `roundRobin.h`: `dataRecord` and `incr`.
- `round_robin.dfy` (module `RoundRobin`) is `roundRobin.cpp`. Class `RoundRobin` has the fields `count`, `indx`, `last`, `wrap` and `records` (a nullable `array`). A ghost `History` holds every record added so far. `Valid()` ties `last`, `wrap` and the slot contents to `History`. The cursor rules of `first()` and `next()` are the functions `FirstSlot` and `NextSlot`, and the lemmas about a whole pass are stated on them.
- `arithmetic.dfy` (module `Arithmetic`) holds division and remainder facts shared by both proofs. `wrappers.dfy` holds `Option`.

The clock reading `TIMNOW` is the parameter `now` of `set`, `refresh` and `reset`. It is a 32-bit value, as on Arduino.

Where the intended behaviour described for these components differs from the code, the model follows the code:

- `set` on a name that is already registered returns the 0-based position. A new name returns the 1-based row count.
- `set` does not reject a zero or negative period. Instead, `Refresh` requires every period to be positive (with period 0 the catch-up loop never ends).
- Lookups compare the 15-character stored name with the full argument. A longer name therefore never matches itself (`NewEntryLookup`), and every `set` of it appends a new entry. A long name whose first 15 characters equal a stored name adds a second entry with the same stored name.
- A `next()` on a buffer with two or more records and the cursor at -1 returns slot 0. That covers a call before any `first()` and a call after a pass has ended. The end of a pass is not sticky (`NextWithoutFirst`, `NextWithoutFirstScenario`).
- The buffer has no reset that keeps its storage. Only `unset` exists.

## Model

| member | source | states |
|---|---|---|
| PeriodicsTypes.Diftim | Periodics/include/Periodics.h:41-44 | the result lies in [0, 2^32) and is the tick count that takes b forward to a, modulo 2^32 |
| PeriodicsTypes.AddTicks | Periodics/src/Periodics.cpp:85 | 32-bit `unsigned long` addition: the result is congruent to a + n modulo 2^32 and lies in [0, 2^32) |
| PeriodicsTypes.Truncated | Periodics/src/Periodics.cpp:163 | the stored name is a prefix of the argument, of length min(length, 15) |
| PeriodicsTypes.DiftimSelf | Periodics/include/Periodics.h:44 | DIFTIM(a, a) = 0 |
| PeriodicsTypes.DiftimAdvance | Periodics/include/Periodics.h:41-44 | for d < 2^32, DIFTIM((b + d) mod 2^32, b) = d |
| PeriodicsTypes.DiftimAcrossWrap | Periodics/include/Periodics.h:41-44 | reference 2^32 - 1 and reading 2 give 3 elapsed ticks, not an underflow |
| PeriodicsTypes.DiftimStep | Periodics/src/Periodics.cpp:84-87 | one turn of the catch-up loop lowers the elapsed time by exactly one period, so the loop terminates |
| PeriodicsTypes.AddTicksTwice | Periodics/src/Periodics.cpp:85 | two wrapping additions equal one wrapping addition of the sum |
| Periodics.FindName | Periodics/src/Periodics.cpp:227-238 | returns the first entry whose stored name equals the argument; None exactly when no entry has that name |
| Periodics.CatchUp | Periodics/src/Periodics.cpp:84-87 | the catch-up `while` loop as a recursion on the elapsed time; its own contract is only the loop's termination measure, and what it computes is proved by CatchUpLands |
| Periodics.CatchUpLands | Periodics/src/Periodics.cpp:80-90 | the catch-up loop advances the reference by floor(elapsed / period) whole periods, leaving elapsed mod period < period |
| Periodics.RefreshEntry | Periodics/src/Periodics.cpp:70-92 | if elapsed >= period: passed = 1 and the reference moves forward by k >= 1 whole periods to a point at most now with less than one period to go; otherwise the entry is unchanged; name and period are never changed |
| Periodics.Rebased | Periodics/src/Periodics.cpp:128-131 | the reference becomes now (zero elapsed), passed becomes status, name and period are kept |
| Periodics.Periodics.constructor | Periodics/include/Periodics.h:76 | rows = 0 and no entries |
| Periodics.Periodics.GetName | Periodics/src/Periodics.cpp:226-238 | the loop returns the first position whose name matches, or None |
| Periodics.Periodics.GetIndex | Periodics/src/Periodics.cpp:246-251 | resolves exactly when 1 <= indx <= rows, to position indx - 1 |
| Periodics.Periodics.CheckName | Periodics/src/Periodics.cpp:22-34 | unknown name: returns -1 and changes nothing; known name: returns its passed, clears it, leaves everything else unchanged |
| Periodics.Periodics.CheckIndex | Periodics/src/Periodics.cpp:44-56 | index outside 1..rows: returns -1 and changes nothing; otherwise returns and clears passed of entry indx - 1 |
| Periodics.Periodics.Refresh | Periodics/src/Periodics.cpp:64-95 | with one clock reading, every entry becomes RefreshEntry of its old value; rows is unchanged and returned |
| Periodics.Periodics.Reset | Periodics/src/Periodics.cpp:103-114 | every entry is rebased to now with passed 0; returns rows |
| Periodics.Periodics.ResetStatus | Periodics/src/Periodics.cpp:123-134 | every entry is rebased to now with passed = status; returns rows |
| Periodics.Periodics.Set | Periodics/src/Periodics.cpp:141-175 | known name: only that entry's period changes and its 0-based position is returned; new name: one entry (truncated name, reference now, passed 0) is appended after the old ones and the new rows is returned |
| Periodics.Periodics.Unset | Periodics/src/Periodics.cpp:191-196 | rows = 0 and no entries, so a second call changes nothing |
| Periodics.NewEntryLookup | Periodics/src/Periodics.cpp:157-174 | a new entry has passed 0; a later lookup finds it exactly when the name has at most 15 characters |
| Periodics.RefreshIdempotent | Periodics/src/Periodics.cpp:80-91 | a second refresh with the same reading changes nothing |
| Periodics.FiresOnce | Periodics/src/Periodics.cpp:22-34 | after an elapsed period refresh marks the entry; once a check clears it, a refresh at the same reading leaves it cleared |
| Periodics.ResetThenRefresh | Periodics/src/Periodics.cpp:123-134 | a refresh right after reset(status) at the same reading leaves the entries as reset |
| Periodics.EmptyLookupsFail | Periodics/src/Periodics.cpp:226-251 | a valid tracker with no rows resolves no name and no index |
| Periodics.WrapAroundScenario | Periodics/src/Periodics.cpp:64-95 | a 100-tick period set 50 ticks before the clock wraps and refreshed 60 ticks after it: the first check returns 1 and the second returns 0 |
| RoundRobinTypes.Incr | roundRobin/include/roundRobin.h:84 | for count >= 2 and -1 <= ptr < count the result lies in [0, count): 0 after the last slot, ptr + 1 otherwise |
| RoundRobinTypes.IncrFresh | roundRobin/include/roundRobin.h:84 | incr(-1) = 0, so the first add writes slot 0 |
| RoundRobinTypes.IncrWraps | roundRobin/include/roundRobin.h:84 | incr(count - 1) = 0 |
| RoundRobin.FirstSlot | roundRobin/src/roundRobin.cpp:179-193 | the private first(): -1 when empty, 0 before the first wrap, incr(last) after it; its own ensures gives only the range -1 <= r < count, and its meaning is proved by FirstIsOldest and PassVisitsLiveSlots |
| RoundRobin.NextSlot | roundRobin/src/roundRobin.cpp:200-217 | the private next(): its four rules in the source's order; its own ensures gives only the range -1 <= r < count, and its meaning is proved by NextStep and PassVisitsLiveSlots |
| RoundRobin.FirstIsOldest | roundRobin/src/roundRobin.cpp:180-193 | on a buffer holding records, first() starts at slot 0 before the first wrap and at incr(last) after it, which is the oldest live record's slot |
| RoundRobin.NextStep | roundRobin/src/roundRobin.cpp:201-217 | from the p-th live slot next() moves to the (p+1)-th; from the newest slot it returns -1 |
| RoundRobin.PassVisitsLiveSlots | roundRobin/src/roundRobin.cpp:180-216 | first() and then next() until -1 visit the slots of the last min(n, count) records oldest to newest, then stop |
| RoundRobin.NextWithoutFirst | roundRobin/src/roundRobin.cpp:211-216 | with two or more records and the cursor at -1, next() returns slot 0 |
| RoundRobin.PassReadsLiveRecords | roundRobin/src/roundRobin.cpp:139-168 | a whole pass reads exactly the live records, the last min(n, count) added, oldest to newest |
| RoundRobin.RoundRobin.Default | roundRobin/include/roundRobin.h:81 | count = indx = last = -1, wrap = 0, records = NULL |
| RoundRobin.RoundRobin.constructor | roundRobin/src/roundRobin.cpp:38-47 | maxValues <= 1: the default field values and no storage; otherwise count = maxValues, last = -1, wrap = 0 and fresh storage of maxValues slots |
| RoundRobin.RoundRobin.Unset | roundRobin/src/roundRobin.cpp:63-68 | count = -1 and records = NULL, cursors kept; a second call is harmless |
| RoundRobin.RoundRobin.Add | roundRobin/src/roundRobin.cpp:75-88 | the new last is incr(old last) and is returned; only that slot changes, and it now holds the record; wrap latches to 1 when last goes backwards and never returns to 0; History grows by the record |
| RoundRobin.RoundRobin.AddKeepsSlots | roundRobin/src/roundRobin.cpp:79-86 | after n adds, the next add writes slot n mod count, which holds no other live record, and wrap becomes 1 on the (count+1)-th add |
| RoundRobin.RoundRobin.Get | roundRobin/src/roundRobin.cpp:95-103 | empty: -1 with the record untouched; otherwise returns last and the most recently added record |
| RoundRobin.RoundRobin.FirstIndex | roundRobin/src/roundRobin.cpp:179-193 | sets and returns the cursor: -1 when empty, 0 before the first wrap, incr(last) after it |
| RoundRobin.RoundRobin.NextIndex | roundRobin/src/roundRobin.cpp:200-217 | sets and returns the cursor by next()'s four rules in order |
| RoundRobin.RoundRobin.First | roundRobin/src/roundRobin.cpp:139-149 | copies the slot out only when the index is > -1; on a buffer holding records that is the oldest live record |
| RoundRobin.RoundRobin.Next | roundRobin/src/roundRobin.cpp:157-168 | copies the slot out only when the index is > -1, and otherwise leaves the record untouched |
| RoundRobin.FiveIntoThreeScenario | roundRobin/src/roundRobin.cpp:180-216 | capacity 3 after adding records 1 to 5: a pass yields 3, 4, 5 and then -1 |
| RoundRobin.ThreeIntoTwoScenario | roundRobin/src/roundRobin.cpp:75-103 | capacity 2 after adding 1, 2, 3: get returns 3 and a pass yields 2, 3 and then -1 |
| RoundRobin.NextWithoutFirstScenario | roundRobin/src/roundRobin.cpp:211-216 | with two records and no first(), next() returns slot 0 and the first record |

## Left out

- `Periodics::print`, `roundRobin::print` and `dataRecord::print`: they only format text. The traversal order of `roundRobin::print` is the one `PassReadsLiveRecords` proves for `first`/`next`.
- `TIMNOW`: it reads a clock, so the reading is the parameter `now`.
- Platform widths. `unsigned long` is taken as 32 bits, as on Arduino. On a 64-bit host, `previous` would not wrap at 2^32 when stored, although `DIFTIM` still reduces modulo 2^32. `int` is taken as 32 bits, not the 16 bits of AVR boards.
- Heap management: `new[]`/`delete[]` and the copy-and-replace in `set`. The entry table is a sequence that `set` appends to, and `unset` only drops the references.
- Refresh: with a zero or negative period the catch-up loop does not end, or runs with an `unsigned long` conversion of a negative value. These inputs are excluded by its precondition.
- RoundRobin.RoundRobin.Add: requires a valid buffer, because after a failed construction or after `unset` it writes through a NULL pointer. `Get`, `First` and `Next` further allow a buffer that never held a record, where they return -1 safely. After `unset` on a buffer that held records, they also dereference NULL, and that case is excluded.
- The contents of freshly allocated `records` slots are undefined in the code and arbitrary in the model. No operation reads them before they are written.
- RoundRobin.RoundRobin.Next: its contract gives the cursor rule and the copied slot. That the pass yields the live records oldest to newest is stated over the whole pass by `PassReadsLiveRecords` rather than per call.
- The declared but undefined `roundRobin::reset()` and `Periodics::set(const int period)`, and the unused `RRtype` enum: there is no behaviour to model.
- The example programs and `demoPeriodics/include/Periodics.h`. The latter is a copy of `Periodics/include/Periodics.h`, modelled once.
