/**
  The fixed-capacity circular buffer (roundRobin/src/roundRobin.cpp): `add`
  overwrites the slot after the newest one, `get` reads the newest record,
  and `first`/`next` walk the live records from oldest to newest with an
  internal cursor.

  The ghost field `History` holds every record added so far; the object
  invariant ties `last`, `wrap` and the slots to it.
*/
module RoundRobin {
  import opened RoundRobinTypes
  import opened Arithmetic

  /** How many of n added records the buffer still holds. */
  function LiveCount(count: int, n: nat): nat
    requires 0 <= count
  {
    if n < count then n else count
  }

  /** `last` after n adds: -1 before the first, then the slot of the newest record. */
  function LastAfter(count: int, n: nat): int
    requires 2 <= count
  {
    if n == 0 then -1 else (n - 1) % count
  }

  /** `wrap` after n adds: 1 once the (count+1)-th add went back to slot 0. */
  function WrapAfter(count: int, n: nat): int
  {
    if n > count then 1 else 0
  }

  /** The slot of the p-th live record, oldest first. */
  function LiveSlot(count: int, n: nat, p: nat): int
    requires 2 <= count && p <= LiveCount(count, n)
  {
    (n - LiveCount(count, n) + p) % count
  }

  /** The private first(): the cursor position that begins a pass. */
  function FirstSlot(count: int, last: int, wrap: int): (r: int)
    requires 2 <= count && -1 <= last < count
    ensures -1 <= r < count
  {
    if last == -1 then -1
    else if wrap == 0 then 0
    else Incr(count, last)
  }

  /** The private next(): its four rules, in the order the code tries them. */
  function NextSlot(count: int, last: int, wrap: int, indx: int): (r: int)
    requires 2 <= count && -1 <= last < count && -1 <= indx < count
    ensures -1 <= r < count
  {
    if last == -1 then -1
    else if wrap == 0 && last == 0 then -1
    else if indx != last then Incr(count, indx)
    else -1
  }

  /** The slots returned by up to `steps` further calls of next() from cursor indx, up to the first -1. */
  function Visits(count: int, last: int, wrap: int, indx: int, steps: nat): seq<int>
    requires 2 <= count && -1 <= last < count && -1 <= indx < count
    decreases steps
  {
    if steps == 0 then []
    else
      var n := NextSlot(count, last, wrap, indx);
      if n == -1 then [] else [n] + Visits(count, last, wrap, n, steps - 1)
  }

  /** On a buffer holding records, first() starts at the slot of the oldest live record. */
  lemma FirstIsOldest(count: int, n: nat)
    requires 2 <= count && 1 <= n
    ensures FirstSlot(count, LastAfter(count, n), WrapAfter(count, n)) == LiveSlot(count, n, 0)
  {
    if n > count {
      ModSucc(n - 1, count);
      ModShift(n - count, count);
    }
  }

  /** From the p-th live slot, next() moves to the (p+1)-th; from the newest it reports -1. */
  lemma NextStep(count: int, n: nat, p: nat)
    requires 2 <= count && 1 <= n && p < LiveCount(count, n)
    ensures var last, wrap := LastAfter(count, n), WrapAfter(count, n);
      && -1 <= LiveSlot(count, n, p) < count
      && NextSlot(count, last, wrap, LiveSlot(count, n, p))
         == if p + 1 < LiveCount(count, n) then LiveSlot(count, n, p + 1) else -1
  {
    var L := LiveCount(count, n);
    var x := n - L + p;
    var last := LastAfter(count, n);
    if p + 1 < L {
      ModDistinct(x, n - 1, count);
      assert x % count != last;
      if n <= count {
        DivUnique(n - 1, count, 0, n - 1);
        assert last != 0;
      }
      ModSucc(x, count);
      assert Incr(count, x % count) == (x + 1) % count;
    } else {
      assert x == n - 1;
    }
  }

  lemma {:induction false} WalkFrom(count: int, n: nat, p: nat, k: nat)
    requires 2 <= count && 1 <= n && p < LiveCount(count, n) && k >= LiveCount(count, n) - p
    ensures var s := Visits(count, LastAfter(count, n), WrapAfter(count, n), LiveSlot(count, n, p), k);
      && |s| == LiveCount(count, n) - 1 - p
      && forall q :: 0 <= q < |s| ==> s[q] == LiveSlot(count, n, p + 1 + q)
    decreases k
  {
    NextStep(count, n, p);
    if p + 1 < LiveCount(count, n) {
      WalkFrom(count, n, p + 1, k - 1);
    }
  }

  /**
    A pass of first() and then next() until -1, on a buffer that has had n >= 1
    records added, visits the slots of the last min(n, count) records, oldest
    to newest, and then stops, however many more calls of next() are allowed.
  */
  lemma PassVisitsLiveSlots(count: int, n: nat, k: nat)
    requires 2 <= count && 1 <= n && k >= LiveCount(count, n)
    ensures var last, wrap := LastAfter(count, n), WrapAfter(count, n);
      var f := FirstSlot(count, last, wrap);
      var s := Visits(count, last, wrap, f, k);
      && f == LiveSlot(count, n, 0)
      && |s| == LiveCount(count, n) - 1
      && forall q :: 0 <= q < |s| ==> s[q] == LiveSlot(count, n, q + 1)
  {
    FirstIsOldest(count, n);
    WalkFrom(count, n, 0, k);
  }

  /**
    A next() with the cursor at -1 (never started, or a pass just ended)
    restarts at slot 0 unless exactly one record was ever added: the end of
    a pass is not sticky.
  */
  lemma NextWithoutFirst(count: int, n: nat)
    requires 2 <= count && 2 <= n
    ensures NextSlot(count, LastAfter(count, n), WrapAfter(count, n), -1) == 0
  {
  }

  class RoundRobin {
    var count: int
    var indx: int
    var last: int
    var wrap: int
    var records: array?<DataRecord>
    /** Every record added so far, oldest first. */
    ghost var History: seq<DataRecord>

    /** A buffer built with maxValues >= 2 and not released. */
    ghost predicate Valid()
      reads this, records
    {
      && 2 <= count && records != null && records.Length == count
      && -1 <= indx < count
      && last == LastAfter(count, |History|)
      && wrap == WrapAfter(count, |History|)
      && forall j :: |History| - LiveCount(count, |History|) <= j < |History| ==> records[j % count] == History[j]
    }

    /** What get, first and next may be called on: a valid buffer, or one that never held a record. */
    ghost predicate Readable()
      reads this, records
    {
      Valid() || last == -1
    }

    /** The initialiser list shared by both constructors, with nothing added. */
    ghost predicate Initial()
      reads this
    {
      count == -1 && indx == -1 && last == -1 && wrap == 0 && records == null && History == []
    }

    /** The live records, oldest first: the last min(n, count) of the n added. */
    ghost function Live(): seq<DataRecord>
      reads this, records
      requires Valid()
    {
      History[|History| - LiveCount(count, |History|)..]
    }

    /** The private default constructor. */
    constructor Default()
      ensures Initial() && Readable()
    {
      count, indx, last, wrap, records := -1, -1, -1, 0, null;
      History := [];
    }

    /**
      roundRobin(maxValues): with maxValues <= 1 no storage is allocated and
      the fields keep their initial values; otherwise a fresh array of
      maxValues slots, nothing added.
    */
    constructor (maxValues: int)
      ensures maxValues <= 1 ==> Initial() && Readable()
      ensures maxValues > 1 ==> Valid() && fresh(records) && count == maxValues
      ensures maxValues > 1 ==> History == [] && last == -1 && wrap == 0 && indx == -1
    {
      count, indx, last, wrap, records := -1, -1, -1, 0, null;
      History := [];
      if maxValues > 1 {
        count := maxValues;
        last := -1;
        records := new DataRecord[maxValues];
      }
    }

    /**
      unset(): release the storage; the buffer is no longer valid. The C code
      frees the array only when count > 0, so calling it again is harmless.
    */
    method Unset()
      modifies this
      ensures count == -1 && records == null
      ensures indx == old(indx) && last == old(last) && wrap == old(wrap) && History == old(History)
    {
      records := null;
      count := -1;
    }

    /**
      add(record): write the slot after `last`, wrapping to 0, latch `wrap`
      when the index goes backwards, and return the slot written.
    */
    method Add(record: DataRecord) returns (r: int)
      requires Valid()
      modifies this, records
      ensures Valid() && History == old(History) + [record]
      ensures count == old(count) && records == old(records) && indx == old(indx)
      ensures last == Incr(count, old(last)) && r == last
      ensures wrap == if old(wrap) == 0 && last < old(last) then 1 else old(wrap)
      ensures records[..] == old(records[..])[last := record]
    {
      var prv := last;
      last := Incr(count, last);
      if wrap == 0 {
        if last < prv {
          wrap := 1;
        }
      }
      records[last] := record;
      ghost var n := |History|;
      History := History + [record];
      AddKeepsSlots(n);
      r := last;
    }

    /** The slot arithmetic behind Add: the new slot is n % count and no older live record sits there. */
    lemma AddKeepsSlots(n: nat)
      requires 2 <= count && n + 1 == |History|
      ensures LastAfter(count, n + 1) == Incr(count, LastAfter(count, n))
      ensures WrapAfter(count, n + 1) ==
        if WrapAfter(count, n) == 0 && LastAfter(count, n + 1) < LastAfter(count, n) then 1 else WrapAfter(count, n)
      ensures forall j :: n + 1 - LiveCount(count, n + 1) <= j < n ==> j % count != n % count
      ensures n + 1 - LiveCount(count, n + 1) >= n - LiveCount(count, n)
    {
      if n > 0 {
        ModSucc(n - 1, count);
      }
      forall j | n + 1 - LiveCount(count, n + 1) <= j < n
        ensures j % count != n % count
      {
        ModDistinct(j, n, count);
      }
    }

    /** get(record): -1 and `record` untouched while empty; otherwise `last` and the newest record. */
    method Get(record: DataRecord) returns (r: int, out: DataRecord)
      requires Readable()
      ensures r == last
      ensures r == -1 ==> out == record
      ensures Valid() ==> (r == -1 <==> History == [])
      ensures Valid() && History != [] ==> out == History[|History| - 1]
    {
      if last < 0 {
        r, out := -1, record;
      } else {
        out := records[last];
        r := last;
      }
    }

    /** The private first(): set the cursor to the oldest live record's slot, or -1 when empty. */
    method FirstIndex() returns (r: int)
      requires Readable()
      modifies this`indx
      ensures Readable() && r == indx
      ensures last == -1 ==> r == -1
      ensures old(Valid()) ==> Valid() && r == FirstSlot(count, last, wrap)
    {
      if last == -1 {
        indx := -1;
      } else if wrap == 0 {
        indx := 0;
      } else {
        indx := Incr(count, last);
      }
      r := indx;
    }

    /** The private next(): advance the cursor by the four rules of NextSlot. */
    method NextIndex() returns (r: int)
      requires Readable()
      modifies this`indx
      ensures Readable() && r == indx
      ensures last == -1 ==> r == -1
      ensures old(Valid()) ==> Valid() && r == NextSlot(count, last, wrap, old(indx))
    {
      if last == -1 {
        indx := -1;
      } else if wrap == 0 && last == 0 {
        indx := -1;
      } else if indx != last {
        indx := Incr(count, indx);
      } else {
        indx := -1;
      }
      r := indx;
    }

    /**
      first(record): begin a pass; when the slot index is > -1 the record
      there is copied out, otherwise `record` is left as it was.
    */
    method First(record: DataRecord) returns (r: int, out: DataRecord)
      requires Readable()
      modifies this`indx
      ensures Readable() && r == indx
      ensures last == -1 ==> r == -1
      ensures old(Valid()) ==> Valid() && r == FirstSlot(count, last, wrap)
      ensures r == -1 ==> out == record
      ensures r != -1 ==> Valid() && 0 <= r < count && out == records[r]
      ensures old(Valid()) && History != [] ==> r != -1 && out == Live()[0]
    {
      r := FirstIndex();
      if r > -1 {
        out := records[r];
        PassReadsLiveRecords(this, LiveCount(count, |History|));
      } else {
        out := record;
      }
    }

    /**
      next(record): continue the pass; when the slot index is > -1 the
      record there is copied out, otherwise `record` is left as it was.
    */
    method Next(record: DataRecord) returns (r: int, out: DataRecord)
      requires Readable()
      modifies this`indx
      ensures Readable() && r == indx
      ensures last == -1 ==> r == -1
      ensures old(Valid()) ==> Valid() && r == NextSlot(count, last, wrap, old(indx))
      ensures r == -1 ==> out == record
      ensures r != -1 ==> Valid() && 0 <= r < count && out == records[r]
    {
      r := NextIndex();
      if r > -1 {
        out := records[r];
      } else {
        out := record;
      }
    }
  }

  /**
    A whole pass over a buffer that holds records yields exactly its live
    records, the last min(n, count) added, oldest to newest, and then -1.
  */
  lemma PassReadsLiveRecords(b: RoundRobin, k: nat)
    requires b.Valid() && b.History != [] && k >= |b.Live()|
    ensures var f := FirstSlot(b.count, b.last, b.wrap);
      var slots := [f] + Visits(b.count, b.last, b.wrap, f, k);
      && |slots| == |b.Live()|
      && forall p :: 0 <= p < |slots| ==> 0 <= slots[p] < b.count && b.records[slots[p]] == b.Live()[p]
  {
    var n := |b.History|;
    var L := LiveCount(b.count, n);
    PassVisitsLiveSlots(b.count, n, k);
    var f := FirstSlot(b.count, b.last, b.wrap);
    var slots := [f] + Visits(b.count, b.last, b.wrap, f, k);
    forall p | 0 <= p < |slots|
      ensures 0 <= slots[p] < b.count && b.records[slots[p]] == b.Live()[p]
    {
      assert slots[p] == LiveSlot(b.count, n, p);
      assert b.History[n - L + p] == b.Live()[p];
    }
  }

  /** A sample record told apart by its time stamp. */
  function Sample(t: nat): DataRecord
  {
    DataRecord(t, "", 0, 0, 0)
  }

  /** Capacity 3, records 1 to 5 added: a pass yields 3, 4, 5 and then -1. */
  method FiveIntoThreeScenario() returns (visited: seq<DataRecord>, done: int)
    ensures visited == [Sample(3), Sample(4), Sample(5)] && done == -1
  {
    var b := new RoundRobin(3);
    var slot := b.Add(Sample(1));
    slot := b.Add(Sample(2));
    slot := b.Add(Sample(3));
    slot := b.Add(Sample(4));
    slot := b.Add(Sample(5));
    var i, x := b.First(Sample(0));
    visited := [x];
    i, x := b.Next(x);
    visited := visited + [x];
    i, x := b.Next(x);
    visited := visited + [x];
    done, x := b.Next(x);
  }

  /** Capacity 2, records 1, 2, 3 added: the newest is 3, and a pass yields 2, 3 and then -1. */
  method ThreeIntoTwoScenario() returns (newest: DataRecord, visited: seq<DataRecord>, done: int)
    ensures newest == Sample(3) && visited == [Sample(2), Sample(3)] && done == -1
  {
    var b := new RoundRobin(2);
    var slot := b.Add(Sample(1));
    slot := b.Add(Sample(2));
    slot := b.Add(Sample(3));
    slot, newest := b.Get(Sample(0));
    var i, x := b.First(Sample(0));
    visited := [x];
    i, x := b.Next(x);
    visited := visited + [x];
    done, x := b.Next(x);
  }

  /** Without a first(), next() on a buffer of two records returns slot 0 and its record. */
  method NextWithoutFirstScenario() returns (i: int, x: DataRecord)
    ensures i == 0 && x == Sample(1)
  {
    var b := new RoundRobin(3);
    var slot := b.Add(Sample(1));
    slot := b.Add(Sample(2));
    i, x := b.Next(Sample(0));
  }
}
