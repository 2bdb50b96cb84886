/**
  The named-interval scheduler (Periodics/src/Periodics.cpp): a growable
  table of named periods that a polled main loop refreshes from one clock
  reading and then queries with consuming reads.

  The clock reading TIMNOW is the `now` parameter of the operations that
  take it. The heap array `periods` and its length `rows` are the fields of
  the same names; a NULL array is the empty sequence.
*/
module Periodics {
  import opened Wrappers
  import opened PeriodicsTypes
  import opened Arithmetic

  /** The first entry whose stored name equals `name` (strcmp == 0), if any. */
  function FindName(ps: seq<Period>, name: CString): (r: Option<nat>)
    ensures r.Some? ==> r.value < |ps| && ps[r.value].name == name
    ensures r.Some? ==> forall j :: 0 <= j < r.value ==> ps[j].name != name
    ensures r.None? <==> forall j :: 0 <= j < |ps| ==> ps[j].name != name
  {
    if ps == [] then None
    else if ps[0].name == name then Some(0)
    else match FindName(ps[1..], name)
      case None => None
      case Some(i) => Some(i + 1)
  }

  /**
    The catch-up loop of refresh: while a whole period has elapsed since
    `prv`, move `prv` one period forward.
  */
  function CatchUp(now: Tick, prv: Tick, per: nat): Tick
    requires 0 < per
    decreases Diftim(now, prv)
  {
    if Diftim(now, prv) >= per then
      DiftimStep(now, prv, per);
      CatchUp(now, AddTicks(prv, per), per)
    else
      prv
  }

  /**
    The catch-up loop ends on the latest period boundary not after `now`:
    `prv` advanced by as many whole periods as have elapsed, leaving less
    than one period to go.
  */
  lemma {:induction false} CatchUpLands(now: Tick, prv: Tick, per: nat)
    requires 0 < per
    ensures CatchUp(now, prv, per) == AddTicks(prv, Diftim(now, prv) / per * per)
    ensures Diftim(now, CatchUp(now, prv, per)) == Diftim(now, prv) % per
    decreases Diftim(now, prv)
  {
    var d := Diftim(now, prv);
    if d >= per {
      var next := AddTicks(prv, per);
      DiftimStep(now, prv, per);
      assert Diftim(now, next) == d - per;
      CatchUpLands(now, next, per);
      DivStep(d, per);
      CatchUpStep(prv, per, d);
    } else {
      DivUnique(d, per, 0, d);
      assert AddTicks(prv, 0) == prv;
    }
  }

  /** One turn of the catch-up loop moves the final boundary nowhere. */
  lemma CatchUpStep(prv: Tick, per: nat, d: nat)
    requires 0 < per <= d
    ensures AddTicks(AddTicks(prv, per), (d - per) / per * per) == AddTicks(prv, d / per * per)
  {
    DivStep(d, per);
    var q := d / per;
    ShiftMultiple(q, per);
    var x := (q - 1) * per;
    assert (d - per) / per * per == x;
    AddTicksTwice(prv, per, x);
    assert per + x == q * per;
  }

  /** Removing one period from d lowers the quotient by one and keeps the remainder. */
  lemma DivStep(d: int, per: int)
    requires 0 < per <= d
    ensures d / per >= 1 && (d - per) / per == d / per - 1 && (d - per) % per == d % per
  {
    var q, m := d / per, d % per;
    assert d - per == (q - 1) * per + m;
    DivUnique(d - per, per, q - 1, m);
  }

  lemma ShiftMultiple(q: int, per: int)
    requires 1 <= q && 0 < per
    ensures 0 <= (q - 1) * per && per + (q - 1) * per == q * per
  {
    MulNonNegative(q - 1, per);
  }

  /**
    What refresh does to one entry, given one clock reading: when at least
    one period has elapsed, the reference moves forward by k >= 1 whole
    periods to the latest boundary not after `now`, and the entry is marked
    passed; otherwise the entry is left as it was. `passed` is never cleared.
  */
  function RefreshEntry(e: Period, now: Tick): (r: Period)
    requires e.period > 0
    ensures r.name == e.name && r.period == e.period
    ensures Diftim(now, e.previous) < e.period ==> r == e
    ensures Diftim(now, e.previous) >= e.period ==>
      var k := Diftim(now, e.previous) / e.period;
      && r.passed == 1
      && k >= 1
      && r.previous == AddTicks(e.previous, k * e.period)
      && Diftim(r.previous, e.previous) == k * e.period
      && Diftim(now, r.previous) < e.period
      && Diftim(now, r.previous) + Diftim(r.previous, e.previous) == Diftim(now, e.previous)
  {
    if Diftim(now, e.previous) >= e.period then
      var d := Diftim(now, e.previous);
      DivUnique(d, e.period, d / e.period, d % e.period);
      CatchUpLands(now, e.previous, e.period);
      DiftimAdvance(e.previous, d / e.period * e.period);
      e.(previous := CatchUp(now, e.previous, e.period), passed := 1)
    else
      e
  }

  /** What reset(status) does to one entry. */
  function Rebased(e: Period, now: Tick, status: Int32): (r: Period)
    ensures r.name == e.name && r.period == e.period
    ensures Diftim(now, r.previous) == 0 && r.passed == status
  {
    e.(previous := now, passed := status)
  }

  class Periodics {
    var rows: int
    var periods: seq<Period>

    /** `rows` counts the entries; it is 0 exactly when the array is NULL. */
    ghost predicate Valid()
      reads this
    {
      rows == |periods|
    }

    /** refresh may run only when no registered period is zero or negative. */
    ghost predicate Positive()
      reads this
    {
      forall j :: 0 <= j < |periods| ==> periods[j].period > 0
    }

    /** Periodics(): rows (0), periods (NULL). */
    constructor ()
      ensures Valid() && rows == 0 && periods == []
    {
      rows := 0;
      periods := [];
    }

    /** The private get(name): the position of the first entry named `name`. */
    method GetName(name: CString) returns (r: Option<nat>)
      requires Valid()
      ensures r == FindName(periods, name)
    {
      if periods == [] {
        return None;
      }
      var i := 0;
      while i < rows
        invariant 0 <= i <= rows
        invariant forall j :: 0 <= j < i ==> periods[j].name != name
      {
        if periods[i].name == name {
          return Some(i);
        }
        i := i + 1;
      }
      return None;
    }

    /** The private get(indx): indices run from 1 to rows. */
    function GetIndex(indx: int): (r: Option<nat>)
      reads this
      requires Valid()
      ensures r.Some? <==> 1 <= indx <= rows
      ensures r.Some? ==> r.value == indx - 1 && r.value < |periods|
    {
      if periods == [] then None
      else if indx < 1 || rows < indx then None
      else Some(indx - 1)
    }

    /**
      check(name): -1 when no entry has that name; otherwise the entry's
      `passed`, which is cleared.
    */
    method CheckName(name: CString) returns (r: int)
      requires Valid()
      modifies this
      ensures Valid() && rows == old(rows)
      ensures FindName(old(periods), name).None? ==> r == -1 && periods == old(periods)
      ensures FindName(old(periods), name).Some? ==>
        var i := FindName(old(periods), name).value;
        r == old(periods)[i].passed && periods == old(periods)[i := old(periods)[i].(passed := 0)]
    {
      var p := GetName(name);
      match p
      case None =>
        r := -1;
      case Some(i) =>
        r := periods[i].passed;
        periods := periods[i := periods[i].(passed := 0)];
    }

    /**
      check(indx): -1 unless 1 <= indx <= rows; otherwise `passed` of
      entry indx - 1, which is cleared.
    */
    method CheckIndex(indx: int) returns (r: int)
      requires Valid()
      modifies this
      ensures Valid() && rows == old(rows)
      ensures !(1 <= indx <= old(rows)) ==> r == -1 && periods == old(periods)
      ensures 1 <= indx <= old(rows) ==>
        r == old(periods)[indx - 1].passed
        && periods == old(periods)[indx - 1 := old(periods)[indx - 1].(passed := 0)]
    {
      var p := GetIndex(indx);
      match p
      case None =>
        r := -1;
      case Some(i) =>
        r := periods[i].passed;
        periods := periods[i := periods[i].(passed := 0)];
    }

    /**
      refresh(): one clock reading for all entries; each entry whose period
      has elapsed is caught up and marked passed. Returns rows.
    */
    method Refresh(now: Tick) returns (r: int)
      requires Valid() && Positive()
      modifies this
      ensures Valid() && Positive() && rows == old(rows) && r == rows
      ensures forall j :: 0 <= j < rows ==> periods[j] == RefreshEntry(old(periods)[j], now)
    {
      var tim := now;
      var i := 0;
      while i < rows
        invariant 0 <= i <= rows && Valid() && rows == old(rows)
        invariant forall j :: 0 <= j < i ==> periods[j] == RefreshEntry(old(periods)[j], tim)
        invariant forall j :: i <= j < rows ==> periods[j] == old(periods)[j]
      {
        var e := periods[i];
        assert e == old(periods)[i] && e.period > 0;
        var prv := e.previous;
        var per: int := e.period;
        var dif := Diftim(tim, prv);
        if dif >= per {
          ghost var target := CatchUp(tim, prv, per);
          while dif >= per
            invariant dif == Diftim(tim, prv)
            invariant CatchUp(tim, prv, per) == target
            modifies {}
            decreases dif
          {
            DiftimStep(tim, prv, per);
            prv := AddTicks(prv, per);
            dif := Diftim(tim, prv);
          }
          assert e.(previous := prv, passed := 1) == RefreshEntry(e, tim);
          periods := periods[i := e.(previous := prv, passed := 1)];
        } else {
          assert e == RefreshEntry(e, tim);
        }
        i := i + 1;
      }
      r := rows;
    }

    /** reset(): every reference becomes `now` and every `passed` 0. Returns rows. */
    method Reset(now: Tick) returns (r: int)
      requires Valid()
      modifies this
      ensures Valid() && rows == old(rows) && r == rows
      ensures forall j :: 0 <= j < rows ==> periods[j] == Rebased(old(periods)[j], now, 0)
    {
      r := ResetStatus(now, 0);
    }

    /** reset(status): every reference becomes `now` and every `passed` status. Returns rows. */
    method ResetStatus(now: Tick, status: Int32) returns (r: int)
      requires Valid()
      modifies this
      ensures Valid() && rows == old(rows) && r == rows
      ensures forall j :: 0 <= j < rows ==> periods[j] == Rebased(old(periods)[j], now, status)
    {
      var tim := now;
      var i := 0;
      while i < rows
        invariant 0 <= i <= rows && Valid() && rows == old(rows)
        invariant forall j :: 0 <= j < i ==> periods[j] == Rebased(old(periods)[j], tim, status)
        invariant forall j :: i <= j < rows ==> periods[j] == old(periods)[j]
      {
        periods := periods[i := periods[i].(passed := status, previous := tim)];
        i := i + 1;
      }
      r := rows;
    }

    /**
      set(name, period): a registered name gets the new period and the
      call returns its 0-based position; a new name is appended with
      reference `now` and passed 0, and the call returns the new rows.
      No check is made on the period.
    */
    method Set(name: CString, period: Int32, now: Tick) returns (r: int)
      requires Valid()
      modifies this
      ensures Valid()
      ensures FindName(old(periods), name).Some? ==>
        var i := FindName(old(periods), name).value;
        && r == i && rows == old(rows)
        && periods == old(periods)[i := old(periods)[i].(period := period)]
      ensures FindName(old(periods), name).None? ==>
        && r == old(rows) + 1 && rows == r
        && periods == old(periods) + [Period(Truncated(name), period, now, 0)]
    {
      var p := GetName(name);
      match p
      case Some(i) =>
        periods := periods[i := periods[i].(period := period)];
        return i;
      case None =>
        periods := periods + [Period(Truncated(name), period, now, 0)];
        rows := rows + 1;
        return rows;
    }

    /** unset(): release the array; rows becomes 0. Calling it again changes nothing. */
    method Unset()
      modifies this
      ensures Valid() && rows == 0 && periods == []
    {
      periods := [];
      rows := 0;
    }
  }

  /**
    A newly registered entry has passed 0, and a later lookup finds it
    exactly when the name fits the 15-character field: a longer name is
    stored truncated and never matches itself.
  */
  lemma {:induction false} NewEntryLookup(ps: seq<Period>, name: CString, period: Int32, now: Tick)
    requires FindName(ps, name).None?
    ensures var ps' := ps + [Period(Truncated(name), period, now, 0)];
      && ps'[|ps|].passed == 0
      && (|name| < PeriodNameLen ==> FindName(ps', name) == Some(|ps|))
      && (|name| >= PeriodNameLen ==> FindName(ps', name) == None)
  {
    var ps' := ps + [Period(Truncated(name), period, now, 0)];
    assert forall j :: 0 <= j < |ps| ==> ps'[j] == ps[j];
    if |name| >= PeriodNameLen {
      assert ps'[|ps|].name != name;
    }
  }

  /** Refreshing twice with the same clock reading fires once: the second refresh changes nothing. */
  lemma RefreshIdempotent(e: Period, now: Tick)
    requires e.period > 0
    ensures RefreshEntry(RefreshEntry(e, now), now) == RefreshEntry(e, now)
  {
  }

  /**
    Edge-triggered firing: after an elapsed period, refresh marks the entry,
    a check consumes the mark, and a refresh at the same reading does not
    mark it again.
  */
  lemma FiresOnce(e: Period, now: Tick)
    requires 0 < e.period <= Diftim(now, e.previous)
    ensures RefreshEntry(e, now).passed == 1
    ensures RefreshEntry(RefreshEntry(e, now).(passed := 0), now).passed == 0
  {
  }

  /** Right after reset(status), a refresh at the same reading leaves the entry as reset. */
  lemma ResetThenRefresh(e: Period, now: Tick, status: Int32)
    requires e.period > 0
    ensures RefreshEntry(Rebased(e, now, status), now) == Rebased(e, now, status)
  {
  }

  /** A tracker with no rows, fresh or after unset, resolves no name and no index. */
  lemma EmptyLookupsFail(p: Periodics, name: CString, indx: int)
    requires p.Valid() && p.rows == 0
    ensures FindName(p.periods, name).None? && p.GetIndex(indx).None?
  {
  }

  /**
    A clock wrap between registration and refresh: a 100-tick period set 50
    ticks before the wrap and refreshed 60 ticks after it has fired once.
  */
  method WrapAroundScenario() returns (first: int, second: int)
    ensures first == 1 && second == 0
  {
    var p := new Periodics();
    var n := p.Set("blink", 100, Modulus - 50);
    assert FindName(p.periods, "blink") == Some(0);
    var rows := p.Refresh(60);
    first := p.CheckName("blink");
    second := p.CheckName("blink");
  }
}
