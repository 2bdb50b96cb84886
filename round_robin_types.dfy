/**
  Declarations of the circular buffer (roundRobin/include/roundRobin.h):
  the record it stores and the slot increment.
*/
module RoundRobinTypes {

  /** dataRecord: one logged measurement; the buffer never looks inside it. */
  datatype DataRecord = DataRecord(time: nat, dateStamp: string, pressure: int, temperature: int, humidity: int)

  /**
    incr(ptr): the slot after ptr, wrapping from the last slot back to 0.
    The cursors never fall below -1, so C's `%` agrees with Dafny's here.
  */
  function Incr(count: int, ptr: int): (r: int)
    requires 2 <= count && -1 <= ptr < count
    ensures 0 <= r < count
    ensures r == if ptr == count - 1 then 0 else ptr + 1
  {
    (ptr + 1) % count
  }

  /** The first add on a fresh buffer writes slot 0. */
  lemma IncrFresh(count: int)
    requires 2 <= count
    ensures Incr(count, -1) == 0
  {
  }

  /** From the last slot the increment wraps back to the first. */
  lemma IncrWraps(count: int)
    requires 2 <= count
    ensures Incr(count, count - 1) == 0
  {
  }
}
