/**
  Declarations of the interval scheduler (Periodics/include/Periodics.h):
  the 32-bit clock, the wrap-aware difference DIFTIM, the bounded name field
  and the record kept per named period.
*/
module PeriodicsTypes {

  /** The clock (millis() in an Arduino unsigned long) wraps at 2^32 ticks. */
  const Modulus: int := 0x1_0000_0000

  /** A clock reading or a reference time: a 32-bit unsigned long. */
  type Tick = t: int | 0 <= t < 0x1_0000_0000

  /** The C `int` of the period, passed and status values. */
  type Int32 = x: int | -0x8000_0000 <= x < 0x8000_0000

  /** Size of the name field, terminator included (PERIOD_NAM_LEN). */
  const PeriodNameLen: nat := 16

  /** A `const char *` argument: the characters before its terminator. */
  type CString = s: string | '\0' !in s

  /** A name as the fixed name field holds it: at most 15 characters. */
  type StoredName = s: CString | |s| < PeriodNameLen

  /** period_struct: one named period. */
  datatype Period = Period(name: StoredName, period: Int32, previous: Tick, passed: Int32)

  /** 32-bit unsigned addition: `a + n` with the carry out of bit 31 dropped. */
  function AddTicks(a: Tick, n: nat): (r: Tick)
    ensures (r - a - n) % Modulus == 0
  {
    (a + n) % Modulus
  }

  /**
    DIFTIM(a, b): the ticks from reference b forward to reading a,
    modulo 2^32, so a reading taken after the clock wrapped still yields
    the small elapsed value.
  */
  function Diftim(a: Tick, b: Tick): (d: Tick)
    ensures AddTicks(b, d) == a
  {
    (Modulus + a - b) % Modulus
  }

  /** strncpy(field, name, 15) followed by field[15] = '\0'. */
  function Truncated(name: CString): (s: StoredName)
    ensures s <= name
    ensures |s| == if |name| < PeriodNameLen then |name| else PeriodNameLen - 1
  {
    if |name| < PeriodNameLen then name else name[..PeriodNameLen - 1]
  }

  lemma DiftimSelf(a: Tick)
    ensures Diftim(a, a) == 0
  {
  }

  /** Advancing b by d < 2^32 ticks (wrapping) and measuring back gives d. */
  lemma DiftimAdvance(b: Tick, d: nat)
    requires d < Modulus
    ensures Diftim(AddTicks(b, d), b) == d
  {
  }

  /** Reference 2^32 - 1 and reading 2: three ticks elapsed, not an underflow. */
  lemma DiftimAcrossWrap()
    ensures Diftim(2, Modulus - 1) == 3
  {
  }

  /** Moving the reference one period forward lowers the elapsed time by exactly that period. */
  lemma DiftimStep(now: Tick, prv: Tick, per: nat)
    requires 0 < per <= Diftim(now, prv)
    ensures Diftim(now, AddTicks(prv, per)) == Diftim(now, prv) - per
  {
  }

  /** Two wrapping additions are one. */
  lemma AddTicksTwice(a: Tick, m: nat, n: nat)
    ensures AddTicks(AddTicks(a, m), n) == AddTicks(a, m + n)
  {
  }
}
