/** Facts about integer multiplication, division and remainder that the clock and slot proofs share. */
module Arithmetic {

  /** Quotient and remainder are determined by d == q * c + m with 0 <= m < c. */
  lemma DivUnique(d: int, c: int, q: int, m: int)
    requires 0 < c && 0 <= m < c && d == q * c + m
    ensures d / c == q && d % c == m
  {
    var q', m' := d / c, d % c;
    assert q' * c + m' == q * c + m;
    if q' > q {
      MulAtLeast(q' - q, c);
    } else if q' < q {
      MulAtLeast(q - q', c);
    }
  }

  lemma {:induction false} MulAtLeast(x: int, c: int)
    requires 1 <= x && 0 < c
    ensures x * c >= c
  {
    if x > 1 {
      MulAtLeast(x - 1, c);
      assert x * c == (x - 1) * c + c;
    }
  }

  lemma MulNonNegative(x: int, y: int)
    requires 0 <= x && 0 <= y
    ensures 0 <= x * y
  {
  }

  /** Adding one more c keeps the remainder. */
  lemma ModShift(x: int, c: int)
    requires 0 <= x && 0 < c
    ensures (x + c) % c == x % c
  {
    DivUnique(x + c, c, x / c + 1, x % c);
  }

  /** The successor's remainder is the remainder's successor, or 0 at c - 1. */
  lemma ModSucc(x: int, c: int)
    requires 0 <= x && 0 < c
    ensures (x + 1) % c == if x % c == c - 1 then 0 else x % c + 1
  {
    var q, m := x / c, x % c;
    if m == c - 1 {
      DivUnique(x + 1, c, q + 1, 0);
    } else {
      DivUnique(x + 1, c, q, m + 1);
    }
  }

  /** Two numbers less than c apart have different remainders. */
  lemma ModDistinct(a: int, b: int, c: int)
    requires 0 <= a < b < a + c
    ensures a % c != b % c
  {
    var qa, qb := a / c, b / c;
    if a % c == b % c {
      assert b - a == (qb - qa) * c;
      if qb - qa >= 1 {
        MulAtLeast(qb - qa, c);
      } else {
        MulNonNegative(qa - qb, c);
      }
    }
  }
}
