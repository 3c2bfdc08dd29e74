/**
  * Base-1000 positional arithmetic: the powers of 1000 and the base-1000
  * digits of a natural number, which the word conversion walks through from
  * the least significant end.
  */
module Base1000 {

  function Pow1000(k: nat): (p: nat)
    ensures p >= 1
  {
    if k == 0 then 1 else 1000 * Pow1000(k - 1)
  }

  /** The base-1000 digit of `n` at position `j`, got as the conversion gets it:
      divide by 1000 `j` times, then take the remainder. */
  function Digit(n: nat, j: nat): (d: nat)
    ensures d < 1000
  {
    if j == 0 then n % 1000 else Digit(n / 1000, j - 1)
  }

  /** Quotient and remainder are the only pair that rebuilds `n`. */
  lemma DivModUnique(n: int, d: int, q: int, r: int)
    requires d > 0 && 0 <= r < d && n == q * d + r
    ensures n / d == q && n % d == r
  {
    var q0, r0 := n / d, n % d;
    assert n == q0 * d + r0;
    assert (q - q0) * d == r0 - r;
    assert (q0 - q) * d == r - r0;
    if q > q0 {
      MulAtLeast(q - q0, d);
    } else if q < q0 {
      MulAtLeast(q0 - q, d);
    }
  }

  lemma {:induction false} MulAtLeast(x: int, d: int)
    requires x >= 1 && d > 0
    ensures x * d >= d
  {
    if x > 1 {
      MulAtLeast(x - 1, d);
      assert x * d == (x - 1) * d + d;
    }
  }

  /** Splitting off the lowest base-1000 digit: `n` modulo `1000 * b` is that
      digit plus 1000 times the next `b`-part, and the quotients agree. */
  lemma ModSplit(n: nat, b: nat)
    requires b > 0
    ensures n % (1000 * b) == 1000 * ((n / 1000) % b) + n % 1000
    ensures n / (1000 * b) == (n / 1000) / b
  {
    var a, r0 := n / 1000, n % 1000;
    var q, r1 := a / b, a % b;
    assert n == q * (1000 * b) + (1000 * r1 + r0) by {
      assert n == 1000 * a + r0;
      assert a == q * b + r1;
    }
    assert 1000 * r1 + r0 < 1000 * b by {
      assert r1 <= b - 1;
    }
    DivModUnique(n, 1000 * b, q, 1000 * r1 + r0);
  }

  /** The repeated-division digit is the usual positional one. */
  lemma {:induction false} DigitIsPositional(n: nat, j: nat)
    ensures Digit(n, j) == (n / Pow1000(j)) % 1000
  {
    if j > 0 {
      DigitIsPositional(n / 1000, j - 1);
      ModSplit(n, Pow1000(j - 1));
    }
  }

  /** `x * 1000^k`, written as `k` multiplications by 1000 so that reasoning
      about it stays linear. */
  function Shift(x: nat, k: nat): nat
  {
    if k == 0 then x else 1000 * Shift(x, k - 1)
  }

  lemma {:induction false} ShiftIsProduct(x: nat, k: nat)
    ensures Shift(x, k) == x * Pow1000(k)
  {
    if k > 0 {
      ShiftIsProduct(x, k - 1);
      assert 1000 * (x * Pow1000(k - 1)) == x * (1000 * Pow1000(k - 1));
    }
  }

  lemma {:induction false} ShiftZero(k: nat)
    ensures Shift(0, k) == 0
  {
    if k > 0 {
      ShiftZero(k - 1);
    }
  }

  lemma {:induction false} ShiftAdd(x: nat, y: nat, k: nat)
    ensures Shift(x + y, k) == Shift(x, k) + Shift(y, k)
  {
    if k > 0 {
      ShiftAdd(x, y, k - 1);
    }
  }

  lemma {:induction false} ShiftThousand(x: nat, k: nat)
    ensures Shift(1000 * x, k) == Shift(x, k + 1)
  {
    if k > 0 {
      ShiftThousand(x, k - 1);
    }
  }

  /** Shifting `x` is shifting its lowest base-1000 digit plus shifting the
      rest one position further. */
  lemma ShiftLowDigit(x: nat, k: nat)
    ensures Shift(x, k) == Shift(x % 1000, k) + Shift(x / 1000, k + 1)
  {
    assert x == x % 1000 + 1000 * (x / 1000);
    ShiftAdd(x % 1000, 1000 * (x / 1000), k);
    ShiftThousand(x / 1000, k);
  }
}
