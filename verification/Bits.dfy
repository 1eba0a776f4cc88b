/**
 The C bit operators on unsigned integers of any width, defined bit by bit on natural numbers, with
 the facts that connect them to arithmetic. No width is fixed here.
 */
module Bits {

  function Pow2(n: nat): (p: nat)
    ensures p >= 1
  {
    if n == 0 then 1 else 2 * Pow2(n - 1)
  }

  /** x | y */
  function Or(x: nat, y: nat): nat {
    if x == 0 && y == 0 then 0
    else 2 * Or(x / 2, y / 2) + if x % 2 == 1 || y % 2 == 1 then 1 else 0
  }

  /** x & y */
  function And(x: nat, y: nat): nat {
    if x == 0 || y == 0 then 0
    else 2 * And(x / 2, y / 2) + if x % 2 == 1 && y % 2 == 1 then 1 else 0
  }

  /** x << n, before any conversion */
  function Shl(x: nat, n: nat): nat {
    x * Pow2(n)
  }

  /** x >> n on two's complement: rounds towards minus infinity */
  function Shr(x: int, n: nat): int {
    x / Pow2(n)
  }

  /** Conversion to an unsigned type of `w` bits. */
  function Trunc(x: int, w: nat): nat {
    x % Pow2(w)
  }

  /** ~x on `w` bits */
  function Not(x: nat, w: nat): nat
    requires x < Pow2(w)
  {
    Pow2(w) - 1 - x
  }

  /** Conversion of a `w`-bit unsigned value to the signed type of that width. */
  function ToSigned(x: nat, w: nat): int
    requires w >= 1
  {
    if x < Pow2(w - 1) then x else x - Pow2(w)
  }

  lemma {:induction false} Pow2Sum(a: nat, b: nat)
    ensures Pow2(a + b) == Pow2(a) * Pow2(b)
  {
    if a == 0 {
    } else {
      Pow2Sum(a - 1, b);
      assert Pow2(a + b) == 2 * (Pow2(a - 1) * Pow2(b));
    }
  }

  lemma Pow2Values()
    ensures Pow2(7) == 128 && Pow2(8) == 256 && Pow2(15) == 0x8000 && Pow2(16) == 0x1_0000
    ensures Pow2(23) == 0x80_0000 && Pow2(24) == 0x100_0000
    ensures Pow2(31) == 0x8000_0000 && Pow2(32) == 0x1_0000_0000 && Pow2(40) == 0x100_0000_0000
    ensures Pow2(48) == 0x1_0000_0000_0000 && Pow2(56) == 0x100_0000_0000_0000
    ensures Pow2(63) == 0x8000_0000_0000_0000 && Pow2(64) == 0x1_0000_0000_0000_0000
  {
  }

  lemma {:induction false} OrCommutes(x: nat, y: nat)
    ensures Or(x, y) == Or(y, x)
  {
    if x == 0 && y == 0 {
    } else {
      OrCommutes(x / 2, y / 2);
    }
  }

  lemma {:induction false} OrZero(x: nat)
    ensures Or(0, x) == x
  {
    if x == 0 {
    } else {
      OrZero(x / 2);
    }
  }

  lemma OrEven(x: nat, h: nat)
    ensures Or(x, 2 * h) == 2 * Or(x / 2, h) + x % 2
  {
    assert (2 * h) / 2 == h && (2 * h) % 2 == 0;
  }

  lemma ShiftedDouble(y: nat, n: nat)
    requires n >= 1
    ensures y * Pow2(n) == 2 * (y * Pow2(n - 1))
  {
    var p := Pow2(n - 1);
    assert y * (2 * p) == 2 * (y * p);
  }

  lemma {:induction false} OrAboveLow(x: nat, y: nat, n: nat)
    requires x < Pow2(n)
    ensures Or(x, y * Pow2(n)) == x + y * Pow2(n)
    decreases n
  {
    if n == 0 {
      OrZero(y);
    } else {
      OrAboveLow(x / 2, y, n - 1);
      ShiftedDouble(y, n);
      OrEven(x, y * Pow2(n - 1));
    }
  }

  /** Values that occupy disjoint bits are combined by |, whatever the split point. */
  lemma OrDisjoint(x: nat, y: nat, n: nat)
    requires x < Pow2(n)
    ensures Or(x, y * Pow2(n)) == Or(y * Pow2(n), x) == x + y * Pow2(n)
  {
    OrAboveLow(x, y, n);
    OrCommutes(x, y * Pow2(n));
  }

  /** The mask 2^w - 2^n clears the `n` low bits of a `w`-bit value. */
  lemma {:induction false} AndHighMask(a: nat, n: nat, w: nat)
    requires n <= w && a < Pow2(w)
    ensures Pow2(n) <= Pow2(w) && And(a, Pow2(w) - Pow2(n)) == a - a % Pow2(n)
    decreases w
  {
    if w == 0 {
    } else {
      if n == 0 {
        AndOnes(a, w);
      } else {
        AndHighMask(a / 2, n - 1, w - 1);
        var mask := Pow2(w - 1) - Pow2(n - 1);
        assert (2 * mask) / 2 == mask && (2 * mask) % 2 == 0;
        HalfRemainder(a, Pow2(n - 1));
      }
    }
  }

  /** An all-ones mask keeps a value. */
  lemma {:induction false} AndOnes(a: nat, w: nat)
    requires a < Pow2(w)
    ensures And(a, Pow2(w) - 1) == a
    decreases w
  {
    if w == 0 {
    } else {
      AndOnes(a / 2, w - 1);
      var ones := Pow2(w - 1) - 1;
      assert (2 * ones + 1) / 2 == ones;
    }
  }

  lemma HalfRemainder(a: nat, p: nat)
    requires p >= 1
    ensures a % (2 * p) == 2 * ((a / 2) % p) + a % 2
  {
    var h := a / 2;
    assert h == p * (h / p) + h % p;
    var r := 2 * (h % p) + a % 2;
    assert a == 2 * (p * (h / p)) + r;
    assert 2 * (p * (h / p)) == (h / p) * (2 * p);
    RemainderIsUnique(a, h / p, r, 2 * p);
  }

  lemma RemainderIsUnique(a: int, q: int, r: int, m: nat)
    requires 0 <= r < m && a == q * m + r
    ensures a % m == r && a / m == q
  {
    QuotientsEqual(a / m, a % m, q, r, m);
  }

  lemma QuotientsEqual(q: int, r: int, q': int, r': int, m: nat)
    requires 0 <= r < m && 0 <= r' < m && q * m + r == q' * m + r'
    ensures q == q' && r == r'
  {
    MultiplesAreApart(q, q', m);
    MultiplesAreApart(q', q, m);
  }

  lemma MultiplesAreApart(q: int, q': int, m: nat)
    ensures q < q' ==> q * m + m <= q' * m
  {
    if q < q' {
      assert (q + 1) * m <= q' * m;
    }
  }

  /** The low `n` bits, by mask. */
  lemma {:induction false} AndLowMask(a: nat, n: nat)
    ensures And(a, Pow2(n) - 1) == a % Pow2(n)
    decreases n
  {
    if n == 0 {
    } else {
      AndLowMask(a / 2, n - 1);
      var ones := Pow2(n - 1) - 1;
      assert (2 * ones + 1) / 2 == ones;
      HalfRemainder(a, Pow2(n - 1));
    }
  }
}
