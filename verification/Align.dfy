/** MY_ALIGN and MY_ALIGN_DOWN, from their mask form, for every word width and every power of two. */
module Align {
  import opened Bits

  /** ((A) + (L) - 1) & ~((L) - 1) on `w`-bit words, L = 2^k */
  function MyAlign(a: nat, k: nat, w: nat): nat
    requires Pow2(k) <= Pow2(w)
  {
    And(Trunc(a + Pow2(k) - 1, w), Not(Pow2(k) - 1, w))
  }

  /** (A) & ~((L) - 1) on `w`-bit words, L = 2^k */
  function MyAlignDown(a: nat, k: nat, w: nat): nat
    requires Pow2(k) <= Pow2(w)
  {
    And(a, Not(Pow2(k) - 1, w))
  }

  ghost predicate MultipleOf(x: int, l: nat)
    requires l >= 1
  {
    x % l == 0
  }

  lemma MaskRounds(x: nat, k: nat, w: nat)
    requires k <= w && x < Pow2(w)
    ensures Pow2(k) <= Pow2(w) && And(x, Not(Pow2(k) - 1, w)) == x - x % Pow2(k)
  {
    AndHighMask(x, k, w);
  }

  /** The distance between two distinct multiples is at least one step. */
  lemma NextMultipleIsFar(x: int, y: int, l: nat)
    requires l >= 1 && MultipleOf(x, l) && MultipleOf(y, l) && x < y
    ensures x + l <= y
  {
    var p, q := x / l, y / l;
    assert x == p * l && y == q * l;
    MultiplesAreApart(p, q, l);
    if q <= p {
      MultiplesAreApart(q, p, l);
    }
  }

  lemma RoundedIsMultiple(x: nat, l: nat)
    requires l >= 1
    ensures MultipleOf(x - x % l, l)
  {
    var q := x / l;
    assert x - x % l == q * l;
    RemainderIsUnique(q * l, q, 0, l);
  }

  lemma RoundDownIsGreatest(x: nat, l: nat, m: int)
    requires l >= 1
    ensures MultipleOf(x - x % l, l) && x - x % l <= x
    ensures MultipleOf(m, l) && m <= x ==> m <= x - x % l
  {
    RoundedIsMultiple(x, l);
    var r := x - x % l;
    if MultipleOf(m, l) && r < m {
      NextMultipleIsFar(r, m, l);
    }
  }

  lemma RoundUpIsLeast(a: nat, l: nat, m: int)
    requires l >= 1
    ensures var x := a + l - 1;
            && MultipleOf(x - x % l, l) && a <= x - x % l
            && (MultipleOf(m, l) && a <= m ==> x - x % l <= m)
  {
    var x := a + l - 1;
    RoundedIsMultiple(x, l);
    var r := x - x % l;
    if MultipleOf(m, l) && m < r {
      NextMultipleIsFar(m, r, l);
    }
  }

  /** MY_ALIGN_DOWN is the greatest multiple of L not above A. */
  lemma AlignDownIsGreatest(a: nat, k: nat, w: nat, m: int)
    requires k <= w && a < Pow2(w)
    ensures Pow2(k) <= Pow2(w)
    ensures var r := MyAlignDown(a, k, w);
            && MultipleOf(r, Pow2(k)) && r <= a
            && (MultipleOf(m, Pow2(k)) && m <= a ==> m <= r)
  {
    MaskRounds(a, k, w);
    RoundDownIsGreatest(a, Pow2(k), m);
  }

  /** The value of MY_ALIGN when nothing overflows. */
  lemma AlignValue(a: nat, k: nat, w: nat)
    requires k <= w && a + Pow2(k) - 1 < Pow2(w)
    ensures Pow2(k) <= Pow2(w)
    ensures MyAlign(a, k, w) == (a + Pow2(k) - 1) - (a + Pow2(k) - 1) % Pow2(k)
  {
    var x := a + Pow2(k) - 1;
    RemainderIsUnique(x, 0, x, Pow2(w));
    MaskRounds(x, k, w);
  }

  /** Without overflow, MY_ALIGN is the least multiple of L not below A. */
  lemma AlignIsLeast(a: nat, k: nat, w: nat, m: int)
    requires k <= w && a + Pow2(k) - 1 < Pow2(w)
    ensures Pow2(k) <= Pow2(w)
    ensures var r := MyAlign(a, k, w);
            && MultipleOf(r, Pow2(k)) && a <= r
            && (MultipleOf(m, Pow2(k)) && a <= m ==> r <= m)
  {
    AlignValue(a, k, w);
    RoundUpIsLeast(a, Pow2(k), m);
  }

  lemma StepIsMultiple(x: int, l: nat)
    requires l >= 1 && MultipleOf(x, l)
    ensures MultipleOf(x + l, l)
  {
    assert x == (x / l) * l && x + l == (x / l + 1) * l + 0;
    RemainderIsUnique(x + l, x / l + 1, 0, l);
  }

  lemma WordIsMultiple(k: nat, w: nat)
    requires k <= w
    ensures Pow2(k) <= Pow2(w) && MultipleOf(Pow2(w), Pow2(k))
  {
    Pow2Sum(w - k, k);
    RemainderIsUnique(Pow2(w), Pow2(w - k), 0, Pow2(k));
    MultiplesAreApart(0, Pow2(w - k), Pow2(k));
  }

  // ------------------------------------------------------------- MY_ALIGN_DOWN

  /** MY_ALIGN_DOWN leaves exactly the multiples alone. */
  lemma AlignDownFixesMultiples(a: nat, k: nat, w: nat)
    requires k <= w && a < Pow2(w)
    ensures Pow2(k) <= Pow2(w)
    ensures MultipleOf(a, Pow2(k)) <==> MyAlignDown(a, k, w) == a
  {
    AlignDownIsGreatest(a, k, w, a);
  }

  lemma AlignDownIdempotent(a: nat, k: nat, w: nat)
    requires k <= w && a < Pow2(w)
    ensures Pow2(k) <= Pow2(w)
    ensures MyAlignDown(MyAlignDown(a, k, w), k, w) == MyAlignDown(a, k, w)
  {
    AlignDownIsGreatest(a, k, w, a);
    AlignDownFixesMultiples(MyAlignDown(a, k, w), k, w);
  }

  lemma AlignDownMonotone(a: nat, b: nat, k: nat, w: nat)
    requires k <= w && a <= b < Pow2(w)
    ensures Pow2(k) <= Pow2(w)
    ensures MyAlignDown(a, k, w) <= MyAlignDown(b, k, w)
  {
    AlignDownIsGreatest(a, k, w, a);
    AlignDownIsGreatest(b, k, w, MyAlignDown(a, k, w));
  }

  // ------------------------------------------------------------------ MY_ALIGN

  /** A + L - 1 fits the word. */
  predicate Fits(a: nat, k: nat, w: nat) {
    a + Pow2(k) - 1 < Pow2(w)
  }

  /** MY_ALIGN rounds up exactly when A + L - 1 fits the word; otherwise it wraps to zero. */
  lemma AlignOverflow(a: nat, k: nat, w: nat)
    requires k <= w && a < Pow2(w)
    ensures Pow2(k) <= Pow2(w)
    ensures a <= MyAlign(a, k, w) <==> Fits(a, k, w)
    ensures !Fits(a, k, w) ==> MyAlign(a, k, w) == 0
  {
    WordIsMultiple(k, w);
    var l, x := Pow2(k), a + Pow2(k) - 1;
    if Fits(a, k, w) {
      AlignIsLeast(a, k, w, a);
    } else {
      var y := x - Pow2(w);
      RemainderIsUnique(x, 1, y, Pow2(w));
      MaskRounds(y, k, w);
      RemainderIsUnique(y, 0, y, l);
    }
  }

  /** Multiples of L always fit, and so does the result. */
  lemma MultiplesFit(a: nat, k: nat, w: nat)
    requires k <= w && a < Pow2(w) && MultipleOf(a, Pow2(k))
    ensures Fits(a, k, w)
  {
    WordIsMultiple(k, w);
    NextMultipleIsFar(a, Pow2(w), Pow2(k));
  }

  /** MY_ALIGN leaves exactly the multiples alone, on every word. */
  lemma AlignFixesMultiples(a: nat, k: nat, w: nat)
    requires k <= w && a < Pow2(w)
    ensures Pow2(k) <= Pow2(w)
    ensures MultipleOf(a, Pow2(k)) <==> MyAlign(a, k, w) == a
  {
    AlignOverflow(a, k, w);
    if Fits(a, k, w) {
      AlignIsLeast(a, k, w, a);
    } else if MultipleOf(a, Pow2(k)) {
      MultiplesFit(a, k, w);
      assert false;
    }
  }

  lemma AlignedIsMultiple(a: nat, k: nat, w: nat)
    requires k <= w && a < Pow2(w)
    ensures Pow2(k) <= Pow2(w)
    ensures MultipleOf(MyAlign(a, k, w), Pow2(k)) && MyAlign(a, k, w) < Pow2(w)
  {
    AlignOverflow(a, k, w);
    if Fits(a, k, w) {
      AlignIsLeast(a, k, w, a);
      AlignStaysInWord(a, k, w);
    } else {
      RemainderIsUnique(0, 0, 0, Pow2(k));
    }
  }

  lemma AlignStaysInWord(a: nat, k: nat, w: nat)
    requires k <= w && Fits(a, k, w)
    ensures Pow2(k) <= Pow2(w) && MyAlign(a, k, w) < Pow2(w)
  {
    AlignValue(a, k, w);
  }

  /** MY_ALIGN is idempotent on every word, also where it wraps. */
  lemma AlignIdempotent(a: nat, k: nat, w: nat)
    requires k <= w && a < Pow2(w)
    ensures Pow2(k) <= Pow2(w) && MyAlign(a, k, w) < Pow2(w)
    ensures MyAlign(MyAlign(a, k, w), k, w) == MyAlign(a, k, w)
  {
    AlignedIsMultiple(a, k, w);
    AlignFixesMultiples(MyAlign(a, k, w), k, w);
  }

  /** MY_ALIGN keeps the order of two words exactly when the larger one does not wrap, or the smaller aligns to zero. */
  lemma AlignMonotoneIff(a: nat, b: nat, k: nat, w: nat)
    requires k <= w && a <= b < Pow2(w)
    ensures Pow2(k) <= Pow2(w)
    ensures MyAlign(a, k, w) <= MyAlign(b, k, w) <==> Fits(b, k, w) || a == 0 || !Fits(a, k, w)
  {
    AlignOverflow(a, k, w);
    AlignOverflow(b, k, w);
    if Fits(b, k, w) {
      AlignIsLeast(b, k, w, b);
      AlignIsLeast(a, k, w, MyAlign(b, k, w));
    } else if a == 0 {
      AlignFixesMultiples(0, k, w);
    }
  }

  /** A word that is not a multiple lies strictly between the two, which are one step apart. */
  lemma AlignBrackets(a: nat, k: nat, w: nat)
    requires k <= w && Fits(a, k, w) && !MultipleOf(a, Pow2(k))
    ensures Pow2(k) <= Pow2(w)
    ensures MyAlignDown(a, k, w) < a < MyAlign(a, k, w) == MyAlignDown(a, k, w) + Pow2(k)
  {
    AlignIsLeast(a, k, w, a);
    AlignDownIsGreatest(a, k, w, a);
    var lo, l := MyAlignDown(a, k, w), Pow2(k);
    NextMultipleIsFar(lo, MyAlign(a, k, w), l);
    MaskRounds(a, k, w);
    StepIsMultiple(lo, l);
    AlignIsLeast(a, k, w, lo + l);
  }
}
