/** The alignment and bit-count macros of my_global.h, for unsigned words of any
    width w. Both operands of a macro have the same width. */
module Masks {
  import opened Bits

  /** MY_ALIGN(A, L) */
  function MyAlign(w: nat, a: nat, l: nat): (r: nat)
    requires 0 < l <= Pow2(w) && a < Pow2(w)
  {
    And(Cast(w, a + l - 1), Not(w, l - 1))
  }

  /** MY_ALIGN_DOWN(A, L) */
  function MyAlignDown(w: nat, a: nat, l: nat): (r: nat)
    requires 0 < l <= Pow2(w) && a < Pow2(w)
  {
    And(a, Not(w, l - 1))
  }

  /** set_bits(type, bit_count), for a type of w bits */
  function SetBits(w: nat, count: nat): (r: nat)
    requires 0 < w
  {
    if w <= count then Not(w, 0) else Cast(w, Shl(w, 1, count) - 1)
  }

  /** PREV_BITS(type, A): C defines the shift only below the width. */
  function PrevBits(w: nat, count: nat): (r: nat)
    requires count < w
  {
    Cast(w, Shl(w, 1, count) - 1)
  }

  /** test_all_bits(a, b) */
  predicate TestAllBits(a: nat, b: nat) {
    And(a, b) == b
  }

  ghost predicate IsMultiple(l: nat, m: nat) {
    exists q: nat :: m == q * l
  }

  ghost predicate IsLeastMultipleFrom(l: nat, a: nat, r: nat) {
    IsMultiple(l, r) && a <= r && forall m: nat :: IsMultiple(l, m) && a <= m ==> r <= m
  }

  ghost predicate IsGreatestMultipleTo(l: nat, a: nat, r: nat) {
    IsMultiple(l, r) && r <= a && forall m: nat :: IsMultiple(l, m) && m <= a ==> m <= r
  }

  /** Aligning down always finds the greatest multiple at or below the address. */
  lemma AlignDownMeaning(w: nat, k: nat, a: nat)
    requires k <= w && a < Pow2(w)
    ensures Pow2(k) <= Pow2(w)
    ensures IsGreatestMultipleTo(Pow2(k), a, MyAlignDown(w, a, Pow2(k)))
  {
    Pow2Monotone(k, w);
    var l := Pow2(k);
    AndHighMask(w, k, a);
    var q, r := DivMod(a, l);
    assert MyAlignDown(w, a, l) == q * l;
    forall m: nat | IsMultiple(l, m) && m <= a ensures m <= q * l {
      var p: nat :| m == p * l;
      MultipleOrder(l, p, q, r);
    }
  }

  lemma MultipleOrder(l: nat, p: nat, q: nat, r: nat)
    requires p * l <= q * l + r && r < l
    ensures p <= q && p * l <= q * l
  {
    if q < p {
      MulLess(q, p, l);
    } else if p < q {
      MulLess(p, q, l);
    }
  }

  /** Aligning up finds the least multiple at or above the address exactly when
      the addition does not leave the word. */
  lemma AlignUpMeaning(w: nat, k: nat, a: nat)
    requires k <= w && a < Pow2(w)
    ensures Pow2(k) <= Pow2(w)
    ensures IsLeastMultipleFrom(Pow2(k), a, MyAlign(w, a, Pow2(k))) <==> a + Pow2(k) - 1 < Pow2(w)
  {
    Pow2Monotone(k, w);
    var l, top := Pow2(k), Pow2(w);
    if a + l - 1 < top {
      SmallMod(a + l - 1, top);
      AlignDownMeaning(w, k, a + l - 1);
      var r := MyAlign(w, a, l);
      assert IsGreatestMultipleTo(l, a + l - 1, r);
      AlignUpFits(l, a, r);
    } else {
      AlignUpWraps(w, k, a);
    }
  }

  /** When the sum wraps, what is left is below L and the mask clears it. */
  lemma AlignUpWraps(w: nat, k: nat, a: nat)
    requires k <= w && a < Pow2(w) <= a + Pow2(k) - 1
    ensures Pow2(k) <= Pow2(w) && MyAlign(w, a, Pow2(k)) == 0 < a
  {
    Pow2Monotone(k, w);
    var rest := a + Pow2(k) - 1 - Pow2(w);
    ModUnique(a + Pow2(k) - 1, Pow2(w), 1, rest);
    AndHighMask(w, k, rest);
    SmallMod(rest, Pow2(k));
  }

  lemma AlignUpFits(l: nat, a: nat, r: nat)
    requires 0 < l && IsGreatestMultipleTo(l, a + l - 1, r)
    ensures IsLeastMultipleFrom(l, a, r)
  {
    if r < a {
      NextMultiple(l, r);
    }
    forall m: nat | IsMultiple(l, m) && a <= m ensures r <= m {
      if m < r { MultiplesApart(l, m, r); }
    }
  }

  lemma NextMultiple(l: nat, m: nat)
    requires IsMultiple(l, m)
    ensures IsMultiple(l, m + l)
  {
    var q: nat :| m == q * l;
    assert m + l == (q + 1) * l;
  }

  /** Different multiples of l are at least l apart. */
  lemma MultiplesApart(l: nat, m: nat, n: nat)
    requires IsMultiple(l, m) && IsMultiple(l, n) && m < n
    ensures m + l <= n
  {
    var p: nat, q: nat :| m == p * l && n == q * l;
    if p < q {
      MulLess(p, q, l);
    } else if q < p {
      MulLess(q, p, l);
    }
  }

  /** MY_ALIGN_DOWN is monotone on all addresses, and fixes exactly the multiples
      of L, among them its own results. */
  lemma AlignDownOrder(w: nat, k: nat, a: nat, b: nat)
    requires k <= w && a <= b < Pow2(w)
    ensures Pow2(k) <= Pow2(w)
    ensures MyAlignDown(w, a, Pow2(k)) <= MyAlignDown(w, b, Pow2(k)) < Pow2(w)
    ensures MyAlignDown(w, a, Pow2(k)) == a <==> IsMultiple(Pow2(k), a)
    ensures MyAlignDown(w, MyAlignDown(w, b, Pow2(k)), Pow2(k)) == MyAlignDown(w, b, Pow2(k))
  {
    AlignDownMeaning(w, k, a);
    AlignDownMeaning(w, k, b);
    AlignDownMeaning(w, k, MyAlignDown(w, b, Pow2(k)));
  }

  /** Without overflow, MY_ALIGN is monotone, never below MY_ALIGN_DOWN, and
      meets it exactly on the multiples of L. */
  lemma AlignOrder(w: nat, k: nat, a: nat, b: nat)
    requires k <= w && a <= b && b + Pow2(k) - 1 < Pow2(w)
    ensures Pow2(k) <= Pow2(w) && a < Pow2(w)
    ensures MyAlignDown(w, a, Pow2(k)) <= MyAlign(w, a, Pow2(k)) <= MyAlign(w, b, Pow2(k))
    ensures MyAlign(w, a, Pow2(k)) == MyAlignDown(w, a, Pow2(k)) <==> IsMultiple(Pow2(k), a)
  {
    Pow2Monotone(k, w);
    var l := Pow2(k);
    AlignUpMeaning(w, k, a);
    AlignUpMeaning(w, k, b);
    AlignDownMeaning(w, k, a);
    AlignDownMeaning(w, k, b);
    RoundsAgree(l, a, b, MyAlign(w, a, l), MyAlignDown(w, a, l), MyAlign(w, b, l), MyAlignDown(w, b, l));
  }

  /** Aligning an aligned address up changes nothing, because the block above the
      result still fits in the word. */
  lemma AlignIdempotent(w: nat, k: nat, a: nat)
    requires k <= w && a + Pow2(k) - 1 < Pow2(w)
    ensures Pow2(k) <= Pow2(w) && a < Pow2(w)
    ensures MyAlign(w, a, Pow2(k)) < Pow2(w)
    ensures MyAlign(w, MyAlign(w, a, Pow2(k)), Pow2(k)) == MyAlign(w, a, Pow2(k))
  {
    Pow2Monotone(k, w);
    var l := Pow2(k);
    AlignUpMeaning(w, k, a);
    var up := MyAlign(w, a, l);
    RoomAboveMultiple(w, k, a, up);
    AlignUpMeaning(w, k, up);
    MultipleIsFixed(l, up, MyAlign(w, up, l));
  }

  lemma MultipleIsFixed(l: nat, m: nat, r: nat)
    requires IsMultiple(l, m) && IsLeastMultipleFrom(l, m, r)
    ensures r == m
  {}

  /** The laws of rounding to multiples, apart from any word width. */
  lemma RoundsAgree(l: nat, a: nat, b: nat, up: nat, down: nat, upB: nat, downB: nat)
    requires a <= b
    requires IsLeastMultipleFrom(l, a, up) && IsGreatestMultipleTo(l, a, down)
    requires IsLeastMultipleFrom(l, b, upB) && IsGreatestMultipleTo(l, b, downB)
    ensures up <= upB && down <= downB
    ensures up == down <==> IsMultiple(l, a)
    ensures IsMultiple(l, a) ==> up == a == down
  {}

  lemma WordIsMultiple(w: nat, k: nat)
    requires k <= w
    ensures IsMultiple(Pow2(k), Pow2(w)) && IsMultiple(Pow2(k), Pow2(w) - Pow2(k))
    ensures Pow2(k) <= Pow2(w)
  {
    Pow2Monotone(k, w);
    Pow2Add(w - k, k);
    TimesIsMultiple(Pow2(k), Pow2(w - k));
    TimesIsMultiple(Pow2(k), Pow2(w - k) - 1);
    OneLess(Pow2(w - k), Pow2(k));
  }

  lemma TimesIsMultiple(l: nat, q: nat)
    ensures IsMultiple(l, q * l)
  {}

  lemma OneLess(q: nat, l: nat)
    requires 0 < q
    ensures (q - 1) * l == q * l - l
  {}

  /** The multiple found by rounding up leaves room for a whole block above it. */
  lemma RoomAboveMultiple(w: nat, k: nat, a: nat, r: nat)
    requires k <= w && a + Pow2(k) - 1 < Pow2(w) && IsLeastMultipleFrom(Pow2(k), a, r)
    ensures r + Pow2(k) <= Pow2(w)
  {
    // The block just below the top of the word still covers a.
    WordIsMultiple(w, k);
  }

  /** set_bits(n) sets the lowest min(n, w) bits and no others. */
  lemma SetBitsMeaning(w: nat, n: nat, i: nat)
    requires 0 < w
    ensures Bit(SetBits(w, n), i) <==> i < (if n < w then n else w)
    ensures n < w ==> SetBits(w, n) == PrevBits(w, n) == Pow2(n) - 1
  {
    if w <= n {
      NotBit(w, 0, i);
      ZeroBit(i);
    } else {
      Pow2Monotone(n, w);
      SmallMod(Pow2(n), Pow2(w));
      SmallMod(Pow2(n) - 1, Pow2(w));
      NotBit(n, 0, i);
      ZeroBit(i);
    }
  }

  /** test_all_bits is inclusion of bit sets. */
  lemma TestAllBitsMeaning(a: nat, b: nat)
    ensures TestAllBits(a, b) <==> forall i: nat :: Bit(b, i) ==> Bit(a, i)
  {
    if TestAllBits(a, b) {
      forall i: nat ensures Bit(b, i) ==> Bit(a, i) { AndBit(a, b, i); }
    } else {
      var i := DifferingBit(And(a, b), b);
      AndBit(a, b, i);
    }
  }

  /** Low masks are ordered by their bit counts, capped at the word width. */
  lemma LowMasksInclusion(w: nat, n: nat, m: nat)
    requires 0 < w
    ensures TestAllBits(SetBits(w, n), SetBits(w, m))
       <==> (if m < w then m else w) <= (if n < w then n else w)
  {
    var cn, cm := if n < w then n else w, if m < w then m else w;
    forall i: nat ensures Bit(SetBits(w, n), i) <==> i < cn { SetBitsMeaning(w, n, i); }
    forall i: nat ensures Bit(SetBits(w, m), i) <==> i < cm { SetBitsMeaning(w, m, i); }
    InclusionOfLowBits(SetBits(w, n), SetBits(w, m), cn, cm);
  }

  lemma InclusionOfLowBits(x: nat, y: nat, cx: nat, cy: nat)
    requires forall i: nat :: Bit(x, i) <==> i < cx
    requires forall i: nat :: Bit(y, i) <==> i < cy
    ensures TestAllBits(x, y) <==> cy <= cx
  {
    TestAllBitsMeaning(x, y);
    if cx < cy {
      AndBit(x, y, cx);
      assert Bit(y, cx) && !Bit(x, cx);
    } else {
      forall i: nat ensures Bit(y, i) ==> Bit(x, i) {
        assert Bit(x, i) <==> i < cx;
        assert Bit(y, i) <==> i < cy;
      }
    }
  }
}
