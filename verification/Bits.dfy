/** Unsigned machine words as natural numbers, and the C operators on them.

    `&`, `|` and `~` are defined digit by digit in base two, with no bound on
    the width; a width appears only where C truncates. The lemmas give the
    arithmetic meaning of the masks and shifts that the headers use. */
module Bits {

  function Pow2(n: nat): (p: nat)
    ensures 0 < p
  {
    if n == 0 then 1 else 2 * Pow2(n - 1)
  }

  /** The digit of x at place i. */
  predicate Bit(x: nat, i: nat) {
    if i == 0 then x % 2 == 1 else Bit(x / 2, i - 1)
  }

  function And(x: nat, y: nat): nat {
    if x == 0 || y == 0 then 0
    else 2 * And(x / 2, y / 2) + (if x % 2 == 1 && y % 2 == 1 then 1 else 0)
  }

  function Or(x: nat, y: nat): nat
    decreases x + y
  {
    if x == 0 then y else if y == 0 then x
    else 2 * Or(x / 2, y / 2) + (if x % 2 == 1 || y % 2 == 1 then 1 else 0)
  }

  /** `~x` in a word of w bits. */
  function Not(w: nat, x: nat): nat
    requires x < Pow2(w)
  {
    Pow2(w) - 1 - x
  }

  /** `x << k` in a word of w bits: what leaves the word is lost. */
  function Shl(w: nat, x: nat, k: nat): (r: nat)
    ensures r < Pow2(w)
  {
    (x * Pow2(k)) % Pow2(w)
  }

  /** A cast to an unsigned word of w bits. */
  function Cast(w: nat, x: int): (r: nat)
    ensures r < Pow2(w)
  {
    x % Pow2(w)
  }

  /** A cast from an unsigned to a signed word of w bits (two's complement). */
  function Signed(w: nat, x: nat): int
    requires 0 < w && x < Pow2(w)
  {
    if x < Pow2(w - 1) then x else x - Pow2(w)
  }

  /** `x >> k`; the shift of a negative number is arithmetic. */
  function Shr(x: int, k: nat): int {
    x / Pow2(k)
  }

  // ---- what the operators do to each bit ----

  lemma {:induction false} AndBit(x: nat, y: nat, i: nat)
    ensures Bit(And(x, y), i) <==> Bit(x, i) && Bit(y, i)
  {
    if x == 0 {
      ZeroBit(i);
    } else if y == 0 {
      ZeroBit(i);
    } else if i > 0 {
      AndBit(x / 2, y / 2, i - 1);
    }
  }

  lemma {:induction false} OrBit(x: nat, y: nat, i: nat)
    ensures Bit(Or(x, y), i) <==> Bit(x, i) || Bit(y, i)
    decreases x + y
  {
    if x == 0 {
      ZeroBit(i);
    } else if y == 0 {
      ZeroBit(i);
    } else if i > 0 {
      OrBit(x / 2, y / 2, i - 1);
    }
  }

  lemma {:induction false} NotBit(w: nat, x: nat, i: nat)
    requires x < Pow2(w)
    ensures Bit(Not(w, x), i) <==> i < w && !Bit(x, i)
    decreases w
  {
    if w == 0 {
      ZeroBit(i);
    } else if i > 0 {
      NotBit(w - 1, x / 2, i - 1);
    }
  }

  lemma {:induction false} ZeroBit(i: nat)
    ensures !Bit(0, i)
  {
    if i > 0 { ZeroBit(i - 1); }
  }

  /** The top bit of a word says whether it reaches half the range. */
  lemma {:induction false} TopBit(k: nat, x: nat)
    requires x < Pow2(k + 1)
    ensures Bit(x, k) <==> Pow2(k) <= x
  {
    if k > 0 { TopBit(k - 1, x / 2); }
  }

  /** A place where two different words differ. */
  lemma {:induction false} DifferingBit(x: nat, y: nat) returns (i: nat)
    requires x != y
    ensures Bit(x, i) != Bit(y, i)
    decreases x + y
  {
    if x % 2 != y % 2 {
      i := 0;
    } else {
      i := DifferingBit(x / 2, y / 2);
      i := i + 1;
    }
  }

  /** A cast keeps the low w bits. */
  lemma {:induction false} CastBit(w: nat, x: nat, i: nat)
    ensures Bit(Cast(w, x), i) <==> i < w && Bit(x, i)
    decreases w
  {
    if w == 0 {
      ZeroBit(i);
    } else {
      HalfOfCast(w, x);
      if i > 0 { CastBit(w - 1, x / 2, i - 1); }
    }
  }

  lemma HalfOfCast(w: nat, x: nat)
    requires 0 < w
    ensures Cast(w, x) % 2 == x % 2 && Cast(w, x) / 2 == Cast(w - 1, x / 2)
  {
    var q, r := DivMod(x / 2, Pow2(w - 1));
    assert q * (2 * Pow2(w - 1)) == 2 * (q * Pow2(w - 1));
    ModUnique(x, Pow2(w), q, 2 * r + x % 2);
  }

  /** A shift moves each bit up by k places; what leaves the word is lost. */
  lemma ShlBit(w: nat, x: nat, k: nat, i: nat)
    ensures Bit(Shl(w, x, k), i) <==> k <= i < w && Bit(x, i - k)
  {
    CastBit(w, x * Pow2(k), i);
    ScaledIsProduct(x, k);
    ScaledBit(x, k, i);
  }

  lemma {:induction false} ScaledBit(x: nat, k: nat, i: nat)
    ensures Bit(Scaled(x, k), i) <==> k <= i && Bit(x, i - k)
    decreases k
  {
    if k > 0 && i > 0 { ScaledBit(x, k - 1, i - 1); }
  }

  // ---- what the operators do to the number ----

  lemma {:induction false} Pow2Add(m: nat, n: nat)
    ensures Pow2(m + n) == Pow2(m) * Pow2(n)
  {
    if m > 0 {
      Pow2Add(m - 1, n);
      assert Pow2(m + n) == 2 * (Pow2(m - 1) * Pow2(n));
    }
  }

  lemma {:induction false} Pow2Monotone(m: nat, n: nat)
    requires m <= n
    ensures Pow2(m) <= Pow2(n)
    ensures m < n ==> 2 * Pow2(m) <= Pow2(n)
    decreases n
  {
    if m < n { Pow2Monotone(m, n - 1); }
  }

  lemma {:induction false} OrComm(x: nat, y: nat)
    ensures Or(x, y) == Or(y, x)
    decreases x + y
  {
    if x != 0 && y != 0 { OrComm(x / 2, y / 2); }
  }

  lemma OrEven(x: nat, y: nat, b: nat)
    requires b < 2
    ensures Or(2 * x + b, 2 * y) == 2 * Or(x, y) + b
  {
    assert (2 * x + b) / 2 == x && (2 * y) / 2 == y;
  }

  lemma AndOdd(x: nat, y: nat, b: nat)
    requires b < 2
    ensures And(2 * x + b, 2 * y + 1) == 2 * And(x, y) + b
  {
    assert (2 * x + b) / 2 == x && (2 * y + 1) / 2 == y;
  }

  lemma AndEven(x: nat, y: nat, b: nat)
    requires b < 2
    ensures And(2 * x + b, 2 * y) == 2 * And(x, y)
  {
    assert (2 * x + b) / 2 == x && (2 * y) / 2 == y;
  }

  /** q * 2^k, written so that halving it is plain. */
  function Scaled(q: nat, k: nat): nat {
    if k == 0 then q else 2 * Scaled(q, k - 1)
  }

  lemma {:induction false} ScaledIsProduct(q: nat, k: nat)
    ensures Scaled(q, k) == q * Pow2(k)
  {
    if k > 0 {
      ScaledIsProduct(q, k - 1);
      assert q * (2 * Pow2(k - 1)) == 2 * (q * Pow2(k - 1));
    }
  }

  lemma {:induction false} OrScaled(k: nat, low: nat, high: nat)
    requires low < Pow2(k)
    ensures Or(low, Scaled(high, k)) == low + Scaled(high, k)
  {
    if k > 0 {
      OrScaled(k - 1, low / 2, high);
      OrEven(low / 2, Scaled(high, k - 1), low % 2);
    }
  }

  /** Words that share no bit position add up under `|`. */
  lemma OrIsSum(k: nat, low: nat, high: nat)
    requires low < Pow2(k)
    ensures Or(low, high * Pow2(k)) == low + high * Pow2(k)
    ensures Or(high * Pow2(k), low) == low + high * Pow2(k)
  {
    OrComm(low, high * Pow2(k));
    OrScaled(k, low, high);
    ScaledIsProduct(high, k);
  }

  lemma {:induction false} AndAllOnes(w: nat, x: nat)
    requires x < Pow2(w)
    ensures And(x, Pow2(w) - 1) == x
  {
    if w > 0 {
      assert x == 2 * (x / 2) + x % 2;
      AndAllOnes(w - 1, x / 2);
      AndOdd(x / 2, Pow2(w - 1) - 1, x % 2);
    }
  }

  /** A mask whose low k bits are clear acts on the part above place k alone. */
  lemma {:induction false} AndScaled(k: nat, q: nat, m: nat, r: nat)
    requires r < Pow2(k)
    ensures And(Scaled(q, k) + r, Scaled(m, k)) == Scaled(And(q, m), k)
  {
    if k > 0 {
      var r', b := DivMod(r, 2);
      AndScaled(k - 1, q, m, r');
      AndEven(Scaled(q, k - 1) + r', Scaled(m, k - 1), b);
    }
  }

  lemma DivMod(x: int, d: nat) returns (q: int, r: nat)
    requires 0 < d
    ensures q == x / d && r == x % d && r < d
    ensures x == q * d + r && (0 <= x ==> 0 <= q)
  {
    q, r := x / d, x % d;
  }

  /** Quotient and remainder are determined by the division equation. */
  lemma ModUnique(x: int, d: nat, q: int, r: nat)
    requires r < d && x == q * d + r
    ensures x / d == q && x % d == r
  {
    var q', r' := DivMod(x, d);
    if q < q' {
      MulLess(q, q', d);
    } else if q' < q {
      MulLess(q', q, d);
    }
  }

  lemma {:induction false} MulLess(p: int, q: int, d: nat)
    requires p < q
    ensures p * d + d <= q * d
    decreases q - p
  {
    assert (q - 1) * d == q * d - d;
    if p < q - 1 { MulLess(p, q - 1, d); }
  }

  /** A shift that stays inside the word loses nothing. */
  lemma ShlFits(w: nat, x: nat, k: nat)
    requires x * Pow2(k) < Pow2(w)
    ensures Shl(w, x, k) == x * Pow2(k)
  {
    SmallMod(x * Pow2(k), Pow2(w));
  }

  lemma SmallMod(x: nat, d: nat)
    requires x < d
    ensures x % d == x
  {}

  /** Two shifts in a row are one shift. */
  lemma ShrShr(x: int, j: nat, k: nat)
    ensures Shr(Shr(x, j), k) == Shr(x, j + k)
  {
    var a, b := Pow2(j), Pow2(k);
    var q, r := DivMod(x, a);
    var p, s := DivMod(q, b);
    Pow2Add(j, k);
    MulLess(s, b, a);
    calc {
      x;
      (p * b + s) * a + r;
      { Distribute(p, a, b, s); }
      p * (a * b) + (s * a + r);
    }
    ModUnique(x, a * b, p, s * a + r);
  }

  lemma Distribute(p: int, a: nat, b: nat, s: nat)
    ensures (p * b + s) * a == p * (a * b) + s * a
  {}

  /** `x & ~(2^k - 1)` clears the remainder. */
  lemma AndHighMask(w: nat, k: nat, x: nat)
    requires k <= w && x < Pow2(w)
    ensures Pow2(k) - 1 < Pow2(w)
    ensures And(x, Not(w, Pow2(k) - 1)) == x - x % Pow2(k)
  {
    var q, r := DivMod(x, Pow2(k));
    var m := HighMask(w, k, q);
    ScaledIsProduct(q, k);
    ScaledIsProduct(m, k);
    AndScaled(k, q, m, r);
    AndAllOnes(w - k, q);
  }

  /** `~(2^k - 1)` in a word of w bits is w - k ones followed by k zeros. */
  lemma HighMask(w: nat, k: nat, q: nat) returns (m: nat)
    requires k <= w && q * Pow2(k) < Pow2(w)
    ensures q < Pow2(w - k) && m == Pow2(w - k) - 1
    ensures Pow2(k) - 1 < Pow2(w) && Not(w, Pow2(k) - 1) == m * Pow2(k)
  {
    Pow2Monotone(k, w);
    Pow2Add(w - k, k);
    m := Pow2(w - k) - 1;
    MulLess(m, m + 1, Pow2(k));
    assert (m + 1) * Pow2(k) == m * Pow2(k) + Pow2(k);
    if m < q { MulLess(m, q, Pow2(k)); }
  }

  /** `x & 2^k` is nonzero exactly when bit k of x is set. */
  lemma {:induction false} AndSingleBit(x: nat, k: nat)
    ensures And(x, Pow2(k)) == if Bit(x, k) then Pow2(k) else 0
  {
    if x == 0 {
      ZeroBit(k);
    } else if k > 0 {
      AndSingleBit(x / 2, k - 1);
      assert (2 * Pow2(k - 1)) / 2 == Pow2(k - 1) && (2 * Pow2(k - 1)) % 2 == 0;
    } else {
      assert And(x / 2, 0) == 0;
    }
  }
}
