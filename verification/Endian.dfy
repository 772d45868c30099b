/** Byte strings and the numbers they stand for, in both byte orders. */
module Endian {
  import opened Bits

  type byte = x: int | 0 <= x < 256

  type Bytes = seq<byte>

  /** A cast to uchar. */
  function Uchar(x: int): byte {
    x % 256
  }

  /** The number whose base-256 digits are s, low digit first. */
  function LittleValue(s: Bytes): nat {
    if s == [] then 0 else s[0] + 256 * LittleValue(s[1..])
  }

  /** The number whose base-256 digits are s, high digit first. */
  function BigValue(s: Bytes): nat {
    if s == [] then 0 else 256 * BigValue(s[..|s| - 1]) + s[|s| - 1]
  }

  /** The low n base-256 digits of v, low digit first; v may be negative. */
  function LittleBytes(n: nat, v: int): (s: Bytes)
    ensures |s| == n
  {
    if n == 0 then [] else [Uchar(v)] + LittleBytes(n - 1, v / 256)
  }

  function Reverse(s: Bytes): (r: Bytes)
    ensures |r| == |s|
    ensures forall i :: 0 <= i < |s| ==> r[i] == s[|s| - 1 - i]
  {
    if s == [] then [] else Reverse(s[1..]) + [s[0]]
  }

  /** The memory s after bytes b are written at offset o. */
  function Put(s: Bytes, o: nat, b: Bytes): (r: Bytes)
    requires o + |b| <= |s|
    ensures |r| == |s| && r[o..o + |b|] == b
    ensures forall i :: 0 <= i < o || o + |b| <= i < |s| ==> r[i] == s[i]
  {
    s[..o] + b + s[o + |b|..]
  }

  lemma PutAt(s: Bytes, o: nat, b: Bytes, p: nat)
    requires o + |b| <= |s| && p < |s|
    ensures Put(s, o, b)[p] == if o <= p < o + |b| then b[p - o] else s[p]
  {}

  // ---- values ----

  lemma {:induction false} LittleAppend(a: Bytes, b: Bytes)
    ensures LittleValue(a + b) == LittleValue(a) + LittleValue(b) * Pow2(8 * |a|)
  {
    if a == [] {
      assert a + b == b;
    } else {
      var p := Pow2(8 * (|a| - 1));
      assert (a + b)[1..] == a[1..] + b;
      LittleAppend(a[1..], b);
      Pow2Add(8, 8 * (|a| - 1));
      assert Pow2(8) == 256 && 8 + 8 * (|a| - 1) == 8 * |a|;
      Times256(LittleValue(b), p);
    }
  }

  lemma Times256(x: nat, p: nat)
    ensures 256 * (x * p) == x * (256 * p)
  {}

  lemma {:induction false} LittleBound(s: Bytes)
    ensures LittleValue(s) < Pow2(8 * |s|)
  {
    if s != [] {
      LittleBound(s[1..]);
      Pow2Add(8, 8 * (|s| - 1));
      assert Pow2(8) == 256;
    }
  }

  lemma {:induction false} ReverseAppend(a: Bytes, b: Bytes)
    ensures Reverse(a + b) == Reverse(b) + Reverse(a)
  {}

  /** Reading high digit first is reading the reversed bytes low digit first. */
  lemma {:induction false} BigIsReversedLittle(s: Bytes)
    ensures BigValue(s) == LittleValue(Reverse(s))
  {
    if s != [] {
      var front, last := s[..|s| - 1], s[|s| - 1];
      BigIsReversedLittle(front);
      assert Reverse(s) == [last] + Reverse(front);
      assert ([last] + Reverse(front))[1..] == Reverse(front);
    }
  }

  // ---- digits ----

  /** The low n digits of v are v modulo 256^n, also for negative v. */
  lemma LittleOfBytes(n: nat, v: int)
    ensures LittleValue(LittleBytes(n, v)) == v % Pow2(8 * n)
  {
    var q := LittleQuotient(n, v);
    LittleBound(LittleBytes(n, v));
    ModUnique(v, Pow2(8 * n), q, LittleValue(LittleBytes(n, v)));
  }

  lemma {:induction false} LittleQuotient(n: nat, v: int) returns (q: int)
    ensures v == q * Pow2(8 * n) + LittleValue(LittleBytes(n, v))
  {
    if n == 0 {
      q := v;
    } else {
      q := LittleQuotient(n - 1, v / 256);
      var p := Pow2(8 * (n - 1));
      Pow2Add(8, 8 * (n - 1));
      assert Pow2(8) == 256;
      assert 256 * (q * p) == q * (256 * p);
      assert LittleBytes(n, v)[1..] == LittleBytes(n - 1, v / 256);
    }
  }

  /** The digits of the value of s are s. */
  lemma {:induction false} BytesOfLittle(s: Bytes)
    ensures LittleBytes(|s|, LittleValue(s)) == s
  {
    if s != [] {
      var v, rest := LittleValue(s), LittleValue(s[1..]);
      BytesOfLittle(s[1..]);
      assert v / 256 == rest && v % 256 == s[0];
      assert s == [s[0]] + s[1..];
    }
  }

  /** Digit i of v is what the shift by 8 * i leaves in the low byte. */
  lemma {:induction false} ByteAt(n: nat, v: int, i: nat)
    requires i < n
    ensures LittleBytes(n, v)[i] == Uchar(Shr(v, 8 * i))
  {
    if i > 0 {
      ByteAt(n - 1, v / 256, i - 1);
      assert Pow2(8) == 256;
      ShrShr(v, 8, 8 * (i - 1));
    }
  }

  lemma {:induction false} BytesSplit(m: nat, n: nat, v: int)
    ensures LittleBytes(m + n, v) == LittleBytes(m, v) + LittleBytes(n, Shr(v, 8 * m))
  {
    if m > 0 {
      BytesSplit(m - 1, n, v / 256);
      assert Pow2(8) == 256;
      ShrShr(v, 8, 8 * (m - 1));
    }
  }

  /** Casting to a word of m bytes keeps every digit below place m. */
  lemma {:induction false} BytesOfCast(n: nat, m: nat, v: int)
    requires n <= m
    ensures LittleBytes(n, Cast(8 * m, v)) == LittleBytes(n, v)
  {
    var all, c := LittleBytes(m, v), Cast(8 * m, v);
    assert LittleBytes(m, c) == all by {
      LittleOfBytes(m, v);
      BytesOfLittle(all);
    }
    assert all[..n] == LittleBytes(n, v) by { BytesSplit(n, m - n, v); }
    assert all[..n] == LittleBytes(n, c) by { BytesSplit(n, m - n, c); }
  }

  /** Bytes found at their places, with the rest as before, were put there. */
  lemma PutIs(before: Bytes, after: Bytes, o: nat, b: Bytes)
    requires |before| == |after| && o + |b| <= |after|
    requires forall i :: 0 <= i < |b| ==> after[o + i] == b[i]
    requires forall i :: 0 <= i < o || o + |b| <= i < |after| ==> after[i] == before[i]
    ensures after == Put(before, o, b)
  {
    var put := Put(before, o, b);
    forall i | 0 <= i < |after| ensures after[i] == put[i] {
      if o <= i < o + |b| {
        assert put[i] == put[o..o + |b|][i - o];
        assert after[o + (i - o)] == b[i - o];
      }
    }
  }

  /** Bytes written at their places are the digits of v put at that offset. */
  lemma StoredBytes(before: Bytes, after: Bytes, o: nat, n: nat, v: int)
    requires |before| == |after| && o + n <= |after|
    requires forall i :: 0 <= i < n ==> after[o + i] == Uchar(Shr(v, 8 * i))
    requires forall i :: 0 <= i < o || o + n <= i < |after| ==> after[i] == before[i]
    ensures after == Put(before, o, LittleBytes(n, v))
  {
    forall i | 0 <= i < n ensures after[o + i] == LittleBytes(n, v)[i] { ByteAt(n, v, i); }
    PutIs(before, after, o, LittleBytes(n, v));
  }

  /** Two writes side by side are one write. */
  lemma PutPut(s: Bytes, o: nat, a: Bytes, b: Bytes)
    requires o + |a| + |b| <= |s|
    ensures Put(Put(s, o, a), o + |a|, b) == Put(s, o, a + b)
  {}

  /** `low | (high << 8n)` joins two little-endian numbers, when the word has room. */
  lemma OrJoins(w: nat, a: Bytes, b: Bytes)
    requires 8 * |a| + 8 * |b| <= w
    ensures Or(LittleValue(a), Shl(w, LittleValue(b), 8 * |a|)) == LittleValue(a + b)
    ensures Or(Shl(w, LittleValue(b), 8 * |a|), LittleValue(a)) == LittleValue(a + b)
  {
    LittleAppend(a, b);
    LittleBound(a);
    LittleBound(a + b);
    Pow2Monotone(8 * |a + b|, w);
    ShlFits(w, LittleValue(b), 8 * |a|);
    OrIsSum(8 * |a|, LittleValue(a), LittleValue(b));
  }
}
