/** byte_order_generic_x86.h and byte_order_generic_x86_64.h: the same integer
    formats on a host that keeps its own words low byte first, where a load or a
    store of a whole word replaces the byte-by-byte forms.

    The two headers share these word accesses. Where the 32-bit header goes byte
    by byte (3, 5 and 6 byte loads, 5 and 6 byte stores) its text is that of the
    generic header, modelled in ByteOrderGeneric. */
module ByteOrderX86 {
  import opened Bits
  import opened Endian
  import Generic = ByteOrderGeneric

  /** The unsigned word of n bytes that the host reads at the start of s. */
  function HostLoad(n: nat, s: Bytes): nat
    requires n <= |s|
  {
    LittleValue(s[..n])
  }

  /** The host writes the word v of n bytes at offset o. */
  method HostStore(t: array<byte>, o: nat, n: nat, v: nat)
    requires o + n <= t.Length && v < Pow2(8 * n)
    modifies t
    ensures t[..] == Put(old(t[..]), o, LittleBytes(n, v))
  {
    ghost var before := t[..];
    var digits := LittleBytes(n, v);
    forall i | 0 <= i < n {
      t[o + i] := digits[i];
    }
    forall i | 0 <= i < n ensures t[o + i] == Uchar(Shr(v, 8 * i)) { ByteAt(n, v, i); }
    StoredBytes(before, t[..], o, n, v);
  }

  function Uint2korr(s: Bytes): nat
    requires 2 <= |s|
  {
    HostLoad(2, s)
  }

  function Uint4korr(s: Bytes): nat
    requires 4 <= |s|
  {
    HostLoad(4, s)
  }

  function Uint5korr(s: Bytes): nat
    requires 5 <= |s|
  {
    var a := HostLoad(4, s);
    var b := s[4];
    Or(a, Shl(64, b, 32))
  }

  function Uint6korr(s: Bytes): nat
    requires 6 <= |s|
  {
    var a := HostLoad(4, s);
    var b := HostLoad(2, s[4..]);
    Or(a, Shl(64, b, 32))
  }

  function Uint8korr(s: Bytes): nat
    requires 8 <= |s|
  {
    HostLoad(8, s)
  }

  function Sint2korr(s: Bytes): int
    requires 2 <= |s|
  {
    LittleBound(s[..2]);
    Signed(16, HostLoad(2, s))
  }

  function Sint4korr(s: Bytes): int
    requires 4 <= |s|
  {
    LittleBound(s[..4]);
    Signed(32, HostLoad(4, s))
  }

  function Sint8korr(s: Bytes): int
    requires 8 <= |s|
  {
    LittleBound(s[..8]);
    Signed(64, HostLoad(8, s))
  }

  /** Every word load agrees with the byte-by-byte definition on every memory. */
  lemma LoadsAgree(s: Bytes)
    ensures 2 <= |s| ==> Uint2korr(s) == Generic.Uint2korr(s) && Sint2korr(s) == Generic.Sint2korr(s)
    ensures 4 <= |s| ==> Uint4korr(s) == Generic.Uint4korr(s) && Sint4korr(s) == Generic.Sint4korr(s)
    ensures 5 <= |s| ==> Uint5korr(s) == Generic.Uint5korr(s)
    ensures 6 <= |s| ==> Uint6korr(s) == Generic.Uint6korr(s)
    ensures 8 <= |s| ==> Uint8korr(s) == Generic.Uint8korr(s) && Sint8korr(s) == Generic.Sint8korr(s)
  {
    Generic.ReadsLittleEndian(s);
    Generic.ReadsTwosComplement(s);
    if 5 <= |s| { Generic.OneByte(s, 64, 4); }
    if 6 <= |s| { JoinSix(s); }
  }

  // ---- stores: each leaves the bytes that the generic store of its width leaves ----

  method Int2Store(t: array<byte>, o: nat, a: int)
    requires o + 2 <= t.Length
    modifies t
    ensures t[..] == Put(old(t[..]), o, LittleBytes(2, a))
  {
    HostStore(t, o, 2, Cast(16, a));
    BytesOfCast(2, 2, a);
  }

  /** The middle byte shifts the argument as an unsigned int, the top byte shifts
      it as it is; a negative argument gives the same two bytes either way. */
  method Int3Store(t: array<byte>, o: nat, a: int)
    requires o + 3 <= t.Length
    modifies t
    ensures t[..] == Put(old(t[..]), o, LittleBytes(3, a))
  {
    t[o] := Uchar(a);
    t[o + 1] := Uchar(Shr(Cast(32, a), 8));
    t[o + 2] := Uchar(Shr(a, 16));
    assert t[o + 1] == Uchar(Shr(a, 8)) by {
      BytesOfCast(2, 4, a);
      ByteAt(2, a, 1);
      ByteAt(2, Cast(32, a), 1);
    }
    StoredBytes(old(t[..]), t[..], o, 3, a);
  }

  method Int4Store(t: array<byte>, o: nat, a: int)
    requires o + 4 <= t.Length
    modifies t
    ensures t[..] == Put(old(t[..]), o, LittleBytes(4, a))
  {
    HostStore(t, o, 4, Cast(32, a));
    BytesOfCast(4, 4, a);
  }

  method Int5Store(t: array<byte>, o: nat, a: int)
    requires o + 5 <= t.Length
    modifies t
    ensures t[..] == Put(old(t[..]), o, LittleBytes(5, a))
  {
    HostStore(t, o, 4, Cast(32, a));
    t[o + 4] := Uchar(Shr(a, 32));
    ghost var low, high := LittleBytes(4, Cast(32, a)), LittleBytes(1, Shr(a, 32));
    BytesOfCast(4, 4, a);
    BytesSplit(4, 1, a);
    PutPut(old(t[..]), o, low, high);
    assert t[..] == Put(Put(old(t[..]), o, low), o + 4, high);
  }

  method Int6Store(t: array<byte>, o: nat, a: int)
    requires o + 6 <= t.Length
    modifies t
    ensures t[..] == Put(old(t[..]), o, LittleBytes(6, a))
  {
    HostStore(t, o, 4, Cast(32, a));
    HostStore(t, o + 4, 2, Cast(16, Shr(a, 32)));
    BytesOfCast(4, 4, a);
    BytesOfCast(2, 2, Shr(a, 32));
    BytesSplit(4, 2, a);
    PutPut(old(t[..]), o, LittleBytes(4, a), LittleBytes(2, Shr(a, 32)));
  }

  method Int8Store(t: array<byte>, o: nat, a: int)
    requires o + 8 <= t.Length
    modifies t
    ensures t[..] == Put(old(t[..]), o, LittleBytes(8, a))
  {
    HostStore(t, o, 8, Cast(64, a));
    BytesOfCast(8, 8, a);
  }

  // ---- numbers stored high byte first, read by a shift and a byte swap ----

  /** The bswapq instruction. */
  function ByteSwap(v: nat): nat
    requires v < Pow2(64)
  {
    LittleValue(Reverse(LittleBytes(8, v)))
  }

  function MiUint5korr(s: Bytes): nat
    requires 5 <= |s|
  {
    var a := HostLoad(4, s);
    var b := s[4];
    ByteSwap(Shl(64, Or(a, Shl(64, b, 32)), 24))
  }

  function MiUint6korr(s: Bytes): nat
    requires 6 <= |s|
  {
    var a := HostLoad(4, s);
    var b := HostLoad(2, s[4..]);
    ByteSwap(Shl(64, Or(a, Shl(64, b, 32)), 16))
  }

  function MiUint7korr(s: Bytes): nat
    requires 7 <= |s|
  {
    var a := HostLoad(4, s);
    var b := HostLoad(2, s[4..]);
    var c := s[6];
    ByteSwap(Shl(64, Or(Or(a, Shl(64, b, 32)), Shl(64, c, 48)), 8))
  }

  function MiUint8korr(s: Bytes): nat
    requires 8 <= |s|
  {
    LittleBound(s[..8]);
    ByteSwap(HostLoad(8, s))
  }

  /** Shifting out the unused high bytes and swapping reads s high byte first. */
  lemma ShiftAndSwap(s: Bytes, k: nat)
    requires |s| + k == 8
    ensures Shl(64, LittleValue(s), 8 * k) < Pow2(64)
    ensures ByteSwap(Shl(64, LittleValue(s), 8 * k)) == BigValue(s)
  {
    var pad := LittleBytes(k, 0);
    var v := Shl(64, LittleValue(s), 8 * k);
    ZeroBytes(k);
    assert v == LittleValue(pad + s) by { OrJoins(64, pad, s); }
    assert LittleBytes(8, v) == pad + s by { BytesOfLittle(pad + s); }
    assert Reverse(pad + s) == Reverse(s) + pad by { ReverseAppend(pad, s); }
    assert LittleValue(Reverse(s) + pad) == LittleValue(Reverse(s)) by { LittleAppend(Reverse(s), pad); }
    BigIsReversedLittle(s);
  }

  lemma {:induction false} ZeroBytes(k: nat)
    ensures LittleValue(LittleBytes(k, 0)) == 0
    ensures Reverse(LittleBytes(k, 0)) == LittleBytes(k, 0)
  {
    if k > 0 {
      ZeroBytes(k - 1);
      ZeroSnoc(k - 1);
    }
  }

  lemma {:induction false} ZeroSnoc(k: nat)
    ensures LittleBytes(k, 0) + [0] == LittleBytes(k + 1, 0)
  {
    if k > 0 {
      ZeroSnoc(k - 1);
      assert LittleBytes(k, 0) + [0] == [0] + (LittleBytes(k - 1, 0) + [0]);
    }
  }

  lemma ReadsBigEndian5(s: Bytes)
    requires 5 <= |s|
    ensures MiUint5korr(s) == BigValue(s[..5])
  {
    Generic.OneByte(s, 64, 4);
    ShiftAndSwap(s[..5], 3);
  }

  lemma JoinSix(s: Bytes)
    requires 6 <= |s|
    ensures Or(HostLoad(4, s), Shl(64, HostLoad(2, s[4..]), 32)) == LittleValue(s[..6])
  {
    assert s[4..][..2] == s[4..6];
    assert s[..6] == s[..4] + s[4..6];
    OrJoins(64, s[..4], s[4..6]);
  }

  lemma ReadsBigEndian6(s: Bytes)
    requires 6 <= |s|
    ensures MiUint6korr(s) == BigValue(s[..6])
  {
    JoinSix(s);
    ShiftAndSwap(s[..6], 2);
  }

  lemma ReadsBigEndian7(s: Bytes)
    requires 7 <= |s|
    ensures MiUint7korr(s) == BigValue(s[..7])
  {
    JoinSix(s);
    Generic.OneByte(s, 64, 6);
    ShiftAndSwap(s[..7], 1);
  }

  lemma ReadsBigEndian8(s: Bytes)
    requires 8 <= |s|
    ensures MiUint8korr(s) == BigValue(s[..8])
  {
    LittleBound(s[..8]);
    BytesOfLittle(s[..8]);
    BigIsReversedLittle(s[..8]);
  }

  /** Each high-byte-first reader returns the base-256 number of its bytes, so no
      bit is lost in the shift. */
  lemma ReadsBigEndian(s: Bytes)
    ensures 5 <= |s| ==> MiUint5korr(s) == BigValue(s[..5])
    ensures 6 <= |s| ==> MiUint6korr(s) == BigValue(s[..6])
    ensures 7 <= |s| ==> MiUint7korr(s) == BigValue(s[..7])
    ensures 8 <= |s| ==> MiUint8korr(s) == BigValue(s[..8])
  {
    if 5 <= |s| { ReadsBigEndian5(s); }
    if 6 <= |s| { ReadsBigEndian6(s); }
    if 7 <= |s| { ReadsBigEndian7(s); }
    if 8 <= |s| { ReadsBigEndian8(s); }
  }

  /** Each equals the low-byte-first reader on the reversed bytes. */
  lemma BigEndianIsReversed(s: Bytes)
    ensures |s| == 5 ==> MiUint5korr(s) == Uint5korr(Reverse(s))
    ensures |s| == 6 ==> MiUint6korr(s) == Uint6korr(Reverse(s))
    ensures |s| == 8 ==> MiUint8korr(s) == Uint8korr(Reverse(s))
  {
    var r := Reverse(s);
    assert s[..|s|] == s && r[..|s|] == r;
    ReadsBigEndian(s);
    BigIsReversedLittle(s);
    LoadsAgree(r);
    Generic.ReadsLittleEndian(r);
  }
}
