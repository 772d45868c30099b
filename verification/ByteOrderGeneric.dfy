/** byte_order_generic.h: integers in machine-independent format, low byte first,
    read and written one byte at a time. A reader takes the memory from the
    given address on; a store writes at offset o of an array. */
module ByteOrderGeneric {
  import opened Bits
  import opened Endian

  function Uint2korr(s: Bytes): nat
    requires 2 <= |s|
  {
    Cast(16, Or(s[0], Shl(32, s[1], 8)))
  }

  function Uint3korr(s: Bytes): nat
    requires 3 <= |s|
  {
    Or(Or(s[0], Shl(32, s[1], 8)), Shl(32, s[2], 16))
  }

  function Uint4korr(s: Bytes): nat
    requires 4 <= |s|
  {
    Or(Or(Or(s[0], Shl(32, s[1], 8)), Shl(32, s[2], 16)), Shl(32, s[3], 24))
  }

  function Uint5korr(s: Bytes): nat
    requires 5 <= |s|
  {
    Or(Uint4korr(s), Shl(64, s[4], 32))
  }

  function Uint6korr(s: Bytes): nat
    requires 6 <= |s|
  {
    Or(Or(Uint4korr(s), Shl(64, s[4], 32)), Shl(64, s[5], 40))
  }

  function Uint8korr(s: Bytes): nat
    requires 8 <= |s|
  {
    Or(Uint4korr(s), Shl(64, Uint4korr(s[4..]), 32))
  }

  function Sint2korr(s: Bytes): int
    requires 2 <= |s|
  {
    Signed(16, Cast(16, Or(s[0], Shl(32, s[1], 8))))
  }

  function Sint3korr(s: Bytes): int
    requires 3 <= |s|
  {
    Signed(32, Cast(32, Sint3Word(s[0], s[1], s[2])))
  }

  /** The word inside sint3korr, before its cast to int32. */
  function Sint3Word(b0: byte, b1: byte, b2: byte): nat {
    if And(b2, 128) != 0 then
      Or(Or(Or(Shl(32, 255, 24), Shl(32, b2, 16)), Shl(32, b1, 8)), b0)
    else
      Or(Or(Shl(32, b2, 16), Shl(32, b1, 8)), b0)
  }

  function Sint4korr(s: Bytes): int
    requires 4 <= |s|
  {
    Signed(32, Cast(32, Uint4korr(s)))
  }

  function Sint8korr(s: Bytes): int
    requires 8 <= |s|
  {
    Signed(64, Cast(64, Uint8korr(s)))
  }

  // ---- the readers return the base-256 number of their bytes ----

  lemma OneByte(s: Bytes, w: nat, k: nat)
    requires k < |s| && 8 * (k + 1) <= w
    ensures Or(LittleValue(s[..k]), Shl(w, s[k], 8 * k)) == LittleValue(s[..k + 1])
  {
    OrJoins(w, s[..k], [s[k]]);
    assert s[..k + 1] == s[..k] + [s[k]];
    assert LittleValue([s[k]]) == s[k];
  }

  lemma ReadsLittleEndian(s: Bytes)
    ensures 2 <= |s| ==> Uint2korr(s) == LittleValue(s[..2])
    ensures 3 <= |s| ==> Uint3korr(s) == LittleValue(s[..3])
    ensures 4 <= |s| ==> Uint4korr(s) == LittleValue(s[..4])
    ensures 5 <= |s| ==> Uint5korr(s) == LittleValue(s[..5])
    ensures 6 <= |s| ==> Uint6korr(s) == LittleValue(s[..6])
    ensures 8 <= |s| ==> Uint8korr(s) == LittleValue(s[..8])
  {
    if 1 <= |s| { assert LittleValue(s[..1]) == s[0]; }
    if 2 <= |s| {
      OneByte(s, 32, 1);
      LittleBound(s[..2]);
      SmallMod(LittleValue(s[..2]), Pow2(16));
    }
    if 3 <= |s| { OneByte(s, 32, 2); }
    if 4 <= |s| { OneByte(s, 32, 3); }
    if 5 <= |s| { OneByte(s, 64, 4); }
    if 6 <= |s| { OneByte(s, 64, 5); }
    if 8 <= |s| { ReadsEight(s); }
  }

  lemma ReadsFour(s: Bytes)
    requires 4 <= |s|
    ensures Uint4korr(s) == LittleValue(s[..4])
  {
    assert LittleValue(s[..1]) == s[0];
    OneByte(s, 32, 1);
    OneByte(s, 32, 2);
    OneByte(s, 32, 3);
  }

  lemma ReadsEight(s: Bytes)
    requires 8 <= |s|
    ensures Uint8korr(s) == LittleValue(s[..8])
  {
    ReadsFour(s);
    ReadsFour(s[4..]);
    assert s[4..][..4] == s[4..8];
    assert s[..8] == s[..4] + s[4..8];
    OrJoins(64, s[..4], s[4..8]);
  }

  /** The signed readers return the two's-complement number of their bytes. */
  lemma ReadsTwosComplement(s: Bytes)
    ensures 2 <= |s| ==> LittleValue(s[..2]) < Pow2(16) && Sint2korr(s) == Signed(16, LittleValue(s[..2]))
    ensures 4 <= |s| ==> LittleValue(s[..4]) < Pow2(32) && Sint4korr(s) == Signed(32, LittleValue(s[..4]))
    ensures 8 <= |s| ==> LittleValue(s[..8]) < Pow2(64) && Sint8korr(s) == Signed(64, LittleValue(s[..8]))
  {
    ReadsLittleEndian(s);
    if 2 <= |s| { LittleBound(s[..2]); }
    if 4 <= |s| { LittleBound(s[..4]); SmallMod(LittleValue(s[..4]), Pow2(32)); }
    if 8 <= |s| { LittleBound(s[..8]); SmallMod(LittleValue(s[..8]), Pow2(64)); }
  }

  /** sint3korr extends the sign bit of byte 2 over the top byte of the word. */
  lemma ReadsSigned24(s: Bytes)
    requires 3 <= |s|
    ensures LittleValue(s[..3]) < Pow2(24)
    ensures Sint3korr(s) == Signed(24, LittleValue(s[..3]))
    ensures -0x80_0000 <= Sint3korr(s) < 0x80_0000
  {
    ThreeDigits(s);
    Pow2Values();
    Sint3WordMeaning(s[0], s[1], s[2]);
    SmallMod(Sint3Word(s[0], s[1], s[2]), Pow2(32));
  }

  /** The sign bit of the top byte fills the byte above it. */
  lemma Sint3WordMeaning(b0: byte, b1: byte, b2: byte)
    ensures Sint3Word(b0, b1, b2)
         == b0 as int + 256 * (b1 as int) + 65536 * (b2 as int) + (if 128 <= b2 then 0xFF00_0000 else 0)
  {
    Pow2Values();
    SignBit(b2);
    var top: nat := b2;
    ShlFits(32, top, 16);
    JoinFromTop(b0, b1, top);
    JoinFromTop(b0, b1, 255 * 256 + top);
    ShlFits(32, 255, 24);
    OrIsSum(24, top * 0x1_0000, 255);
  }

  lemma ThreeDigits(s: Bytes)
    requires 3 <= |s|
    ensures LittleValue(s[..3]) == s[0] as int + 256 * (s[1] as int) + 65536 * (s[2] as int)
  {
    var t := s[..3];
    assert t[1..] == [s[1], s[2]] && t[1..][1..] == [s[2]];
    assert LittleValue([s[2]]) == s[2];
    assert LittleValue(t[1..]) == s[1] as int + 256 * LittleValue([s[2]]);
  }

  lemma Pow2Values()
    ensures Pow2(7) == 128 && Pow2(8) == 0x100 && Pow2(15) == 0x8000 && Pow2(16) == 0x1_0000
    ensures Pow2(23) == 0x80_0000 && Pow2(24) == 0x100_0000
    ensures Pow2(31) == 0x8000_0000 && Pow2(32) == 0x1_0000_0000
  {
    assert Pow2(7) == 128;
    Pow2Add(7, 8);
    Pow2Add(8, 8);
    Pow2Add(15, 8);
    Pow2Add(16, 8);
    Pow2Add(23, 8);
    Pow2Add(24, 8);
  }

  lemma SignBit(b: byte)
    ensures And(b, 128) != 0 <==> 128 <= b
  {
    AndSingleBit(b, 7);
    TopBit(7, b);
    assert Pow2(7) == 128;
  }

  /** `high << 16 | b1 << 8 | b0`, joined from the top down. */
  lemma JoinFromTop(b0: byte, b1: byte, high: nat)
    requires high < 65536
    ensures Or(Or(high * Pow2(16), Shl(32, b1, 8)), b0) == b0 as int + 256 * (b1 as int) + 65536 * high
  {
    Pow2Values();
    var low: nat, mid: nat := b0, b1;
    ShlFits(32, mid, 8);
    OrIsSum(16, mid * 256, high);
    OrIsSum(8, low, mid + 256 * high);
  }

  // ---- the stores, byte by byte ----

  method Int2Store(t: array<byte>, o: nat, a: int)
    requires o + 2 <= t.Length
    modifies t
    ensures t[..] == Put(old(t[..]), o, LittleBytes(2, a))
  {
    var temp := Cast(32, a);
    t[o] := Uchar(temp);
    t[o + 1] := Uchar(Shr(temp, 8));
    ByteAt(2, temp, 0);
    ByteAt(2, temp, 1);
    PutIs(old(t[..]), t[..], o, LittleBytes(2, temp));
    BytesOfCast(2, 4, a);
  }

  method Int3Store(t: array<byte>, o: nat, a: int)
    requires o + 3 <= t.Length
    modifies t
    ensures t[..] == Put(old(t[..]), o, LittleBytes(3, a))
  {
    t[o] := Uchar(a);
    t[o + 1] := Uchar(Shr(a, 8));
    t[o + 2] := Uchar(Shr(a, 16));
    StoredBytes(old(t[..]), t[..], o, 3, a);
  }

  method Int4Store(t: array<byte>, o: nat, a: int)
    requires o + 4 <= t.Length
    modifies t
    ensures t[..] == Put(old(t[..]), o, LittleBytes(4, a))
  {
    t[o] := Uchar(a);
    t[o + 1] := Uchar(Shr(a, 8));
    t[o + 2] := Uchar(Shr(a, 16));
    t[o + 3] := Uchar(Shr(a, 24));
    StoredBytes(old(t[..]), t[..], o, 4, a);
  }

  method Int5Store(t: array<byte>, o: nat, a: int)
    requires o + 5 <= t.Length
    modifies t
    ensures t[..] == Put(old(t[..]), o, LittleBytes(5, a))
  {
    t[o] := Uchar(a);
    t[o + 1] := Uchar(Shr(a, 8));
    t[o + 2] := Uchar(Shr(a, 16));
    t[o + 3] := Uchar(Shr(a, 24));
    t[o + 4] := Uchar(Shr(a, 32));
    StoredBytes(old(t[..]), t[..], o, 5, a);
  }

  method Int6Store(t: array<byte>, o: nat, a: int)
    requires o + 6 <= t.Length
    modifies t
    ensures t[..] == Put(old(t[..]), o, LittleBytes(6, a))
  {
    t[o] := Uchar(a);
    t[o + 1] := Uchar(Shr(a, 8));
    t[o + 2] := Uchar(Shr(a, 16));
    t[o + 3] := Uchar(Shr(a, 24));
    t[o + 4] := Uchar(Shr(a, 32));
    t[o + 5] := Uchar(Shr(a, 40));
    StoredBytes(old(t[..]), t[..], o, 6, a);
  }

  method Int8Store(t: array<byte>, o: nat, a: int)
    requires o + 8 <= t.Length
    modifies t
    ensures t[..] == Put(old(t[..]), o, LittleBytes(8, a))
  {
    var temp := Cast(32, a);
    var temp2 := Cast(32, Shr(a, 32));
    Int4Store(t, o, temp);
    Int4Store(t, o + 4, temp2);
    BytesOfCast(4, 4, a);
    BytesOfCast(4, 4, Shr(a, 32));
    PutPut(old(t[..]), o, LittleBytes(4, temp), LittleBytes(4, temp2));
    BytesSplit(4, 4, a);
  }

  /** sint3korr and int3store are inverse in both directions: on every three
      bytes, and on every number from -2^23 to 2^23 - 1. */
  lemma Signed24RoundTrip(s: Bytes, v: int)
    requires |s| == 3 && -0x80_0000 <= v < 0x80_0000
    ensures LittleBytes(3, Sint3korr(s)) == s
    ensures Sint3korr(LittleBytes(3, v)) == v
  {
    assert s[..3] == s;
    ReadsSigned24(s);
    BytesOfSigned(3, s);
    var t := LittleBytes(3, v);
    assert t[..3] == t;
    ReadsSigned24(t);
    Pow2Values();
    SignedOfBytes(3, v);
  }

  /** Storing the signed value of n bytes gives them back. */
  lemma BytesOfSigned(n: nat, s: Bytes)
    requires 0 < n && |s| == n
    ensures LittleValue(s) < Pow2(8 * n)
    ensures LittleBytes(n, Signed(8 * n, LittleValue(s))) == s
  {
    LittleBound(s);
    var u := LittleValue(s);
    var v := Signed(8 * n, u);
    CastOfSigned(8 * n, u);
    BytesOfCast(n, n, v);
    BytesOfLittle(s);
  }

  /** The signed value of the stored bytes of v is v, when v has that many bits. */
  lemma SignedOfBytes(n: nat, v: int)
    requires 0 < n && 0 - Pow2(8 * n - 1) <= v < Pow2(8 * n - 1)
    ensures LittleValue(LittleBytes(n, v)) < Pow2(8 * n)
    ensures Signed(8 * n, LittleValue(LittleBytes(n, v))) == v
  {
    LittleOfBytes(n, v);
    SignedOfCast(8 * n, v);
  }

  lemma CastOfSigned(w: nat, u: nat)
    requires 0 < w && u < Pow2(w)
    ensures Cast(w, Signed(w, u)) == u
  {
    ModUnique(Signed(w, u), Pow2(w), if u < Pow2(w - 1) then 0 else -1, u);
  }

  lemma SignedOfCast(w: nat, v: int)
    requires 0 < w && 0 - Pow2(w - 1) <= v < Pow2(w - 1)
    ensures Signed(w, Cast(w, v)) == v
  {
    ModUnique(v, Pow2(w), if 0 <= v then 0 else -1, if 0 <= v then v else v + Pow2(w));
  }
}
