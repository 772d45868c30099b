/** big_endian.h, little_endian.h and int4net of my_byteorder.h: machine formats.

    A float or double is its IEEE image, a number of 32 or 64 bits. A host is the
    order in which it keeps the bytes of that image in its own memory. */
module HostFormats {
  import opened Bits
  import opened Endian
  import Generic = ByteOrderGeneric
  import X86 = ByteOrderX86

  datatype Host = LittleHost | BigHost | WordSwappedHost

  /** The memory of an n-byte image on a host. Only doubles are word-swapped. */
  function Image(h: Host, n: nat, bits: nat): (m: Bytes)
    requires h.WordSwappedHost? ==> n == 8
    ensures |m| == n
  {
    match h
    case LittleHost => LittleBytes(n, bits)
    case BigHost => Reverse(LittleBytes(n, bits))
    case WordSwappedHost => LittleBytes(4, Shr(bits, 32)) + LittleBytes(4, bits)
  }

  /** What the store macros of a host write for the memory m of a value. */
  function Stored(h: Host, m: Bytes): (s: Bytes)
    requires h.WordSwappedHost? ==> |m| == 8
    ensures |s| == |m|
  {
    match h
    case LittleHost => m
    case BigHost => Reverse(m)
    case WordSwappedHost => m[4..] + m[..4]
  }

  // ---- the macros ----

  /** big_endian.h: float4store */
  method BigFloat4Store(t: array<byte>, o: nat, m: Bytes)
    requires o + 4 <= t.Length && |m| == 4
    modifies t
    ensures t[..] == Put(old(t[..]), o, Stored(BigHost, m))
  {
    t[o] := m[3];
    t[o + 1] := m[2];
    t[o + 2] := m[1];
    t[o + 3] := m[0];
    PutIs(old(t[..]), t[..], o, Reverse(m));
  }

  /** big_endian.h: float8store */
  method BigFloat8Store(t: array<byte>, o: nat, m: Bytes)
    requires o + 8 <= t.Length && |m| == 8
    modifies t
    ensures t[..] == Put(old(t[..]), o, Stored(BigHost, m))
  {
    t[o] := m[7];
    t[o + 1] := m[6];
    t[o + 2] := m[5];
    t[o + 3] := m[4];
    t[o + 4] := m[3];
    t[o + 5] := m[2];
    t[o + 6] := m[1];
    t[o + 7] := m[0];
    PutIs(old(t[..]), t[..], o, Reverse(m));
  }

  /** big_endian.h: float4get; the result is the memory of the value read. */
  method BigFloat4Get(s: Bytes) returns (m: Bytes)
    requires 4 <= |s|
    ensures |m| == 4 && Stored(BigHost, m) == s[..4]
  {
    var temp := new byte[4];
    temp[0] := s[3];
    temp[1] := s[2];
    temp[2] := s[1];
    temp[3] := s[0];
    m := temp[..];
  }

  /** big_endian.h: float8get */
  method BigFloat8Get(s: Bytes) returns (m: Bytes)
    requires 8 <= |s|
    ensures |m| == 8 && Stored(BigHost, m) == s[..8]
  {
    var temp := new byte[8];
    temp[0] := s[7];
    temp[1] := s[6];
    temp[2] := s[5];
    temp[3] := s[4];
    temp[4] := s[3];
    temp[5] := s[2];
    temp[6] := s[1];
    temp[7] := s[0];
    m := temp[..];
  }

  /** little_endian.h: doublestore where the two words of a double are swapped */
  method SwappedDoubleStore(t: array<byte>, o: nat, m: Bytes)
    requires o + 8 <= t.Length && |m| == 8
    modifies t
    ensures t[..] == Put(old(t[..]), o, Stored(WordSwappedHost, m))
  {
    t[o] := m[4];
    t[o + 1] := m[5];
    t[o + 2] := m[6];
    t[o + 3] := m[7];
    t[o + 4] := m[0];
    t[o + 5] := m[1];
    t[o + 6] := m[2];
    t[o + 7] := m[3];
    PutIs(old(t[..]), t[..], o, m[4..] + m[..4]);
  }

  /** little_endian.h: doubleget where the two words of a double are swapped */
  method SwappedDoubleGet(s: Bytes) returns (m: Bytes)
    requires 8 <= |s|
    ensures |m| == 8 && Stored(WordSwappedHost, m) == s[..8]
  {
    var temp := new byte[8];
    temp[0] := s[4];
    temp[1] := s[5];
    temp[2] := s[6];
    temp[3] := s[7];
    temp[4] := s[0];
    temp[5] := s[1];
    temp[6] := s[2];
    temp[7] := s[3];
    m := temp[..];
  }

  /** byte_order_generic_x86.h: doublestore copies the two 32-bit halves. */
  method X86DoubleStore(t: array<byte>, o: nat, m: Bytes)
    requires o + 8 <= t.Length && |m| == 8
    modifies t
    ensures t[..] == Put(old(t[..]), o, Stored(LittleHost, m))
  {
    assert m[..4] + m[4..] == m;
    LittleBound(m[..4]);
    LittleBound(m[4..][..4]);
    BytesOfLittle(m[..4]);
    BytesOfLittle(m[4..]);
    assert m[4..][..4] == m[4..];
    X86.HostStore(t, o, 4, X86.HostLoad(4, m));
    X86.HostStore(t, o + 4, 4, X86.HostLoad(4, m[4..]));
    PutPut(old(t[..]), o, m[..4], m[4..]);
  }

  /** byte_order_generic_x86.h: doubleget loads the two halves into a union. */
  method X86DoubleGet(s: Bytes) returns (m: Bytes)
    requires 8 <= |s|
    ensures |m| == 8 && Stored(LittleHost, m) == s[..8]
  {
    var temp := new byte[8];
    var low, high := s[..4], s[4..][..4];
    LittleBound(low);
    LittleBound(high);
    BytesOfLittle(low);
    BytesOfLittle(high);
    ghost var m0 := temp[..];
    X86.HostStore(temp, 0, 4, X86.HostLoad(4, s));
    X86.HostStore(temp, 4, 4, X86.HostLoad(4, s[4..]));
    PutPut(m0, 0, low, high);
    assert Put(m0, 0, low + high) == low + high == s[..8];
    m := temp[..];
  }

  // ---- host independence ----

  lemma {:induction false} ReverseTwice(s: Bytes)
    ensures Reverse(Reverse(s)) == s
  {
    if s != [] {
      ReverseTwice(s[1..]);
      ReverseAppend(Reverse(s[1..]), [s[0]]);
    }
  }

  /** Every host stores the same bytes for the same float or double, namely its
      image low byte first. */
  lemma StoredFormatIsHostIndependent(h: Host, n: nat, bits: nat)
    requires h.WordSwappedHost? ==> n == 8
    ensures Stored(h, Image(h, n, bits)) == LittleBytes(n, bits)
  {
    match h {
      case LittleHost =>
      case BigHost => ReverseTwice(LittleBytes(n, bits));
      case WordSwappedHost => BytesSplit(4, 4, bits);
    }
  }

  /** Storing loses nothing: two memories with the same stored bytes are equal, so
      the memory a get macro finds is the one that was stored. */
  lemma StoredIsInjective(h: Host, m: Bytes, m': Bytes)
    requires |m| == |m'| && (h.WordSwappedHost? ==> |m| == 8)
    requires Stored(h, m) == Stored(h, m')
    ensures m == m'
  {
    match h {
      case LittleHost =>
      case BigHost => ReverseTwice(m); ReverseTwice(m');
      case WordSwappedHost =>
        assert m == (m[4..] + m[..4])[4..] + (m[4..] + m[..4])[..4];
        assert m' == (m'[4..] + m'[..4])[4..] + (m'[4..] + m'[..4])[..4];
    }
  }

  /** A float or double stored on one host and read on another keeps its image. */
  lemma CrossHostRoundTrip(writer: Host, reader: Host, n: nat, bits: nat, m: Bytes)
    requires writer.WordSwappedHost? || reader.WordSwappedHost? ==> n == 8
    requires |m| == n && Stored(reader, m) == Stored(writer, Image(writer, n, bits))
    ensures m == Image(reader, n, bits)
  {
    StoredFormatIsHostIndependent(writer, n, bits);
    StoredFormatIsHostIndependent(reader, n, bits);
    StoredIsInjective(reader, m, Image(reader, n, bits));
  }

  // ---- network byte order ----

  /** my_byteorder.h: int4net */
  function Int4Net(s: Bytes): int
    requires 4 <= |s|
  {
    Signed(32, Cast(32, Or(Or(Or(s[3], Shl(32, s[2], 8)), Shl(32, s[1], 16)), Shl(32, s[0], 24))))
  }

  /** big_endian.h: longstore */
  method LongStore(t: array<byte>, o: nat, a: int)
    requires o + 4 <= t.Length
    modifies t
    ensures t[..] == Put(old(t[..]), o, Reverse(LittleBytes(4, a)))
  {
    t[o + 3] := Uchar(a);
    t[o + 2] := Uchar(Shr(a, 8));
    t[o + 1] := Uchar(Shr(a, 16));
    t[o] := Uchar(Shr(a, 24));
    FourDigits(a);
    PutIs(old(t[..]), t[..], o, Reverse(LittleBytes(4, a)));
  }

  lemma FourDigits(a: int)
    ensures LittleBytes(4, a) == [Uchar(a), Uchar(Shr(a, 8)), Uchar(Shr(a, 16)), Uchar(Shr(a, 24))]
  {
    ByteAt(4, a, 0);
    ByteAt(4, a, 1);
    ByteAt(4, a, 2);
    ByteAt(4, a, 3);
  }

  /** int4net reads high byte first: it is sint4korr on the reversed bytes. */
  lemma Int4NetIsReversed(s: Bytes)
    requires |s| == 4
    ensures Int4Net(s) == Generic.Sint4korr(Reverse(s))
    ensures BigValue(s) < Pow2(32) && Int4Net(s) == Signed(32, BigValue(s))
  {
    var r := Reverse(s);
    assert r[..4] == r;
    Generic.ReadsTwosComplement(r);
    BigIsReversedLittle(s);
  }

  /** int4net and the big-endian longstore are inverse, for every 32-bit value and
      for every four bytes. */
  lemma Int4NetInvertsLongStore(a: int, s: Bytes)
    requires -0x8000_0000 <= a < 0x8000_0000 && |s| == 4
    ensures Int4Net(Reverse(LittleBytes(4, a))) == a
    ensures Reverse(LittleBytes(4, Int4Net(s))) == s
  {
    Generic.Pow2Values();
    var d, r := LittleBytes(4, a), Reverse(s);
    ReverseTwice(d);
    ReverseTwice(s);
    Int4NetIsReversed(Reverse(d));
    Int4NetIsReversed(s);
    BigIsReversedLittle(Reverse(d));
    BigIsReversedLittle(s);
    Generic.SignedOfBytes(4, a);
    Generic.BytesOfSigned(4, r);
  }
}
