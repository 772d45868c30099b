/** Records of integers: fields of mixed widths laid out side by side, written in
    any order with intNstore and read back with uintNkorr. */
module Fields {
  import opened Bits
  import opened Endian
  import opened ByteOrderGeneric

  datatype Field = Field(width: nat, value: int) {
    predicate Valid() { width in {2, 3, 4, 5, 6, 8} }
  }

  type Layout = fs: seq<Field> | forall k :: 0 <= k < |fs| ==> fs[k].Valid()

  /** Where field i of the record starts. */
  function Offset(fs: Layout, i: nat): nat
    requires i <= |fs|
  {
    if i == 0 then 0 else Offset(fs, i - 1) + fs[i - 1].width
  }

  /** The uintNkorr of the given width. */
  function Korr(width: nat, s: Bytes): nat
    requires width in {2, 3, 4, 5, 6, 8} && width <= |s|
  {
    match width
    case 2 => Uint2korr(s)
    case 3 => Uint3korr(s)
    case 4 => Uint4korr(s)
    case 5 => Uint5korr(s)
    case 6 => Uint6korr(s)
    case _ => Uint8korr(s)
  }

  function Digits(f: Field): (b: Bytes)
    ensures |b| == f.width
  {
    LittleBytes(f.width, f.value)
  }

  ghost predicate Fits(buf: Bytes, base: nat, fs: Layout, order: seq<nat>) {
    base + Offset(fs, |fs|) <= |buf| && forall k :: 0 <= k < |order| ==> order[k] < |fs|
  }

  /** The memory after the fields named in order are stored one after another. */
  ghost function StoredInOrder(buf: Bytes, base: nat, fs: Layout, order: seq<nat>): (r: Bytes)
    requires Fits(buf, base, fs, order)
    ensures |r| == |buf|
  {
    if order == [] then buf
    else
      var i := order[|order| - 1];
      var before := StoredInOrder(buf, base, fs, order[..|order| - 1]);
      OffsetGrows(fs, i, |fs|);
      Put(before, base + Offset(fs, i), Digits(fs[i]))
  }

  lemma {:induction false} OffsetGrows(fs: Layout, i: nat, j: nat)
    requires i <= j <= |fs|
    ensures i < j ==> Offset(fs, i) + fs[i].width <= Offset(fs, j)
    ensures Offset(fs, i) <= Offset(fs, j)
    decreases j
  {
    if i < j { OffsetGrows(fs, i, j - 1); }
  }

  method StoreField(t: array<byte>, o: nat, f: Field)
    requires f.Valid() && o + f.width <= t.Length
    modifies t
    ensures t[..] == Put(old(t[..]), o, Digits(f))
  {
    match f.width {
      case 2 => Int2Store(t, o, f.value);
      case 3 => Int3Store(t, o, f.value);
      case 4 => Int4Store(t, o, f.value);
      case 5 => Int5Store(t, o, f.value);
      case 6 => Int6Store(t, o, f.value);
      case _ => Int8Store(t, o, f.value);
    }
  }

  lemma StoredNext(buf: Bytes, base: nat, fs: Layout, order: seq<nat>, k: nat)
    requires Fits(buf, base, fs, order) && k < |order|
    ensures Offset(fs, order[k]) + fs[order[k]].width <= Offset(fs, |fs|)
    ensures StoredInOrder(buf, base, fs, order[..k + 1])
         == Put(StoredInOrder(buf, base, fs, order[..k]), base + Offset(fs, order[k]), Digits(fs[order[k]]))
  {
    OffsetGrows(fs, order[k], |fs|);
    assert order[..k + 1][..k] == order[..k];
  }

  /** A user of the macros that stores fields in an arbitrary order. */
  method StoreRecord(t: array<byte>, base: nat, fs: Layout, order: seq<nat>)
    requires Fits(t[..], base, fs, order)
    modifies t
    ensures t[..] == StoredInOrder(old(t[..]), base, fs, order)
  {
    for k := 0 to |order|
      invariant t[..] == StoredInOrder(old(t[..]), base, fs, order[..k])
    {
      StoredNext(old(t[..]), base, fs, order, k);
      StoreField(t, base + Offset(fs, order[k]), fs[order[k]]);
    }
    assert order[..|order|] == order;
  }

  /** The memory r holds the bytes b at offset x. */
  predicate Holds(r: Bytes, x: nat, b: Bytes) {
    x + |b| <= |r| && r[x..x + |b|] == b
  }

  lemma PutHolds(s: Bytes, o: nat, b: Bytes)
    requires o + |b| <= |s|
    ensures Holds(Put(s, o, b), o, b)
  {}

  lemma PutElsewhere(s: Bytes, o: nat, b: Bytes, x: nat, c: Bytes)
    requires o + |b| <= |s| && Holds(s, x, c) && (x + |c| <= o || o + |b| <= x)
    ensures Holds(Put(s, o, b), x, c)
  {}

  /** Two fields do not overlap. */
  lemma Apart(fs: Layout, i: nat, j: nat)
    requires i < |fs| && j < |fs| && i != j
    ensures Offset(fs, i) + fs[i].width <= Offset(fs, j) || Offset(fs, j) + fs[j].width <= Offset(fs, i)
  {
    if i < j { OffsetGrows(fs, i, j); } else { OffsetGrows(fs, j, i); }
  }

  /** A store of field j leaves field i alone. */
  lemma HeldByOthers(before: Bytes, base: nat, fs: Layout, j: nat, i: nat, b: Bytes)
    requires i < |fs| && j < |fs| && i != j && |b| == fs[i].width && base + Offset(fs, |fs|) <= |before|
    requires Holds(before, base + Offset(fs, i), b)
    ensures Offset(fs, j) + fs[j].width <= Offset(fs, |fs|)
    ensures Holds(Put(before, base + Offset(fs, j), Digits(fs[j])), base + Offset(fs, i), b)
  {
    Apart(fs, i, j);
    OffsetGrows(fs, j, |fs|);
    PutElsewhere(before, base + Offset(fs, j), Digits(fs[j]), base + Offset(fs, i), b);
  }

  /** A store of field j puts its digits there. */
  lemma HeldAfterStore(before: Bytes, base: nat, fs: Layout, j: nat)
    requires j < |fs| && base + Offset(fs, |fs|) <= |before|
    ensures Offset(fs, j) + fs[j].width <= Offset(fs, |fs|)
    ensures Holds(Put(before, base + Offset(fs, j), Digits(fs[j])), base + Offset(fs, j), Digits(fs[j]))
  {
    OffsetGrows(fs, j, |fs|);
    PutHolds(before, base + Offset(fs, j), Digits(fs[j]));
  }

  /** Whatever was stored in whatever order, a stored field holds its digits. */
  lemma {:induction false} StoredHolds(buf: Bytes, base: nat, fs: Layout, order: seq<nat>, i: nat)
    requires Fits(buf, base, fs, order) && i < |fs| && i in order
    ensures Holds(StoredInOrder(buf, base, fs, order), base + Offset(fs, i), Digits(fs[i]))
  {
    var front, j := order[..|order| - 1], order[|order| - 1];
    if i == j {
      HeldAfterStore(StoredInOrder(buf, base, fs, front), base, fs, i);
    } else {
      assert order == front + [j];
      StoredHolds(buf, base, fs, front, i);
      HeldByOthers(StoredInOrder(buf, base, fs, front), base, fs, j, i, Digits(fs[i]));
    }
  }

  /** A field that was not stored holds what it held. */
  lemma {:induction false} OthersHold(buf: Bytes, base: nat, fs: Layout, order: seq<nat>, i: nat, b: Bytes)
    requires Fits(buf, base, fs, order) && i < |fs| && i !in order && |b| == fs[i].width
    requires Holds(buf, base + Offset(fs, i), b)
    ensures Holds(StoredInOrder(buf, base, fs, order), base + Offset(fs, i), b)
  {
    if order != [] {
      var front, j := order[..|order| - 1], order[|order| - 1];
      OthersHold(buf, base, fs, front, i, b);
      HeldByOthers(StoredInOrder(buf, base, fs, front), base, fs, j, i, b);
    }
  }

  /** The digits of the fields, one field after another. */
  function AllDigits(fs: Layout): Bytes {
    if fs == [] then [] else AllDigits(fs[..|fs| - 1]) + Digits(fs[|fs| - 1])
  }

  lemma HoldsBoth(r: Bytes, x: nat, a: Bytes, b: Bytes)
    requires Holds(r, x, a) && Holds(r, x + |a|, b)
    ensures Holds(r, x, a + b)
  {
    assert r[x..x + |a + b|] == r[x..x + |a|] + r[x + |a|..x + |a| + |b|];
  }

  lemma MoreDigits(fs: Layout, n: nat)
    requires n < |fs|
    ensures AllDigits(fs[..n + 1]) == AllDigits(fs[..n]) + Digits(fs[n])
  {
    assert fs[..n + 1][..n] == fs[..n];
  }

  /** The digits so far and those of the next field lie side by side. */
  lemma OneMoreField(r: Bytes, base: nat, fs: Layout, n: nat)
    requires n < |fs| && |AllDigits(fs[..n])| == Offset(fs, n) && Holds(r, base, AllDigits(fs[..n]))
    requires Holds(r, base + Offset(fs, n), Digits(fs[n]))
    ensures |AllDigits(fs[..n + 1])| == Offset(fs, n + 1) && Holds(r, base, AllDigits(fs[..n + 1]))
  {
    MoreDigits(fs, n);
    HoldsBoth(r, base, AllDigits(fs[..n]), Digits(fs[n]));
  }

  lemma {:induction false} DigitsUpTo(buf: Bytes, base: nat, fs: Layout, order: seq<nat>, n: nat)
    requires Fits(buf, base, fs, order) && n <= |fs| && forall i :: 0 <= i < |fs| ==> i in order
    ensures |AllDigits(fs[..n])| == Offset(fs, n)
    ensures Holds(StoredInOrder(buf, base, fs, order), base, AllDigits(fs[..n]))
    decreases n
  {
    if n > 0 {
      DigitsUpTo(buf, base, fs, order, n - 1);
      StoredHolds(buf, base, fs, order, n - 1);
      OneMoreField(StoredInOrder(buf, base, fs, order), base, fs, n - 1);
    }
  }

  /** With every field stored, in whatever order, the record is the digits of its
      fields side by side from its first byte on, without padding. */
  lemma RecordIsAllDigits(buf: Bytes, base: nat, fs: Layout, order: seq<nat>)
    requires Fits(buf, base, fs, order) && forall i :: 0 <= i < |fs| ==> i in order
    ensures var n := |AllDigits(fs)|;
      base + n <= |buf| && StoredInOrder(buf, base, fs, order)[base..base + n] == AllDigits(fs)
  {
    DigitsUpTo(buf, base, fs, order, |fs|);
    assert fs[..|fs|] == fs;
  }

  /** No store touches a byte outside the record. */
  lemma {:induction false} OutsideUntouched(buf: Bytes, base: nat, fs: Layout, order: seq<nat>, p: nat)
    requires Fits(buf, base, fs, order) && p < |buf|
    requires p < base || base + Offset(fs, |fs|) <= p
    ensures StoredInOrder(buf, base, fs, order)[p] == buf[p]
  {
    if order != [] {
      var i := order[|order| - 1];
      OutsideUntouched(buf, base, fs, order[..|order| - 1], p);
      OffsetGrows(fs, i, |fs|);
      OffsetGrows(fs, 0, i);
    }
  }

  /** Whatever the order of the stores, each stored field reads back its value
      modulo 256^width, and each field not stored reads back what it held. */
  lemma RecordRoundTrip(buf: Bytes, base: nat, fs: Layout, order: seq<nat>, i: nat)
    requires Fits(buf, base, fs, order) && i < |fs|
    ensures Offset(fs, i) + fs[i].width <= Offset(fs, |fs|)
    ensures var o := base + Offset(fs, i);
      Korr(fs[i].width, StoredInOrder(buf, base, fs, order)[o..])
      == if i in order then fs[i].value % Pow2(8 * fs[i].width) else Korr(fs[i].width, buf[o..])
  {
    OffsetGrows(fs, i, |fs|);
    var w, o, r := fs[i].width, base + Offset(fs, i), StoredInOrder(buf, base, fs, order);
    if i in order {
      StoredHolds(buf, base, fs, order, i);
      KorrOfHeld(w, r, o, Digits(fs[i]));
      LittleOfBytes(w, fs[i].value);
    } else {
      OthersHold(buf, base, fs, order, i, buf[o..o + w]);
      KorrOfHeld(w, r, o, buf[o..o + w]);
      KorrOfHeld(w, buf, o, buf[o..o + w]);
    }
  }

  lemma KorrOfHeld(w: nat, r: Bytes, o: nat, b: Bytes)
    requires w in {2, 3, 4, 5, 6, 8} && |b| == w && Holds(r, o, b)
    ensures Korr(w, r[o..]) == LittleValue(b)
  {
    assert r[o..][..w] == r[o..o + w];
    KorrIsLittleValue(w, r[o..]);
  }

  lemma KorrIsLittleValue(w: nat, s: Bytes)
    requires w in {2, 3, 4, 5, 6, 8} && w <= |s|
    ensures Korr(w, s) == LittleValue(s[..w])
  {
    ReadsLittleEndian(s);
  }
}
