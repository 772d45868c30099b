/** What a buffered cache of my_sys.h is for: a plain stream of bytes over a file. */
module ByteStream {
  import opened Endian
  import opened Wrappers

  // ---- reading ----

  /** A file and the offset of the next byte to deliver. */
  datatype Reader = Reader(file: Bytes, pos: nat)

  /** The next n bytes, or None when the file has fewer left. */
  function Take(r: Reader, n: nat): (o: Option<Bytes>) {
    if r.pos + n <= |r.file| then Some(r.file[r.pos..r.pos + n]) else None
  }

  function Advance(r: Reader, n: nat): Reader {
    r.(pos := r.pos + n)
  }

  lemma TakeIs(r: Reader, n: nat, b: Bytes)
    requires r.pos + n <= |r.file| && |b| == n
    requires forall i :: 0 <= i < n ==> b[i] == r.file[r.pos + i]
    ensures Take(r, n) == Some(b)
  {
    assert r.file[r.pos..r.pos + n] == b;
  }

  /** n single-byte reads in a row. */
  function TakeSingles(r: Reader, n: nat): Option<Bytes>
    decreases n
  {
    if n == 0 then (if r.pos <= |r.file| then Some([]) else None)
    else match Take(r, 1)
      case None => None
      case Some(b) =>
        match TakeSingles(Advance(r, 1), n - 1)
        case None => None
        case Some(rest) => Some(b + rest)
  }

  /** Two reads in a row are one read of both lengths. */
  lemma TakeTake(r: Reader, m: nat, n: nat)
    ensures Take(r, m + n) ==
            if Take(r, m).Some? && Take(Advance(r, m), n).Some?
            then Some(Take(r, m).value + Take(Advance(r, m), n).value) else None
  {
    if r.pos + m + n <= |r.file| {
      assert r.file[r.pos..r.pos + m + n] == r.file[r.pos..r.pos + m] + r.file[r.pos + m..r.pos + m + n];
    }
  }

  /** Reading n bytes at once delivers what n single reads deliver, and fails when
      they do. */
  lemma {:induction false} BulkIsSingles(r: Reader, n: nat)
    ensures Take(r, n) == TakeSingles(r, n)
    decreases n
  {
    if n == 0 {
      if r.pos <= |r.file| { TakeIs(r, 0, []); }
    } else {
      BulkIsSingles(Advance(r, 1), n - 1);
      TakeTake(r, 1, n - 1);
      assert 1 + (n - 1) == n;
    }
  }

  // ---- writing ----

  /** The file after data is written from offset pos on, over what was there. */
  function Splice(file: Bytes, pos: nat, data: Bytes): (r: Bytes)
    requires pos <= |file|
    ensures |r| == if pos + |data| <= |file| then |file| else pos + |data|
  {
    file[..pos] + data + (if pos + |data| <= |file| then file[pos + |data|..] else [])
  }

  /** Byte by byte: the data where they were written, and everywhere else the file
      as it was. */
  lemma SpliceAt(file: Bytes, pos: nat, data: Bytes, i: nat)
    requires pos <= |file| && i < |Splice(file, pos, data)|
    ensures !(pos <= i < pos + |data|) ==> i < |file|
    ensures Splice(file, pos, data)[i] == if pos <= i < pos + |data| then data[i - pos] else file[i]
  {}

  /** after is before with data written over it from offset pos on: the data in
      their place, the old bytes in front of them, and the old bytes behind them if
      the write ended inside. */
  ghost predicate Overwritten(before: Bytes, pos: nat, data: Bytes, after: Bytes) {
    var end := pos + |data|;
    && pos <= |before| && |after| == (if end <= |before| then |before| else end)
    && after[..pos] == before[..pos]
    && after[pos..end] == data
    && (end <= |before| ==> after[end..] == before[end..])
  }

  lemma SpliceOverwrites(file: Bytes, pos: nat, data: Bytes)
    requires pos <= |file|
    ensures Overwritten(file, pos, data, Splice(file, pos, data))
  {
    var r, end := Splice(file, pos, data), pos + |data|;
    forall i | 0 <= i < |r| ensures r[i] == if pos <= i < end then data[i - pos] else file[i] {
      SpliceAt(file, pos, data, i);
    }
    assert r[..pos] == file[..pos];
    assert r[pos..end] == data;
    assert end <= |file| ==> r[end..] == file[end..];
  }

  /** Writing a then b behind it is writing a + b. */
  lemma SpliceSplice(file: Bytes, pos: nat, a: Bytes, b: Bytes)
    requires pos <= |file|
    ensures Splice(Splice(file, pos, a), pos + |a|, b) == Splice(file, pos, a + b)
  {}

  /** At the end of the file, writing appends. */
  lemma SpliceAtEnd(file: Bytes, data: Bytes)
    ensures Splice(file, |file|, data) == file + data
  {}
}
