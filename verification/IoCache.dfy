/** IO_CACHE of my_sys.h: a window of a file kept in memory.

    A pointer into a buffer is its offset from the start of that buffer. The
    inline functions are modelled as written. The functions behind them
    (_my_b_read, _my_b_get, _my_b_write, my_b_flush_io_cache and the
    initialisation) are only declared in the header; the bodies marked ASSUMED
    are the least that the header's comments ask of them. */
module IoCache {
  import opened Endian
  import opened ByteStream
  import opened Wrappers

  datatype CacheType = READ_CACHE | WRITE_CACHE

  const MY_B_EOF: int := -0x8000_0000

  class IO_CACHE {
    const kind: CacheType
    const buffer: array<byte>
    const writeBuffer: array<byte>
    var posInFile: nat
    var readPos: nat
    var readEnd: nat
    var requestPos: nat
    var writePos: nat
    var writeEnd: nat
    var error: int
    /** The file, how many more bytes the disk accepts, and whether it answers reads. */
    var file: Bytes
    var room: nat
    var healthy: bool

    ghost predicate Valid()
      reads this, buffer, writeBuffer
    {
      && 0 < buffer.Length && 0 < writeBuffer.Length
      && requestPos == 0
      && match kind
         case READ_CACHE =>
           && readPos <= readEnd <= buffer.Length
           && posInFile + readEnd <= |file|
           && buffer[..readEnd] == file[posInFile..posInFile + readEnd]
         case WRITE_CACHE =>
           && writePos <= writeEnd <= writeBuffer.Length
           && posInFile <= |file|
    }

    // ---- what the cache stands for ----

    /** A read cache is a stream at the first byte not yet delivered. */
    ghost function Stream(): (r: Reader)
      requires kind == READ_CACHE
      reads this
    {
      Reader(file, posInFile + readPos)
    }

    /** A write cache is the file with the buffered bytes already in place. */
    ghost function Content(): (c: Bytes)
      requires Valid() && kind == WRITE_CACHE
      reads this, buffer, writeBuffer
    {
      Splice(file, posInFile, writeBuffer[..writePos])
    }

    /** data has been written from offset start on over a file that held c0. */
    ghost predicate Wrote(c0: Bytes, start: nat, data: Bytes)
      reads this, buffer, writeBuffer
    {
      && Valid() && kind == WRITE_CACHE && start <= |c0|
      && WriteTell() == start + |data|
      && Content() == Splice(c0, start, data)
    }

    lemma WroteMore(c0: Bytes, start: nat, data: Bytes, c1: Bytes, more: Bytes)
      requires start <= |c0| && c1 == Splice(c0, start, data)
      requires Wrote(c1, start + |data|, more)
      ensures Wrote(c0, start, data + more)
    {
      SpliceSplice(c0, start, data, more);
    }

    lemma WroteNothing()
      requires Valid() && kind == WRITE_CACHE
      ensures Wrote(Content(), WriteTell(), [])
    {
      var c0, start := Content(), WriteTell();
      assert Splice(c0, start, []) == c0;
    }

    // ---- my_b_tell and its relatives ----

    function Tell(): (p: nat)
      requires Valid()
      reads this, buffer, writeBuffer
      ensures kind == READ_CACHE ==> p == Stream().pos
      ensures kind == WRITE_CACHE ==> p == WriteTell()
    {
      if kind == WRITE_CACHE then posInFile + (writePos - requestPos)
      else posInFile + (readPos - requestPos)
    }

    function WriteTell(): (p: nat)
      reads this
    {
      posInFile + writePos
    }

    /** How many bytes the disk would still accept once it has those in the buffer;
        negative when it will refuse some of them. */
    function Spare(): int
      reads this
    {
      room - writePos
    }

    function BytesInBuffer(): nat
      requires Valid() && kind == READ_CACHE
      reads this, buffer, writeBuffer
    {
      readEnd - requestPos
    }

    function BytesInCache(): nat
      requires Valid()
      reads this, buffer, writeBuffer
    {
      if kind == WRITE_CACHE then writeEnd - writePos else readEnd - readPos
    }

    /** Position and bytes left always reach the end of the window. */
    lemma TellReachesWindowEnd()
      requires Valid() && kind == READ_CACHE
      ensures Tell() + BytesInCache() == posInFile + BytesInBuffer() <= |file|
      ensures Take(Stream(), BytesInCache()).Some?
      ensures Take(Stream(), BytesInCache()).value == buffer[readPos..readEnd]
    {
      assert buffer[readPos..readEnd] == buffer[..readEnd][readPos..];
    }

    /** On a write cache the bytes in cache are the room left in the window. */
    lemma WriteTellReachesWindowEnd()
      requires Valid() && kind == WRITE_CACHE
      ensures WriteTell() + BytesInCache() == posInFile + writeEnd
      ensures BytesInCache() == 0 <==> WriteTell() == posInFile + writeEnd
    {}

    /** ASSUMED initialisation: an empty window at the given offset of the file. */
    constructor (kind: CacheType, size: nat, file: Bytes, offset: nat, room: nat, healthy: bool)
      requires 0 < size && offset <= |file|
      ensures Valid() && fresh(buffer) && fresh(writeBuffer)
      ensures this.kind == kind && this.file == file && this.room == room && this.healthy == healthy
      ensures Tell() == offset && Spare() == room
      ensures kind == READ_CACHE ==> BytesInCache() == 0
      ensures kind == WRITE_CACHE ==> Content() == file
    {
      this.kind := kind;
      buffer := new byte[size];
      writeBuffer := new byte[size];
      posInFile, readPos, readEnd, requestPos := offset, 0, 0, 0;
      writePos, writeEnd, error := 0, size, 0;
      this.file, this.room, this.healthy := file, room, healthy;
      new;
      assert Splice(file, offset, []) == file;
    }

    // ---- reading ----

    /** The outcome of a read of count bytes that began at stream r: complete, or
        cut short by the end of the file with error telling how many bytes there
        were, or stopped by a disk that does not answer, with error -1. */
    ghost predicate Delivered(r: Reader, count: nat, dst: Bytes, rc: int)
      requires Valid() && kind == READ_CACHE
      reads this, buffer, writeBuffer
    {
      if rc == 0 then
        && count <= |dst| && Take(r, count) == Some(dst[..count])
        && Stream() == Advance(r, count)
      else if error == -1 then
        rc == 1 && !healthy
      else
        && rc == 1 && Take(r, count).None?
        && 0 <= error <= |dst| && Take(r, error) == Some(dst[..error])
        && r.pos + error == |file|
    }

    /** my_b_read: what the window holds is delivered whatever the disk does, and
        needs no new window; a disk that does not answer delivers no more than that. */
    method Read(dst: array<byte>, count: nat) returns (rc: int)
      requires Valid() && kind == READ_CACHE
      requires count <= dst.Length && dst != buffer && dst != writeBuffer
      modifies this, buffer, dst
      ensures Valid() && file == old(file) && healthy == old(healthy)
      ensures dst[count..] == old(dst[count..])
      ensures Delivered(old(Stream()), count, dst[..], rc)
      ensures rc == 0 ==> Take(old(Stream()), count) == Some(dst[..count]) && Stream() == Advance(old(Stream()), count)
      ensures rc != 0 && healthy ==> rc == 1 && 0 <= error < count && old(Stream()).pos + error == |file|
      ensures rc != 0 && !healthy ==> rc == 1 && error == -1
      ensures count <= old(BytesInCache()) ==> rc == 0 && BytesInCache() == old(BytesInCache()) - count
      ensures old(BytesInCache()) < count && !healthy ==> rc == 1
    {
      if readPos + count <= readEnd {
        MoveToCaller(dst, 0, count);
        assert dst[..count] == dst[..][..count];
        return 0;
      }
      rc := SlowRead(dst, count);
    }

    /** The memcpy out of the window, and the step of read_pos over what it copied. */
    method MoveToCaller(dst: array<byte>, to: nat, n: nat)
      requires Valid() && kind == READ_CACHE && readPos + n <= readEnd
      requires to + n <= dst.Length && dst != buffer && dst != writeBuffer
      modifies this`readPos, dst
      ensures Valid() && Stream() == Advance(old(Stream()), n)
      ensures Take(old(Stream()), n) == Some(dst[to..to + n])
      ensures dst[..to] == old(dst[..to]) && dst[to + n..] == old(dst[to + n..])
      ensures readPos == old(readPos) + n
    {
      assert forall i :: 0 <= i < readEnd ==> buffer[i] == buffer[..readEnd][i] == file[posInFile + i];
      forall i | 0 <= i < n {
        dst[to + i] := buffer[readPos + i];
      }
      assert buffer[..readEnd] == old(buffer[..readEnd]);
      TakeIs(Stream(), n, dst[to..to + n]);
      readPos := readPos + n;
    }

    /** my_b_get: the next byte, from the window as long as it holds one, or my_b_EOF. */
    method Get() returns (c: int)
      requires Valid() && kind == READ_CACHE
      modifies this, buffer
      ensures Valid() && file == old(file) && healthy == old(healthy)
      ensures if c == MY_B_EOF then healthy ==> Take(old(Stream()), 1).None?
              else Take(old(Stream()), 1) == Some([c]) && Stream() == Advance(old(Stream()), 1)
      ensures c == -0x8000_0000 || 0 <= c < 256
      ensures 0 < old(BytesInCache()) ==> c != MY_B_EOF && BytesInCache() == old(BytesInCache()) - 1
      ensures old(BytesInCache()) == 0 && !healthy ==> c == MY_B_EOF
    {
      if readPos != readEnd {
        assert buffer[readPos] == buffer[..readEnd][readPos] == file[posInFile + readPos];
        TakeIs(Stream(), 1, [buffer[readPos]]);
        readPos := readPos + 1;
        return buffer[readPos - 1];
      }
      c := SlowGet();
    }

    /** my_b_fill: drops what is left in the window and loads the next one. No byte
        is skipped exactly when the window was used up. */
    method Fill() returns (n: nat)
      requires Valid() && kind == READ_CACHE
      modifies this, buffer
      ensures Valid() && file == old(file) && healthy == old(healthy)
      ensures Stream() == Advance(old(Stream()), old(BytesInCache()))
      ensures Stream() == old(Stream()) <==> old(BytesInCache()) == 0
      ensures n == BytesInCache()
      ensures n == 0 <==> !healthy || Stream().pos == |file|
    {
      readPos := readEnd;
      var nothing := new byte[0];
      var rc := SlowRead(nothing, 0);
      n := if rc != 0 then 0 else readEnd - readPos;
    }

    /** ASSUMED _my_b_read: hands over what is left, then loads window after window
        until count bytes are delivered or the file ends. The last window loaded
        stays in the buffer; a read of no bytes only loads one. */
    method SlowRead(dst: array<byte>, count: nat) returns (rc: int)
      requires Valid() && kind == READ_CACHE && readEnd <= readPos + count
      requires count <= dst.Length && dst != buffer && dst != writeBuffer
      modifies this, buffer, dst
      ensures Valid() && file == old(file) && healthy == old(healthy)
      ensures dst[count..] == old(dst[count..])
      ensures Delivered(old(Stream()), count, dst[..], rc)
      ensures count == 0 ==> Stream() == old(Stream()) && (rc == 0 <==> healthy)
      ensures count == 0 ==> (BytesInCache() == 0 <==> !healthy || Stream().pos == |file|)
      ensures if healthy then rc == 1 ==> 0 <= error < count else rc == 1 && error == -1
    {
      ghost var r := Stream();
      var done;
      rc, done := EmptyWindow(dst, count);
      while rc == 0 && done < count && readPos < readEnd
        invariant Valid() && file == old(file) && healthy == old(healthy)
        invariant done <= count && Take(r, done) == Some(dst[..done]) && Stream() == Advance(r, done)
        invariant dst[count..] == old(dst[count..])
        invariant if rc == 0 then healthy else rc == 1 && !healthy && error == -1 && readPos == readEnd
        invariant rc == 0 && (done < count || count == 0) ==> (readPos == readEnd <==> Stream().pos == |file|)
        decreases count - done
      {
        rc, done := ReadSome(dst, done, count, r);
      }
      assert dst[..done] == dst[..][..done];
      if rc == 0 {
        error := done;
        rc := if done < count then 1 else 0;
      }
    }

    /** ASSUMED: what is left in the window, and the next one. */
    method EmptyWindow(dst: array<byte>, count: nat) returns (rc: int, done: nat)
      requires Valid() && kind == READ_CACHE && readEnd <= readPos + count
      requires count <= dst.Length && dst != buffer && dst != writeBuffer
      modifies this, buffer, dst
      ensures Valid() && file == old(file) && healthy == old(healthy)
      ensures done <= count && Take(old(Stream()), done) == Some(dst[..done])
      ensures Stream() == Advance(old(Stream()), done) && dst[count..] == old(dst[count..])
      ensures count == 0 ==> done == 0
      ensures if healthy then rc == 0 && readPos == 0 && (readPos == readEnd <==> Stream().pos == |file|)
              else rc == 1 && error == -1 && readPos == readEnd
    {
      done := readEnd - readPos;
      MoveToCaller(dst, 0, done);
      assert dst[..done] == dst[0..done];
      assert dst[count..] == dst[done..][count - done..];
      assert old(dst[count..]) == old(dst[done..])[count - done..];
      rc := LoadWindow();
    }

    /** ASSUMED: one window's worth, and the next window if that is not enough. */
    method ReadSome(dst: array<byte>, done: nat, count: nat, ghost r: Reader) returns (rc: int, more: nat)
      requires Valid() && kind == READ_CACHE && readPos < readEnd && healthy
      requires done < count <= dst.Length && dst != buffer && dst != writeBuffer
      requires Take(r, done) == Some(dst[..done]) && Stream() == Advance(r, done)
      modifies this, buffer, dst
      ensures Valid() && file == old(file) && healthy && rc == 0
      ensures done < more <= count && Take(r, more) == Some(dst[..more]) && Stream() == Advance(r, more)
      ensures dst[count..] == old(dst[count..])
      ensures more < count ==> (readPos == readEnd <==> Stream().pos == |file|)
    {
      more := MoveSome(dst, done, count, r);
      rc := 0;
      if more < count { rc := LoadWindow(); }
    }

    /** ASSUMED: as much of the window as the caller still wants. */
    method MoveSome(dst: array<byte>, done: nat, count: nat, ghost r: Reader) returns (more: nat)
      requires Valid() && kind == READ_CACHE && readPos < readEnd
      requires done < count <= dst.Length && dst != buffer && dst != writeBuffer
      requires Take(r, done) == Some(dst[..done]) && Stream() == Advance(r, done)
      modifies this`readPos, dst
      ensures Valid() && done < more <= count
      ensures Take(r, more) == Some(dst[..more]) && Stream() == Advance(r, more)
      ensures dst[count..] == old(dst[count..]) && (more < count ==> readPos == readEnd)
    {
      var n := if readEnd - readPos < count - done then readEnd - readPos else count - done;
      MoveToCaller(dst, done, n);
      more := done + n;
      TakeTake(r, done, n);
      assert dst[..more] == old(dst[..done]) + dst[done..more];
      assert dst[count..] == dst[more..][count - more..];
      assert old(dst[count..]) == old(dst[more..])[count - more..];
    }

    /** ASSUMED: replaces a used-up window by the one behind it. */
    method LoadWindow() returns (rc: int)
      requires Valid() && kind == READ_CACHE && readPos == readEnd
      modifies this, buffer
      ensures Valid() && file == old(file) && healthy == old(healthy)
      ensures Stream() == old(Stream())
      ensures if healthy then rc == 0 && readPos == 0 && (readEnd == 0 <==> posInFile == |file|)
              else rc == 1 && error == -1 && readPos == readEnd
    {
      if !healthy {
        error := -1;
        return 1;
      }
      posInFile := posInFile + readEnd;
      var left := |file| - posInFile;
      var n := if left < buffer.Length then left else buffer.Length;
      forall i | 0 <= i < n {
        buffer[i] := file[posInFile + i];
      }
      readPos, readEnd := 0, n;
      assert buffer[..n] == file[posInFile..posInFile + n];
      return 0;
    }

    /** ASSUMED _my_b_get: a one-byte read. */
    method SlowGet() returns (c: int)
      requires Valid() && kind == READ_CACHE && readPos == readEnd
      modifies this, buffer
      ensures Valid() && file == old(file) && healthy == old(healthy)
      ensures if c == MY_B_EOF then healthy ==> Take(old(Stream()), 1).None?
              else Take(old(Stream()), 1) == Some([c]) && Stream() == Advance(old(Stream()), 1)
      ensures c == -0x8000_0000 || 0 <= c < 256
      ensures !healthy ==> c == MY_B_EOF
    {
      var one := new byte[1];
      var rc := SlowRead(one, 1);
      if rc != 0 {
        return MY_B_EOF;
      }
      assert one[..][..1] == [one[0]];
      return one[0];
    }

    // ---- writing ----

    /** my_b_write: 0 on success, which is certain when the data fits the window and
        when the disk has room for it behind what is buffered. A write fails only
        on a full window that the disk refuses; it leaves a prefix of the data, and
        write_tell says how long it is. */
    method Write(data: Bytes) returns (rc: int)
      requires Valid() && kind == WRITE_CACHE
      modifies this, writeBuffer
      ensures Valid() && rc in {0, 1} && Spare() == old(Spare()) - (WriteTell() - old(WriteTell()))
      ensures rc == 0 ==> Wrote(old(Content()), old(WriteTell()), data)
      ensures rc == 1 ==> error == -1 && old(WriteTell()) <= WriteTell() < old(WriteTell()) + |data|
      ensures rc == 1 ==> Wrote(old(Content()), old(WriteTell()), data[..WriteTell() - old(WriteTell())])
      ensures rc == 1 ==> writePos == writeEnd && Spare() < 0
      ensures |data| <= old(BytesInCache()) || |data| <= old(Spare()) ==> rc == 0
      ensures |data| <= old(BytesInCache()) ==>
                file == old(file) && room == old(room) && BytesInCache() == old(BytesInCache()) - |data|
    {
      if writePos + |data| <= writeEnd {
        MoveToBuffer(data);
        return 0;
      }
      rc := SlowWrite(data);
    }

    /** The memcpy into the buffer, and the step of write_pos over what it copied. */
    method MoveToBuffer(data: Bytes)
      requires Valid() && kind == WRITE_CACHE && writePos + |data| <= writeEnd
      modifies this`writePos, writeBuffer
      ensures Wrote(old(Content()), old(WriteTell()), data)
      ensures writePos == old(writePos) + |data|
    {
      ghost var before := writeBuffer[..writePos];
      forall i | 0 <= i < |data| {
        writeBuffer[writePos + i] := data[i];
      }
      writePos := writePos + |data|;
      assert writeBuffer[..writePos] == before + data;
      SpliceSplice(file, posInFile, before, data);
    }

    /** my_b_write_byte: fails exactly when the window is full and the disk refuses it. */
    method WriteByte(chr: byte) returns (rc: int)
      requires Valid() && kind == WRITE_CACHE
      modifies this, writeBuffer
      ensures Valid() && rc in {0, 1} && Spare() == old(Spare()) - (WriteTell() - old(WriteTell()))
      ensures rc == 0 ==> Wrote(old(Content()), old(WriteTell()), [chr])
      ensures rc == 1 ==> error == -1 && Wrote(old(Content()), old(WriteTell()), [])
      ensures rc == 1 <==> old(BytesInCache()) == 0 && old(Spare()) < 0
      ensures 0 < old(BytesInCache()) ==> file == old(file) && BytesInCache() == old(BytesInCache()) - 1
    {
      if writePos >= writeEnd {
        rc := Flush();
        if rc != 0 {
          WroteNothing();
          return 1;
        }
      }
      PutByte(chr);
      return 0;
    }

    /** The store through write_pos, and its step. */
    method PutByte(chr: byte)
      requires Valid() && kind == WRITE_CACHE && writePos < writeEnd
      modifies this`writePos, writeBuffer
      ensures Wrote(old(Content()), old(WriteTell()), [chr])
      ensures writePos == old(writePos) + 1
    {
      ghost var before := writeBuffer[..writePos];
      writeBuffer[writePos] := chr;
      writePos := writePos + 1;
      assert writeBuffer[..writePos] == before + [chr];
      SpliceSplice(file, posInFile, before, [chr]);
    }

    /** ASSUMED my_b_flush_io_cache: writes the buffer out at its offset and starts
        an empty one behind it, unless the disk has no room for it; then nothing
        changes. */
    method Flush() returns (rc: int)
      requires Valid() && kind == WRITE_CACHE
      modifies this
      ensures Valid() && rc in {0, 1} && (rc == 0 <==> 0 <= old(Spare())) && Spare() == old(Spare())
      ensures WriteTell() == old(WriteTell()) && Content() == old(Content())
      ensures rc == 0 ==> writePos == 0 < writeEnd && file == old(Content()) && posInFile == old(WriteTell())
      ensures rc == 1 ==> error == -1 && writePos == old(writePos) && writeEnd == old(writeEnd) && file == old(file)
    {
      if room < writePos {
        error := -1;
        return 1;
      }
      file := Splice(file, posInFile, writeBuffer[..writePos]);
      room := room - writePos;
      posInFile := posInFile + writePos;
      writePos, writeEnd := 0, writeBuffer.Length;
      assert Splice(file, posInFile, []) == file;
      return 0;
    }

    /** ASSUMED _my_b_write: fills the buffer and flushes it as often as needed. */
    method SlowWrite(data: Bytes) returns (rc: int)
      requires Valid() && kind == WRITE_CACHE
      modifies this, writeBuffer
      ensures Valid() && rc in {0, 1} && Spare() == old(Spare()) - (WriteTell() - old(WriteTell()))
      ensures rc == 0 ==> Wrote(old(Content()), old(WriteTell()), data)
      ensures rc == 1 ==> error == -1 && old(WriteTell()) <= WriteTell() < old(WriteTell()) + |data|
      ensures rc == 1 ==> Wrote(old(Content()), old(WriteTell()), data[..WriteTell() - old(WriteTell())])
      ensures rc == 1 ==> writePos == writeEnd && Spare() < 0
    {
      ghost var start, c0, spare := WriteTell(), Content(), Spare();
      var done := 0;
      WroteNothing();
      while done < |data|
        invariant done <= |data| && Spare() == spare - done && Wrote(c0, start, data[..done])
        decreases |data| - done
      {
        rc, done := WriteSome(data, done, c0, start);
        if rc != 0 { return; }
      }
      assert data[..done] == data;
      return 0;
    }

    /** ASSUMED: makes room when there is none and takes what then fits. */
    method WriteSome(data: Bytes, done: nat, ghost c0: Bytes, ghost start: nat) returns (rc: int, more: nat)
      requires done < |data| && Wrote(c0, start, data[..done])
      modifies this, writeBuffer
      ensures rc in {0, 1} && more <= |data| && Wrote(c0, start, data[..more])
      ensures Spare() == old(Spare()) - (more - done)
      ensures if rc == 0 then done < more else more == done && error == -1 && writePos == writeEnd && Spare() < 0
    {
      if writePos == writeEnd {
        rc := Flush();
        if rc != 0 { return 1, done; }
      }
      var free := writeEnd - writePos;
      more := if free < |data| - done then done + free else |data|;
      ghost var c1 := Content();
      MoveToBuffer(data[done..more]);
      WroteMore(c0, start, data[..done], c1, data[done..more]);
      assert data[..more] == data[..done] + data[done..more];
      return 0, more;
    }
  }

  // ---- whole runs ----

  datatype WriteOp = Chunk(data: Bytes) | One(chr: byte)

  function OpBytes(op: WriteOp): Bytes {
    match op case Chunk(data) => data case One(chr) => [chr]
  }

  function AllBytes(ops: seq<WriteOp>): Bytes {
    if ops == [] then [] else AllBytes(ops[..|ops| - 1]) + OpBytes(ops[|ops| - 1])
  }

  /** write_tell after each of the calls. */
  function Tells(start: nat, ops: seq<WriteOp>): seq<nat> {
    if ops == [] then [] else Tells(start, ops[..|ops| - 1]) + [start + |AllBytes(ops)|]
  }

  lemma PrefixGrows(start: nat, ops: seq<WriteOp>, k: nat)
    requires k < |ops|
    ensures AllBytes(ops[..k + 1]) == AllBytes(ops[..k]) + OpBytes(ops[k])
    ensures Tells(start, ops[..k + 1]) == Tells(start, ops[..k]) + [start + |AllBytes(ops[..k + 1])|]
  {
    assert ops[..k + 1][..k] == ops[..k];
  }

  /** What has gone out after k calls is a prefix of the whole string. */
  lemma {:induction false} PrefixOfAll(ops: seq<WriteOp>, k: nat)
    requires k <= |ops|
    ensures AllBytes(ops[..k]) <= AllBytes(ops)
  {
    if k == |ops| {
      assert ops[..k] == ops;
    } else {
      PrefixOfAll(ops[..|ops| - 1], k);
      assert ops[..|ops| - 1][..k] == ops[..k];
    }
  }

  lemma TellsGrow(start: nat, ops: seq<WriteOp>, k: nat, tell: nat)
    requires k < |ops| && tell == start + |AllBytes(ops[..k + 1])|
    ensures Tells(start, ops[..k + 1]) == Tells(start, ops[..k]) + [tell]
  {
    PrefixGrows(start, ops, k);
  }

  /** The data of call k has its place in the whole string. */
  lemma PlaceInAll(ops: seq<WriteOp>, k: nat)
    requires k < |ops|
    ensures var all, n, op := AllBytes(ops), |AllBytes(ops[..k])|, OpBytes(ops[k]);
      n + |op| <= |all| && all[n..n + |op|] == op && |AllBytes(ops[..k + 1])| == n + |op|
  {
    PrefixGrows(0, ops, k);
    PrefixOfAll(ops, k + 1);
  }

  lemma {:induction false} TellsAt(start: nat, ops: seq<WriteOp>, i: nat)
    requires i < |ops|
    ensures |Tells(start, ops)| == |ops|
    ensures Tells(start, ops)[i] == start + |AllBytes(ops[..i + 1])|
  {
    TellsLength(start, ops);
    if i == |ops| - 1 {
      assert ops[..i + 1] == ops;
    } else {
      TellsAt(start, ops[..|ops| - 1], i);
      assert ops[..|ops| - 1][..i + 1] == ops[..i + 1];
    }
  }

  lemma {:induction false} TellsLength(start: nat, ops: seq<WriteOp>)
    ensures |Tells(start, ops)| == |ops|
  {
    if ops != [] { TellsLength(start, ops[..|ops| - 1]); }
  }

  /** One call; taken is how much of its data has gone out. */
  method WriteOne(c: IO_CACHE, op: WriteOp) returns (rc: int, ghost taken: nat)
    requires c.Valid() && c.kind == WRITE_CACHE
    modifies c, c.writeBuffer
    ensures rc in {0, 1} && taken <= |OpBytes(op)| && (rc == 0 <==> taken == |OpBytes(op)|)
    ensures c.Wrote(old(c.Content()), old(c.WriteTell()), if rc == 0 then OpBytes(op) else OpBytes(op)[..taken])
    ensures c.Spare() == old(c.Spare()) - taken && (rc == 1 ==> c.Spare() < 0)
  {
    ghost var from := c.WriteTell();
    match op {
      case Chunk(chunk) => rc := c.Write(chunk);
      case One(chr) =>
        rc := c.WriteByte(chr);
        assert [chr][..0] == [];
    }
    taken := c.WriteTell() - from;
  }

  /** The same in a run that began at offset start with content c0: n bytes of the
      whole string have gone out, and the data of the call come next. */
  method WriteMore(c: IO_CACHE, op: WriteOp, ghost c0: Bytes, ghost start: nat, ghost all: Bytes, ghost n: nat)
    returns (rc: int, ghost more: nat)
    requires n + |OpBytes(op)| <= |all| && OpBytes(op) == all[n..n + |OpBytes(op)|]
    requires c.Wrote(c0, start, all[..n])
    modifies c, c.writeBuffer
    ensures rc in {0, 1} && n <= more <= |all| && c.Wrote(c0, start, all[..more])
    ensures c.Spare() == old(c.Spare()) - (more - n)
    ensures if rc == 0 then more == n + |OpBytes(op)| else c.Spare() < 0
  {
    ghost var c1, taken := c.Content(), 0;
    rc, taken := WriteOne(c, op);
    more := n + taken;
    assert all[..n] + OpBytes(op)[..taken] == all[..more];
    assert OpBytes(op)[..|OpBytes(op)|] == OpBytes(op);
    c.WroteMore(c0, start, all[..n], c1, OpBytes(op)[..taken]);
  }

  /** Call k of that run, and write_tell after it. */
  method WriteNext(c: IO_CACHE, ops: seq<WriteOp>, k: nat, ghost c0: Bytes, ghost start: nat, ghost n: nat)
    returns (rc: int, tell: nat, ghost more: nat)
    requires k < |ops| && n == |AllBytes(ops[..k])| <= |AllBytes(ops)|
    requires c.Wrote(c0, start, AllBytes(ops)[..n])
    modifies c, c.writeBuffer
    ensures rc in {0, 1} && n <= more <= |AllBytes(ops)| && c.Wrote(c0, start, AllBytes(ops)[..more])
    ensures c.Spare() == old(c.Spare()) - (more - n)
    ensures if rc == 0 then more == |AllBytes(ops[..k + 1])| else c.Spare() < 0
    ensures rc == 0 ==> Tells(start, ops[..k + 1]) == Tells(start, ops[..k]) + [tell]
  {
    PlaceInAll(ops, k);
    rc, more := WriteMore(c, ops[k], c0, start, AllBytes(ops), n);
    tell := c.WriteTell();
    if rc == 0 { TellsGrow(start, ops, k, tell); }
  }

  /** The calls one after another, until one fails; by then the disk has refused
      part of what had gone out. */
  method WriteAll(c: IO_CACHE, ops: seq<WriteOp>, ghost c0: Bytes, ghost start: nat)
    returns (ok: bool, tells: seq<nat>, ghost n: nat)
    requires c.Wrote(c0, start, AllBytes(ops)[..0])
    modifies c, c.writeBuffer
    ensures |tells| <= |ops| && tells == Tells(start, ops[..|tells|])
    ensures n <= |AllBytes(ops)| && c.Wrote(c0, start, AllBytes(ops)[..n])
    ensures if ok then |tells| == |ops| && n == |AllBytes(ops)| else c.Spare() < 0
    ensures c.Spare() == old(c.Spare()) - n
  {
    tells, n := [], 0;
    for k := 0 to |ops|
      invariant |tells| == k && tells == Tells(start, ops[..k])
      invariant n == |AllBytes(ops[..k])| <= |AllBytes(ops)|
      invariant c.Wrote(c0, start, AllBytes(ops)[..n]) && c.Spare() == old(c.Spare()) - n
    {
      var rc, tell;
      rc, tell, n := WriteNext(c, ops, k, c0, start, n);
      if rc != 0 {
        return false, tells, n;
      }
      tells := tells + [tell];
    }
    assert ops[..|ops|] == ops;
    ok := true;
  }

  /** Any caller of a write cache: however a byte string is cut into my_b_write and
      my_b_write_byte calls, the run and the flush after it succeed exactly when the
      disk has room for the buffered bytes and the string. Then write_tell has
      followed it byte for byte, and the file is the old content overwritten from
      the start offset by exactly that string. Otherwise the content is the old one
      overwritten by the prefix that write_tell shows. */
  method WriteRun(c: IO_CACHE, ops: seq<WriteOp>) returns (ok: bool, tells: seq<nat>)
    requires c.Valid() && c.kind == WRITE_CACHE
    modifies c, c.writeBuffer
    ensures ok <==> old(c.writePos) + |AllBytes(ops)| <= old(c.room)
    ensures c.Valid() && |tells| <= |ops| && tells == Tells(old(c.WriteTell()), ops[..|tells|])
    ensures ok ==> |tells| == |ops| && c.Tell() == c.WriteTell() == old(c.WriteTell()) + |AllBytes(ops)|
    ensures ok ==> c.file == Splice(old(c.Content()), old(c.WriteTell()), AllBytes(ops))
    ensures ok ==> Overwritten(old(c.Content()), old(c.WriteTell()), AllBytes(ops), c.file)
    ensures old(c.WriteTell()) <= c.WriteTell() <= old(c.WriteTell()) + |AllBytes(ops)|
    ensures c.Content() == Splice(old(c.Content()), old(c.WriteTell()),
                                  AllBytes(ops)[..c.WriteTell() - old(c.WriteTell())])
  {
    ghost var c0, start, n := c.Content(), c.WriteTell(), 0;
    c.WroteNothing();
    assert AllBytes(ops)[..0] == [];
    ok, tells, n := WriteAll(c, ops, c0, start);
    assert AllBytes(ops)[..|AllBytes(ops)|] == AllBytes(ops);
    if ok {
      var rc := c.Flush();
      ok := rc == 0;
      SpliceOverwrites(c0, start, AllBytes(ops));
    }
  }

  /** The same caller on a new cache at any offset of a file, told byte by byte: the
      string where it was written, the old file before and behind it. */
  method OverwriteRun(file: Bytes, offset: nat, size: nat, room: nat, ops: seq<WriteOp>)
    returns (ok: bool, result: Bytes)
    requires 0 < size && offset <= |file|
    ensures ok <==> |AllBytes(ops)| <= room
    ensures ok ==> var end := offset + |AllBytes(ops)|;
      && |result| == (if end <= |file| then |file| else end)
      && result[..offset] == file[..offset] && result[offset..end] == AllBytes(ops)
      && (end <= |file| ==> result[end..] == file[end..])
  {
    var c := new IO_CACHE(WRITE_CACHE, size, file, offset, room, true);
    var tells;
    ok, tells := WriteRun(c, ops);
    result := c.file;
  }

  /** The same caller starting at the end of a file appends exactly its bytes, if
      and only if the disk has room for them. */
  method AppendRun(file: Bytes, size: nat, room: nat, ops: seq<WriteOp>) returns (ok: bool, result: Bytes)
    requires 0 < size
    ensures ok <==> |AllBytes(ops)| <= room
    ensures ok ==> result == file + AllBytes(ops)
  {
    var c := new IO_CACHE(WRITE_CACHE, size, file, |file|, room, true);
    var tells;
    ok, tells := WriteRun(c, ops);
    SpliceAtEnd(file, AllBytes(ops));
    result := c.file;
  }

  datatype ReadOp = Bulk(n: nat) | Single | Refill

  function OpLength(op: ReadOp): nat {
    match op case Bulk(n) => n case Single => 1 case Refill => 0
  }

  /** The bytes that a run asks for. */
  function Wanted(ops: seq<ReadOp>): nat {
    if ops == [] then 0 else Wanted(ops[..|ops| - 1]) + OpLength(ops[|ops| - 1])
  }

  lemma {:induction false} WantedPrefix(ops: seq<ReadOp>, k: nat)
    requires k <= |ops|
    ensures Wanted(ops[..k]) <= Wanted(ops)
  {
    if k == |ops| {
      assert ops[..k] == ops;
    } else {
      WantedPrefix(ops[..|ops| - 1], k);
      assert ops[..|ops| - 1][..k] == ops[..k];
    }
  }

  /** One call; a refill is left out while the window still has bytes. */
  method ReadOne(c: IO_CACHE, op: ReadOp) returns (ok: bool, piece: Bytes)
    requires c.Valid() && c.kind == READ_CACHE
    modifies c, c.buffer
    ensures c.Valid() && c.file == old(c.file) && c.healthy == old(c.healthy)
    ensures !ok && c.healthy ==> Take(old(c.Stream()), OpLength(op)).None?
    ensures !c.healthy ==> (ok <==> OpLength(op) <= old(c.BytesInCache()))
    ensures !c.healthy && ok ==> c.BytesInCache() == old(c.BytesInCache()) - OpLength(op)
    ensures ok ==> |piece| == OpLength(op) && Take(old(c.Stream()), |piece|) == Some(piece)
    ensures ok ==> c.Stream() == Advance(old(c.Stream()), |piece|)
  {
    ok, piece := true, [];
    TakeIs(c.Stream(), 0, []);
    match op {
      case Bulk(n) =>
        var dst := new byte[n];
        var rc := c.Read(dst, n);
        assert dst[..][..n] == dst[..];
        ok, piece := rc == 0, dst[..];
      case Single =>
        var chr := c.Get();
        if chr == MY_B_EOF { ok := false; } else { piece := [chr]; }
      case Refill =>
        if c.BytesInCache() == 0 {
          var n := c.Fill();
        }
    }
  }

  /** Call k of a run that began at stream r0 and has been handed got. */
  method ReadNext(c: IO_CACHE, ops: seq<ReadOp>, k: nat, ghost r0: Reader, got: Bytes) returns (ok: bool, more: Bytes)
    requires c.Valid() && c.kind == READ_CACHE && k < |ops| && |got| == Wanted(ops[..k])
    requires Take(r0, |got|) == Some(got) && c.Stream() == Advance(r0, |got|)
    modifies c, c.buffer
    ensures c.Valid() && c.file == old(c.file) && c.healthy == old(c.healthy)
    ensures if ok then |more| == Wanted(ops[..k + 1]) && c.Stream() == Advance(r0, |more|) else more == got
    ensures Take(r0, |more|) == Some(more)
    ensures c.healthy ==> (ok <==> Take(r0, Wanted(ops[..k + 1])).Some?)
    ensures !c.healthy ==> (ok <==> Wanted(ops[..k + 1]) - |got| <= old(c.BytesInCache()))
    ensures !c.healthy && ok ==> c.BytesInCache() == old(c.BytesInCache()) - (|more| - |got|)
  {
    assert ops[..k + 1][..k] == ops[..k];
    var piece;
    ok, piece := ReadOne(c, ops[k]);
    TakeTake(r0, |got|, OpLength(ops[k]));
    more := if ok then got + piece else got;
  }

  /** Any caller of a read cache that refills only a used-up window: whatever it
      mixes, it is handed the file contiguously from the start offset, with no byte
      skipped or repeated, and tell moves by exactly the bytes handed over. On a
      healthy disk it gets all it asks for exactly when the file has that much, and
      on a disk that does not answer exactly when the window has. */
  method ReadRun(c: IO_CACHE, ops: seq<ReadOp>) returns (ok: bool, got: Bytes)
    requires c.Valid() && c.kind == READ_CACHE
    modifies c, c.buffer
    ensures c.Valid() && c.file == old(c.file)
    ensures old(c.healthy) ==> (ok <==> Take(old(c.Stream()), Wanted(ops)).Some?)
    ensures !old(c.healthy) ==> (ok <==> Wanted(ops) <= old(c.BytesInCache()))
    ensures Take(old(c.Stream()), |got|) == Some(got)
    ensures ok ==> |got| == Wanted(ops) && c.Tell() == old(c.Tell()) + |got|
  {
    ghost var r0, cached := c.Stream(), c.BytesInCache();
    got := [];
    TakeIs(r0, 0, []);
    for k := 0 to |ops|
      invariant c.Valid() && c.file == old(c.file) && c.healthy == old(c.healthy)
      invariant Take(r0, |got|) == Some(got)
      invariant c.Stream() == Advance(r0, |got|) && |got| == Wanted(ops[..k])
      invariant !c.healthy ==> c.BytesInCache() == cached - |got|
    {
      WantedPrefix(ops, k + 1);
      ok, got := ReadNext(c, ops, k, r0, got);
      if !ok { return; }
    }
    assert ops[..|ops|] == ops;
    ok := true;
  }

  // ---- reading at once and reading byte by byte ----

  function Singles(n: nat): (ops: seq<ReadOp>)
    ensures |ops| == n
  {
    seq(n, _ => Single)
  }

  lemma {:induction false} WantedSingles(n: nat)
    ensures Wanted(Singles(n)) == n
  {
    if n > 0 {
      WantedSingles(n - 1);
      assert Singles(n)[..n - 1] == Singles(n - 1);
    }
  }

  /** Two callers that start at the same place of the same file and ask for equally
      many bytes, cut up in any two ways and through buffers of any two sizes: both
      succeed or neither does, and if both do they hold the same bytes. */
  method ReadBothWays(file: Bytes, offset: nat, healthy: bool,
                      size: nat, ops: seq<ReadOp>, size': nat, ops': seq<ReadOp>)
    returns (ok: bool, got: Bytes, ok': bool, got': Bytes)
    requires offset <= |file| && 0 < size && 0 < size' && Wanted(ops) == Wanted(ops')
    ensures (ok <==> ok') && (ok <==> if healthy then offset + Wanted(ops) <= |file| else Wanted(ops) == 0)
    ensures ok ==> got == got' && Take(Reader(file, offset), Wanted(ops)) == Some(got)
  {
    var c := new IO_CACHE(READ_CACHE, size, file, offset, 0, healthy);
    ok, got := ReadRun(c, ops);
    var c' := new IO_CACHE(READ_CACHE, size', file, offset, 0, healthy);
    ok', got' := ReadRun(c', ops');
  }

  /** One my_b_read of n bytes delivers what n calls of my_b_get deliver, and
      succeeds exactly when they do. */
  method BulkReadIsGets(file: Bytes, offset: nat, healthy: bool, n: nat, size: nat, size': nat)
    returns (ok: bool, got: Bytes, ok': bool, got': Bytes)
    requires offset <= |file| && 0 < size && 0 < size'
    ensures (ok <==> ok') && (ok <==> if healthy then offset + n <= |file| else n == 0)
    ensures ok ==> got == got' && Take(Reader(file, offset), n) == Some(got)
  {
    WantedSingles(n);
    assert [Bulk(n)][..0] == [] && Wanted([]) == 0;
    ok, got, ok', got' := ReadBothWays(file, offset, healthy, size, [Bulk(n)], size', Singles(n));
  }
}
