/**
 The in-buffer fast paths of IO_CACHE: my_b_read, my_b_get, my_b_write, my_b_write_byte and the two
 tell functions. Pointers are offsets into their buffers. When the buffer cannot serve a call, the
 original calls a slow path that is not part of this model; here the call reports it and changes nothing.
 */
module IoCache {
  import opened Wrappers
  import opened ByteStrings
  import opened ByteStores

  datatype CacheType = ReadCache | WriteCache

  datatype ReadOp = ReadBytes(count: nat) | GetByte {
    function Size(): nat {
      if GetByte? then 1 else count
    }
  }

  function Total(ops: seq<ReadOp>): nat {
    if ops == [] then 0 else ops[0].Size() + Total(ops[1..])
  }

  datatype WriteOp = WriteBytes(src: seq<byte>) | PutByte(b: byte) {
    function Data(): seq<byte> {
      if PutByte? then [b] else src
    }
  }

  /** The bytes a run of writes hands over. */
  function Flatten(ops: seq<WriteOp>): seq<byte> {
    if ops == [] then [] else ops[0].Data() + Flatten(ops[1..])
  }

  lemma {:induction false} TotalAppend(ops: seq<ReadOp>, op: ReadOp)
    ensures Total(ops + [op]) == Total(ops) + op.Size()
  {
    if ops == [] {
      assert ops + [op] == [op];
    } else {
      assert (ops + [op])[1..] == ops[1..] + [op];
      TotalAppend(ops[1..], op);
    }
  }

  lemma {:induction false} TotalPrefix(ops: seq<ReadOp>, n: nat)
    requires n <= |ops|
    ensures Total(ops[..n]) <= Total(ops)
  {
    if n == 0 {
    } else {
      TotalPrefix(ops[1..], n - 1);
      assert ops[..n][1..] == ops[1..][..n - 1];
    }
  }

  lemma {:induction false} FlattenAppend(ops: seq<WriteOp>, op: WriteOp)
    ensures Flatten(ops + [op]) == Flatten(ops) + op.Data()
  {
    if ops == [] {
      assert ops + [op] == [op];
    } else {
      assert (ops + [op])[1..] == ops[1..] + [op];
      FlattenAppend(ops[1..], op);
    }
  }

  lemma {:induction false} FlattenPrefix(ops: seq<WriteOp>, n: nat)
    requires n <= |ops|
    ensures |Flatten(ops[..n])| <= |Flatten(ops)|
  {
    if n == 0 {
    } else {
      FlattenPrefix(ops[1..], n - 1);
      assert ops[..n][1..] == ops[1..][..n - 1];
    }
  }

  lemma NextWrite(ops: seq<WriteOp>, n: nat)
    requires n < |ops|
    ensures Flatten(ops[..n + 1]) == Flatten(ops[..n]) + ops[n].Data()
    ensures |Flatten(ops[..n])| + |ops[n].Data()| <= |Flatten(ops)|
  {
    assert ops[..n + 1] == ops[..n] + [ops[n]];
    FlattenAppend(ops[..n], ops[n]);
    FlattenPrefix(ops, n + 1);
  }

  lemma SplicedKeepsTail(was: seq<byte>, off: nat, bs: seq<byte>, end: nat)
    requires off + |bs| <= end <= |was|
    ensures Spliced(was, off, bs)[end..] == was[end..]
  {
  }

  class IO_CACHE {
    var kind: CacheType
    var posInFile: nat
    var requestPos: nat
    var buffer: array<byte>
    var readPos: nat
    var readEnd: nat
    var writeBuffer: array<byte>
    var writePos: nat
    var writeEnd: nat

    ghost predicate Valid()
      reads this
    {
      && readPos <= readEnd <= buffer.Length
      && writePos <= writeEnd <= writeBuffer.Length
    }

    /** A cache at `posInFile` whose own cursor starts at the request position. */
    constructor (kind: CacheType, buffer: array<byte>, filled: nat, writeBuffer: array<byte>, writeEnd: nat,
                 posInFile: nat, requestPos: nat)
      requires filled <= buffer.Length && writeEnd <= writeBuffer.Length
      requires requestPos <= if kind == WriteCache then writeEnd else filled
      ensures Valid() && this.buffer == buffer && this.writeBuffer == writeBuffer && this.kind == kind
      ensures readEnd == filled && this.writeEnd == writeEnd
      ensures this.posInFile == posInFile && this.requestPos == requestPos
      ensures readPos == (if kind == WriteCache then 0 else requestPos)
      ensures writePos == (if kind == WriteCache then requestPos else 0)
      ensures Tell() == posInFile
      ensures requestPos == 0 || kind != WriteCache ==> WriteTell() == posInFile
    {
      this.kind, this.posInFile, this.requestPos := kind, posInFile, requestPos;
      this.buffer, this.readPos, this.readEnd := buffer, if kind == WriteCache then 0 else requestPos, filled;
      this.writeBuffer, this.writePos, this.writeEnd := writeBuffer, if kind == WriteCache then requestPos else 0, writeEnd;
    }

    /** my_b_tell */
    function Tell(): int
      reads this
    {
      if kind == WriteCache then posInFile + (writePos - requestPos) else posInFile + (readPos - requestPos)
    }

    /** my_b_write_tell */
    function WriteTell(): nat
      reads this
    {
      posInFile + writePos
    }

    /** my_b_read into `dst` at `at`; false when the slow path is needed. */
    method Read(dst: array<byte>, at: nat, count: nat) returns (served: bool)
      requires Valid() && dst != buffer && at + count <= dst.Length
      modifies this`readPos, dst
      ensures Valid()
      ensures served <==> old(readPos) + count <= readEnd
      ensures served ==>
                && readPos == old(readPos) + count
                && dst[..] == Spliced(old(dst[..]), at, buffer[old(readPos)..readPos])
      ensures !served ==> readPos == old(readPos) && dst[..] == old(dst[..])
    {
      if readPos + count <= readEnd {
        var from := readPos;
        forall i | 0 <= i < count {
          dst[at + i] := buffer[from + i];
        }
        readPos := readPos + count;
        SplicedPointwise(old(dst[..]), at, buffer[from..readPos], dst[..]);
        return true;
      }
      return false;
    }

    /** my_b_get; None when the slow path is needed. */
    method Get() returns (b: Option<byte>)
      requires Valid()
      modifies this`readPos
      ensures Valid()
      ensures b.Some? <==> old(readPos) + 1 <= readEnd
      ensures b.Some? ==> readPos == old(readPos) + 1 && [b.value] == buffer[old(readPos)..readPos]
      ensures b.None? ==> readPos == old(readPos)
    {
      if readPos != readEnd {
        readPos := readPos + 1;
        return Some(buffer[readPos - 1]);
      }
      return None;
    }

    /** my_b_write; false when the slow path is needed. */
    method Write(src: seq<byte>) returns (served: bool)
      requires Valid()
      modifies this`writePos, writeBuffer
      ensures Valid()
      ensures served <==> old(writePos) + |src| <= writeEnd
      ensures served ==>
                && writePos == old(writePos) + |src|
                && writeBuffer[..] == Spliced(old(writeBuffer[..]), old(writePos), src)
      ensures !served ==> writePos == old(writePos) && writeBuffer[..] == old(writeBuffer[..])
    {
      if writePos + |src| <= writeEnd {
        if |src| != 0 {
          var start := writePos;
          forall i | 0 <= i < |src| {
            writeBuffer[start + i] := src[i];
          }
          writePos := writePos + |src|;
        }
        SplicedPointwise(old(writeBuffer[..]), old(writePos), src, writeBuffer[..]);
        return true;
      }
      return false;
    }

    /** my_b_write_byte; false when the buffer must be flushed first. */
    method WriteByte(b: byte) returns (served: bool)
      requires Valid()
      modifies this`writePos, writeBuffer
      ensures Valid()
      ensures served <==> old(writePos) + 1 <= writeEnd
      ensures served ==>
                && writePos == old(writePos) + 1
                && writeBuffer[..] == Spliced(old(writeBuffer[..]), old(writePos), [b])
      ensures !served ==> writePos == old(writePos) && writeBuffer[..] == old(writeBuffer[..])
    {
      if writePos >= writeEnd {
        return false;
      }
      writeBuffer[writePos] := b;
      writePos := writePos + 1;
      SplicedPointwise(old(writeBuffer[..]), old(writePos), [b], writeBuffer[..]);
      return true;
    }

    /**
     Any run of reads. However the reads are split, the bytes delivered are the slice of the buffer
     passed over, and the position advances by their number.
     */
    method ReplayReads(ops: seq<ReadOp>) returns (out: seq<byte>, served: bool)
      requires Valid()
      modifies this`readPos
      ensures Valid()
      ensures old(readPos) <= readPos && out == buffer[old(readPos)..readPos]
      ensures kind != WriteCache ==> Tell() == old(Tell()) + |out| == posInFile + (old(readPos) - requestPos) + |out|
      ensures kind == WriteCache ==> Tell() == old(Tell())
      ensures served <==> old(readPos) + Total(ops) <= readEnd
      ensures served ==> |out| == Total(ops) && out == Delivered(buffer[..], old(readPos), ops)
    {
      out, served := [], true;
      for n := 0 to |ops|
        invariant Valid() && served
        invariant readPos == old(readPos) + Total(ops[..n])
        invariant out == buffer[old(readPos)..readPos]
      {
        assert ops[..n + 1] == ops[..n] + [ops[n]];
        TotalAppend(ops[..n], ops[n]);
        TotalPrefix(ops, n + 1);
        ghost var before := readPos;
        var part: seq<byte>;
        part, served := Serve(ops[n]);
        if !served {
          return;
        }
        out := out + part;
        assert buffer[old(readPos)..readPos] == buffer[old(readPos)..before] + buffer[before..readPos];
      }
      assert ops[..|ops|] == ops;
      DeliveredIsSlice(buffer[..], old(readPos), ops);
    }

    /** One read or get, its bytes collected in a fresh destination. */
    method Serve(op: ReadOp) returns (part: seq<byte>, served: bool)
      requires Valid()
      modifies this`readPos
      ensures Valid()
      ensures served <==> old(readPos) + op.Size() <= readEnd
      ensures readPos == old(readPos) + if served then op.Size() else 0
      ensures part == buffer[old(readPos)..readPos]
    {
      match op
      case ReadBytes(count) =>
        var dst := new byte[count](i => 0);
        served := Read(dst, 0, count);
        part := if served then dst[..] else [];
      case GetByte =>
        var b := Get();
        served := b.Some?;
        part := if served then [b.value] else [];
    }

    /** One my_b_write or my_b_write_byte. */
    method ServeWrite(op: WriteOp) returns (served: bool)
      requires Valid()
      modifies this`writePos, writeBuffer
      ensures Valid()
      ensures served <==> old(writePos) + |op.Data()| <= writeEnd
      ensures served ==>
                && writePos == old(writePos) + |op.Data()|
                && writeBuffer[..] == Spliced(old(writeBuffer[..]), old(writePos), op.Data())
      ensures !served ==> writePos == old(writePos) && writeBuffer[..] == old(writeBuffer[..])
    {
      match op
      case WriteBytes(src) => served := Write(src);
      case PutByte(b) => served := WriteByte(b);
    }

    /**
     Any run of writes. However the bytes are split, they land one after the other in the write
     buffer, nothing at or past `writeEnd` changes, and the write position advances by their number.
     */
    method ReplayWrites(ops: seq<WriteOp>) returns (n: nat)
      requires Valid()
      modifies this`writePos, writeBuffer
      ensures Valid() && n <= |ops|
      ensures n == |ops| <==> old(writePos) + |Flatten(ops)| <= writeEnd
      ensures writePos == old(writePos) + |Flatten(ops[..n])| <= writeEnd
      ensures writeBuffer[..] == Spliced(old(writeBuffer[..]), old(writePos), Flatten(ops[..n]))
      ensures writeBuffer[writeEnd..] == old(writeBuffer[writeEnd..])
      ensures WriteTell() == old(WriteTell()) + |Flatten(ops[..n])| == posInFile + old(writePos) + |Flatten(ops[..n])|
      ensures kind == WriteCache ==>
                Tell() == old(Tell()) + |Flatten(ops[..n])| == posInFile + (old(writePos) - requestPos) + |Flatten(ops[..n])|
      ensures kind != WriteCache ==> Tell() == old(Tell())
    {
      ghost var was, start := writeBuffer[..], writePos;
      var served: bool;
      n, served := WriteWhileServed(ops);
      if served {
        assert ops[..n] == ops;
      } else {
        NextWrite(ops, n);
      }
      SplicedKeepsTail(was, start, Flatten(ops[..n]), writeEnd);
    }

    /** One more write, after `written` already landed at `start`. */
    method ServeNext(op: WriteOp, ghost was: seq<byte>, ghost start: nat, ghost written: seq<byte>) returns (served: bool)
      requires Valid() && writePos == start + |written| && writePos <= |was|
      requires writeBuffer[..] == Spliced(was, start, written)
      modifies this`writePos, writeBuffer
      ensures Valid()
      ensures served <==> old(writePos) + |op.Data()| <= writeEnd
      ensures var landed := if served then written + op.Data() else written;
              && writePos == start + |landed| <= |was|
              && writeBuffer[..] == Spliced(was, start, landed)
    {
      served := ServeWrite(op);
      if served {
        SplicedTwice(was, start, written, op.Data());
      }
    }

    /** Writes one after the other until one does not fit. */
    method WriteWhileServed(ops: seq<WriteOp>) returns (n: nat, served: bool)
      requires Valid()
      modifies this`writePos, writeBuffer
      ensures Valid() && n <= |ops|
      ensures writePos == old(writePos) + |Flatten(ops[..n])|
      ensures writeBuffer[..] == Spliced(old(writeBuffer[..]), old(writePos), Flatten(ops[..n]))
      ensures served ==> n == |ops|
      ensures !served ==> n < |ops| && writePos + |ops[n].Data()| > writeEnd
    {
      n, served := 0, true;
      ghost var was, start, written: seq<byte> := writeBuffer[..], writePos, [];
      assert Flatten(ops[..0]) == [] && was == Spliced(was, start, []);
      while served && n < |ops|
        invariant Valid() && n <= |ops|
        invariant written == Flatten(ops[..n])
        invariant writePos == start + |written| <= |was|
        invariant writeBuffer[..] == Spliced(was, start, written)
        invariant !served ==> n < |ops| && writePos + |ops[n].Data()| > writeEnd
        decreases served, |ops| - n
      {
        NextWrite(ops, n);
        served := ServeNext(ops[n], was, start, written);
        if served {
          written := written + ops[n].Data();
          n := n + 1;
        }
      }
    }

    /**
     On a cache that reads from the buffer it writes to, any run of writes followed by any run of
     reads of as many bytes, from where the writes began, delivers the bytes written.
     */
    method WriteThenRead(puts: seq<WriteOp>, gets: seq<ReadOp>) returns (out: seq<byte>)
      requires Valid() && buffer == writeBuffer && readPos == writePos
      requires Total(gets) == |Flatten(puts)|
      requires writePos + |Flatten(puts)| <= writeEnd && readPos + Total(gets) <= readEnd
      modifies this`readPos, this`writePos, writeBuffer
      ensures Valid() && out == Flatten(puts)
      ensures readPos == writePos == old(writePos) + |out|
    {
      ghost var was, start := writeBuffer[..], writePos;
      var n := ReplayWrites(puts);
      assert puts[..n] == puts;
      var served: bool;
      out, served := ReplayReads(gets);
      SplicedMiddle(was, start, Flatten(puts));
      assert out == buffer[..][start..readPos];
    }

    // ------------------------------------------------- positions are file offsets

    /** The file as far as it is written once the write buffer, from `origin` on, goes out at `posInFile`. */
    ghost function Written(file: seq<byte>, origin: nat): seq<byte>
      requires origin <= writePos <= writeBuffer.Length && posInFile <= |file|
      reads this, writeBuffer
    {
      file[..posInFile] + writeBuffer[..][origin..writePos]
    }

    /** The valid part of the read buffer, from the request position on, is the file from `posInFile` on. */
    ghost predicate Mirrors(file: seq<byte>)
      requires Valid()
      reads this, buffer
    {
      requestPos <= readEnd && posInFile <= |file| && buffer[requestPos..readEnd] <= file[posInFile..]
    }

    /**
     Any run of writes extends the file by the bytes handed over, and the tells are the offset of the
     first byte not yet written: my_b_write_tell counting from the start of the write buffer, my_b_tell
     from the request position.
     */
    method WriteToFile(ops: seq<WriteOp>, ghost file: seq<byte>, ghost origin: nat) returns (n: nat)
      requires Valid() && posInFile <= |file| && origin <= writePos
      modifies this`writePos, writeBuffer
      ensures Valid() && n <= |ops| && (n == |ops| <==> old(writePos) + |Flatten(ops)| <= writeEnd)
      ensures origin <= writePos && Written(file, origin) == old(Written(file, origin)) + Flatten(ops[..n])
      ensures origin == 0 ==> WriteTell() == |Written(file, origin)|
      ensures origin == requestPos && kind == WriteCache ==> Tell() == |Written(file, origin)|
    {
      ghost var was, start := writeBuffer[..], writePos;
      n := ReplayWrites(ops);
      WrittenGrows(file[..posInFile], was, start, Flatten(ops[..n]), origin);
    }

    /** Any run of reads delivers the bytes of the file between the two tells. */
    method ReadFromFile(ops: seq<ReadOp>, ghost file: seq<byte>) returns (out: seq<byte>, served: bool)
      requires Valid() && kind != WriteCache && requestPos <= readPos && Mirrors(file)
      modifies this`readPos
      ensures Valid() && Mirrors(file)
      ensures served <==> old(readPos) + Total(ops) <= readEnd
      ensures served ==> |out| == Total(ops)
      ensures 0 <= old(Tell()) <= Tell() <= |file| && out == file[old(Tell())..Tell()]
    {
      ghost var start := readPos;
      out, served := ReplayReads(ops);
      SliceOfPrefix(buffer[requestPos..readEnd], file, posInFile, start - requestPos, readPos - requestPos);
      SliceOfSlice(buffer[..], requestPos, readEnd, start, readPos);
      assert buffer[..][requestPos..readEnd] == buffer[requestPos..readEnd];
    }
  }

  lemma WrittenGrows(before: seq<byte>, was: seq<byte>, off: nat, bs: seq<byte>, origin: nat)
    requires origin <= off && off + |bs| <= |was|
    ensures before + Spliced(was, off, bs)[origin..off + |bs|] == before + was[origin..off] + bs
  {
    assert Spliced(was, off, bs)[origin..off + |bs|] == was[origin..off] + bs;
  }

  lemma SliceOfPrefix(part: seq<byte>, file: seq<byte>, at: nat, lo: nat, hi: nat)
    requires at <= |file| && part <= file[at..] && lo <= hi <= |part|
    ensures at + hi <= |file| && part[lo..hi] == file[at + lo..at + hi]
  {
  }

  lemma SliceOfSlice(s: seq<byte>, lo: nat, hi: nat, i: nat, j: nat)
    requires lo <= i <= j <= hi <= |s|
    ensures s[lo..hi][i - lo..j - lo] == s[i..j]
  {
    forall k | 0 <= k < j - i
      ensures s[lo..hi][i - lo..j - lo][k] == s[i..j][k]
    {
      assert s[lo..hi][i - lo + k] == s[i + k];
    }
  }

  lemma SplicedMiddle(was: seq<byte>, off: nat, bs: seq<byte>)
    requires off + |bs| <= |was|
    ensures Spliced(was, off, bs)[off..off + |bs|] == bs
  {
  }

  // ---------------------------------------------------- splitting does not matter

  /** What a run of reads delivers from a buffer, call by call. */
  function Delivered(buf: seq<byte>, pos: nat, ops: seq<ReadOp>): seq<byte>
    requires pos + Total(ops) <= |buf|
    decreases |ops|
  {
    if ops == [] then []
    else buf[pos..pos + ops[0].Size()] + Delivered(buf, pos + ops[0].Size(), ops[1..])
  }

  lemma SplitSlice(buf: seq<byte>, lo: nat, mid: nat, hi: nat)
    requires lo <= mid <= hi <= |buf|
    ensures buf[lo..hi] == buf[lo..mid] + buf[mid..hi]
  {
  }

  lemma {:induction false} DeliveredIsSlice(buf: seq<byte>, pos: nat, ops: seq<ReadOp>)
    requires pos + Total(ops) <= |buf|
    ensures Delivered(buf, pos, ops) == buf[pos..pos + Total(ops)]
    decreases |ops|
  {
    if ops == [] {
    } else {
      var mid, rest := pos + ops[0].Size(), ops[1..];
      var hi := mid + Total(rest);
      assert Delivered(buf, pos, ops) == buf[pos..mid] + Delivered(buf, mid, rest);
      DeliveredIsSlice(buf, mid, rest);
      SplitSlice(buf, pos, mid, hi);
      assert hi == pos + Total(ops);
    }
  }
}
