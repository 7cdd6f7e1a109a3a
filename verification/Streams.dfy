/** The temporary file behind an extracted item (src/7zip/WriteStream.cpp): its bytes and
    its position, as std::FILE keeps them. */
module Streams {
  import opened Basics
  import ComObjects

  type Byte = n: int | 0 <= n < 256

  datatype File = File(bytes: seq<Byte>, pos: nat)

  const EMPTY_FILE := File([], 0)

  /** `fwrite`: overwrites from the position on, filling a gap with zeros. */
  function WriteTo(f: File, data: seq<Byte>): File {
    if data == [] then f else
      var padded := f.bytes + seq(f.pos, i => 0);
      var after := f.pos + |data|;
      File(padded[..f.pos] + data + (if after < |f.bytes| then f.bytes[after..] else []), after)
  }

  /** The bytes from offset on, at most size of them. */
  function Slice(bytes: seq<Byte>, offset: nat, size: nat): seq<Byte> {
    bytes[Min(offset, |bytes|)..Min(offset + size, |bytes|)]
  }

  /** `fread`. */
  function ReadFrom(f: File, size: nat): (seq<Byte>, File) {
    var data := Slice(f.bytes, f.pos, size);
    (data, f.(pos := f.pos + |data|))
  }

  /** `fseek`; a bad origin or an offset outside the range of a file position leaves the
      position as it was. */
  function SeekTo(f: File, offset: Int64, origin: nat): File {
    f.(pos := Target(f.pos, |f.bytes|, offset, origin))
  }

  function Target(pos: nat, size: nat, offset: Int64, origin: nat): nat {
    var base := if origin == 0 then 0 else if origin == 1 then pos else size;
    if origin <= 2 && 0 <= base + offset <= MAX_OFFSET then base + offset else pos
  }

  /** The bytes of a slice: as many as asked for, or as there are from the offset on. */
  lemma SliceBytes(bytes: seq<Byte>, offset: nat, size: nat)
    ensures |Slice(bytes, offset, size)| == if offset >= |bytes| then 0 else Min(size, |bytes| - offset)
    ensures forall i | 0 <= i < |Slice(bytes, offset, size)| :: Slice(bytes, offset, size)[i] == bytes[offset + i]
  {
  }

  /** A read goes on where the last one ended. */
  lemma SequentialReads(f: File, n: nat, m: nat)
    ensures var (x, g) := ReadFrom(f, n);
            var (y, h) := ReadFrom(g, m);
            (x + y, h) == ReadFrom(f, n + m)
  {
    var (x, g) := ReadFrom(f, n);
    SliceBytes(f.bytes, f.pos, n);
    SliceBytes(f.bytes, f.pos, n + m);
    SlicesJoin(f.bytes, f.pos, |x|, m);
    assert Slice(f.bytes, f.pos, |x|) == x;
    if |x| < n { assert Slice(f.bytes, g.pos, m) == []; }
  }

  // Seeking

  /** Seeking by nothing stays, or goes to the end. */
  lemma SeekNowhere(f: File)
    ensures f.pos <= MAX_OFFSET ==> SeekTo(f, 0, 1) == f
    ensures |f.bytes| <= MAX_OFFSET ==> SeekTo(f, 0, 2) == File(f.bytes, |f.bytes|)
    ensures SeekTo(f, 0, 0) == File(f.bytes, 0)
  {
  }

  /** Seeks from the position add up. */
  lemma RelativeSeeksAdd(f: File, a: Int64, b: Int64, c: Int64)
    requires c == a + b && 0 <= f.pos + a <= MAX_OFFSET && 0 <= f.pos + c <= MAX_OFFSET
    ensures SeekTo(SeekTo(f, a, 1), b, 1) == SeekTo(f, c, 1) == File(f.bytes, f.pos + c)
  {
  }

  /** Offsets count from the start, from the position or from the end; a seek in front of the
      start, out of the range of an offset, or from anywhere else, does nothing. */
  lemma SeekOrigins(f: File, a: Int64)
    ensures 0 <= a ==> SeekTo(f, a, 0) == File(f.bytes, a)
    ensures 0 <= f.pos + a <= MAX_OFFSET ==> SeekTo(f, a, 1) == File(f.bytes, f.pos + a)
    ensures 0 <= |f.bytes| + a <= MAX_OFFSET ==> SeekTo(f, a, 2) == File(f.bytes, |f.bytes| + a)
    ensures a < 0 ==> SeekTo(f, a, 0) == f && (f.pos + a < 0 ==> SeekTo(f, a, 1) == f)
    ensures |f.bytes| + a < 0 ==> SeekTo(f, a, 2) == f
    ensures f.pos + a > MAX_OFFSET ==> SeekTo(f, a, 1) == f
    ensures |f.bytes| + a > MAX_OFFSET ==> SeekTo(f, a, 2) == f
    ensures forall origin: nat | origin > 2 :: SeekTo(f, a, origin) == f
  {
  }

  /** A write after a seek to the end appends. */
  lemma AppendAtEnd(f: File, data: seq<Byte>)
    requires |f.bytes| <= MAX_OFFSET
    ensures WriteTo(SeekTo(f, 0, 2), data).bytes == f.bytes + data
  {
    var end := File(f.bytes, |f.bytes|);
    SeekNowhere(f);
    if data == [] {
      assert f.bytes + data == f.bytes;
    } else {
      WrittenBytes(end, data, 0);
      forall k: nat | k < |f.bytes + data| ensures WriteTo(end, data).bytes[k] == (f.bytes + data)[k] {
        WrittenBytes(end, data, k);
      }
    }
  }

  /** What a write leaves at each offset. */
  lemma WrittenBytes(f: File, data: seq<Byte>, k: nat)
    requires data != []
    ensures var r := WriteTo(f, data);
            && |r.bytes| == (if |f.bytes| > f.pos + |data| then |f.bytes| else f.pos + |data|)
            && r.pos == f.pos + |data|
            && (k < |r.bytes| ==>
                  r.bytes[k] == if f.pos <= k < f.pos + |data| then data[k - f.pos]
                                else if k < |f.bytes| then f.bytes[k] else 0)
  {
  }

  /** Appending two blocks in turn is appending them at once. */
  lemma WritesJoin(f: File, x: seq<Byte>, y: seq<Byte>)
    ensures WriteTo(WriteTo(f, x), y) == WriteTo(f, x + y)
  {
    if x == [] {
      assert x + y == y;
    } else if y == [] {
      assert x + y == x;
    } else {
      SameLength(f, x, y);
      var r, q := WriteTo(WriteTo(f, x), y), WriteTo(f, x + y);
      forall k: nat | k < |r.bytes| ensures r.bytes[k] == q.bytes[k] { SameByte(f, x, y, k); }
      assert r.bytes == q.bytes;
    }
  }

  lemma SameLength(f: File, x: seq<Byte>, y: seq<Byte>)
    requires x != [] && y != []
    ensures var r, q := WriteTo(WriteTo(f, x), y), WriteTo(f, x + y);
            |r.bytes| == |q.bytes| && r.pos == q.pos
  {
    WrittenBytes(f, x, 0);
    WrittenBytes(WriteTo(f, x), y, 0);
    WrittenBytes(f, x + y, 0);
  }

  lemma SameByte(f: File, x: seq<Byte>, y: seq<Byte>, k: nat)
    requires x != [] && y != []
    ensures var r, q := WriteTo(WriteTo(f, x), y).bytes, WriteTo(f, x + y).bytes;
            k < |r| && k < |q| ==> r[k] == q[k]
  {
    WrittenBytes(f, x, k);
    WrittenBytes(WriteTo(f, x), y, k);
    WrittenBytes(f, x + y, k);
  }

  /** What was written is read back after seeking to where it was put. */
  lemma ReadBack(f: File, data: seq<Byte>)
    requires f.pos <= MAX_OFFSET && data != []
    ensures ReadFrom(SeekTo(WriteTo(f, data), f.pos, 0), |data|).0 == data
  {
    WrittenWindow(f, data);
    SeekBack(WriteTo(f, data), f.pos);
  }

  lemma WrittenWindow(f: File, data: seq<Byte>)
    requires data != []
    ensures Slice(WriteTo(f, data).bytes, f.pos, |data|) == data
  {
    var padded := f.bytes + seq<Byte>(f.pos, i => 0);
    var rest := WriteTo(f, data).bytes[f.pos + |data|..];
    assert WriteTo(f, data).bytes == padded[..f.pos] + data + rest;
    MiddleSlice(padded[..f.pos], data, rest);
  }

  lemma MiddleSlice(x: seq<Byte>, y: seq<Byte>, z: seq<Byte>)
    ensures Slice(x + y + z, |x|, |y|) == y
  {
  }

  lemma SeekBack(f: File, pos: nat)
    requires pos <= MAX_OFFSET
    ensures SeekTo(f, pos, 0) == File(f.bytes, pos)
  {
  }

  /** The bytes from offset on as a sequence of reads of the given sizes returns them. */
  function Chunks(bytes: seq<Byte>, offset: nat, sizes: seq<nat>): seq<Byte>
    decreases |sizes|
  {
    if sizes == [] then [] else Slice(bytes, offset, sizes[0]) + Chunks(bytes, offset + sizes[0], sizes[1..])
  }

  function Sum(sizes: seq<nat>): nat {
    if sizes == [] then 0 else sizes[0] + Sum(sizes[1..])
  }

  lemma SlicesJoin(bytes: seq<Byte>, offset: nat, n: nat, m: nat)
    ensures Slice(bytes, offset, n) + Slice(bytes, offset + n, m) == Slice(bytes, offset, n + m)
  {
  }

  lemma NothingRead(bytes: seq<Byte>, offset: nat)
    ensures Slice(bytes, offset, 0) == []
  {
  }

  lemma OneMoreChunk(bytes: seq<Byte>, offset: nat, n: nat, rest: seq<nat>)
    requires Chunks(bytes, offset + n, rest) == Slice(bytes, offset + n, Sum(rest))
    ensures Chunks(bytes, offset, [n] + rest) == Slice(bytes, offset, Sum([n] + rest))
  {
    assert ([n] + rest)[1..] == rest;
    SlicesJoin(bytes, offset, n, Sum(rest));
  }

  /** Reads of adjacent chunks reassemble the contents. */
  lemma {:induction false} ChunksReassemble(bytes: seq<Byte>, offset: nat, sizes: seq<nat>)
    ensures Chunks(bytes, offset, sizes) == Slice(bytes, offset, Sum(sizes))
    decreases |sizes|
  {
    if sizes == [] {
      NothingRead(bytes, offset);
    } else {
      ChunksReassemble(bytes, offset + sizes[0], sizes[1..]);
      OneMoreChunk(bytes, offset, sizes[0], sizes[1..]);
      assert sizes == [sizes[0]] + sizes[1..];
    }
  }

  // Blocks

  /** A block of data written at an offset. */
  datatype Block = Block(at: nat, data: seq<Byte>) {
    function End(): nat { at + |data| }

    predicate Covers(k: nat) { at <= k < End() }
  }

  /** The length of a file after the given writes: it reaches up to the last end. */
  function Extent(blocks: seq<Block>): nat {
    if blocks == [] then 0 else
      var n, end := Extent(blocks[..|blocks| - 1]), blocks[|blocks| - 1].End();
      if n > end then n else end
  }

  /** The byte at offset k: that of the last block to cover it, or 0 in a gap. */
  function ByteAt(blocks: seq<Block>, k: nat): Byte {
    if blocks == [] then 0 else
      var last := blocks[|blocks| - 1];
      if last.Covers(k) then last.data[k - last.at] else ByteAt(blocks[..|blocks| - 1], k)
  }

  /** bytes are what the writes leave, the later ones over the earlier ones. */
  ghost predicate Painted(bytes: seq<Byte>, blocks: seq<Block>) {
    |bytes| == Extent(blocks) && forall k: nat | k < |bytes| :: bytes[k] == ByteAt(blocks, k)
  }

  lemma {:induction false} NothingBeyond(blocks: seq<Block>, k: nat)
    requires Extent(blocks) <= k
    ensures ByteAt(blocks, k) == 0
  {
    if blocks == [] {
    } else {
      NothingBeyond(blocks[..|blocks| - 1], k);
    }
  }

  lemma WritePaints(f: File, blocks: seq<Block>, data: seq<Byte>)
    requires Painted(f.bytes, blocks) && data != []
    ensures Painted(WriteTo(f, data).bytes, blocks + [Block(f.pos, data)])
  {
    var all, r := blocks + [Block(f.pos, data)], WriteTo(f, data).bytes;
    assert all[..|all| - 1] == blocks;
    WrittenBytes(f, data, 0);
    forall k: nat | k < |r| ensures r[k] == ByteAt(all, k) {
      WrittenBytes(f, data, k);
      if k >= |f.bytes| { NothingBeyond(blocks, k); }
    }
  }

  class FileWriteStream {
    var bytes: seq<Byte>
    var pos: nat
    const unknown: ComObjects.UnknownImp  // the base class object that counts the references

    function Contents(): File
      reads this
    {
      File(bytes, pos)
    }

    /** `new FileWriteStream`: an empty temporary file, with one reference. */
    constructor (base: ComObjects.UnknownImp)
      ensures Contents() == EMPTY_FILE && unknown == base
    {
      bytes, pos, unknown := [], 0, base;
    }

    method Write(data: seq<Byte>) returns (written: nat)
      modifies this
      ensures Contents() == WriteTo(old(Contents()), data) && written == |data|
    {
      if data != [] {
        var padded := bytes + seq(pos, i => 0);
        var after := pos + |data|;
        bytes := padded[..pos] + data + (if after < |bytes| then bytes[after..] else []);
        pos := after;
      }
      written := |data|;
    }

    /** `IOutStream::Seek`: reports success even when the position did not change. */
    method Seek(offset: Int64, origin: nat) returns (newPosition: nat)
      modifies this
      ensures Contents() == SeekTo(old(Contents()), offset, origin) && newPosition == pos
    {
      var base := if origin == 0 then 0 else if origin == 1 then pos else |bytes|;
      if origin <= 2 && 0 <= base + offset <= MAX_OFFSET { pos := base + offset; }
      newPosition := pos;
    }

    /** `IFile::read`. */
    method Read(size: nat) returns (data: seq<Byte>)
      modifies this
      ensures (data, Contents()) == ReadFrom(old(Contents()), size)
    {
      data := bytes[Min(pos, |bytes|)..Min(pos + size, |bytes|)];
      pos := pos + |data|;
    }

    /** `IFile::seek`, whose unsigned argument becomes a signed offset. */
    method SeekFile(position: UInt64, whence: nat) returns (newPosition: nat)
      modifies this
      ensures Contents() == SeekTo(old(Contents()), ToOffset(position), whence) && newPosition == pos
    {
      newPosition := Seek(ToOffset(position), whence);
    }
  }
}
