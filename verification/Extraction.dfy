/** The hand-over of the output stream to the 7-zip library and back
    (src/7zip/ArchiveExtractor.cpp, src/7zip/Archive.cpp:396-400). */
module Extraction {
  import opened Basics
  import opened ComHeaps
  import opened ComObjects
  import opened Streams

  datatype AskMode = ForExtract | ForTest | ForSkip

  /** One thing the library does during `IInArchive::Extract`. */
  datatype Event =
    | GetStream(mode: AskMode)
    | AddRefStream
    | QueryStream(supported: bool, wanted: bool)
    | ReleaseStream
    | WriteStream(data: seq<Byte>)
    | SeekStream(offset: Int64, origin: nat)

  type Script = seq<Event>

  // References

  /** 1 if the event hands the stream out, without AddRef. */
  function HandsOut(e: Event): nat { if e == GetStream(ForExtract) then 1 else 0 }

  function Handed(script: Script): nat {
    if script == [] then 0 else HandsOut(script[0]) + Handed(script[1..])
  }

  /** The references that the library owns after the event, as it sees it. */
  function OwnedThen(owned: nat, e: Event): nat
    requires e == ReleaseStream ==> owned > 0
  {
    match e
    case GetStream(mode) => owned + HandsOut(e)
    case AddRefStream => owned + 1
    case QueryStream(supported, wanted) => if supported && wanted then owned + 1 else owned
    case ReleaseStream => owned - 1
    case _ => owned
  }

  /** The library uses the stream only while it owns a reference, never releases more than
      it owns, and owns fewer than the 32-bit counter can count. */
  predicate Polite(owned: nat, script: Script)
    decreases |script|
  {
    script != [] ==>
      && (!script[0].GetStream? ==> owned > 0)
      && (script[0].AddRefStream? || script[0].QueryStream? ==> owned < UINT32_LIMIT - 3)
      && Polite(OwnedThen(owned, script[0]), script[1..])
  }

  function OwnedAfter(owned: nat, script: Script): nat
    requires Polite(owned, script)
    decreases |script|
  {
    if script == [] then owned else OwnedAfter(OwnedThen(owned, script[0]), script[1..])
  }

  /** The stream's counter after the event; None once it has been deleted. */
  function CountThen(count: Option<UInt32>, e: Event): Option<UInt32> {
    match count
    case None => None
    case Some(n) =>
      match e
      case AddRefStream => Some(Increment32(n))
      case QueryStream(supported, wanted) => if supported && wanted then Some(Increment32(n)) else count
      case ReleaseStream => if Decrement32(n) == 0 then None else Some(Decrement32(n))
      case _ => count
  }

  function CountAfter(count: Option<UInt32>, script: Script): Option<UInt32>
    decreases |script|
  {
    if script == [] then count else CountAfter(CountThen(count, script[0]), script[1..])
  }

  lemma {:induction false} DeadStaysDead(script: Script)
    ensures CountAfter(None, script) == None
  {
    if script == [] {
    } else {
      DeadStaysDead(script[1..]);
    }
  }

  /** While the stream lives its counter is the `unique_ptr`, the prepaid reference unless
      it has been given out, and the library's references, less the reference missing for
      every further hand-out. */
  lemma {:induction false} CountLaw(count: UInt32, owned: nat, handed: nat, script: Script)
    requires Polite(owned, script) && count == 2 + owned - handed && count > 0
    ensures var r := CountAfter(Some(count), script);
            r.Some? ==> r.value == 2 + OwnedAfter(owned, script) - (handed + Handed(script)) && r.value > 0
    ensures handed + Handed(script) <= 1 ==> CountAfter(Some(count), script).Some?
    decreases |script|
  {
    if script == [] {
    } else {
      var e := script[0];
      match CountThen(Some(count), e) {
        case None => DeadStaysDead(script[1..]);
        case Some(n) => CountLaw(n, OwnedThen(owned, e), handed + HandsOut(e), script[1..]);
      }
    }
  }

  /** A library that is polite and gives back all it owns leaves the stream alive exactly
      when it asked for it in extract mode at most once. */
  lemma StreamSurvives(script: Script)
    requires Polite(0, script) && OwnedAfter(0, script) == 0
    ensures CountAfter(Some(2), script).Some? <==> Handed(script) <= 1
    ensures CountAfter(Some(2), script).Some? ==> CountAfter(Some(2), script).value == 2 - Handed(script)
  {
    CountLaw(2, 0, 0, script);
  }

  /** Asking twice, and giving each reference back, is one time too many. */
  lemma HandedOutTwice()
    ensures var ask := [GetStream(ForExtract), ReleaseStream];
            Polite(0, ask + ask) && OwnedAfter(0, ask + ask) == 0 && CountAfter(Some(2), ask + ask) == None
  {
    var ask := [GetStream(ForExtract), ReleaseStream];
    var script := ask + ask;
    var last, middle := [ReleaseStream], [ReleaseStream] + ask;
    assert script[1..] == middle && middle[1..] == ask && ask[1..] == last && last[1..] == [];
    assert Polite(1, last) && OwnedAfter(1, last) == 0 && Handed(last) == 0;
    assert Polite(0, ask) && OwnedAfter(0, ask) == 0 && Handed(ask) == 1;
    assert Polite(1, middle) && OwnedAfter(1, middle) == 0 && Handed(middle) == 1;
    assert Polite(0, script) && OwnedAfter(0, script) == 0 && Handed(script) == 2;
    StreamSurvives(script);
  }

  // Contents

  function FileThen(f: File, e: Event): File {
    match e
    case WriteStream(data) => WriteTo(f, data)
    case SeekStream(offset, origin) => SeekTo(f, offset, origin)
    case _ => f
  }

  function Replay(f: File, script: Script): File
    decreases |script|
  {
    if script == [] then f else Replay(FileThen(f, script[0]), script[1..])
  }

  /** The block that an event writes at the given position, if any. */
  function BlockOf(pos: nat, e: Event): seq<Block> {
    if DataOf(e) == [] then [] else [Block(pos, DataOf(e))]
  }

  /** Position and size of a file after an event. */
  function PosThen(pos: nat, size: nat, e: Event): nat {
    match e
    case WriteStream(data) => pos + |data|
    case SeekStream(offset, origin) => Target(pos, size, offset, origin)
    case _ => pos
  }

  function SizeThen(pos: nat, size: nat, e: Event): nat {
    if DataOf(e) == [] || pos + |DataOf(e)| < size then size else pos + |DataOf(e)|
  }

  /** The blocks that the script writes into a file of the given size, from the given
      position on. */
  function Blocks(pos: nat, size: nat, script: Script): seq<Block>
    decreases |script|
  {
    if script == [] then [] else
      BlockOf(pos, script[0])
      + Blocks(PosThen(pos, size, script[0]), SizeThen(pos, size, script[0]), script[1..])
  }

  lemma PlaceThen(f: File, e: Event)
    ensures FileThen(f, e).pos == PosThen(f.pos, |f.bytes|, e)
    ensures |FileThen(f, e).bytes| == SizeThen(f.pos, |f.bytes|, e)
  {
    if DataOf(e) != [] { WrittenBytes(f, e.data, 0); }
  }

  lemma EventPaints(f: File, before: seq<Block>, e: Event)
    requires Painted(f.bytes, before)
    ensures Painted(FileThen(f, e).bytes, before + BlockOf(f.pos, e))
  {
    if DataOf(e) == [] {
      assert before + [] == before;
    } else {
      WritePaints(f, before, e.data);
    }
  }

  /** Whatever the library writes and wherever it seeks, each byte is that of the last block
      written over it, and the gaps are zeros. */
  lemma {:induction false} ReplayPaints(f: File, before: seq<Block>, script: Script)
    requires Painted(f.bytes, before)
    ensures Painted(Replay(f, script).bytes, before + Blocks(f.pos, |f.bytes|, script))
    decreases |script|
  {
    if script == [] {
      assert before + [] == before;
    } else {
      var e, g := script[0], FileThen(f, script[0]);
      EventPaints(f, before, e);
      ReplayPaints(g, before + BlockOf(f.pos, e), script[1..]);
      PlaceThen(f, e);
      Regroup(before, BlockOf(f.pos, e), Blocks(g.pos, |g.bytes|, script[1..]));
    }
  }

  lemma Regroup<T>(xs: seq<T>, ys: seq<T>, zs: seq<T>)
    ensures xs + ys + zs == xs + (ys + zs)
  {
  }

  lemma ExtractedPaints(script: Script)
    ensures Painted(Replay(EMPTY_FILE, script).bytes, Blocks(0, 0, script))
  {
    ReplayPaints(EMPTY_FILE, [], script);
    assert [] + Blocks(0, 0, script) == Blocks(0, 0, script);
  }

  /** The event with its seek, if it has one, counted from the start of the file. */
  function FromStart(pos: nat, size: nat, e: Event): Event {
    match e
    case SeekStream(offset, origin) =>
      if origin > 2 then e else
        var to := [0, pos, size][origin] + offset;
        if 0 <= to <= MAX_OFFSET then SeekStream(to, 0) else e
    case _ => e
  }

  /** The same script with every seek counted from the start of the file. */
  function AbsoluteSeeks(f: File, script: Script): Script
    decreases |script|
  {
    if script == [] then [] else
      var e := FromStart(f.pos, |f.bytes|, script[0]);
      [e] + AbsoluteSeeks(FileThen(f, e), script[1..])
  }

  /** Seeks relative to the position or to the end lead to the same contents as the seeks
      from the start to the same places. */
  lemma {:induction false} SeeksResolved(f: File, script: Script)
    ensures Replay(f, AbsoluteSeeks(f, script)) == Replay(f, script)
    decreases |script|
  {
    if script == [] {
    } else {
      var e := FromStart(f.pos, |f.bytes|, script[0]);
      SeekFromStart(f, script[0]);
      SeeksResolved(FileThen(f, e), script[1..]);
      assert AbsoluteSeeks(f, script)[1..] == AbsoluteSeeks(FileThen(f, e), script[1..]);
    }
  }

  lemma SeekFromStart(f: File, e: Event)
    ensures FileThen(f, FromStart(f.pos, |f.bytes|, e)) == FileThen(f, e)
  {
    if e.SeekStream? { SeekOrigins(f, e.offset); }
  }

  function Written(script: Script): seq<Byte> {
    if script == [] then [] else DataOf(script[0]) + Written(script[1..])
  }

  function DataOf(e: Event): seq<Byte> { if e.WriteStream? then e.data else [] }

  ghost predicate Seekless(script: Script) {
    forall i | 0 <= i < |script| :: !script[i].SeekStream?
  }

  /** Without seeking, the contents are the concatenation of the writes. */
  lemma {:induction false} ContentsAreWrites(f: File, script: Script)
    requires Seekless(script)
    ensures Replay(f, script) == WriteTo(f, Written(script))
    decreases |script|
  {
    if script == [] {
    } else {
      var rest := script[1..];
      assert Seekless(rest) by { assert forall i | 0 <= i < |rest| :: rest[i] == script[i + 1]; }
      SeeklessEvent(f, script[0]);
      ContentsAreWrites(FileThen(f, script[0]), rest);
      WritesJoin(f, DataOf(script[0]), Written(rest));
    }
  }

  lemma SeeklessEvent(f: File, e: Event)
    requires !e.SeekStream?
    ensures FileThen(f, e) == WriteTo(f, DataOf(e))
  {
  }

  lemma ExtractedBytes(script: Script)
    requires Seekless(script)
    ensures Replay(EMPTY_FILE, script).bytes == Written(script)
  {
    ContentsAreWrites(EMPTY_FILE, script);
    WriteToEmpty(Written(script));
  }

  lemma WriteToEmpty(data: seq<Byte>)
    ensures WriteTo(EMPTY_FILE, data).bytes == data
  {
    if data != [] { assert EMPTY_FILE.bytes + seq<Byte>(EMPTY_FILE.pos, i => 0) == []; }
  }

  // The extractor

  /** h with n references to o, all raw. */
  ghost function WithRaw(h: WorldHeap, o: UnknownImp, n: UInt32): WorldHeap {
    h.(counts := h.counts[o := n], raws := h.raws[o := n])
  }

  lemma FirstRaw(h: WorldHeap, o: UnknownImp)
    requires Sound(h) && o !in h.counts
    ensures h.(counts := h.counts[o := 1], raws := h.raws + multiset{o}) == WithRaw(h, o, 1)
  {
    assert o !in h.raws;
    assert h.raws + multiset{o} == h.raws[o := 1];
  }

  lemma SharedRaw(h: WorldHeap, o: UnknownImp, n: UInt32)
    requires n < UINT32_LIMIT - 1
    ensures Shared(WithRaw(h, o, n), o) == WithRaw(h, o, n + 1)
  {
    assert h.raws[o := n] + multiset{o} == h.raws[o := n + 1];
  }

  lemma DroppedRaw(h: WorldHeap, o: UnknownImp, n: UInt32)
    requires n > 1
    ensures Dropped(WithRaw(h, o, n), o) == WithRaw(h, o, n - 1)
  {
    assert h.raws[o := n] - multiset{o} == h.raws[o := n - 1];
  }

  /** `delete o` by a unique_ptr, whatever the counter says. */
  ghost function Deleted(h: WorldHeap, o: UnknownImp): WorldHeap {
    h.(counts := h.counts - {o}, raws := h.raws[o := 0], deleted := h.deleted + [o])
  }

  lemma WithRawConserves(h: WorldHeap, o: UnknownImp, n: UInt32)
    requires Conserved(h) && o !in h.counts && o !in h.deleted && n > 0
    ensures Conserved(WithRaw(h, o, n))
  {
    var r := WithRaw(h, o, n);
    forall x | x in h.ptrs ensures h.ptrs[x] != Some(o) { assert Points(h, h.ptrs[x]); }
    assert Holders(r.ptrs, o) == {};
    assert forall q | q in h.counts :: Owners(r, q) == Owners(h, q);
  }

  /** Deleting conserves when no handle points to the object. */
  lemma DeletedConserves(h: WorldHeap, o: UnknownImp)
    requires Conserved(h) && o in h.counts && Holders(h.ptrs, o) == {}
    ensures Conserved(Deleted(h, o))
  {
    var r := Deleted(h, o);
    forall x | x in h.ptrs ensures h.ptrs[x] != Some(o) && Points(r, r.ptrs[x]) {
      assert Points(h, h.ptrs[x]);
      assert x in Holders(h.ptrs, o) <==> h.ptrs[x] == Some(o);
    }
    assert forall q | q in r.counts :: Owners(r, q) == Owners(h, q);
  }

  /** h with a new extractor e, held by the temporary handle x. */
  ghost function Started(h: WorldHeap, e: UnknownImp, x: ComObject): WorldHeap {
    h.(counts := h.counts[e := 1], raws := h.raws[e := 0], ptrs := h.ptrs[x := Some(e)])
  }

  /** h with a stream s of n raw references, after its extractor e has been deleted. */
  ghost function Finished(h: WorldHeap, e: UnknownImp, s: UnknownImp, n: UInt32): WorldHeap {
    h.(counts := h.counts[s := n], raws := h.raws[s := n], deleted := h.deleted + [e])
  }

  lemma ExtractorStarts(h: WorldHeap, e: UnknownImp, x: ComObject)
    requires Sound(h) && e !in h.counts
    ensures Adopted(h.(counts := h.counts[e := 1], raws := h.raws + multiset{e}), x, Some(e)) == Started(h, e, x)
    ensures Sound(Started(h, e, x))
  {
    assert e !in h.raws;
    assert h.raws + multiset{e} - multiset{e} == h.raws[e := 0];
  }

  lemma ExtractorGone(h: WorldHeap, e: UnknownImp, x: ComObject, s: UnknownImp, n: UInt32)
    requires Sound(h) && e !in h.counts && x !in h.ptrs && s != e
    ensures var before := WithRaw(Started(h, e, x), s, n);
            x in before.ptrs && Points(before, before.ptrs[x]) && Destroyed(before, x) == Finished(h, e, s, n)
  {
    assert e !in h.raws;
    assert h.raws[e := 0] == h.raws;
    assert h.counts[e := 1][s := n] - {e} == h.counts[s := n];
    assert h.ptrs[x := Some(e)] - {x} == h.ptrs;
  }

  /** The library is polite and the stream is never deleted while the extractor holds it. */
  predicate Survives(script: Script) {
    Polite(0, script) && CountAfter(Some(2), script).Some?
  }

  /** The counter at the end. */
  function CountOf(script: Script): UInt32
    requires Survives(script)
  {
    CountAfter(Some(2), script).value
  }

  /** One call of the library, with n references to the stream. */
  lemma CallCounts(owned: nat, handed: nat, n: UInt32, script: Script)
    requires script != [] && Polite(owned, script) && CountAfter(Some(n), script).Some?
    requires n > 0 && n == 2 + owned - handed
    ensures var e := script[0];
            && (e == ReleaseStream ==> n > 1)
            && (e.AddRefStream? || e.QueryStream? ==> n < UINT32_LIMIT - 1)
            && CountThen(Some(n), e).Some? && CountThen(Some(n), e).value > 0
            && CountThen(Some(n), e).value == 2 + OwnedThen(owned, e) - (handed + HandsOut(e))
  {
    DeadStaysDead(script[1..]);
  }

  class ImplArchiveExtractor {
    var file: FileWriteStream?  // a unique_ptr
    const unknown: UnknownImp   // the base class object that counts the references

    constructor (base: UnknownImp)
      ensures file == null && unknown == base
    {
      file, unknown := null, base;
    }

    /** `GetStream` hands the raw pointer out in extract mode only. */
    method GetStream(mode: AskMode) returns (outStream: FileWriteStream?)
      ensures outStream == if mode == ForExtract then file else null
      ensures file != null ==> (outStream != null <==> HandsOut(Event.GetStream(mode)) == 1)
    {
      outStream := null;
      if mode != ForExtract { return; }
      if file != null { outStream := file; }
    }

    /** `execute`: `script` is what the library does in Extract and `ok`
        whether it reports success. On failure an exception leaves the stream to `file`. */
    method Execute(script: Script, ok: bool, ghost w: World) returns (r: FileWriteStream?)
      requires w.Valid() && Sound(w.heap) && file == null && Survives(script)
      modifies this, w
      ensures w.Valid() && (ok <==> r != null) && (ok <==> file == null)
      ensures var stream := if ok then r else file;
              && fresh(stream) && fresh(stream.unknown)
              && stream.unknown !in old(w.heap.counts) && stream.unknown !in old(w.heap.deleted)
              && w.heap == WithRaw(old(w.heap), stream.unknown, CountOf(script))
              && stream.bytes == Replay(EMPTY_FILE, script).bytes
              && (ok ==> stream.pos == 0)
    {
      var stream := NewStream(w);
      file := stream;
      ghost var h := old(w.heap);
      Extract(script, stream, w, h);
      if !ok { return null; }
      var at := stream.SeekFile(0, 0);
      r := stream;
      file := null;
    }

    /** A new stream with a second reference, the one that GetStream will hand out. */
    method NewStream(ghost w: World) returns (stream: FileWriteStream)
      requires w.Valid() && Sound(w.heap)
      modifies w
      ensures fresh(stream) && fresh(stream.unknown) && stream.Contents() == EMPTY_FILE
      ensures stream.unknown !in old(w.heap.counts) && stream.unknown !in old(w.heap.deleted)
      ensures w.Valid() && w.heap == WithRaw(old(w.heap), stream.unknown, 2)
    {
      var base := new UnknownImp(w);
      stream := new FileWriteStream(base);
      FirstRaw(old(w.heap), base);
      SharedRaw(old(w.heap), base, 1);
      base.Share(w);
    }

    /** `IInArchive::Extract`: the calls of the library, one by one. */
    method Extract(script: Script, stream: FileWriteStream, ghost w: World, ghost h: WorldHeap)
      requires w.Valid() && w.heap == WithRaw(h, stream.unknown, 2) && Survives(script)
      modifies stream, stream.unknown, w
      ensures w.Valid() && w.heap == WithRaw(h, stream.unknown, CountOf(script))
      ensures stream.Contents() == Replay(old(stream.Contents()), script)
    {
      ghost var owned: nat, handed: nat, n: UInt32 := 0, 0, 2;
      ghost var replayed := Replay(stream.Contents(), script);
      var i := 0;
      assert script[0..] == script;
      while i < |script|
        invariant 0 <= i <= |script|
        invariant Polite(owned, script[i..]) && CountAfter(Some(n), script[i..]) == CountAfter(Some(2), script)
        invariant n > 0 && n == 2 + owned - handed
        invariant w.Valid() && w.heap == WithRaw(h, stream.unknown, n)
        invariant Replay(stream.Contents(), script[i..]) == replayed
      {
        ghost var rest := script[i..];
        assert rest[0] == script[i] && rest[1..] == script[i + 1..];
        CallCounts(owned, handed, n, rest);
        Serve(script[i], stream, w, h, n);
        n := CountThen(Some(n), script[i]).value;
        owned, handed := OwnedThen(owned, script[i]), handed + HandsOut(script[i]);
        i := i + 1;
      }
    }

    /** Serve one call of the library on the stream, whose n references are all raw. */
    method Serve(e: Event, stream: FileWriteStream, ghost w: World, ghost h: WorldHeap, ghost n: UInt32)
      requires w.Valid() && w.heap == WithRaw(h, stream.unknown, n)
      requires e == ReleaseStream ==> n > 1
      requires e.AddRefStream? || e.QueryStream? ==> n < UINT32_LIMIT - 1
      modifies stream, stream.unknown, w
      ensures w.Valid() && CountThen(Some(n), e).Some?
      ensures w.heap == WithRaw(h, stream.unknown, CountThen(Some(n), e).value)
      ensures stream.Contents() == FileThen(old(stream.Contents()), e)
    {
      match e {
        case GetStream(mode) => var out := GetStream(mode);
        case WriteStream(data) => var written := stream.Write(data);
        case SeekStream(offset, origin) => var at := stream.Seek(offset, origin);
        case _ => ServeReference(e, stream.unknown, w, h, n);
      }
    }

    /** The calls that change the counter. */
    method ServeReference(e: Event, base: UnknownImp, ghost w: World, ghost h: WorldHeap, ghost n: UInt32)
      requires w.Valid() && w.heap == WithRaw(h, base, n)
      requires e.AddRefStream? || e.QueryStream? || e.ReleaseStream?
      requires if e == ReleaseStream then n > 1 else n < UINT32_LIMIT - 1
      modifies base, w
      ensures w.Valid() && CountThen(Some(n), e).Some?
      ensures w.heap == WithRaw(h, base, CountThen(Some(n), e).value)
    {
      match e {
        case AddRefStream => ShareRaw(base, w, h, n);
        case QueryStream(supported, wanted) =>
          SharedRaw(h, base, n);
          var hr, p := base.QueryInterface(supported, wanted, w);
        case ReleaseStream => DropRaw(base, w, h, n);
      }
    }

    method ShareRaw(base: UnknownImp, ghost w: World, ghost h: WorldHeap, ghost n: UInt32)
      requires w.Valid() && w.heap == WithRaw(h, base, n) && n < UINT32_LIMIT - 1
      modifies base, w
      ensures w.Valid() && w.heap == WithRaw(h, base, n + 1)
    {
      SharedRaw(h, base, n);
      base.Share(w);
    }

    method DropRaw(base: UnknownImp, ghost w: World, ghost h: WorldHeap, ghost n: UInt32)
      requires w.Valid() && w.heap == WithRaw(h, base, n) && n > 1
      modifies base, w
      ensures w.Valid() && w.heap == WithRaw(h, base, n - 1)
    {
      DroppedRaw(h, base, n);
      var deleted := base.Drop(w);
    }
  }

  /** A new extractor and the handle that takes its reference over. */
  method NewExtractor(ghost w: World) returns (extractor: ImplArchiveExtractor, handle: ComObject)
    requires w.Valid() && Sound(w.heap)
    modifies w
    ensures fresh(extractor) && fresh(handle) && fresh(extractor.unknown) && extractor.file == null
    ensures handle.ptr == extractor.unknown && handle !in old(w.heap.ptrs)
    ensures extractor.unknown !in old(w.heap.counts) && extractor.unknown !in old(w.heap.deleted)
    ensures w.Valid() && w.heap == Started(old(w.heap), extractor.unknown, handle)
  {
    var base := new UnknownImp(w);
    extractor := new ImplArchiveExtractor(base);
    handle := new ComObject.FromPointer(base, w);
    ExtractorStarts(old(w.heap), base, handle);
  }

  /** The handle goes out of scope and takes the extractor with it. */
  method EndExtractor(handle: ComObject, ghost w: World, ghost h: WorldHeap, ghost s: UnknownImp, ghost n: UInt32)
    requires w.Valid() && handle.ptr != null && Sound(h) && handle.ptr !in h.counts && handle !in h.ptrs
    requires s != handle.ptr && w.heap == WithRaw(Started(h, handle.ptr, handle), s, n)
    modifies handle, handle.ptr, w
    ensures w.Valid() && w.heap == Finished(h, old(handle.ptr), s, n)
  {
    ExtractorGone(h, handle.ptr, handle, s, n);
    handle.Destroy(w);
  }

  /** The extractor still holds the stream after a failure and deletes it; references that
      the library has kept then point to nothing. */
  ghost method EndStream(w: World, h: WorldHeap, e: UnknownImp, s: UnknownImp, n: UInt32, kept: nat)
    requires w.Valid() && Sound(h) && s !in h.counts && w.heap == Finished(h, e, s, n)
    modifies w
    ensures w.Valid() && w.heap == Failed(h, e, s, kept)
  {
    StreamGone(h, e, s, n, kept);
    w.heap := Deleted(w.heap, s).(raws := w.heap.raws[s := kept]);
  }

  /** h after an extraction that failed, with the references that the library has kept. */
  ghost function Failed(h: WorldHeap, e: UnknownImp, s: UnknownImp, kept: nat): WorldHeap {
    h.(raws := h.raws[s := kept], deleted := h.deleted + [e, s])
  }

  lemma StreamGone(h: WorldHeap, e: UnknownImp, s: UnknownImp, n: UInt32, kept: nat)
    requires Sound(h) && s !in h.counts
    ensures var f := Finished(h, e, s, n);
            Deleted(f, s).(raws := f.raws[s := kept]) == Failed(h, e, s, kept)
  {
    assert h.counts[s := n] - {s} == h.counts;
    assert h.raws[s := n][s := kept] == h.raws[s := kept];
  }

  lemma NothingKept(h: WorldHeap, e: UnknownImp, s: UnknownImp)
    requires Sound(h) && s !in h.counts
    ensures Failed(h, e, s, 0) == h.(deleted := h.deleted + [e, s])
  {
    assert s !in h.raws;
    assert h.raws[s := 0] == h.raws;
  }

  /** Counts still equal owners afterwards, and nothing is deleted twice. */
  lemma ExtractionConserves(h: WorldHeap, e: UnknownImp, s: UnknownImp, n: UInt32)
    requires Conserved(h) && e !in h.counts && s !in h.counts && e !in h.deleted && s !in h.deleted && e != s && n > 0
    ensures Conserved(Finished(h, e, s, n)) && Holders(Finished(h, e, s, n).ptrs, s) == {}
    ensures Conserved(h.(deleted := h.deleted + [e, s]))
  {
    WithRawConserves(h, s, n);
    AlsoDeleted(WithRaw(h, s, n), [e]);
    AlsoDeleted(h, [e, s]);
    forall x | x in h.ptrs ensures h.ptrs[x] != Some(s) { assert Points(h, h.ptrs[x]); }
  }

  lemma AlsoDeleted(h: WorldHeap, os: seq<UnknownImp>)
    requires Conserved(h) && forall i | 0 <= i < |os| :: os[i] !in h.counts && os[i] !in h.deleted
    requires forall i, j | 0 <= i < j < |os| :: os[i] != os[j]
    ensures Conserved(h.(deleted := h.deleted + os))
  {
    var r := h.(deleted := h.deleted + os);
    assert forall o | o in h.counts :: Owners(r, o) == Owners(h, o);
  }

  /** `ci_iterator::Impl::extract`: runs a new extractor e, held by a handle that goes out
      of scope. Only the stream s survives, or nothing when the library fails. */
  method ExtractItem(script: Script, ok: bool, ghost w: World)
    returns (r: FileWriteStream?, ghost e: UnknownImp, ghost s: UnknownImp)
    requires w.Valid() && Conserved(w.heap) && Survives(script)
    modifies w
    ensures w.Valid() && (ok <==> r != null)
    ensures fresh(e) && fresh(s) && e != s
    ensures e !in old(w.heap.counts) && s !in old(w.heap.counts)
    ensures e !in old(w.heap.deleted) && s !in old(w.heap.deleted)
    ensures ok ==> fresh(r) && r.unknown == s && r.Contents() == File(Replay(EMPTY_FILE, script).bytes, 0)
    ensures ok ==> w.heap == Finished(old(w.heap), e, s, CountOf(script))
    ensures !ok ==> w.heap == Failed(old(w.heap), e, s, OwnedAfter(0, script))
  {
    ghost var h := w.heap;
    var extractor, handle := NewExtractor(w);
    e := extractor.unknown;
    r := extractor.Execute(script, ok, w);
    s := if ok then r.unknown else extractor.file.unknown;
    EndExtractor(handle, w, h, s, CountOf(script));
    if !ok { EndStream(w, h, e, s, CountOf(script), OwnedAfter(0, script)); }
  }
}
