/** Open files: `cb_open`, `cb_read` and `cb_release` (src/fuse3.cpp:285-318). The file
    handle that FUSE carries is the address of the extracted stream. */
module Handles {
  import opened Basics
  import opened ComHeaps
  import opened ComObjects
  import opened Extraction
  import opened Streams
  import Archives
  import Listings
  import Paths
  import TreeProperties
  import Trees

  const E2BIG := 7

  /** What the library does when asked for an item, and whether it reports success. */
  datatype LibRun = LibRun(script: Script, ok: bool) {
    /** It is polite, gives back all references it owns, and asks for the stream in extract
        mode at most once. */
    predicate Orderly() {
      Polite(0, script) && OwnedAfter(0, script) == 0 && Handed(script) <= 1
    }

    function Bytes(): seq<Byte> { Replay(EMPTY_FILE, script).bytes }
  }

  datatype OpenResult = Opened(file: FileWriteStream) | Refused(code: int) | Thrown

  // One handle

  /** The read of `cb_read`: a seek, which a negative offset makes fail, then a read. */
  function ReadStep(f: File, size: nat, offset: Int64): (seq<Byte>, File) {
    ReadFrom(SeekTo(f, offset, 0), size)
  }

  /** A read never changes the bytes; from a valid offset it returns the slice there,
      wherever the position was. */
  lemma ReadIsPositional(f: File, size: nat, offset: Int64)
    ensures ReadStep(f, size, offset).1.bytes == f.bytes
    ensures ReadStep(f, size, offset).0 == Slice(f.bytes, if offset >= 0 then offset else f.pos, size)
  {
  }

  // Runs over many handles

  /** `Open` carries the address of the new stream and the bytes extracted into it. */
  datatype Call<F> = Open(fh: F, bytes: seq<Byte>) | Read(fh: F, size: nat, offset: Int64) | Close(fh: F)

  /** The open streams with their positions. */
  type Table<!F> = map<F, File>

  predicate Allowed<F(==)>(t: Table<F>, c: Call<F>) {
    match c
    case Open(fh, bytes) => fh !in t
    case Read(fh, size, offset) => fh in t && offset >= 0
    case Close(fh) => fh in t
  }

  /** One callback: the bytes it returns, and the open streams afterwards. */
  function Callback<F(==)>(t: Table<F>, c: Call<F>): (seq<Byte>, Table<F>)
    requires Allowed(t, c)
  {
    match c
    case Open(fh, bytes) => ([], t[fh := File(bytes, 0)])
    case Read(fh, size, offset) => var (data, f) := ReadStep(t[fh], size, offset); (data, t[fh := f])
    case Close(fh) => ([], t - {fh})
  }

  predicate LegalRun<F(==)>(t: Table<F>, calls: seq<Call<F>>)
    decreases |calls|
  {
    calls != [] ==> Allowed(t, calls[0]) && LegalRun(Callback(t, calls[0]).1, calls[1..])
  }

  function Replies<F(==)>(t: Table<F>, calls: seq<Call<F>>): seq<seq<Byte>>
    requires LegalRun(t, calls)
    decreases |calls|
  {
    if calls == [] then [] else
      var (data, t') := Callback(t, calls[0]);
      [data] + Replies(t', calls[1..])
  }

  /** The specification: handles are names of immutable byte strings, without positions. */
  type Contents<!F> = map<F, seq<Byte>>

  function IdealReplies<F(==)>(m: Contents<F>, calls: seq<Call<F>>): seq<seq<Byte>>
    decreases |calls|
  {
    if calls == [] then [] else
      match calls[0]
      case Open(fh, bytes) => [[]] + IdealReplies(m[fh := bytes], calls[1..])
      case Read(fh, size, offset) =>
        [if fh in m && offset >= 0 then Slice(m[fh], offset, size) else []] + IdealReplies(m, calls[1..])
      case Close(fh) => [[]] + IdealReplies(m - {fh}, calls[1..])
  }

  ghost predicate Represents<F>(t: Table<F>, m: Contents<F>) {
    t.Keys == m.Keys && forall fh | fh in t :: t[fh].bytes == m[fh]
  }

  /** In every interleaving over any number of handles, the replies are those of
      positional reads of immutable contents. */
  lemma {:induction false} RunsArePositional<F>(t: Table<F>, m: Contents<F>, calls: seq<Call<F>>)
    requires Represents(t, m) && LegalRun(t, calls)
    ensures Replies(t, calls) == IdealReplies(m, calls)
    decreases |calls|
  {
    if calls == [] {
    } else {
      var t' := Callback(t, calls[0]).1;
      match calls[0] {
        case Open(fh, bytes) => RunsArePositional(t', m[fh := bytes], calls[1..]);
        case Read(fh, size, offset) =>
          ReadIsPositional(t[fh], size, offset);
          RunsArePositional(t', m, calls[1..]);
        case Close(fh) => RunsArePositional(t', m - {fh}, calls[1..]);
      }
    }
  }

  lemma WholeSlice(bytes: seq<Byte>, size: nat)
    requires size >= |bytes|
    ensures Slice(bytes, 0, size) == bytes
  {
  }

  /** Reading an opened item in adjacent chunks, up to its size or further, returns what
      the library wrote: its blocks, the later over the earlier, or just the concatenation
      of its writes if it did not seek. */
  lemma WholeItem(run: LibRun, sizes: seq<nat>)
    requires Sum(sizes) >= |run.Bytes()|
    ensures Painted(Chunks(run.Bytes(), 0, sizes), Blocks(0, 0, run.script))
    ensures Seekless(run.script) ==> Chunks(run.Bytes(), 0, sizes) == Written(run.script)
  {
    ChunksReassemble(run.Bytes(), 0, sizes);
    WholeSlice(run.Bytes(), Sum(sizes));
    ExtractedPaints(run.script);
    if Seekless(run.script) { ExtractedBytes(run.script); }
  }

  /** The conversion of a byte count to the int that FUSE expects. */
  function ToInt(n: nat): int {
    var low := n % UINT32_LIMIT;
    if low < 0x8000_0000 then low else low - UINT32_LIMIT
  }

  /** The int differs from the count by a multiple of 2^32, and is the count if that fits. */
  lemma ToIntWraps(n: nat)
    ensures -0x8000_0000 <= ToInt(n) < 0x8000_0000
    ensures exists k: int :: n == ToInt(n) + k * UINT32_LIMIT
    ensures n < 0x8000_0000 ==> ToInt(n) == n
  {
    var k := (n - ToInt(n)) / UINT32_LIMIT;
    assert n == ToInt(n) + k * UINT32_LIMIT;
  }

  // The callbacks

  /** Counts equal owners, and every open stream is alive, is an object of its own, and is
      owned by no COM handle. */
  ghost predicate Tracked(h: WorldHeap, open: set<FileWriteStream>) {
    && Conserved(h)
    && (forall f | f in open :: f.unknown in h.counts && Holders(h.ptrs, f.unknown) == {})
    && (forall f, g | f in open && g in open && f != g :: f.unknown != g.unknown)
  }

  lemma OpenTracked(h: WorldHeap, open: set<FileWriteStream>, f: FileWriteStream, e: UnknownImp, n: UInt32)
    requires Tracked(h, open) && n > 0 && e != f.unknown
    requires e !in h.counts && f.unknown !in h.counts && e !in h.deleted && f.unknown !in h.deleted
    ensures Tracked(Finished(h, e, f.unknown, n), open + {f})
  {
    ExtractionConserves(h, e, f.unknown, n);
  }

  lemma FailTracked(h: WorldHeap, open: set<FileWriteStream>, e: UnknownImp, s: UnknownImp)
    requires Tracked(h, open) && e != s
    requires e !in h.counts && s !in h.counts && e !in h.deleted && s !in h.deleted
    ensures Tracked(h.(deleted := h.deleted + [e, s]), open)
  {
    ExtractionConserves(h, e, s, 1);
  }

  lemma CloseTracked(h: WorldHeap, open: set<FileWriteStream>, f: FileWriteStream)
    requires Tracked(h, open) && f in open
    ensures Tracked(Deleted(h, f.unknown), open - {f})
  {
    DeletedConserves(h, f.unknown);
  }

  /** The extraction by an orderly library. */
  method RunLibrary(run: LibRun, ghost w: World)
    returns (r: FileWriteStream?, ghost e: UnknownImp, ghost s: UnknownImp)
    requires w.Valid() && Conserved(w.heap) && run.Orderly()
    modifies w
    ensures w.Valid() && (run.ok <==> r != null)
    ensures e != s && e !in old(w.heap.counts) && s !in old(w.heap.counts)
    ensures e !in old(w.heap.deleted) && s !in old(w.heap.deleted)
    ensures run.ok ==>
              && fresh(r) && r.unknown == s && r.Contents() == File(run.Bytes(), 0)
              && w.heap == Finished(old(w.heap), e, s, 2 - Handed(run.script))
    ensures !run.ok ==> w.heap == old(w.heap).(deleted := old(w.heap).deleted + [e, s])
  {
    ghost var h := w.heap;
    StreamSurvives(run.script);
    r, e, s := ExtractItem(run.script, run.ok, w);
    NothingKept(h, e, s);
  }

  /** The key is there and its size is within the limit. */
  predicate Extracts(t: Trees.FileTree, key: Paths.Path, limit: Option<int>) {
    key in t && (limit.Some? ==> t[key].stat.size <= limit.value)
  }

  /** A size that is refused under a limit is refused under every smaller one, and none is
      without a limit. */
  lemma SmallerLimit(t: Trees.FileTree, key: Paths.Path, m: int, n: int)
    requires key in t && n <= m
    ensures !Extracts(t, key, Some(m)) ==> !Extracts(t, key, Some(n))
    ensures Extracts(t, key, None) && Extracts(t, key, Some(t[key].stat.size))
    ensures !Extracts(t, key, Some(t[key].stat.size - 1))
  {
  }

  class Mount {
    const cache: Trees.Cache
    ghost const w: World
    ghost var open: set<FileWriteStream>

    constructor (cache: Trees.Cache, ghost w: World)
      requires w.Valid() && Conserved(w.heap)
      ensures Valid() && open == {} && this.cache == cache && this.w == w
    {
      this.cache := cache;
      this.w := w;
      open := {};
    }

    ghost predicate Valid()
      reads this, w, w.heap.counts.Keys, w.heap.ptrs.Keys
    {
      w.Valid() && Tracked(w.heap, open)
    }

    ghost function Files(): Table<FileWriteStream>
      reads this, open
    {
      map f | f in open :: f.Contents()
    }

    /** `cb_open`: `runs` tells, for each item, what the library does when extracting it,
        and `limit` is FUSE3_P7ZIP_MAX_OPEN_SIZE if it is set. Only records with an item can
        be extracted, as those of regular files are; the kernel opens no others. */
    method CbOpen(path: string, runs: seq<LibRun>, limit: Option<int>,
                  ghost a: Archives.Archive, ghost allowOther: bool, ghost ps: seq<Paths.Path>) returns (r: OpenResult)
      requires Valid() && TreeProperties.IsMounted(cache.tree, a, allowOther, ps)
      requires |runs| == a.Size() && forall i | 0 <= i < |runs| :: runs[i].Orderly()
      requires Extracts(cache.tree, Paths.Parse(path), limit) ==> cache.tree[Paths.Parse(path)].it.archive.Some?
      modifies this, w
      ensures Valid()
      ensures var key := Paths.Parse(path);
              if key !in cache.tree then r == Refused(-2)
              else if limit.Some? && cache.tree[key].stat.size > limit.value then r == Refused(-7)
              else
                var i := cache.tree[key].it.index;
                && i < a.Size() && ps[i] == key
                && if runs[i].ok then r.Opened? && fresh(r.file)
                                      && Files() == old(Files())[r.file := File(runs[i].Bytes(), 0)]
                   else r == Thrown
      ensures !r.Opened? ==> Files() == old(Files())
    {
      r := OpenKey(Paths.Parse(path), runs, limit, a, allowOther, ps);
    }

    method OpenKey(key: Paths.Path, runs: seq<LibRun>, limit: Option<int>,
                   ghost a: Archives.Archive, ghost allowOther: bool, ghost ps: seq<Paths.Path>) returns (r: OpenResult)
      requires Valid() && TreeProperties.IsMounted(cache.tree, a, allowOther, ps)
      requires |runs| == a.Size() && forall i | 0 <= i < |runs| :: runs[i].Orderly()
      requires Extracts(cache.tree, key, limit) ==> cache.tree[key].it.archive.Some?
      modifies this, w
      ensures Valid()
      ensures key !in cache.tree ==> r == Refused(-Listings.ENOENT)
      ensures key in cache.tree && !Extracts(cache.tree, key, limit) ==> r == Refused(-E2BIG)
      ensures Extracts(cache.tree, key, limit) ==>
                var i := cache.tree[key].it.index;
                && i < a.Size() && ps[i] == key
                && if runs[i].ok then r.Opened? && fresh(r.file)
                                      && Files() == old(Files())[r.file := File(runs[i].Bytes(), 0)]
                   else r == Thrown
      ensures !r.Opened? ==> Files() == old(Files())
    {
      if key !in cache.tree { return Refused(-Listings.ENOENT); }
      var record := cache.tree[key];
      if limit.Some? && record.stat.size > limit.value { return Refused(-E2BIG); }
      TreeProperties.RecordOfItem(cache.tree, a, allowOther, ps, key);
      r := OpenItem(runs[record.it.index]);
    }

    method OpenItem(run: LibRun) returns (r: OpenResult)
      requires Valid() && run.Orderly()
      modifies this, w
      ensures Valid()
      ensures if run.ok then r.Opened? && fresh(r.file) && Files() == old(Files())[r.file := File(run.Bytes(), 0)]
              else r == Thrown && Files() == old(Files())
    {
      ghost var t := Files();
      ghost var bytes := run.Bytes();
      var file := ExtractStream(run);
      if file == null {
        assert Files() == t;
        return Thrown;
      }
      FilesGrow(t, file);
      assert file.Contents() == File(bytes, 0);
      r := Opened(file);
    }

    lemma FilesGrow(t: Table<FileWriteStream>, file: FileWriteStream)
      requires open == t.Keys + {file} && forall f | f in t && f != file :: t[f] == f.Contents()
      ensures Files() == t[file := file.Contents()]
    {
    }

    /** The extracted stream, which the file handle now owns. */
    method ExtractStream(run: LibRun) returns (file: FileWriteStream?)
      requires Valid() && run.Orderly()
      modifies this, w
      ensures Valid() && (run.ok <==> file != null)
      ensures open == if run.ok then old(open) + {file} else old(open)
      ensures run.ok ==> fresh(file) && file.Contents() == File(run.Bytes(), 0)
    {
      ghost var h := w.heap;
      var stream, e, s := RunLibrary(run, w);
      if stream == null {
        FailTracked(h, open, e, s);
        return null;
      }
      OpenTracked(h, open, stream, e, 2 - Handed(run.script));
      open := open + {stream};
      file := stream;
    }

    /** `cb_read`. */
    method CbRead(file: FileWriteStream, size: nat, offset: Int64) returns (code: int, data: seq<Byte>)
      requires Valid() && file in open
      modifies file
      ensures Valid() && open == old(open)
      ensures (data, Files()[file]) == ReadStep(old(Files())[file], size, offset)
      ensures offset >= 0 ==> (data, Files()) == Callback(old(Files()), Read(file, size, offset))
      ensures Files() == old(Files())[file := Files()[file]]
      ensures code == ToInt(|data|) && (size < 0x8000_0000 ==> code == |data|)
    {
      ghost var t := Files();
      data := ReadAt(file, size, offset);
      code := ToInt(|data|);
      FilesGrow(t, file);
    }

    method ReadAt(file: FileWriteStream, size: nat, offset: Int64) returns (data: seq<Byte>)
      modifies file
      ensures (data, file.Contents()) == ReadStep(old(file.Contents()), size, offset) && |data| <= size
    {
      var position := if offset >= 0 then offset else offset + 0x1_0000_0000_0000_0000;
      var at := file.SeekFile(position, 0);
      data := file.Read(size);
    }

    /** `cb_release`: deletes the stream, whatever its counter says. */
    method CbRelease(file: FileWriteStream)
      requires Valid() && file in open
      modifies this, w
      ensures Valid() && Files() == old(Files()) - {file}
      ensures ([], Files()) == Callback(old(Files()), Close(file))
      ensures file.unknown !in w.heap.counts && w.heap.deleted == old(w.heap.deleted) + [file.unknown]
    {
      ghost var t := Files();
      Dispose(file);
      FilesShrink(t, file);
    }

    lemma FilesShrink(t: Table<FileWriteStream>, file: FileWriteStream)
      requires open == t.Keys - {file} && forall f | f in t && f != file :: t[f] == f.Contents()
      ensures Files() == t - {file}
    {
    }

    ghost method Dispose(file: FileWriteStream)
      requires Valid() && file in open
      modifies this, w
      ensures Valid() && open == old(open) - {file}
      ensures file.unknown !in w.heap.counts && w.heap.deleted == old(w.heap.deleted) + [file.unknown]
    {
      CloseTracked(w.heap, open, file);
      w.heap := Deleted(w.heap, file.unknown);
      open := open - {file};
    }
  }
}
