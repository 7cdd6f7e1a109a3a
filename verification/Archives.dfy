/** An opened archive, its iterators and its proposed item name (src/7zip/Archive.cpp). */
module Archives {
  import opened Basics
  import opened Paths

  datatype Time = Time(sec: int, nsec: int)

  /** `struct stat`; `rest` stands for the fields the file system passes through. */
  datatype Stat = Stat(mode: bv32, size: int, atime: Time, mtime: Time, ctime: Time, rest: int)

  /** The properties 7-zip reports for one item. */
  datatype Item = Item(path: string, name: string, extension: string, size: UInt64,
                       atime: Time, mtime: Time, ctime: Time, isDir: bool)

  /** `id` stands for the address of the archive object. */
  datatype Archive = Archive(id: nat, path: string, stat: Stat,
                             defaultExtensions: seq<string>, additionalExtensions: seq<string>,
                             items: seq<Item>) {
    /** The library reports the number of items as a 32-bit integer. */
    predicate Valid() { |items| < UINT32_LIMIT }

    function Size(): nat { |items| }
  }

  // Iterators

  /** The state of a `ci_iterator`: `_seq`, `_index` and `_end`. */
  datatype Iter = Iter(archive: Option<Archive>, index: UInt32, end: bool) {
    predicate AtEnd() { archive.None? || index >= archive.value.Size() }

    /** What the constructors establish. */
    predicate Consistent() {
      (archive.Some? ==> archive.value.Valid()) && (end <==> AtEnd())
    }
  }

  function Begin(a: Archive): Iter { Iter(Some(a), 0, a.Size() == 0) }

  function End(): Iter { Iter(None, 0, true) }

  /** `at`: None stands for the "out of bounds" error. */
  function At(a: Archive, index: nat): Option<Iter>
    requires a.Valid()
  {
    if index >= a.Size() then None
    else Some(Iter(Some(a), index, a.Size() == 0 || index >= a.Size()))
  }

  /** `operator++`, with the wrap-around of the 32-bit index. */
  function Next(it: Iter): Iter
    requires it.archive.Some?
  {
    var index := Increment32(it.index);
    it.(index := index, end := it.end || index >= it.archive.value.Size())
  }

  /** `operator==`. */
  predicate Equal(x: Iter, y: Iter) {
    (x.end && y.end) || (x.archive == y.archive && x.index == y.index)
  }

  class CiIterator {
    var archive: Option<Archive>
    var index: UInt32
    var end: bool

    function Snapshot(): Iter
      reads this
    {
      Iter(archive, index, end)
    }

    constructor OfEnd()
      ensures Snapshot() == End()
    {
      archive, index, end := None, 0, true;
    }

    constructor OfArchive(a: Archive)
      ensures Snapshot() == Begin(a)
    {
      archive, index, end := Some(a), 0, a.Size() == 0;
    }

    constructor Copy(other: CiIterator)
      ensures Snapshot() == other.Snapshot()
    {
      archive, index, end := other.archive, other.index, other.end;
    }

    method Increment()
      requires archive.Some?
      modifies this
      ensures Snapshot() == Next(old(Snapshot()))
    {
      index := Increment32(index);
      if index >= archive.value.Size() { end := true; }
    }
  }

  lemma ConstructorsConsistent(a: Archive, i: nat)
    requires a.Valid()
    ensures Begin(a).Consistent() && End().Consistent()
    ensures At(a, i).Some? <==> i < a.Size()
    ensures At(a, i).Some? ==> At(a, i).value.Consistent() && !At(a, i).value.end && At(a, i).value.index == i
  {
  }

  /** Incrementing keeps an iterator consistent unless the index wraps around; an
      iterator that is not at the end never wraps. */
  lemma NextConsistent(it: Iter)
    requires it.Consistent() && it.archive.Some?
    ensures Next(it).Consistent() <==> it.index + 1 < UINT32_LIMIT || it.archive.value.Size() == 0
    ensures !it.end ==> Next(it).index == it.index + 1
  {
  }

  /** On consistent iterators equality is an equivalence relation: all ends are one class. */
  lemma EqualIsEquivalence(x: Iter, y: Iter, z: Iter)
    requires x.Consistent() && y.Consistent() && z.Consistent()
    ensures Equal(x, x) && (Equal(x, y) ==> Equal(y, x))
    ensures Equal(x, y) && Equal(y, z) ==> Equal(x, z)
    ensures Equal(x, End()) <==> x.AtEnd()
    ensures Equal(x, y) <==> x == y || (x.AtEnd() && y.AtEnd())
  {
  }

  /** Once an index has wrapped around, equality is no longer transitive. */
  lemma WrappedIterator(a: Archive)
    requires a.Valid() && a.Size() > 0
    ensures var last := Iter(Some(a), UINT32_LIMIT - 1, true);
            && last.Consistent()
            && Equal(Begin(a), Next(last)) && Equal(Next(last), End()) && !Equal(Begin(a), End())
  {
  }

  /** The indices at which a loop from x that increments up to the end finds itself. */
  function Visited(x: Iter): seq<UInt32>
    requires x.archive.Some? && x.Consistent()
    decreases x.archive.value.Size() - x.index
  {
    if Equal(x, End()) then [] else
      NextConsistent(x);
      [x.index] + Visited(Next(x))
  }

  lemma {:induction false} VisitedFrom(a: Archive, i: nat)
    requires a.Valid() && i <= a.Size()
    ensures Visited(Iter(Some(a), i, i == a.Size())) == seq(a.Size() - i, k requires 0 <= k < a.Size() - i => i + k)
    decreases a.Size() - i
  {
    if i < a.Size() {
      var x := Iter(Some(a), i, false);
      assert Next(x) == Iter(Some(a), i + 1, i + 1 == a.Size());
      VisitedFrom(a, i + 1);
      assert Visited(x) == [i] + Visited(Next(x));
    }
  }

  /** From begin() to end() every index is visited once, in order. */
  lemma IterationCoversArchive(a: Archive)
    requires a.Valid()
    ensures Visited(Begin(a)) == seq(a.Size(), k requires 0 <= k < a.Size() => k)
  {
    VisitedFrom(a, 0);
  }

  // Proposed name

  function LastDot(s: string): (r: Option<nat>)
    ensures r.Some? ==> r.value < |s| && s[r.value] == '.'
    ensures forall i | (if r.Some? then r.value + 1 else 0) <= i < |s| :: s[i] != '.'
  {
    if s == "" then None
    else if s[|s| - 1] == '.' then Some(|s| - 1)
    else LastDot(s[..|s| - 1])
  }

  /** `path::extension` of a filename: from the last dot, unless that is its first
      character; "." and ".." have none. */
  function Extension(name: string): string {
    match LastDot(name)
    case None => ""
    case Some(i) => if i == 0 || name == ".." then "" else name[i..]
  }

  function Stem(name: string): string {
    name[..|name| - |Extension(name)|]
  }

  /** `path::replace_extension` on a filename. */
  function ReplaceExtension(name: string, ext: string): string {
    Stem(name) + (if ext != "" && ext[0] != '.' then "." else "") + ext
  }

  /** A suffix that starts with its only dot is the extension, unless nothing precedes it. */
  lemma ExtensionOf(stem: string, ext: string)
    requires stem != "" && '.' !in ext && (stem != "." || ext != "")
    ensures Extension(stem + ("." + ext)) == "." + ext
  {
    var s := stem + ("." + ext);
    assert s[|stem|] == '.';
    assert forall i | |stem| < i < |s| :: s[i] == ext[i - |stem| - 1];
    assert LastDot(s) == Some(|stem|);
    assert s[|stem|..] == "." + ext;
  }

  /** A name is its stem and its extension. It has none exactly if it is "..", or there is
      no dot behind its first character; otherwise the extension starts with its only dot. */
  lemma ExtensionExactly(name: string)
    ensures |Extension(name)| <= |name| && name == Stem(name) + Extension(name)
    ensures Extension(name) == "" <==> name == ".." || name == "" || '.' !in name[1..]
    ensures Extension(name) != "" ==>
              Stem(name) != "" && Extension(name)[0] == '.' && '.' !in Extension(name)[1..]
  {
    var r := LastDot(name);
    if r.Some? && r.value > 0 { assert name[1..][r.value - 1] == '.'; }
    if name != "" && '.' in name[1..] {
      var i :| 0 <= i < |name[1..]| && name[1..][i] == '.';
      assert name[i + 1] == '.';
    }
  }

  /** A replaced extension is the new one, behind the same stem, whether the replacement is
      given with its dot or without; an empty replacement removes the extension. */
  lemma ReplacedExtension(name: string, ext: string)
    requires '.' !in ext
    ensures Stem(name) != "" && ext != "" ==>
              && Extension(ReplaceExtension(name, ext)) == "." + ext
              && Stem(ReplaceExtension(name, ext)) == Stem(name)
    ensures ext != "" ==> ReplaceExtension(name, "." + ext) == ReplaceExtension(name, ext) == Stem(name) + "." + ext
    ensures ReplaceExtension(name, "") == Stem(name)
    ensures ReplaceExtension(name, ".") == Stem(name) + "."
  {
    if ext != "" {
      assert ext[0] in ext;
      assert ReplaceExtension(name, ext) == Stem(name) + ("." + ext);
      assert ReplaceExtension(name, "." + ext) == Stem(name) + ("." + ext);
      if Stem(name) != "" { StemOf(Stem(name), ext); }
    }
  }

  lemma StemOf(stem: string, ext: string)
    requires stem != "" && ext != "" && '.' !in ext
    ensures Extension(stem + ("." + ext)) == "." + ext && Stem(stem + ("." + ext)) == stem
  {
    ExtensionOf(stem, ext);
    assert (stem + ("." + ext))[..|stem|] == stem;
  }

  /** Which default extensions are the archive's. */
  function Matches(defaults: seq<string>, ext: string): (hits: seq<bool>)
    ensures |hits| == |defaults|
    ensures forall i | 0 <= i < |hits| :: hits[i] == (Parse(ext) == Parse("." + defaults[i]))
  {
    seq(|defaults|, i requires 0 <= i < |defaults| => Parse(ext) == Parse("." + defaults[i]))
  }

  /** The default extension at index i matches and has a substitute. */
  predicate Substitutes(hits: seq<bool>, additional: seq<string>, i: nat)
    requires i < |hits|
  {
    hits[i] && i < |additional| && additional[i] != "*"
  }

  function FirstSubstitute(hits: seq<bool>, additional: seq<string>, from: nat): (r: Option<nat>)
    requires from <= |hits|
    ensures r.Some? ==> from <= r.value < |hits| && Substitutes(hits, additional, r.value)
    ensures forall i | from <= i < (if r.Some? then r.value else |hits|) :: !Substitutes(hits, additional, i)
    decreases |hits| - from
  {
    if from == |hits| then None
    else if Substitutes(hits, additional, from) then Some(from)
    else FirstSubstitute(hits, additional, from + 1)
  }

  /** From index `from` on, each matching default extension up to the first with a
      substitute has an additional extension at its index. */
  predicate InRange(hits: seq<bool>, additional: seq<string>, from: nat)
    requires from <= |hits|
  {
    forall i | from <= i < |hits| && hits[i]
               && (forall j | from <= j < i :: !Substitutes(hits, additional, j)) ::
      i < |additional|
  }

  /** The indices at which the loop of `proposed_name` reads an additional extension, from
      index `from` on and as far as its behaviour is defined. */
  function Reads(hits: seq<bool>, additional: seq<string>, from: nat): seq<nat>
    requires from <= |hits|
    decreases |hits| - from
  {
    if from == |hits| then []
    else if !hits[from] then Reads(hits, additional, from + 1)
    else if from >= |additional| || additional[from] != "*" then [from]
    else [from] + Reads(hits, additional, from + 1)
  }

  lemma InRangeNext(hits: seq<bool>, additional: seq<string>, from: nat)
    requires from < |hits|
    ensures InRange(hits, additional, from) <==>
            (hits[from] ==> from < |additional|)
            && (Substitutes(hits, additional, from) || InRange(hits, additional, from + 1))
  {
    if InRange(hits, additional, from) && !Substitutes(hits, additional, from) {
      forall i | from + 1 <= i < |hits| && hits[i]
                 && (forall j | from + 1 <= j < i :: !Substitutes(hits, additional, j))
        ensures i < |additional|
      {
        assert forall j | from <= j < i :: !Substitutes(hits, additional, j);
      }
    }
  }

  ghost predicate Below(rs: seq<nat>, n: nat) {
    forall k | 0 <= k < |rs| :: rs[k] < n
  }

  lemma BelowCons(r: nat, rs: seq<nat>, n: nat)
    ensures Below([r] + rs, n) <==> r < n && Below(rs, n)
  {
    var all := [r] + rs;
    if Below(all, n) {
      assert all[0] == r;
      forall k | 0 <= k < |rs| ensures rs[k] < n { assert all[k + 1] == rs[k]; }
    }
  }

  /** No read of the loop is out of range exactly under InRange. */
  lemma {:induction false} ReadsInRangeExactly(hits: seq<bool>, additional: seq<string>, from: nat)
    requires from <= |hits|
    ensures InRange(hits, additional, from) <==> Below(Reads(hits, additional, from), |additional|)
    decreases |hits| - from
  {
    if from == |hits| {
      assert InRange(hits, additional, from);
    } else {
      InRangeNext(hits, additional, from);
      ReadsInRangeExactly(hits, additional, from + 1);
      BelowCons(from, Reads(hits, additional, from + 1), |additional|);
      BelowCons(from, [], |additional|);
      assert [from] + [] == [from];
    }
  }

  lemma ParseName(name: string)
    requires name != "" && '/' !in name
    ensures Parse(name) == Path(false, [name])
  {
    PiecesOfJoin([name]);
    NonEmptySingle(name);
    assert name[0] in name;
  }

  lemma NamesDiffer(x: string, y: string)
    requires x != y && x != "" && y != "" && '/' !in x && '/' !in y
    ensures Parse(x) != Parse(y)
  {
    ParseName(x);
    ParseName(y);
  }

  /** In a format with default extensions x and y and no additional ones, the one empty piece
      that splitting the empty property gives is too few for an archive with extension y. */
  lemma ReadOutOfRange(x: string, y: string)
    requires x != y && '/' !in x && '/' !in y
    ensures !InRange(Matches([x, y], "." + y), [""], 0)
  {
    var defaults := [x, y];
    var hits := Matches(defaults, "." + y);
    assert ("." + x)[1..] == x && ("." + y)[1..] == y;
    NamesDiffer("." + x, "." + y);
    assert hits[0] == (Parse("." + y) == Parse("." + defaults[0]));
    assert hits[1] && !hits[0];
  }

  function ArchiveMatches(a: Archive): (hits: seq<bool>)
    ensures |hits| == |a.defaultExtensions|
  {
    Matches(a.defaultExtensions, Extension(Filename(Parse(a.path))))
  }

  /** `proposed_name` reads its extension lists in range only. */
  predicate ReadsInRange(a: Archive) { InRange(ArchiveMatches(a), a.additionalExtensions, 0) }

  /** The archive's filename, with its extension replaced by the substitute of the first
      default extension that has one. */
  function ProposedName(a: Archive): string {
    var name := Filename(Parse(a.path));
    match FirstSubstitute(ArchiveMatches(a), a.additionalExtensions, 0)
    case None => name
    case Some(i) => ReplaceExtension(name, a.additionalExtensions[i])
  }

  /** `proposed_name`. */
  method ProposeName(a: Archive) returns (name: string)
    requires ReadsInRange(a)
    ensures name == ProposedName(a)
  {
    name := Filename(Parse(a.path));
    name := Substitute(name, Extension(name), a.defaultExtensions, a.additionalExtensions);
  }

  method Compare(ext: string, defaults: seq<string>, i: nat) returns (hit: bool)
    requires i < |defaults|
    ensures hit == Matches(defaults, ext)[i]
  {
    var candidate := "." + defaults[i];
    hit := Parse(ext) == Parse(candidate);
  }

  /** Its loop, which stops at the first substitute. */
  method Substitute(filename: string, ext: string, defaults: seq<string>, additional: seq<string>)
    returns (name: string)
    requires InRange(Matches(defaults, ext), additional, 0)
    ensures var r := FirstSubstitute(Matches(defaults, ext), additional, 0);
            name == if r.Some? then ReplaceExtension(filename, additional[r.value]) else filename
  {
    name := filename;
    ghost var hits := Matches(defaults, ext);
    var i := 0;
    while i != |defaults|
      invariant i <= |defaults| && name == filename
      invariant forall j | 0 <= j < i :: !Substitutes(hits, additional, j)
      invariant FirstSubstitute(hits, additional, 0) == FirstSubstitute(hits, additional, i)
    {
      var hit := Compare(ext, defaults, i);
      if hit {
        var replacement := additional[i];
        if replacement != "*" {
          name := ReplaceExtension(name, replacement);
          break;
        }
      }
      i := i + 1;
    }
  }

  /** The archive's extension is the i-th default one, by comparison of paths, and the i-th
      additional extension is there and not "*". */
  predicate Replaces(a: Archive, i: nat) {
    && i < |a.defaultExtensions| && i < |a.additionalExtensions| && a.additionalExtensions[i] != "*"
    && Parse(Extension(Filename(Parse(a.path)))) == Parse("." + a.defaultExtensions[i])
  }

  /** The first index that replaces decides. */
  lemma ProposedNameIs(a: Archive, i: nat)
    requires Replaces(a, i) && forall j: nat | j < i :: !Replaces(a, j)
    ensures ProposedName(a) == ReplaceExtension(Filename(Parse(a.path)), a.additionalExtensions[i])
  {
    SubstitutesReplace(a);
    FirstAt(ArchiveMatches(a), a.additionalExtensions, i);
  }

  /** Without one the filename stays. */
  lemma ProposedNameStays(a: Archive)
    requires forall i: nat | i < |a.defaultExtensions| :: !Replaces(a, i)
    ensures ProposedName(a) == Filename(Parse(a.path))
  {
    SubstitutesReplace(a);
  }

  lemma FirstAt(hits: seq<bool>, additional: seq<string>, i: nat)
    requires i < |hits| && Substitutes(hits, additional, i)
    requires forall j: nat | j < i :: !Substitutes(hits, additional, j)
    ensures FirstSubstitute(hits, additional, 0) == Some(i)
  {
  }

  lemma SubstitutesReplace(a: Archive)
    ensures forall i: nat | i < |a.defaultExtensions| ::
              Substitutes(ArchiveMatches(a), a.additionalExtensions, i) <==> Replaces(a, i)
  {
    var hits := ArchiveMatches(a);
    assert forall i: nat | i < |hits| ::
        hits[i] == (Parse(Extension(Filename(Parse(a.path)))) == Parse("." + a.defaultExtensions[i]));
  }

  /** A named archive proposes a name with a character other than a slash in it. */
  lemma ProposedNameVisible(a: Archive)
    requires Filename(Parse(a.path)) != ""
    ensures !AllSlashes(ProposedName(a))
  {
    var name := Filename(Parse(a.path));
    ParseWellFormed(a.path);
    assert name[0] in name;
    match FirstSubstitute(ArchiveMatches(a), a.additionalExtensions, 0) {
      case None =>
        assert name[0] != '/';
      case Some(i) =>
        var candidate := "." + a.defaultExtensions[i];
        NoElements(candidate);
        assert candidate[0] != '/';
        if Extension(name) == "" { ParseSlash(); }
        assert Stem(name) != "" && ProposedName(a)[0] == name[0];
    }
  }

  // Item resolution

  function BasePath(item: Item): Path { Append(ROOT, Parse(item.path)) }

  /** The item has neither a path nor a name, so that the loop consults `proposed_name`. */
  predicate Nameless(item: Item) { BasePath(item) == ROOT && item.name == "" }

  /** The name the loop of `Fuse::execute` puts below the item's path. */
  function LeafName(a: Archive, item: Item): string {
    (if Nameless(item) then ProposedName(a) else item.name)
    + (if item.extension != "" then "." + item.extension else "")
  }

  /** The path at which an item appears in the mounted tree. */
  function Resolve(a: Archive, item: Item): Path {
    if LeafName(a, item) != "" then Append(BasePath(item), Parse(LeafName(a, item))) else BasePath(item)
  }

  lemma AppendWellFormed(p: Path, q: Path)
    requires p.WellFormed() && q.WellFormed()
    ensures Append(p, q).WellFormed()
  {
  }

  lemma ResolveWellFormed(a: Archive, item: Item)
    ensures Resolve(a, item).absolute && Resolve(a, item).WellFormed()
  {
    ParseWellFormed(item.path);
    ParseWellFormed(LeafName(a, item));
    AppendWellFormed(ROOT, Parse(item.path));
    AppendWellFormed(BasePath(item), Parse(LeafName(a, item)));
  }

  lemma NamelessNative(item: Item)
    ensures Nameless(item) <==> item.name == "" && AllSlashes(item.path)
  {
    ParseSlash();
    NoElements(item.path);
  }

  lemma LeafNative(a: Archive, item: Item)
    ensures var given := if Nameless(item) then ProposedName(a) else item.name;
            LeafName(a, item) == if item.extension == "" then given else given + "." + item.extension
  {
    WithExtension(if Nameless(item) then ProposedName(a) else item.name, item.extension);
  }

  lemma WithExtension(given: string, ext: string)
    ensures given + (if ext != "" then "." + ext else "") == if ext == "" then given else given + "." + ext
  {
  }

  /** Resolution on native strings, as the standard appends them: the item's path is put
      below the root, and the name with its extension below that, if there is any of it. The
      name is the proposed one if the item has none and its path leads to the root itself. */
  lemma ResolveNative(a: Archive, item: Item)
    ensures var given := if item.name == "" && AllSlashes(item.path) then ProposedName(a) else item.name;
            var leaf := if item.extension == "" then given else given + "." + item.extension;
            var base := NativeAppend("/", item.path);
            Resolve(a, item) == Parse(if leaf != "" then NativeAppend(base, leaf) else base)
  {
    var base, leaf := NativeAppend("/", item.path), LeafName(a, item);
    ParseSlash();
    AppendIsNative("/", item.path);
    AppendIsNative(base, leaf);
    NamelessNative(item);
    LeafNative(a, item);
  }

  /** An item resolves to the root exactly when its leaf name is a run of slashes, which
      may be empty only if its path is one too. */
  lemma ResolvesToRoot(a: Archive, item: Item)
    ensures Resolve(a, item) == ROOT <==>
            AllSlashes(LeafName(a, item)) && (LeafName(a, item) != "" || AllSlashes(item.path))
  {
    NoElements(item.path);
    NoElements(LeafName(a, item));
    ParseSlash();
  }

  /** In an archive with a filename only an item named by slashes, with no extension,
      can take the place of the root. */
  lemma RootReplacedBy(a: Archive, item: Item)
    requires Filename(Parse(a.path)) != ""
    ensures Resolve(a, item) == ROOT <==>
            item.extension == "" && item.name != "" && AllSlashes(item.name)
  {
    ResolvesToRoot(a, item);
    NoElements(item.path);
    ProposedNameVisible(a);
    var leaf := LeafName(a, item);
    var chosen := if Nameless(item) then ProposedName(a) else item.name;
    if item.extension != "" {
      assert leaf[|chosen|] == '.';
    } else {
      assert leaf == chosen;
    }
  }
}
