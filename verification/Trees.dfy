/** Building the mounted tree: the loop of `Fuse::execute` (src/fuse3.cpp:363-401), the
    closed form of its result, and what follows from it. */
module Trees {
  import opened Basics
  import opened Paths
  import opened Archives

  const S_IFMT: bv32 := 0xF000
  const S_IFDIR: bv32 := 0x4000
  const S_IFREG: bv32 := 0x8000
  const S_IXUSR: bv32 := 0x40
  const S_IXGRP: bv32 := 0x08
  const S_IROTH: bv32 := 0x04
  const S_IXOTH: bv32 := 0x01
  const MODE_0775: bv32 := 0x1FD
  const MODE_0664: bv32 := 0x1B4

  predicate IsDirectory(st: Stat) { st.mode & S_IFMT == S_IFDIR }

  predicate IsRegular(st: Stat) { st.mode & S_IFMT == S_IFREG }

  datatype Entry = Entry(it: Iter, stat: Stat)

  type FileTree = map<Path, Entry>

  /** `std::map::emplace`: keeps a record that is already there. */
  function Emplace(t: FileTree, k: Path, e: Entry): FileTree {
    if k in t then t else t[k := e]
  }

  // The records

  function WithoutKind(mode: bv32): bv32 { mode & !S_IFMT }

  function WithBits(mode: bv32, bits: bv32): bv32 { mode | bits }

  function RootMode(mode: bv32, allowOther: bool): bv32 {
    var base := WithBits(WithoutKind(mode), S_IFDIR | S_IXUSR | S_IXGRP);
    if allowOther then WithBits(base, S_IROTH | S_IXOTH) else base
  }

  function DirectoryMode(mode: bv32): bv32 { WithBits(WithoutKind(mode), S_IFDIR | MODE_0775) }

  function RegularMode(mode: bv32): bv32 { WithBits(WithoutKind(mode), S_IFREG | MODE_0664) }

  function RootEntry(a: Archive, allowOther: bool): Entry {
    Entry(End(), a.stat.(mode := RootMode(a.stat.mode, allowOther)))
  }

  /** The stat of an item: the archive's, with the item's size and times. */
  function ItemStat(a: Archive, item: Item): Stat {
    Stat(if item.isDir then DirectoryMode(a.stat.mode) else RegularMode(a.stat.mode),
         ToOffset(item.size), item.atime, item.mtime, item.ctime, a.stat.rest)
  }

  function ItemEntry(a: Archive, i: UInt32): Entry
    requires i < |a.items|
  {
    Entry(Iter(Some(a), i, false), ItemStat(a, a.items[i]))
  }

  /** The record of a directory made up for the sake of an item below it. */
  function ImpliedEntry(a: Archive, item: Item): Entry {
    Entry(End(), ItemStat(a, item.(isDir := true)))
  }

  lemma RootModeIsDirectory(mode: bv32, allowOther: bool)
    ensures RootMode(mode, allowOther) & S_IFMT == S_IFDIR
  {
  }

  lemma ModeKinds(mode: bv32)
    ensures DirectoryMode(mode) & S_IFMT == S_IFDIR
    ensures RegularMode(mode) & S_IFMT == S_IFREG
  {
  }

  /** The file kind is as given, the permission bits are set, and the others are those of base. */
  predicate HasMode(mode: bv32, base: bv32, kind: bv32, bits: bv32) {
    mode & 0xF000 == kind && mode & bits == bits && mode & !(0xF000 | bits) == base & !(0xF000 | bits)
  }

  /** In octal, 0775 for directories, 0664 for files, 0110 for the root, and 0115 if other
      users may access it. */
  lemma ModesExact(mode: bv32, allowOther: bool)
    ensures HasMode(DirectoryMode(mode), mode, 0x4000, 0x1FD)
    ensures HasMode(RegularMode(mode), mode, 0x8000, 0x1B4)
    ensures HasMode(RootMode(mode, allowOther), mode, 0x4000, if allowOther then 0x4D else 0x48)
  {
    DirectoryBits(mode);
    RegularBits(mode);
    if allowOther { SharedRootBits(mode); } else { RootBits(mode); }
  }

  lemma DirectoryBits(mode: bv32)
    ensures HasMode(DirectoryMode(mode), mode, 0x4000, 0x1FD)
  {
  }

  lemma RegularBits(mode: bv32)
    ensures HasMode(RegularMode(mode), mode, 0x8000, 0x1B4)
  {
  }

  lemma RootBits(mode: bv32)
    ensures HasMode(RootMode(mode, false), mode, 0x4000, 0x48)
  {
  }

  lemma SharedRootBits(mode: bv32)
    ensures HasMode(RootMode(mode, true), mode, 0x4000, 0x4D)
  {
  }

  lemma DirectoryModeAgain(mode: bv32)
    ensures DirectoryMode(DirectoryMode(mode)) == DirectoryMode(mode)
    ensures DirectoryMode(RegularMode(mode)) == DirectoryMode(mode)
  {
  }

  // Closed form

  /** The paths of the archive's items, in order. */
  function ItemPaths(a: Archive): (ps: seq<Path>)
    ensures |ps| == |a.items|
  {
    seq(|a.items|, i requires 0 <= i < |a.items| => Resolve(a, a.items[i]))
  }

  /** The last of the first n paths that is k. */
  function LastAt(ps: seq<Path>, n: nat, k: Path): (r: Option<nat>)
    requires n <= |ps|
    ensures r.Some? ==> r.value < n && ps[r.value] == k
    ensures forall i | (if r.Some? then r.value + 1 else 0) <= i < n :: ps[i] != k
  {
    if n == 0 then None else if ps[n - 1] == k then Some(n - 1) else LastAt(ps, n - 1, k)
  }

  /** The first of the first n paths strictly below k. */
  function FirstBelow(ps: seq<Path>, n: nat, k: Path): (r: Option<nat>)
    requires n <= |ps|
    ensures r.Some? ==> r.value < n && ProperAncestor(k, ps[r.value])
    ensures forall i | 0 <= i < (if r.Some? then r.value else n) :: !ProperAncestor(k, ps[i])
  {
    if n == 0 then None else
      var r := FirstBelow(ps, n - 1, k);
      if r.Some? then r else if ProperAncestor(k, ps[n - 1]) then Some(n - 1) else None
  }

  predicate IsKey(ps: seq<Path>, n: nat, k: Path)
    requires n <= |ps|
  {
    k == ROOT || LastAt(ps, n, k).Some? || FirstBelow(ps, n, k).Some?
  }

  function EntryAt(a: Archive, allowOther: bool, ps: seq<Path>, n: nat, k: Path): Entry
    requires a.Valid() && n <= |ps| == |a.items| && IsKey(ps, n, k)
  {
    if LastAt(ps, n, k).Some? then ItemEntry(a, LastAt(ps, n, k).value)
    else if k == ROOT then RootEntry(a, allowOther)
    else ImpliedEntry(a, a.items[FirstBelow(ps, n, k).value])
  }

  ghost predicate AllAbsolute(ps: seq<Path>) {
    forall i | 0 <= i < |ps| :: ps[i].absolute
  }

  /** The root, the first n paths, and all their ancestors. */
  ghost function Keys(ps: seq<Path>, n: nat): set<Path>
    requires n <= |ps|
  {
    {ROOT} + set i: nat, j: nat | i < n && j <= |ps[i].parts| :: Path(true, ps[i].parts[..j])
  }

  lemma KeysAreKeys(ps: seq<Path>, n: nat, k: Path)
    requires n <= |ps| && AllAbsolute(ps)
    ensures k in Keys(ps, n) <==> IsKey(ps, n, k)
  {
    if k in Keys(ps, n) && k != ROOT {
      var i: nat, j: nat :| i < n && j <= |ps[i].parts| && k == Path(true, ps[i].parts[..j]);
      if j == |ps[i].parts| { assert k == ps[i]; } else { assert ProperAncestor(k, ps[i]); }
    }
    if IsKey(ps, n, k) && k != ROOT {
      var i := if LastAt(ps, n, k).Some? then LastAt(ps, n, k).value else FirstBelow(ps, n, k).value;
      assert k == Path(true, ps[i].parts[..|k.parts|]);
    }
  }

  /** The tree after n items whose paths are ps. */
  ghost function MountedUpTo(a: Archive, allowOther: bool, ps: seq<Path>, n: nat): FileTree
    requires a.Valid() && n <= |ps| == |a.items|
  {
    map k | k in Keys(ps, n) && IsKey(ps, n, k) :: EntryAt(a, allowOther, ps, n, k)
  }

  /** The mounted tree. Its keys are the root, the items' paths and their ancestors. A key
      holds the last item resolved to it; failing that the root record, or a directory
      implied by the first item below it. */
  ghost function Mounted(a: Archive, allowOther: bool): FileTree
    requires a.Valid()
  {
    MountedAfter(a, allowOther, |a.items|)
  }

  ghost function MountedAfter(a: Archive, allowOther: bool, n: nat): FileTree
    requires a.Valid() && n <= |a.items|
  {
    MountedUpTo(a, allowOther, ItemPaths(a), n)
  }

  lemma MountedKey(a: Archive, allowOther: bool, ps: seq<Path>, n: nat, k: Path)
    requires a.Valid() && n <= |ps| == |a.items| && AllAbsolute(ps)
    ensures var t := MountedUpTo(a, allowOther, ps, n);
            (k in t <==> IsKey(ps, n, k)) && (k in t ==> t[k] == EntryAt(a, allowOther, ps, n, k))
  {
    KeysAreKeys(ps, n, k);
  }

  // The walk to the root

  /** The walk of the code: stops at the first ancestor already present. */
  function WalkToPresent(t: FileTree, p: Path, e: Entry): FileTree
    decreases |p.parts|
  {
    if p.parts == [] || p in t then t else WalkToPresent(Emplace(t, p, e), Parent(p), e)
  }

  /** The plain walk: emplaces every ancestor up to the root. */
  function WalkToRoot(t: FileTree, p: Path, e: Entry): FileTree
    decreases |p.parts|
  {
    if p.parts == [] then t else WalkToRoot(Emplace(t, p, e), Parent(p), e)
  }

  /** One item of the loop: its record, then its missing ancestors. */
  function InsertEarly(t: FileTree, path: Path, x: Entry, e: Entry): FileTree {
    WalkToPresent(t[path := x], Parent(path), e)
  }

  function InsertPlain(t: FileTree, path: Path, x: Entry, e: Entry): FileTree {
    WalkToRoot(t[path := x], Parent(path), e)
  }

  predicate ParentIn(t: FileTree, k: Path) {
    |k.parts| <= 1 || Parent(k) in t
  }

  predicate AncestorClosed(t: FileTree) {
    forall k | k in t :: ParentIn(t, k)
  }

  /** The plain walk adds exactly the absent paths from p up to the root. */
  lemma {:induction false} WalkToRootAdds(t: FileTree, p: Path, e: Entry, k: Path)
    ensures var r := WalkToRoot(t, p, e);
            && (k in r <==> k in t || (k.parts != [] && (k == p || ProperAncestor(k, p))))
            && (k in r ==> r[k] == if k in t then t[k] else e)
    decreases |p.parts|
  {
    if p.parts != [] {
      WalkToRootAdds(Emplace(t, p, e), Parent(p), e, k);
      StrictlyAbove(k, p);
    }
  }

  ghost predicate ClosedUpTo(t: FileTree, depth: nat) {
    forall k | k in t && |k.parts| <= depth :: ParentIn(t, k)
  }

  lemma {:induction false} NothingToAdd(t: FileTree, p: Path, e: Entry)
    requires ClosedUpTo(t, |p.parts|) && (p.parts == [] || p in t)
    ensures WalkToRoot(t, p, e) == t
    decreases |p.parts|
  {
    if p.parts != [] { assert ParentIn(t, p); NothingToAdd(t, Parent(p), e); }
  }

  lemma {:induction false} WalksAgree(t: FileTree, p: Path, e: Entry)
    requires ClosedUpTo(t, |p.parts|)
    ensures WalkToPresent(t, p, e) == WalkToRoot(t, p, e)
    decreases |p.parts|
  {
    if p.parts != [] {
      if p in t { NothingToAdd(t, p, e); } else { WalksAgree(t[p := e], Parent(p), e); }
    }
  }

  /** Stopping early is right for every item exactly when the tree is ancestor-closed. */
  lemma EarlyBreakExact(t: FileTree)
    ensures AncestorClosed(t) <==>
            forall path: Path, x: Entry, e: Entry ::
              InsertEarly(t, path, x, e) == InsertPlain(t, path, x, e)
  {
    if AncestorClosed(t) {
      forall path: Path, x: Entry, e: Entry
        ensures InsertEarly(t, path, x, e) == InsertPlain(t, path, x, e)
      {
        BreakAfterInsert(t, path, x, e);
      }
    } else {
      var k :| k in t && !ParentIn(t, k);
      var path := Child(k, "x");
      assert Parent(path) == k;
      var s := t[path := t[k]];
      WalkToRootAdds(s, k, t[k], Parent(k));
      assert InsertEarly(t, path, t[k], t[k]) == s;
      assert Parent(k) !in s && Parent(k) in InsertPlain(t, path, t[k], t[k]);
    }
  }

  lemma BreakAfterInsert(t: FileTree, path: Path, x: Entry, e: Entry)
    requires AncestorClosed(t)
    ensures InsertEarly(t, path, x, e) == InsertPlain(t, path, x, e)
  {
    if path.parts != [] {
      forall k | k in t[path := x] && |k.parts| <= |Parent(path).parts| ensures ParentIn(t[path := x], k) {
        assert ParentIn(t, k);
      }
      WalksAgree(t[path := x], Parent(path), e);
    }
  }

  // The loop

  lemma MountedClosed(a: Archive, allowOther: bool, ps: seq<Path>, n: nat)
    requires a.Valid() && n <= |ps| == |a.items| && AllAbsolute(ps)
    ensures AncestorClosed(MountedUpTo(a, allowOther, ps, n))
  {
    var t := MountedUpTo(a, allowOther, ps, n);
    forall k | k in t ensures ParentIn(t, k) {
      MountedKey(a, allowOther, ps, n, k);
      if |k.parts| > 1 {
        MountedKey(a, allowOther, ps, n, Parent(k));
        var i := if LastAt(ps, n, k).Some? then LastAt(ps, n, k).value else FirstBelow(ps, n, k).value;
        assert Parent(k).parts == ps[i].parts[..|k.parts| - 1];
        assert ProperAncestor(Parent(k), ps[i]);
      }
    }
  }

  lemma ItemPathsAbsolute(a: Archive)
    requires a.Valid()
    ensures AllAbsolute(ItemPaths(a))
    ensures forall i | 0 <= i < |a.items| :: ItemPaths(a)[i].WellFormed()
  {
    forall i | 0 <= i < |a.items| ensures ItemPaths(a)[i].absolute && ItemPaths(a)[i].WellFormed() {
      ResolveWellFormed(a, a.items[i]);
    }
  }

  lemma MountedNothing(a: Archive, allowOther: bool, ps: seq<Path>)
    requires a.Valid() && |ps| == |a.items| && AllAbsolute(ps)
    ensures MountedUpTo(a, allowOther, ps, 0) == map[ROOT := RootEntry(a, allowOther)]
  {
    MountedKey(a, allowOther, ps, 0, ROOT);
    forall k | k in MountedUpTo(a, allowOther, ps, 0) ensures k == ROOT { MountedKey(a, allowOther, ps, 0, k); }
  }

  lemma StepAtKey(a: Archive, allowOther: bool, ps: seq<Path>, n: nat, k: Path)
    requires a.Valid() && n < |ps| == |a.items| && AllAbsolute(ps)
    ensures var t := MountedUpTo(a, allowOther, ps, n);
            var r := InsertPlain(t, ps[n], ItemEntry(a, n), ImpliedEntry(a, a.items[n]));
            var next := MountedUpTo(a, allowOther, ps, n + 1);
            (k in r <==> k in next) && (k in r ==> r[k] == next[k])
  {
    var path, e := ps[n], ImpliedEntry(a, a.items[n]);
    MountedKey(a, allowOther, ps, n, k);
    MountedKey(a, allowOther, ps, n + 1, k);
    WalkToRootAdds(MountedUpTo(a, allowOther, ps, n)[path := ItemEntry(a, n)], Parent(path), e, k);
    StrictlyAbove(k, path);
  }

  lemma SameTree(s: FileTree, t: FileTree)
    requires forall k :: (k in s <==> k in t) && (k in s ==> s[k] == t[k])
    ensures s == t
  {
  }

  lemma PlainStep(a: Archive, allowOther: bool, ps: seq<Path>, n: nat)
    requires a.Valid() && n < |ps| == |a.items| && AllAbsolute(ps)
    ensures InsertPlain(MountedUpTo(a, allowOther, ps, n), ps[n], ItemEntry(a, n), ImpliedEntry(a, a.items[n]))
         == MountedUpTo(a, allowOther, ps, n + 1)
  {
    var r := InsertPlain(MountedUpTo(a, allowOther, ps, n), ps[n], ItemEntry(a, n), ImpliedEntry(a, a.items[n]));
    var next := MountedUpTo(a, allowOther, ps, n + 1);
    forall k ensures (k in r <==> k in next) && (k in r ==> r[k] == next[k]) {
      StepAtKey(a, allowOther, ps, n, k);
    }
    SameTree(r, next);
  }

  /** One turn of the loop leads from the closed form of n items to that of n + 1. */
  lemma MountedStep(a: Archive, allowOther: bool, ps: seq<Path>, n: nat)
    requires a.Valid() && n < |ps| == |a.items| && AllAbsolute(ps)
    ensures InsertEarly(MountedUpTo(a, allowOther, ps, n), ps[n], ItemEntry(a, n), ImpliedEntry(a, a.items[n]))
         == MountedUpTo(a, allowOther, ps, n + 1)
  {
    MountedClosed(a, allowOther, ps, n);
    BreakAfterInsert(MountedUpTo(a, allowOther, ps, n), ps[n], ItemEntry(a, n), ImpliedEntry(a, a.items[n]));
    PlainStep(a, allowOther, ps, n);
  }

  lemma Turns(a: Archive, allowOther: bool)
    requires a.Valid()
    ensures MountedAfter(a, allowOther, 0) == map[ROOT := RootEntry(a, allowOther)]
    ensures forall i: nat | i < |a.items| ::
              MountedAfter(a, allowOther, i + 1) == TurnOf(a, MountedAfter(a, allowOther, i), i)
  {
    var ps := ItemPaths(a);
    ItemPathsAbsolute(a);
    MountedNothing(a, allowOther, ps);
    forall i: nat | i < |a.items|
      ensures MountedAfter(a, allowOther, i + 1) == TurnOf(a, MountedAfter(a, allowOther, i), i)
    {
      MountedStep(a, allowOther, ps, i);
    }
  }

  function TurnOf(a: Archive, t: FileTree, i: nat): FileTree
    requires a.Valid() && i < |a.items|
  {
    InsertEarly(t, Resolve(a, a.items[i]), ItemEntry(a, i), ImpliedEntry(a, a.items[i]))
  }

  lemma StrictlyAbove(k: Path, p: Path)
    ensures ProperAncestor(k, p) <==> p.parts != [] && (k == Parent(p) || ProperAncestor(k, Parent(p)))
  {
    if p.parts != [] {
      if ProperAncestor(k, p) && k != Parent(p) {
        assert k.parts == p.parts[..|k.parts|] == Parent(p).parts[..|k.parts|];
      }
      if ProperAncestor(k, Parent(p)) {
        assert k.parts == Parent(p).parts[..|k.parts|] == p.parts[..|k.parts|];
      }
    }
  }

  /** The cache behind the FUSE callbacks. */
  class Cache {
    var tree: FileTree

    constructor ()
      ensures tree == map[]
    {
      tree := map[];
    }

    /** src/fuse3.cpp:365-368: the root's stat. */
    method RootStat(a: Archive, allowOther: bool) returns (rootStat: Stat)
      ensures Entry(End(), rootStat) == RootEntry(a, allowOther)
    {
      rootStat := a.stat;
      rootStat := rootStat.(mode := WithBits(WithoutKind(rootStat.mode), S_IFDIR | S_IXUSR | S_IXGRP));
      if allowOther { rootStat := rootStat.(mode := WithBits(rootStat.mode, S_IROTH | S_IXOTH)); }
    }

    /** src/fuse3.cpp:373-377: where the item goes. */
    method Locate(a: Archive, item: Item) returns (path: Path)
      requires Nameless(item) ==> ReadsInRange(a)
      ensures path == Resolve(a, item)
    {
      path := Append(ROOT, Parse(item.path));
      var name := item.name;
      if ROOT == path && item.name == "" { name := ProposeName(a); }
      if item.extension != "" { name := name + ("." + item.extension); }
      assert name == LeafName(a, item);
      if name != "" { path := Append(path, Parse(name)); }
    }

    /** src/fuse3.cpp:379-390: the item's stat, field by field. */
    method FillStat(a: Archive, item: Item) returns (fileStat: Stat)
      ensures fileStat == ItemStat(a, item)
    {
      fileStat := a.stat;
      fileStat := fileStat.(mode := WithoutKind(fileStat.mode));
      fileStat := fileStat.(size := ToOffset(item.size));
      fileStat := fileStat.(atime := item.atime);
      fileStat := fileStat.(mtime := item.mtime);
      fileStat := fileStat.(ctime := item.ctime);
      if item.isDir {
        fileStat := fileStat.(mode := WithBits(fileStat.mode, S_IFDIR | MODE_0775));
      } else {
        fileStat := fileStat.(mode := WithBits(fileStat.mode, S_IFREG | MODE_0664));
      }
    }

    /** src/fuse3.cpp:393-400: the missing ancestors, reusing the stat of the item. */
    method AddParents(a: Archive, path: Path, item: Item, itemStat: Stat)
      requires path.absolute && itemStat == ItemStat(a, item)
      modifies this
      ensures tree == WalkToPresent(old(tree), Parent(path), ImpliedEntry(a, item))
    {
      var fileStat := itemStat;
      ghost var e := ImpliedEntry(a, item);
      var p := Parent(path);
      DirectoryModeAgain(a.stat.mode);
      while !p.Empty() && p != ROOT
        invariant p.absolute
        invariant fileStat.(mode := DirectoryMode(fileStat.mode)) == e.stat
        invariant WalkToPresent(tree, p, e) == WalkToPresent(old(tree), Parent(path), e)
        decreases |p.parts|
      {
        if p in tree { break; }
        fileStat := fileStat.(size := ToOffset(item.size));
        fileStat := fileStat.(mode := WithoutKind(fileStat.mode));
        fileStat := fileStat.(mode := WithBits(fileStat.mode, S_IFDIR | MODE_0775));
        tree := Emplace(tree, p, Entry(End(), fileStat));
        p := Parent(p);
      }
    }

    /** The body of the loop, for the iterator at index i. */
    method AddItem(a: Archive, i: nat)
      requires a.Valid() && i < |a.items| && (Nameless(a.items[i]) ==> ReadsInRange(a))
      modifies this
      ensures tree == TurnOf(a, old(tree), i)
    {
      var item := a.items[i];
      var path := Locate(a, item);
      ResolveWellFormed(a, item);
      var fileStat := FillStat(a, item);
      tree := tree[path := Entry(Iter(Some(a), i, false), fileStat)];
      AddParents(a, path, item, fileStat);
    }

    /** The loop of `Fuse::execute`, which runs once per process on a new cache. Only an item
        with neither path nor name needs the extension lists. */
    method Build(a: Archive, allowOther: bool)
      requires a.Valid() && tree == map[]
      requires forall item | item in a.items && Nameless(item) :: ReadsInRange(a)
      modifies this
      ensures tree == Mounted(a, allowOther)
    {
      var rootStat := RootStat(a, allowOther);
      tree := Emplace(tree, ROOT, Entry(End(), rootStat));

      Turns(a, allowOther);
      var it := new CiIterator.OfArchive(a);
      while !Equal(it.Snapshot(), End())
        invariant it.Snapshot() == Iter(Some(a), it.index, it.index == |a.items|) && it.index <= |a.items|
        invariant tree == MountedAfter(a, allowOther, it.index)
        decreases |a.items| - it.index
      {
        AddItem(a, it.index);
        it.Increment();
      }
    }
  }
}
