/** What the closed form of the mounted tree says about it as a file system. */
module TreeProperties {
  import opened Basics
  import opened Paths
  import opened Archives
  import opened Trees

  /** t is the tree mounted for the items of a, whose paths are ps. */
  ghost predicate IsMounted(t: FileTree, a: Archive, allowOther: bool, ps: seq<Path>) {
    && a.Valid() && |ps| == |a.items|
    && (forall i | 0 <= i < |ps| :: ps[i].absolute && ps[i].WellFormed())
    && forall k :: (k in t <==> IsKey(ps, |ps|, k)) && (k in t ==> t[k] == EntryAt(a, allowOther, ps, |ps|, k))
  }

  lemma TreeIsMounted(a: Archive, allowOther: bool, ps: seq<Path>)
    requires a.Valid() && |ps| == |a.items|
    requires forall j | 0 <= j < |ps| :: ps[j].absolute && ps[j].WellFormed()
    ensures IsMounted(MountedUpTo(a, allowOther, ps, |ps|), a, allowOther, ps)
  {
    forall k { MountedKey(a, allowOther, ps, |ps|, k); }
  }

  /** `Cache.Build` leaves a mounted tree; everything below is about any such tree. */
  lemma BuiltIsMounted(a: Archive, allowOther: bool)
    requires a.Valid()
    ensures IsMounted(Mounted(a, allowOther), a, allowOther, ItemPaths(a))
  {
    ItemPathsAbsolute(a);
    TreeIsMounted(a, allowOther, ItemPaths(a));
  }

  // Closed form

  /** Item i is the last one that resolves to its path. */
  ghost predicate LastOfItsPath(ps: seq<Path>, i: nat)
    requires i < |ps|
  {
    forall j | i < j < |ps| :: ps[j] != ps[i]
  }

  ghost predicate FirstUnder(ps: seq<Path>, k: Path, i: nat)
    requires i < |ps|
  {
    ProperAncestor(k, ps[i]) && forall j | 0 <= j < i :: !ProperAncestor(k, ps[j])
  }

  lemma LastAtIs(ps: seq<Path>, i: nat)
    requires i < |ps|
    ensures LastAt(ps, |ps|, ps[i]).Some?
    ensures LastOfItsPath(ps, i) <==> LastAt(ps, |ps|, ps[i]) == Some(i)
  {
    var r := LastAt(ps, |ps|, ps[i]);
    assert r.Some? && i <= r.value && ps[r.value] == ps[i];
    if r.value == i {
      assert forall j | i < j < |ps| :: ps[j] != ps[i];
    } else {
      assert !LastOfItsPath(ps, i);
    }
  }

  lemma FirstBelowIs(ps: seq<Path>, k: Path, i: nat)
    requires i < |ps| && FirstUnder(ps, k, i)
    ensures FirstBelow(ps, |ps|, k) == Some(i)
  {
  }

  /** The keys are the root, the items' paths and their ancestors. */
  lemma MountedKeys(t: FileTree, a: Archive, allowOther: bool, ps: seq<Path>, k: Path)
    requires IsMounted(t, a, allowOther, ps)
    ensures k in t <==> k == ROOT || exists i :: 0 <= i < |ps| && (ps[i] == k || ProperAncestor(k, ps[i]))
  {
    assert k in t <==> IsKey(ps, |ps|, k);
  }

  /** A path of some item holds the last such item; any other key but the root holds a
      directory made from the first item strictly below it; the root holds its own record. */
  lemma MountedRecords(t: FileTree, a: Archive, allowOther: bool, ps: seq<Path>, k: Path, i: nat)
    requires IsMounted(t, a, allowOther, ps) && i < |ps|
    ensures ps[i] == k && LastOfItsPath(ps, i) ==> k in t && t[k] == ItemEntry(a, i)
    ensures k !in ps && k != ROOT && FirstUnder(ps, k, i) ==> k in t && t[k] == ImpliedEntry(a, a.items[i])
    ensures k !in ps && k == ROOT ==> k in t && t[k] == RootEntry(a, allowOther)
  {
    assert k in t <==> IsKey(ps, |ps|, k);
    LastAtIs(ps, i);
    if FirstUnder(ps, k, i) { FirstBelowIs(ps, k, i); }
  }

  // Shape

  lemma AncestorWellFormed(k: Path, p: Path)
    requires p.WellFormed() && (k == p || ProperAncestor(k, p))
    ensures k.WellFormed()
  {
    if ProperAncestor(k, p) {
      assert forall i | 0 <= i < |k.parts| :: k.parts[i] == p.parts[i] && i < |p.parts| - 1;
    }
  }

  function ItemUnder(ps: seq<Path>, k: Path): (i: nat)
    requires IsKey(ps, |ps|, k) && k != ROOT
    ensures i < |ps| && (k == ps[i] || ProperAncestor(k, ps[i]))
  {
    if LastAt(ps, |ps|, k).Some? then LastAt(ps, |ps|, k).value else FirstBelow(ps, |ps|, k).value
  }

  /** The mounted tree holds the root and the parent of every key, and only well-formed
      absolute paths. */
  lemma Shape(t: FileTree, a: Archive, allowOther: bool, ps: seq<Path>)
    requires IsMounted(t, a, allowOther, ps)
    ensures ROOT in t && AncestorClosed(t)
    ensures forall k | k in t :: Parent(k) in t && k.absolute && k.WellFormed()
  {
    assert IsKey(ps, |ps|, ROOT);
    forall k | k in t ensures Parent(k) in t && k.absolute && k.WellFormed() {
      if k != ROOT {
        var i := ItemUnder(ps, k);
        AncestorWellFormed(k, ps[i]);
        UpOne(k, ps[i]);
        MountedKeys(t, a, allowOther, ps, Parent(k));
      }
    }
  }

  lemma UpOne(k: Path, p: Path)
    requires k.parts != [] && (k == p || ProperAncestor(k, p))
    ensures ProperAncestor(Parent(k), p)
  {
    assert Parent(k).parts == p.parts[..|k.parts| - 1];
  }

  /** The root keeps its own record exactly when no item without an extension is named by
      slashes alone, given that the archive has a filename. */
  lemma RootKept(t: FileTree, a: Archive, allowOther: bool, ps: seq<Path>)
    requires Filename(Parse(a.path)) != ""
    requires IsMounted(t, a, allowOther, ps) && ps == ItemPaths(a)
    ensures ROOT in t
    ensures t[ROOT] == RootEntry(a, allowOther) <==>
            forall i | 0 <= i < |a.items| ::
              !(a.items[i].extension == "" && a.items[i].name != "" && AllSlashes(a.items[i].name))
  {
    assert IsKey(ps, |ps|, ROOT);
    forall i | 0 <= i < |a.items|
      ensures ps[i] == ROOT <==>
              a.items[i].extension == "" && a.items[i].name != "" && AllSlashes(a.items[i].name)
    {
      RootReplacedBy(a, a.items[i]);
    }
  }

  // Types

  lemma StatKinds(a: Archive, allowOther: bool, item: Item)
    ensures IsDirectory(RootEntry(a, allowOther).stat)
    ensures IsDirectory(ImpliedEntry(a, item).stat)
    ensures if item.isDir then IsDirectory(ItemStat(a, item)) else IsRegular(ItemStat(a, item))
  {
    RootModeIsDirectory(a.stat.mode, allowOther);
    ModeKinds(a.stat.mode);
  }

  lemma KindsExclusive(st: Stat)
    ensures !(IsDirectory(st) && IsRegular(st))
  {
  }

  /** A record with an archive in its iterator is that of an item at this path. */
  lemma RecordOfItem(t: FileTree, a: Archive, allowOther: bool, ps: seq<Path>, k: Path)
    requires IsMounted(t, a, allowOther, ps) && k in t
    ensures t[k].it.archive.Some? <==> k in ps
    ensures k in ps ==> exists i: UInt32 :: i < |ps| && ps[i] == k && t[k] == ItemEntry(a, i)
  {
    if k in ps {
      var i := LastAt(ps, |ps|, k).value;
      assert ps[i] == k && t[k] == ItemEntry(a, i);
    }
  }

  /** Every key is either a directory or a regular file, and a regular file carries the
      iterator of the item it came from, which is in range. */
  lemma Typing(t: FileTree, a: Archive, allowOther: bool, ps: seq<Path>, k: Path)
    requires IsMounted(t, a, allowOther, ps) && k in t
    ensures IsDirectory(t[k].stat) <==> !IsRegular(t[k].stat)
    ensures IsRegular(t[k].stat) ==>
              && t[k].it.archive == Some(a) && t[k].it.index < a.Size() && t[k].it.Consistent()
              && !a.items[t[k].it.index].isDir && ps[t[k].it.index] == k
  {
    KindsExclusive(t[k].stat);
    if LastAt(ps, |ps|, k).Some? {
      StatKinds(a, allowOther, a.items[LastAt(ps, |ps|, k).value]);
    } else if k == ROOT {
      RootModeIsDirectory(a.stat.mode, allowOther);
    } else {
      StatKinds(a, allowOther, a.items[FirstBelow(ps, |ps|, k).value]);
    }
  }

  /** A key is a directory unless the last item at its path is not one. */
  lemma KeyKind(t: FileTree, a: Archive, allowOther: bool, ps: seq<Path>, k: Path)
    requires IsMounted(t, a, allowOther, ps) && k in t
    ensures IsDirectory(t[k].stat) <==>
            forall i | 0 <= i < |ps| && ps[i] == k && LastOfItsPath(ps, i) :: a.items[i].isDir
  {
    Typing(t, a, allowOther, ps, k);
    match LastAt(ps, |ps|, k) {
      case Some(i) =>
        LastAtIs(ps, i);
        StatKinds(a, allowOther, a.items[i]);
      case None =>
        if k == ROOT {
          RootModeIsDirectory(a.stat.mode, allowOther);
        } else {
          StatKinds(a, allowOther, a.items[FirstBelow(ps, |ps|, k).value]);
        }
    }
  }

  // Attributes

  /** Size and times are those of the item, everything else but the mode the archive's. Only a
      size above the range of a file offset becomes negative. */
  predicate OfItem(st: Stat, a: Archive, item: Item) {
    && st.size == (if item.size <= 0x7FFF_FFFF_FFFF_FFFF then item.size else item.size - 0x1_0000_0000_0000_0000)
    && st.atime == item.atime && st.mtime == item.mtime && st.ctime == item.ctime
    && st.rest == a.stat.rest
  }

  /** What getattr shows for an item: its own size, times and kind. */
  lemma ItemAttributes(t: FileTree, a: Archive, allowOther: bool, ps: seq<Path>, i: nat)
    requires IsMounted(t, a, allowOther, ps) && i < |ps| && LastOfItsPath(ps, i)
    ensures ps[i] in t && OfItem(t[ps[i]].stat, a, a.items[i])
    ensures if a.items[i].isDir then HasMode(t[ps[i]].stat.mode, a.stat.mode, 0x4000, 0x1FD)
            else HasMode(t[ps[i]].stat.mode, a.stat.mode, 0x8000, 0x1B4)
  {
    MountedRecords(t, a, allowOther, ps, ps[i], i);
    ModesExact(a.stat.mode, allowOther);
  }

  /** An implied directory shows the size and times of the first item below it. */
  lemma ImpliedAttributes(t: FileTree, a: Archive, allowOther: bool, ps: seq<Path>, k: Path, i: nat)
    requires IsMounted(t, a, allowOther, ps) && i < |ps| && k !in ps && k != ROOT && FirstUnder(ps, k, i)
    ensures k in t && OfItem(t[k].stat, a, a.items[i]) && HasMode(t[k].stat.mode, a.stat.mode, 0x4000, 0x1FD)
  {
    MountedRecords(t, a, allowOther, ps, k, i);
    ModesExact(a.stat.mode, allowOther);
  }

  /** The root shows the archive's own attributes, as a directory that can be searched. */
  lemma RootAttributes(t: FileTree, a: Archive, allowOther: bool, ps: seq<Path>)
    requires IsMounted(t, a, allowOther, ps) && ROOT !in ps
    ensures ROOT in t && t[ROOT].stat == a.stat.(mode := t[ROOT].stat.mode)
    ensures HasMode(t[ROOT].stat.mode, a.stat.mode, 0x4000, if allowOther then 0x4D else 0x48)
  {
    assert IsKey(ps, |ps|, ROOT);
    ModesExact(a.stat.mode, allowOther);
  }

  ghost predicate ParentsAreDirectories(t: FileTree) {
    forall k | k in t && k != ROOT :: Parent(k) in t && IsDirectory(t[Parent(k)].stat)
  }

  /** No item that ends up in the tree as a file has another item's path below its own. */
  ghost predicate FilesAreLeaves(a: Archive, ps: seq<Path>)
    requires |ps| == |a.items|
  {
    forall i, j | 0 <= i < |ps| && 0 <= j < |ps| && LastOfItsPath(ps, i) && ProperAncestor(ps[i], ps[j]) ::
      a.items[i].isDir
  }

  /** Every parent in the tree is a directory exactly when files are leaves. */
  lemma ParentsExact(t: FileTree, a: Archive, allowOther: bool, ps: seq<Path>)
    requires IsMounted(t, a, allowOther, ps)
    ensures ParentsAreDirectories(t) <==> FilesAreLeaves(a, ps)
  {
    Shape(t, a, allowOther, ps);
    if ParentsAreDirectories(t) {
      forall i, j | 0 <= i < |ps| && 0 <= j < |ps| && LastOfItsPath(ps, i) && ProperAncestor(ps[i], ps[j])
        ensures a.items[i].isDir
      {
        var below := StepDown(ps[i], ps[j]);
        MountedKeys(t, a, allowOther, ps, below);
        KeyKind(t, a, allowOther, ps, ps[i]);
      }
    }
    if FilesAreLeaves(a, ps) {
      forall k | k in t && k != ROOT ensures IsDirectory(t[Parent(k)].stat) {
        UpOne(k, ps[ItemUnder(ps, k)]);
        KeyKind(t, a, allowOther, ps, Parent(k));
      }
    }
  }

  lemma StepDown(k: Path, p: Path) returns (below: Path)
    requires k.absolute && ProperAncestor(k, p)
    ensures Parent(below) == k && below != ROOT && (below == p || ProperAncestor(below, p))
  {
    below := Path(true, p.parts[..|k.parts| + 1]);
    assert Parent(below).parts == k.parts;
    if |k.parts| + 1 == |p.parts| { assert below.parts == p.parts; }
  }

  // Order of the items

  /** b has the items of a in another order. */
  ghost predicate Reordered(a: Archive, ps: seq<Path>, b: Archive, qs: seq<Path>)
    requires |ps| == |a.items| && |qs| == |b.items|
  {
    && b == a.(items := b.items) && multiset(a.items) == multiset(b.items)
    && forall i, j | 0 <= i < |ps| && 0 <= j < |qs| && a.items[i] == b.items[j] :: ps[i] == qs[j]
  }

  lemma ReorderedPaths(a: Archive, b: Archive)
    requires b == a.(items := b.items) && multiset(a.items) == multiset(b.items)
    ensures Reordered(a, ItemPaths(a), b, ItemPaths(b))
  {
  }

  lemma Counterpart(a: Archive, ps: seq<Path>, b: Archive, qs: seq<Path>, i: nat) returns (j: nat)
    requires |ps| == |a.items| && |qs| == |b.items| && Reordered(a, ps, b, qs) && i < |ps|
    ensures j < |qs| && b.items[j] == a.items[i] && qs[j] == ps[i]
  {
    assert a.items[i] in multiset(b.items);
    j :| 0 <= j < |qs| && b.items[j] == a.items[i];
  }

  lemma KeysFollow(s: FileTree, a: Archive, ps: seq<Path>, t: FileTree, b: Archive, qs: seq<Path>, allowOther: bool)
    requires IsMounted(s, a, allowOther, ps) && IsMounted(t, b, allowOther, qs) && Reordered(a, ps, b, qs)
    ensures s.Keys <= t.Keys
    ensures forall k | k in ps :: k in qs
  {
    forall k | k in s ensures k in t {
      MountedKeys(t, b, allowOther, qs, k);
      if k != ROOT { var j := Counterpart(a, ps, b, qs, ItemUnder(ps, k)); }
    }
    forall k | k in ps ensures k in qs {
      var i :| 0 <= i < |ps| && ps[i] == k;
      var j := Counterpart(a, ps, b, qs, i);
    }
  }

  /** At k, both trees have the same stat, and iterators to the same item: i in a, some j in b. */
  ghost predicate SameItemAt(s: FileTree, a: Archive, t: FileTree, b: Archive, k: Path, i: UInt32)
    requires i < |a.items|
  {
    && k in s && k in t && s[k].stat == t[k].stat && s[k].it == Iter(Some(a), i, false)
    && exists j: UInt32 :: j < |b.items| && t[k].it == Iter(Some(b), j, false) && b.items[j] == a.items[i]
  }

  /** At k, which no item has as its path, both trees have a directory of the same mode
      without an item; the root even keeps its whole record. */
  ghost predicate SameKindAt(s: FileTree, t: FileTree, k: Path) {
    && k in s && k in t && s[k].it == End() && t[k].it == End()
    && s[k].stat.mode == t[k].stat.mode && IsDirectory(s[k].stat)
    && (k == ROOT ==> s[k] == t[k])
  }

  /** Reordering the items keeps the keys, and at the keys that are no item's path all but
      the size and times of the implied directories. With pairwise distinct paths it also
      keeps, at each item's path, the stat and the item that the iterator denotes. */
  lemma OrderIndependent(s: FileTree, a: Archive, ps: seq<Path>, t: FileTree, b: Archive, qs: seq<Path>,
                         allowOther: bool)
    requires IsMounted(s, a, allowOther, ps) && IsMounted(t, b, allowOther, qs) && Reordered(a, ps, b, qs)
    ensures s.Keys == t.Keys
    ensures forall k | k in s && k !in ps :: SameKindAt(s, t, k)
    ensures Distinct(ps) ==> forall i | 0 <= i < |ps| :: SameItemAt(s, a, t, b, ps[i], i)
  {
    assert Reordered(b, qs, a, ps);
    KeysFollow(s, a, ps, t, b, qs, allowOther);
    KeysFollow(t, b, qs, s, a, ps, allowOther);
    forall k | k in s && k !in ps ensures SameKindAt(s, t, k) {
      ImpliedKind(s, a, allowOther, ps, k);
      ImpliedKind(t, b, allowOther, qs, k);
    }
    if Distinct(ps) {
      forall i | 0 <= i < |ps| ensures SameItemAt(s, a, t, b, ps[i], i) {
        var j := SameRecord(s, a, ps, t, b, qs, allowOther, i);
      }
    }
  }

  lemma ImpliedKind(t: FileTree, a: Archive, allowOther: bool, ps: seq<Path>, k: Path)
    requires IsMounted(t, a, allowOther, ps) && k in t && k !in ps
    ensures k == ROOT ==> t[k] == RootEntry(a, allowOther)
    ensures k != ROOT ==> t[k].it == End() && t[k].stat.mode == DirectoryMode(a.stat.mode)
    ensures IsDirectory(t[k].stat)
  {
    RootModeIsDirectory(a.stat.mode, allowOther);
    ModeKinds(a.stat.mode);
  }

  lemma SameRecord(s: FileTree, a: Archive, ps: seq<Path>, t: FileTree, b: Archive, qs: seq<Path>,
                   allowOther: bool, i: nat) returns (j: nat)
    requires IsMounted(s, a, allowOther, ps) && IsMounted(t, b, allowOther, qs) && Reordered(a, ps, b, qs)
    requires Distinct(ps) && i < |ps|
    ensures ps[i] in s && s[ps[i]] == ItemEntry(a, i)
    ensures j < |b.items| && ps[i] in t && t[ps[i]] == ItemEntry(b, j) && b.items[j] == a.items[i]
  {
    MountedRecords(s, a, allowOther, ps, ps[i], i);
    var i0 := Counterpart(a, ps, b, qs, i);
    LastAtIs(qs, i0);
    j := LastAt(qs, |qs|, ps[i]).value;
    LastAtIs(qs, j);
    MountedRecords(t, b, allowOther, qs, ps[i], j);
    assert Reordered(b, qs, a, ps);
    var i1 := Counterpart(b, qs, a, ps, j);
    assert i1 == i;
  }

  /** Equal items have equal paths, as resolving them guarantees. */
  ghost predicate Functional(a: Archive, ps: seq<Path>)
    requires |ps| == |a.items|
  {
    forall i, j | 0 <= i < |ps| && 0 <= j < |ps| && a.items[i] == a.items[j] :: ps[i] == ps[j]
  }

  lemma ItemPathsFunctional(a: Archive)
    ensures Functional(a, ItemPaths(a))
  {
  }

  /** The record at k is the same in the trees of all reorderings. */
  ghost predicate KeptByReordering(s: FileTree, a: Archive, allowOther: bool, ps: seq<Path>, k: Path)
    requires |ps| == |a.items|
  {
    forall t: FileTree, b: Archive, qs: seq<Path> ::
      IsMounted(t, b, allowOther, qs) && Reordered(a, ps, b, qs) ==> k in s && k in t && t[k] == s[k]
  }

  function ToFront<T>(xs: seq<T>, i: nat): seq<T>
    requires i < |xs|
  {
    [xs[i]] + xs[..i] + xs[i + 1..]
  }

  lemma ToFrontSame<T>(xs: seq<T>, i: nat)
    requires i < |xs|
    ensures multiset(ToFront(xs, i)) == multiset(xs) && |ToFront(xs, i)| == |xs|
  {
    assert xs == xs[..i] + [xs[i]] + xs[i + 1..];
  }

  /** The index from which element j of the list came. */
  function Origin(n: nat, i: nat, j: nat): nat
    requires i < n && j < n
  {
    if j == 0 then i else if j <= i then j - 1 else j
  }

  lemma ToFrontAt<T>(xs: seq<T>, i: nat, j: nat)
    requires i < |xs| && j < |xs|
    ensures Origin(|xs|, i, j) < |xs| && |ToFront(xs, i)| == |xs|
    ensures ToFront(xs, i)[j] == xs[Origin(|xs|, i, j)]
  {
  }

  lemma FrontReordered(a: Archive, ps: seq<Path>, i: nat)
    requires |ps| == |a.items| && Functional(a, ps) && i < |ps|
    ensures Reordered(a, ps, a.(items := ToFront(a.items, i)), ToFront(ps, i))
  {
    var b, qs := a.(items := ToFront(a.items, i)), ToFront(ps, i);
    ToFrontSame(a.items, i);
    forall k, j | 0 <= k < |ps| && 0 <= j < |qs| && a.items[k] == b.items[j] ensures ps[k] == qs[j] {
      ToFrontAt(ps, i, j);
      ToFrontAt(a.items, i, j);
    }
  }

  /** The tree mounted after moving item i to the front. */
  lemma FrontMounted(a: Archive, allowOther: bool, ps: seq<Path>, i: nat)
    returns (t: FileTree, b: Archive, qs: seq<Path>)
    requires a.Valid() && |ps| == |a.items| && Functional(a, ps) && i < |ps|
    requires forall j | 0 <= j < |ps| :: ps[j].absolute && ps[j].WellFormed()
    ensures |qs| == |ps| && qs[0] == ps[i] && |b.items| == |ps| && b.items[0] == a.items[i]
    ensures IsMounted(t, b, allowOther, qs) && Reordered(a, ps, b, qs)
  {
    b, qs := a.(items := ToFront(a.items, i)), ToFront(ps, i);
    FrontReordered(a, ps, i);
    forall j | 0 <= j < |qs| ensures qs[j].absolute && qs[j].WellFormed() { ToFrontAt(ps, i, j); }
    t := MountedUpTo(b, allowOther, qs, |qs|);
    TreeIsMounted(b, allowOther, qs);
  }

  /** All items below k would imply the same directory there. */
  ghost predicate SameImplied(a: Archive, ps: seq<Path>, k: Path)
    requires |ps| == |a.items|
  {
    forall i, j | 0 <= i < |ps| && 0 <= j < |ps| && ProperAncestor(k, ps[i]) && ProperAncestor(k, ps[j]) ::
      ImpliedEntry(a, a.items[i]) == ImpliedEntry(a, a.items[j])
  }

  /** An implied directory survives every reordering of the items exactly when all items
      below it imply the same record. */
  lemma ImpliedDependsOnOrder(s: FileTree, a: Archive, allowOther: bool, ps: seq<Path>, k: Path)
    requires IsMounted(s, a, allowOther, ps) && Functional(a, ps)
    requires k in s && k !in ps && k != ROOT
    ensures KeptByReordering(s, a, allowOther, ps, k) <==> SameImplied(a, ps, k)
  {
    if KeptByReordering(s, a, allowOther, ps, k) {
      forall i | 0 <= i < |ps| && ProperAncestor(k, ps[i]) ensures ImpliedEntry(a, a.items[i]) == s[k] {
        var t, b, qs := FrontMounted(a, allowOther, ps, i);
        FrontImplies(s, a, ps, t, b, qs, allowOther, k, i);
      }
    }
    if SameImplied(a, ps, k) {
      forall t: FileTree, b: Archive, qs: seq<Path> | IsMounted(t, b, allowOther, qs) && Reordered(a, ps, b, qs)
        ensures k in t && t[k] == s[k]
      {
        ImpliedKept(s, a, ps, t, b, qs, allowOther, k);
      }
    }
  }

  /** So it is in the tree that `Cache.Build` leaves. */
  lemma BuiltImplied(a: Archive, allowOther: bool)
    requires a.Valid()
    ensures var t, ps := Mounted(a, allowOther), ItemPaths(a);
            forall k | k in t && k !in ps && k != ROOT ::
              KeptByReordering(t, a, allowOther, ps, k) <==> SameImplied(a, ps, k)
  {
    var t, ps := Mounted(a, allowOther), ItemPaths(a);
    BuiltIsMounted(a, allowOther);
    ItemPathsFunctional(a);
    forall k | k in t && k !in ps && k != ROOT
      ensures KeptByReordering(t, a, allowOther, ps, k) <==> SameImplied(a, ps, k)
    {
      ImpliedDependsOnOrder(t, a, allowOther, ps, k);
    }
  }

  lemma FrontImplies(s: FileTree, a: Archive, ps: seq<Path>, t: FileTree, b: Archive, qs: seq<Path>,
                     allowOther: bool, k: Path, i: nat)
    requires IsMounted(s, a, allowOther, ps) && IsMounted(t, b, allowOther, qs) && Reordered(a, ps, b, qs)
    requires k !in ps && k != ROOT && i < |ps| && |qs| > 0 && qs[0] == ps[i] && b.items[0] == a.items[i]
    requires ProperAncestor(k, ps[i])
    ensures k in t && t[k] == ImpliedEntry(a, a.items[i])
  {
    assert Reordered(b, qs, a, ps);
    KeysFollow(t, b, qs, s, a, ps, allowOther);
    MountedRecords(t, b, allowOther, qs, k, 0);
  }

  /** The item that an implied directory is made from. */
  lemma ImpliedSource(t: FileTree, a: Archive, allowOther: bool, ps: seq<Path>, k: Path) returns (i: nat)
    requires IsMounted(t, a, allowOther, ps) && k in t && k !in ps && k != ROOT
    ensures i < |ps| && ProperAncestor(k, ps[i]) && t[k] == ImpliedEntry(a, a.items[i])
  {
    i := FirstBelow(ps, |ps|, k).value;
  }

  lemma ImpliedKept(s: FileTree, a: Archive, ps: seq<Path>, t: FileTree, b: Archive, qs: seq<Path>,
                    allowOther: bool, k: Path)
    requires IsMounted(s, a, allowOther, ps) && IsMounted(t, b, allowOther, qs) && Reordered(a, ps, b, qs)
    requires k in s && k !in ps && k != ROOT && SameImplied(a, ps, k)
    ensures k in t && t[k] == s[k]
  {
    assert Reordered(b, qs, a, ps);
    KeysFollow(s, a, ps, t, b, qs, allowOther);
    KeysFollow(t, b, qs, s, a, ps, allowOther);
    var i := ImpliedSource(s, a, allowOther, ps, k);
    var j := ImpliedSource(t, b, allowOther, qs, k);
    var j' := Counterpart(b, qs, a, ps, j);
    assert ImpliedEntry(b, b.items[j]) == ImpliedEntry(a, a.items[j']);
  }

  // Where the conditions fail

  /** An item named "/" takes the place of the root. */
  lemma RootLost(t: FileTree, a: Archive, allowOther: bool, ps: seq<Path>, i: nat)
    requires IsMounted(t, a, allowOther, ps) && ps == ItemPaths(a) && Filename(Parse(a.path)) != ""
    requires i < |a.items| && a.items[i].name == "/" && a.items[i].extension == ""
    ensures ROOT in t && t[ROOT] != RootEntry(a, allowOther)
  {
    RootKept(t, a, allowOther, ps);
  }

  /** A file with an item below it is a parent that is no directory. */
  lemma FileWithChild(t: FileTree, a: Archive, allowOther: bool, p: Path)
    requires |a.items| == 2 && IsMounted(t, a, allowOther, [p, Child(p, "x")]) && !a.items[0].isDir
    ensures !ParentsAreDirectories(t)
  {
    ParentsExact(t, a, allowOther, [p, Child(p, "x")]);
    assert ProperAncestor([p, Child(p, "x")][0], [p, Child(p, "x")][1]);
    assert p.parts != Child(p, "x").parts;
    assert LastOfItsPath([p, Child(p, "x")], 0);
  }
}
