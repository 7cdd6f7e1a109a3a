/** The callbacks that answer from the mounted tree: `cb_getattr` and `cb_readdir`
    (src/fuse3.cpp:273-283, 320-338). */
module Listings {
  import opened Basics
  import opened Paths
  import opened Trees
  import Archives
  import TreeProperties

  const ENOENT := 2
  const ENOTDIR := 20

  /** One call of the filler; "." and ".." are passed without a stat. */
  datatype DirEntry = DirEntry(name: string, stat: Option<Archives.Stat>)

  // Iteration order of std::map

  lemma {:induction false} LeastExists(s: set<Path>)
    requires s != {}
    ensures exists k :: IsLeast(s, k)
    decreases |s|
  {
    var k :| k in s;
    PathLeTotal(k, k);
    if s == {k} {
      assert IsLeast(s, k);
    } else {
      LeastExists(s - {k});
      var m :| IsLeast(s - {k}, m);
      PathLeTotal(k, m);
      if PathLe(k, m) {
        forall x | x in s ensures PathLe(k, x) { if x != k { PathLeTransitive(k, m, x); } }
        assert IsLeast(s, k);
      } else {
        assert IsLeast(s, m);
      }
    }
  }

  predicate IsLeast(s: set<Path>, k: Path) { k in s && forall x | x in s :: PathLe(k, x) }

  lemma LeastUnique(s: set<Path>)
    ensures forall k, m | IsLeast(s, k) && IsLeast(s, m) :: k == m
  {
    forall k, m | IsLeast(s, k) && IsLeast(s, m) ensures k == m {
      PathLeTotal(k, m);
    }
  }

  function Least(s: set<Path>): (k: Path)
    requires s != {}
    ensures IsLeast(s, k)
  {
    LeastExists(s);
    LeastUnique(s);
    var k :| k in s && IsLeast(s, k);
    k
  }

  ghost predicate Sorted(ks: seq<Path>) {
    forall i, j | 0 <= i < j < |ks| :: PathLe(ks[i], ks[j]) && ks[i] != ks[j]
  }

  /** The keys in the order in which the map is traversed. */
  function SortedKeys(s: set<Path>): (ks: seq<Path>)
    ensures Sorted(ks) && forall k :: k in ks <==> k in s
    decreases |s|
  {
    if s == {} then [] else
      var k := Least(s);
      var rest := SortedKeys(s - {k});
      assert forall i | 0 <= i < |rest| :: rest[i] in s - {k};
      [k] + rest
  }

  // cb_getattr

  function Lookup(t: FileTree, path: string): Option<Archives.Stat> {
    if Parse(path) in t then Some(t[Parse(path)].stat) else None
  }

  method CbGetattr(cache: Cache, path: string) returns (code: int, st: Option<Archives.Stat>)
    ensures st == Lookup(cache.tree, path)
    ensures if Parse(path) in cache.tree then code == 0 && st == Some(cache.tree[Parse(path)].stat)
            else code == -2 && st == None
  {
    var key := Parse(path);
    if key !in cache.tree { return -ENOENT, None; }
    return 0, Some(cache.tree[key].stat);
  }

  /** On a mounted tree getattr finds every key under its native path, the root under "/"
      among them, and no other well-formed path. */
  lemma LookupOfKey(t: FileTree, a: Archives.Archive, allowOther: bool, ps: seq<Path>, k: Path)
    requires TreeProperties.IsMounted(t, a, allowOther, ps)
    ensures k in t ==> Lookup(t, Render(k)) == Some(t[k].stat)
    ensures k !in t && k.WellFormed() ==> Lookup(t, Render(k)) == None
    ensures Lookup(t, "/").Some?
  {
    TreeProperties.Shape(t, a, allowOther, ps);
    if k.WellFormed() { ParseRender(k); }
    ParseSlash();
  }

  /** So every item is found under its path, as a file or directory of its own size and times. */
  lemma LookupOfItem(t: FileTree, a: Archives.Archive, allowOther: bool, ps: seq<Path>, i: nat)
    requires TreeProperties.IsMounted(t, a, allowOther, ps) && i < |ps| && TreeProperties.LastOfItsPath(ps, i)
    ensures var st := Lookup(t, Render(ps[i]));
            && st.Some? && TreeProperties.OfItem(st.value, a, a.items[i])
            && IsDirectory(st.value) == a.items[i].isDir && IsRegular(st.value) == !a.items[i].isDir
  {
    LookupOfKey(t, a, allowOther, ps, ps[i]);
    TreeProperties.ItemAttributes(t, a, allowOther, ps, i);
    var st := t[ps[i]].stat;
    TreeProperties.KindsExclusive(st);
  }

  // cb_readdir

  predicate Listed(path: Path, k: Path) { Parent(k) == path && Filename(k) != "" }

  /** The entries that the scan over the keys ks emits. */
  function Collect(t: FileTree, path: Path, ks: seq<Path>): seq<DirEntry>
    requires forall k | k in ks :: k in t
  {
    if ks == [] then [] else
      var k := ks[|ks| - 1];
      Collect(t, path, ks[..|ks| - 1]) + if Listed(path, k) then [DirEntry(Filename(k), Some(t[k].stat))] else []
  }

  function Listing(t: FileTree, path: Path): seq<DirEntry> {
    Collect(t, path, SortedKeys(t.Keys))
  }

  /** e names a child of the directory and carries its stat. */
  predicate IsEntry(t: FileTree, path: Path, e: DirEntry) {
    e.name != "" && Child(path, e.name) in t && e.stat == Some(t[Child(path, e.name)].stat)
  }

  /** What a listing of a directory should be: its children with their stats, in strictly
      increasing order of their names. */
  ghost predicate IsListing(t: FileTree, path: Path, es: seq<DirEntry>) {
    && (forall e :: e in es <==> IsEntry(t, path, e))
    && (forall i, j | 0 <= i < j < |es| :: StrLe(es[i].name, es[j].name) && es[i].name != es[j].name)
  }

  lemma ListedIsChild(path: Path, k: Path)
    ensures Listed(path, k) <==> Filename(k) != "" && k == Child(path, Filename(k))
  {
    if Listed(path, k) { assert k.parts == Parent(k).parts + [Filename(k)]; }
  }

  lemma ChildIsListed(path: Path, name: string)
    requires name != ""
    ensures Listed(path, Child(path, name))
  {
    assert Parent(Child(path, name)).parts == path.parts;
  }

  /** The entries es are those of the children among ks, in strictly increasing order. */
  ghost predicate Collects(t: FileTree, path: Path, ks: seq<Path>, es: seq<DirEntry>) {
    && (forall e :: e in es <==> IsEntry(t, path, e) && Child(path, e.name) in ks)
    && (forall i, j | 0 <= i < j < |es| :: StrLe(es[i].name, es[j].name) && es[i].name != es[j].name)
  }

  lemma {:induction false} CollectCorrect(t: FileTree, path: Path, ks: seq<Path>)
    requires Sorted(ks) && forall k | k in ks :: k in t
    ensures Collects(t, path, ks, Collect(t, path, ks))
  {
    if ks == [] {
    } else {
      var n := |ks| - 1;
      var front, k := ks[..n], ks[n];
      assert ks == front + [k];
      CollectCorrect(t, path, front);
      if Listed(path, k) {
        ListedLast(t, path, front, k, Collect(t, path, front));
      } else {
        UnlistedLast(t, path, front, k, Collect(t, path, front));
      }
    }
  }

  lemma ListedLast(t: FileTree, path: Path, ks: seq<Path>, k: Path, es: seq<DirEntry>)
    requires Collects(t, path, ks, es) && Sorted(ks + [k]) && k in t && Listed(path, k)
    ensures Collects(t, path, ks + [k], es + [DirEntry(Filename(k), Some(t[k].stat))])
  {
    ListedIsChild(path, k);
    forall e | e in es ensures StrLe(e.name, Filename(k)) && e.name != Filename(k) {
      var i :| 0 <= i < |ks| && ks[i] == Child(path, e.name);
      assert (ks + [k])[i] == ks[i] && (ks + [k])[|ks|] == k;
      SiblingOrder(path.parts, e.name, Filename(k));
    }
  }

  lemma UnlistedLast(t: FileTree, path: Path, ks: seq<Path>, k: Path, es: seq<DirEntry>)
    requires Collects(t, path, ks, es) && !Listed(path, k)
    ensures Collects(t, path, ks + [k], es)
  {
    forall e: DirEntry | e.name != "" ensures Child(path, e.name) != k { ChildIsListed(path, e.name); }
  }

  lemma ListingCorrect(t: FileTree, path: Path)
    ensures IsListing(t, path, Listing(t, path))
  {
    CollectCorrect(t, path, SortedKeys(t.Keys));
  }

  /** `cb_readdir`: a scan over the whole map. */
  method CbReaddir(cache: Cache, p: string) returns (code: int, entries: seq<DirEntry>)
    ensures p != "/" && Parse(p) !in cache.tree ==> code == -20 && entries == []
    ensures p == "/" || Parse(p) in cache.tree ==>
              && code == 0 && |entries| >= 2
              && entries[..2] == [DirEntry(".", None), DirEntry("..", None)]
              && entries[2..] == Listing(cache.tree, Parse(p))
              && IsListing(cache.tree, Parse(p), entries[2..])
  {
    if p != "/" && Parse(p) !in cache.tree { return -ENOTDIR, []; }
    var path := Parse(p);
    var listed := Scan(cache.tree, path);
    entries := [DirEntry(".", None), DirEntry("..", None)] + listed;
    assert entries[2..] == listed;
    ListingCorrect(cache.tree, path);
    code := 0;
  }

  lemma CollectNext(t: FileTree, path: Path, ks: seq<Path>, i: nat)
    requires i < |ks| && forall k | k in ks :: k in t
    ensures Collect(t, path, ks[..i + 1]) ==
            Collect(t, path, ks[..i])
            + if Listed(path, ks[i]) then [DirEntry(Filename(ks[i]), Some(t[ks[i]].stat))] else []
  {
    assert ks[..i + 1][..i] == ks[..i];
  }

  method Scan(t: FileTree, path: Path) returns (entries: seq<DirEntry>)
    ensures entries == Listing(t, path)
  {
    entries := [];
    var keys := SortedKeys(t.Keys);
    for i := 0 to |keys|
      invariant entries == Collect(t, path, keys[..i])
    {
      var parent := Parent(keys[i]);
      var name := Filename(keys[i]);
      CollectNext(t, path, keys, i);
      if path == parent && name != "" {
        entries := entries + [DirEntry(name, Some(t[keys[i]].stat))];
      }
    }
    assert keys[..|keys|] == keys;
  }

  function NativeEntry(dir: string, name: string): string {
    if dir == "/" then "/" + name else dir + "/" + name
  }

  /** Listing and lookup agree, on the native paths that FUSE passes: a directory lists
      (name, st) exactly when getattr of the directory's path joined with name gives st. */
  lemma ListingAgreesWithLookup(t: FileTree, dir: string, name: string, st: Archives.Stat)
    requires Filename(Parse(dir)) != "" || dir == "/"
    requires name != "" && '/' !in name
    ensures DirEntry(name, Some(st)) in Listing(t, Parse(dir)) <==> Lookup(t, NativeEntry(dir, name)) == Some(st)
  {
    ListingCorrect(t, Parse(dir));
    NativeChild(dir, name);
    var e := DirEntry(name, Some(st));
    assert e in Listing(t, Parse(dir)) <==> IsEntry(t, Parse(dir), e);
  }

  /** A listed name can always be looked up that way: it is not empty and has no slash. */
  lemma ListedNames(t: FileTree, path: Path, e: DirEntry)
    requires e in Listing(t, path) && forall k | k in t :: k.WellFormed()
    ensures e.name != "" && '/' !in e.name
  {
    ListingCorrect(t, path);
    var k := Child(path, e.name);
    assert k in t;
    assert k.parts[|path.parts|] == e.name;
  }

  lemma TwoInFront(x: string, y: string, ns: seq<string>)
    requires Distinct(ns) && x != y
    ensures Distinct([x, y] + ns) <==> x !in ns && y !in ns
  {
    var all := [x, y] + ns;
    assert forall m | 0 <= m < |ns| :: all[m + 2] == ns[m];
    assert forall m | 2 <= m < |all| :: all[m] == ns[m - 2];
    if Distinct(all) {
      forall m | 0 <= m < |ns| ensures ns[m] != x && ns[m] != y {
        assert all[0] != all[m + 2] && all[1] != all[m + 2];
      }
    }
  }

  /** With the two fixed entries in front, every name is emitted once exactly when the
      directory has no child called "." or "..", which the code would not filter out. */
  lemma EachNameOnce(t: FileTree, path: Path)
    ensures Distinct([".", ".."] + Names(Listing(t, path))) <==>
            Child(path, ".") !in t && Child(path, "..") !in t
  {
    var es := Listing(t, path);
    ListingCorrect(t, path);
    TwoInFront(".", "..", Names(es));
    forall name | name == "." || name == ".." ensures name in Names(es) <==> Child(path, name) in t {
      if Child(path, name) in t { NameInListing(t, path, es, name); }
      ListedChildren(t, path);
    }
  }

  ghost predicate NoDots(p: Path) { "." !in p.parts && ".." !in p.parts }

  /** On a mounted tree every listing has distinct names exactly when no item's path has an
      element "." or "..". */
  lemma DistinctListings(t: FileTree, a: Archives.Archive, allowOther: bool, ps: seq<Path>)
    requires TreeProperties.IsMounted(t, a, allowOther, ps)
    ensures (forall d :: Distinct([".", ".."] + Names(Listing(t, d)))) <==>
            forall i | 0 <= i < |ps| :: NoDots(ps[i])
  {
    if forall d :: Distinct([".", ".."] + Names(Listing(t, d))) {
      forall i | 0 <= i < |ps| ensures NoDots(ps[i]) {
        forall j | 0 <= j < |ps[i].parts| ensures ps[i].parts[j] != "." && ps[i].parts[j] != ".." {
          var d := Path(true, ps[i].parts[..j]);
          ElementIsChild(t, a, allowOther, ps, i, j);
          assert Distinct([".", ".."] + Names(Listing(t, d)));
          EachNameOnce(t, d);
        }
      }
    }
    if forall i | 0 <= i < |ps| :: NoDots(ps[i]) {
      forall d ensures Distinct([".", ".."] + Names(Listing(t, d))) {
        NoDottedChild(t, a, allowOther, ps, d, ".");
        NoDottedChild(t, a, allowOther, ps, d, "..");
        EachNameOnce(t, d);
      }
    }
  }

  /** Every element of an item's path is a child in the tree. */
  lemma ElementIsChild(t: FileTree, a: Archives.Archive, allowOther: bool, ps: seq<Path>, i: nat, j: nat)
    requires TreeProperties.IsMounted(t, a, allowOther, ps) && i < |ps| && j < |ps[i].parts|
    ensures Child(Path(true, ps[i].parts[..j]), ps[i].parts[j]) in t
  {
    var k := Path(true, ps[i].parts[..j + 1]);
    assert k == Child(Path(true, ps[i].parts[..j]), ps[i].parts[j]);
    if j + 1 == |ps[i].parts| { assert k.parts == ps[i].parts; }
    assert k == ps[i] || ProperAncestor(k, ps[i]);
    TreeProperties.MountedKeys(t, a, allowOther, ps, k);
  }

  lemma NoDottedChild(t: FileTree, a: Archives.Archive, allowOther: bool, ps: seq<Path>, d: Path, name: string)
    requires TreeProperties.IsMounted(t, a, allowOther, ps)
    requires forall i | 0 <= i < |ps| :: name !in ps[i].parts
    ensures Child(d, name) !in t
  {
    TreeProperties.MountedKeys(t, a, allowOther, ps, Child(d, name));
    forall i | 0 <= i < |ps| ensures ps[i] != Child(d, name) && !ProperAncestor(Child(d, name), ps[i]) {
      if ps[i] == Child(d, name) || ProperAncestor(Child(d, name), ps[i]) { BelowChild(d, name, ps[i]); }
    }
  }

  lemma BelowChild(d: Path, name: string, p: Path)
    requires p == Child(d, name) || ProperAncestor(Child(d, name), p)
    ensures name in p.parts
  {
    assert Child(d, name).parts[|d.parts|] == name;
    assert p.parts[|d.parts|] == name;
  }

  // Walking the file system

  ghost function Below(t: FileTree, p: Path): set<Path> {
    set k | k in t && ProperAncestor(p, k)
  }

  lemma BelowShrinks(t: FileTree, p: Path, c: Path)
    requires c in t && ProperAncestor(p, c)
    ensures |Below(t, c)| < |Below(t, p)|
  {
    forall k | k in Below(t, c) ensures k in Below(t, p) - {c} {
      assert p.parts == c.parts[..|p.parts|] == k.parts[..|p.parts|];
    }
    SubsetSize(Below(t, c), Below(t, p) - {c});
    assert c in Below(t, p);
  }

  lemma {:induction false} SubsetSize(x: set<Path>, y: set<Path>)
    requires x <= y
    ensures |x| <= |y|
  {
    if x != {} {
      var k :| k in x;
      SubsetSize(x - {k}, y - {k});
    }
  }

  function Names(es: seq<DirEntry>): (ns: seq<string>)
    ensures |ns| == |es| && forall i | 0 <= i < |es| :: ns[i] == es[i].name
  {
    seq(|es|, i requires 0 <= i < |es| => es[i].name)
  }

  ghost predicate ChildrenIn(t: FileTree, p: Path, ns: seq<string>) {
    forall i | 0 <= i < |ns| :: ns[i] != "" && Child(p, ns[i]) in t
  }

  lemma ListedChildren(t: FileTree, p: Path)
    ensures ChildrenIn(t, p, Names(Listing(t, p)))
  {
    ListingCorrect(t, p);
    var es := Listing(t, p);
    forall i | 0 <= i < |es| ensures es[i].name != "" && Child(p, es[i].name) in t { assert es[i] in es; }
  }

  /** The paths met by listing p, and then everything listed there, and so on down. */
  ghost function Walk(t: FileTree, p: Path): seq<Path>
    decreases |Below(t, p)|, |Listing(t, p)| + 1
  {
    ListedChildren(t, p);
    WalkNames(t, p, Names(Listing(t, p)))
  }

  ghost function WalkNames(t: FileTree, p: Path, ns: seq<string>): seq<Path>
    requires ChildrenIn(t, p, ns)
    decreases |Below(t, p)|, |ns|
  {
    if ns == [] then [] else
      var c := Child(p, ns[0]);
      BelowShrinks(t, p, c);
      [c] + Walk(t, c) + WalkNames(t, p, ns[1..])
  }

  /** The keys below p that a walk should meet: all but those with a trailing slash. */
  ghost function Visible(t: FileTree, p: Path): set<Path> {
    set k | k in t && ProperAncestor(p, k) && Filename(k) != ""
  }

  /** Those of them that are reached through one of the names ns. */
  ghost function VisibleThrough(t: FileTree, p: Path, ns: seq<string>): set<Path> {
    set k | k in t && ProperAncestor(p, k) && Filename(k) != "" && k.parts[|p.parts|] in ns
  }

  ghost predicate Mountable(t: FileTree) {
    AncestorClosed(t) && forall k | k in t :: k.WellFormed()
  }

  lemma {:induction false} AncestorIn(t: FileTree, k: Path, depth: nat)
    requires AncestorClosed(t) && k in t && 0 < depth <= |k.parts|
    ensures Path(k.absolute, k.parts[..depth]) in t
    decreases |k.parts|
  {
    if depth == |k.parts| {
      assert k.parts[..depth] == k.parts;
    } else {
      assert ParentIn(t, k);
      AncestorIn(t, Parent(k), depth);
      assert Parent(k).parts[..depth] == k.parts[..depth];
    }
  }

  lemma NextName(p: Path, k: Path)
    requires k.WellFormed() && ProperAncestor(p, k) && Filename(k) != ""
    ensures k.parts[|p.parts|] != ""
    ensures Path(k.absolute, k.parts[..|p.parts| + 1]) == Child(p, k.parts[|p.parts|])
  {
    assert k.parts[..|p.parts| + 1] == k.parts[..|p.parts|] + [k.parts[|p.parts|]];
  }

  lemma NextNameListed(t: FileTree, p: Path, k: Path)
    requires AncestorClosed(t) && k in t && k.WellFormed() && ProperAncestor(p, k) && Filename(k) != ""
    ensures k.parts[|p.parts|] != "" && Child(p, k.parts[|p.parts|]) in t
  {
    NextName(p, k);
    AncestorIn(t, k, |p.parts| + 1);
  }

  /** Everything visible below p is reached through a listed name. */
  lemma AllThroughListing(t: FileTree, p: Path)
    requires Mountable(t)
    ensures VisibleThrough(t, p, Names(Listing(t, p))) == Visible(t, p)
  {
    ListingCorrect(t, p);
    var es := Listing(t, p);
    forall k | k in Visible(t, p) ensures k.parts[|p.parts|] in Names(es) {
      NextNameListed(t, p, k);
      NameInListing(t, p, es, k.parts[|p.parts|]);
    }
  }

  lemma NameInListing(t: FileTree, p: Path, es: seq<DirEntry>, name: string)
    requires IsListing(t, p, es) && name != "" && Child(p, name) in t
    ensures name in Names(es)
  {
    var e := DirEntry(name, Some(t[Child(p, name)].stat));
    assert e in es;
    var i :| 0 <= i < |es| && es[i] == e;
    assert Names(es)[i] == name;
  }

  lemma SplitByName(t: FileTree, p: Path, ns: seq<string>)
    requires ns != [] && ChildrenIn(t, p, ns) && ns[0] !in ns[1..]
    ensures var c, rest := Child(p, ns[0]), VisibleThrough(t, p, ns[1..]);
            && VisibleThrough(t, p, ns) == {c} + Visible(t, c) + rest
            && c !in Visible(t, c) && c !in rest && Visible(t, c) !! rest
  {
    var c, rest := Child(p, ns[0]), VisibleThrough(t, p, ns[1..]);
    assert c.parts[|p.parts|] == ns[0] && c.parts[..|p.parts|] == p.parts;
    forall k | k in t && Filename(k) != ""
      ensures ProperAncestor(p, k) && k.parts[|p.parts|] == ns[0] <==> k == c || ProperAncestor(c, k)
    {
      ThroughChild(p, ns[0], k);
    }
    assert ns == [ns[0]] + ns[1..];
  }

  lemma ThroughChild(p: Path, name: string, k: Path)
    ensures ProperAncestor(p, k) && k.parts[|p.parts|] == name <==>
            k == Child(p, name) || ProperAncestor(Child(p, name), k)
  {
    var c := Child(p, name);
    if ProperAncestor(p, k) && k.parts[|p.parts|] == name {
      assert k.parts[..|p.parts| + 1] == c.parts;
      if |k.parts| == |c.parts| { assert k.parts == c.parts; }
    }
    if ProperAncestor(c, k) {
      assert p.parts == c.parts[..|p.parts|] == k.parts[..|p.parts|];
      assert k.parts[|p.parts|] == c.parts[|p.parts|];
    }
    if k == c { assert k.parts[..|p.parts|] == p.parts; }
  }

  lemma DisjointUnion(x: set<Path>, y: set<Path>)
    requires x !! y
    ensures multiset(x + y) == multiset(x) + multiset(y)
  {
  }

  lemma Combine(c: Path, w: seq<Path>, x: set<Path>, v: seq<Path>, y: set<Path>)
    requires multiset(w) == multiset(x) && multiset(v) == multiset(y)
    requires c !in x && c !in y && x !! y
    ensures multiset([c] + w + v) == multiset({c} + x + y)
  {
    DisjointUnion({c}, x);
    DisjointUnion({c} + x, y);
  }

  lemma DistinctTail(ns: seq<string>)
    requires Distinct(ns) && ns != []
    ensures Distinct(ns[1..]) && ns[0] !in ns[1..]
  {
  }

  lemma {:induction false} WalkNamesComplete(t: FileTree, p: Path, ns: seq<string>)
    requires Mountable(t) && ChildrenIn(t, p, ns) && Distinct(ns)
    ensures multiset(WalkNames(t, p, ns)) == multiset(VisibleThrough(t, p, ns))
    decreases |Below(t, p)|, |ns|
  {
    if ns == [] {
      assert VisibleThrough(t, p, ns) == {};
    } else {
      var c, rest := Child(p, ns[0]), ns[1..];
      BelowShrinks(t, p, c);
      WalkComplete(t, c);
      DistinctTail(ns);
      WalkNamesComplete(t, p, rest);
      SplitByName(t, p, ns);
      Combine(c, Walk(t, c), Visible(t, c), WalkNames(t, p, rest), VisibleThrough(t, p, rest));
    }
  }

  /** Following listed names from p meets every visible key below p exactly once, and
      nothing else. */
  lemma {:induction false} WalkComplete(t: FileTree, p: Path)
    requires Mountable(t)
    ensures multiset(Walk(t, p)) == multiset(Visible(t, p))
    decreases |Below(t, p)|, |Listing(t, p)| + 1
  {
    ListedChildren(t, p);
    ListingCorrect(t, p);
    WalkNamesComplete(t, p, Names(Listing(t, p)));
    AllThroughListing(t, p);
  }

  lemma VisibleFromRoot(t: FileTree)
    requires forall k | k in t :: k.absolute
    ensures Visible(t, ROOT) == set k | k in t && Filename(k) != ""
  {
    forall k | k in t && Filename(k) != "" ensures ProperAncestor(ROOT, k) {}
  }

  lemma WalkCovers(t: FileTree)
    requires Mountable(t) && forall k | k in t :: k.absolute
    ensures multiset(Walk(t, ROOT)) == multiset(set k | k in t && Filename(k) != "")
  {
    WalkComplete(t, ROOT);
    VisibleFromRoot(t);
  }

  /** On a mounted tree the walk from the root meets every key with a name exactly once. */
  lemma WalkCoversMount(t: FileTree, a: Archives.Archive, allowOther: bool, ps: seq<Path>)
    requires TreeProperties.IsMounted(t, a, allowOther, ps)
    ensures multiset(Walk(t, ROOT)) == multiset(set k | k in t && Filename(k) != "")
  {
    TreeProperties.Shape(t, a, allowOther, ps);
    WalkCovers(t);
  }
}
