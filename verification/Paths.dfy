/** The part of std::filesystem::path that the mounted tree relies on, following
    [fs.path.generic], [fs.path.append], [fs.path.decompose] and [fs.path.compare] of
    ISO C++20 on a POSIX host. A path is its root directory flag and its elements;
    an empty last element records a trailing slash. Elements "." and ".." are kept. */
module Paths {
  import opened Basics
  import opened Strings

  datatype Path = Path(absolute: bool, parts: seq<string>) {
    predicate Empty() { !absolute && parts == [] }

    ghost predicate WellFormed() {
      && (forall i | 0 <= i < |parts| :: '/' !in parts[i])
      && (forall i | 0 <= i < |parts| - 1 :: parts[i] != "")
      && (|parts| == 1 ==> parts[0] != "")
    }
  }

  const ROOT := Path(true, [])

  predicate Absolute(s: string) { s != "" && s[0] == '/' }

  predicate AllSlashes(s: string) { forall i | 0 <= i < |s| :: s[i] == '/' }

  function NonEmpty(ps: seq<string>): seq<string> {
    if ps == [] then []
    else if ps[0] == "" then NonEmpty(ps[1..])
    else [ps[0]] + NonEmpty(ps[1..])
  }

  /** The elements of a native path: its non-empty pieces between slashes, and an empty
      one when it ends in a slash that is not part of the root directory. */
  function Elements(pieces: seq<string>): seq<string>
    requires |pieces| >= 1
  {
    Mark(NonEmpty(pieces), pieces[|pieces| - 1])
  }

  function Mark(names: seq<string>, last: string): seq<string> {
    if names != [] && last == "" then names + [""] else names
  }

  function Parse(s: string): Path {
    Path(Absolute(s), Elements(Split("/", s)))
  }

  /** The canonical native form of a path. */
  function Render(p: Path): string {
    (if p.absolute then "/" else "") + (if p.parts == [] then "" else Join("/", p.parts))
  }

  function Parent(p: Path): Path {
    if p.parts == [] then p else p.(parts := p.parts[..|p.parts| - 1])
  }

  function Filename(p: Path): string {
    if p.parts == [] then "" else p.parts[|p.parts| - 1]
  }

  /** `p / q`. */
  function Append(p: Path, q: Path): Path {
    if q.absolute then q
    else if q.parts == [] then
      if Filename(p) != "" then p.(parts := p.parts + [""]) else p
    else
      var base := if p.parts != [] && Filename(p) == "" then p.parts[..|p.parts| - 1] else p.parts;
      p.(parts := base + q.parts)
  }

  /** The path of the entry called `name` in directory p. */
  function Child(p: Path, name: string): Path {
    p.(parts := p.parts + [name])
  }

  predicate ProperAncestor(a: Path, p: Path) {
    a.absolute == p.absolute && a.parts < p.parts
  }

  /** Taking a named path apart and appending its filename to its parent gives it back; a
      name appended to a directory is the filename, and the directory its parent. */
  lemma ParentAndFilename(p: Path, name: string)
    requires p.WellFormed() && name != ""
    ensures Filename(p) != "" ==> Append(Parent(p), Path(false, [Filename(p)])) == p
    ensures Filename(p) != "" || p.parts == [] ==>
              var child := Append(p, Path(false, [name]));
              child == Child(p, name) && Parent(child) == p && Filename(child) == name
  {
    if p.parts != [] { assert p.parts == p.parts[..|p.parts| - 1] + [Filename(p)]; }
    assert (p.parts + [name])[..|p.parts|] == p.parts;
  }

  // Parsing and printing

  lemma FreeMeansAbsent(s: string)
    ensures Free("/", s) <==> '/' !in s
  {
    forall i | 0 <= i < |s| ensures OccursAt("/", s, i) <==> s[i] == '/' {
      assert s[i..i + 1] == [s[i]];
    }
    if '/' in s {
      var i :| 0 <= i < |s| && s[i] == '/';
      assert OccursAt("/", s, i);
    }
  }

  lemma SlashPieces(s: string)
    ensures forall k | 0 <= k < |Split("/", s)| :: '/' !in Split("/", s)[k]
  {
    JoinOfSplit("/", s);
    forall k | 0 <= k < |Split("/", s)| ensures '/' !in Split("/", s)[k] {
      FreeMeansAbsent(Split("/", s)[k]);
    }
  }

  lemma {:induction false} NonEmptyConcat(ps: seq<string>, qs: seq<string>)
    ensures NonEmpty(ps + qs) == NonEmpty(ps) + NonEmpty(qs)
  {
    if ps == [] {
      assert ps + qs == qs;
    } else {
      assert (ps + qs)[1..] == ps[1..] + qs;
      NonEmptyConcat(ps[1..], qs);
    }
  }

  lemma {:induction false} NonEmptyId(ps: seq<string>)
    requires forall i | 0 <= i < |ps| :: ps[i] != ""
    ensures NonEmpty(ps) == ps
  {
    if ps == [] {
    } else {
      NonEmptyId(ps[1..]);
    }
  }

  lemma {:induction false} NonEmptyNames(ps: seq<string>)
    requires forall i | 0 <= i < |ps| :: '/' !in ps[i]
    ensures forall i | 0 <= i < |NonEmpty(ps)| :: NonEmpty(ps)[i] != "" && '/' !in NonEmpty(ps)[i]
  {
    if ps == [] {
    } else {
      NonEmptyNames(ps[1..]);
    }
  }

  /** Everything parsed is well formed. */
  lemma ParseWellFormed(s: string)
    ensures Parse(s).WellFormed()
  {
    SlashPieces(s);
    NonEmptyNames(Split("/", s));
  }

  lemma PiecesOfJoin(ps: seq<string>)
    requires |ps| >= 1 && forall i | 0 <= i < |ps| :: '/' !in ps[i]
    ensures Split("/", Join("/", ps)) == ps
  {
    forall k | 0 <= k < |ps| ensures Free("/", ps[k]) { FreeMeansAbsent(ps[k]); }
    SplitOfJoinChar("/", ps);
  }

  lemma NonEmptyDropsLast(ps: seq<string>)
    requires |ps| >= 1
    ensures NonEmpty(ps) == NonEmpty(ps[..|ps| - 1]) + if ps[|ps| - 1] == "" then [] else [ps[|ps| - 1]]
  {
    InitAndLast(ps);
    NonEmptyLast(ps, ps[..|ps| - 1], ps[|ps| - 1]);
  }

  lemma NonEmptyLast(ps: seq<string>, init: seq<string>, last: string)
    requires ps == init + [last]
    ensures NonEmpty(ps) == NonEmpty(init) + if last == "" then [] else [last]
  {
    NonEmptyConcat(init, [last]);
    NonEmptySingle(last);
  }

  lemma NonEmptySingle(name: string)
    ensures NonEmpty([name]) == if name == "" then [] else [name]
  {
    assert [name][1..] == [];
  }

  /** A well-formed list of names, possibly behind a leading empty piece, is read back. */
  lemma ElementsId(ps: seq<string>)
    requires |ps| >= 1 && Path(false, ps).WellFormed()
    ensures Elements(ps) == ps && Elements([""] + ps) == ps
  {
    var init, last := ps[..|ps| - 1], ps[|ps| - 1];
    assert ps == init + [last];
    NonEmptyDropsLast(ps);
    NonEmptyId(init);
    assert ([""] + ps)[1..] == ps;
    assert NonEmpty([""] + ps) == NonEmpty(ps);
    assert ([""] + ps)[|ps|] == last;
  }

  lemma SplitSlashFirst(t: string)
    ensures Split("/", "/" + t) == [""] + Split("/", t)
  {
    SplitConcat("/", "", t);
    assert "" + "/" + t == "/" + t;
    assert Split("/", "") == [""];
  }

  lemma ParseSlash()
    ensures Parse("/") == ROOT && Parse("") == Path(false, [])
  {
    SplitSlashFirst("");
    assert "/" + "" == "/";
    assert Split("/", "") == [""];
  }

  /** Printing then parsing gives the path back. */
  lemma ParseRender(p: Path)
    requires p.WellFormed()
    ensures Parse(Render(p)) == p
  {
    if p.parts == [] {
      ParseSlash();
    } else {
      PiecesOfJoin(p.parts);
      JoinStart(p.parts);
      RenderedBody(Join("/", p.parts), p.parts);
      RenderBody(p);
    }
  }

  lemma RenderBody(p: Path)
    requires p.parts != []
    ensures Render(p) == if p.absolute then "/" + Join("/", p.parts) else Join("/", p.parts)
  {
    if !p.absolute { assert "" + Join("/", p.parts) == Join("/", p.parts); }
  }

  lemma RenderedBody(body: string, ps: seq<string>)
    requires |ps| >= 1 && Path(false, ps).WellFormed() && body != "" && body[0] != '/'
    requires Split("/", body) == ps
    ensures Parse(body) == Path(false, ps) && Parse("/" + body) == Path(true, ps)
  {
    ElementsId(ps);
    SplitSlashFirst(body);
  }

  lemma JoinStart(ps: seq<string>)
    requires |ps| >= 1 && Path(false, ps).WellFormed()
    ensures Join("/", ps) != "" && Join("/", ps)[0] != '/'
  {
    assert ps[0] != "" && ps[0][0] in ps[0];
  }

  /** An empty piece between two lists of pieces is lost. */
  lemma ElementsSkipEmpty(ps: seq<string>, qs: seq<string>)
    requires |qs| >= 1
    ensures Elements(ps + ([""] + qs)) == Elements(ps + qs)
  {
    NonEmptyConcat(ps, [""] + qs);
    NonEmptyConcat(ps, qs);
    assert ([""] + qs)[1..] == qs;
    assert (ps + ([""] + qs))[|ps| + |qs|] == qs[|qs| - 1] == (ps + qs)[|ps + qs| - 1];
  }

  /** A run of slashes reads like one slash. */
  lemma SlashRunsCollapse(a: string, b: string)
    ensures Parse(a + "//" + b) == Parse(a + "/" + b)
  {
    SplitConcat("/", a, "/" + b);
    SplitSlashFirst(b);
    SplitConcat("/", a, b);
    assert a + "//" + b == a + "/" + ("/" + b);
    ElementsSkipEmpty(Split("/", a), Split("/", b));
    assert a + "//" + b != "" && a + "/" + b != "";
    assert (a + "//" + b)[0] == if a == "" then '/' else a[0];
    assert (a + "/" + b)[0] == if a == "" then '/' else a[0];
  }

  /** [fs.path.append] on native strings: append a slash when the left side ends in a
      filename, then the right side, unless that is absolute. */
  function NativeAppend(a: string, b: string): string {
    if Absolute(b) then b
    else if a != "" && a[|a| - 1] != '/' then a + "/" + b
    else a + b
  }

  lemma LastPiece(a: string)
    ensures var ps := Split("/", a);
            (ps[|ps| - 1] == "" <==> a == "" || a[|a| - 1] == '/')
  {
    var ps := Split("/", a);
    JoinOfSplit("/", a);
    SlashPieces(a);
    InitAndLast(ps);
    LastOfJoin(ps[..|ps| - 1], ps[|ps| - 1]);
  }

  lemma LastOfJoin(init: seq<string>, last: string)
    requires '/' !in last
    ensures var a := Join("/", init + [last]);
            last == "" <==> a == "" || a[|a| - 1] == '/'
  {
    if init == [] {
      assert init + [last] == [last];
      LastCharacter("", last);
      assert "" + last == last;
    } else {
      JoinLast(init, last);
      LastCharacter(Join("/", init) + "/", last);
    }
  }

  lemma JoinLast(ps: seq<string>, last: string)
    requires |ps| >= 1
    ensures Join("/", ps + [last]) == Join("/", ps) + "/" + last
  {
    JoinConcat("/", ps, [last]);
  }

  lemma LastCharacter(front: string, last: string)
    requires (front == "" || front[|front| - 1] == '/') && '/' !in last
    ensures var a := front + last; last == "" <==> a == "" || a[|a| - 1] == '/'
  {
    if last != "" { assert last[|last| - 1] in last; }
  }

  /** Appending on elements is appending on native strings. */
  lemma AppendIsNative(a: string, b: string)
    ensures Append(Parse(a), Parse(b)) == Parse(NativeAppend(a, b))
  {
    if !Absolute(b) {
      ParseSlash();
      if a != "" && a[|a| - 1] != '/' {
        AppendAfterName(a, b);
      } else if a == "" {
        assert a + b == b;
      } else if b == "" {
        assert a + b == a;
        if Filename(Parse(a)) != "" { LastOfElements(a); }
      } else {
        AppendAfterSlash(a, b);
      }
    }
  }

  lemma WithoutTrailing(ps: seq<string>)
    requires ps != [] && ps[|ps| - 1] == ""
    ensures NonEmpty(ps[..|ps| - 1]) == NonEmpty(ps)
  {
    NonEmptyDropsLast(ps);
    assert NonEmpty(ps[..|ps| - 1]) + [] == NonEmpty(ps[..|ps| - 1]);
  }

  /** A joined path has the names of the left one, unless the right one is absolute, followed
      by the names of the right one; empty elements are no names. */
  lemma NamesOfAppend(p: Path, q: Path)
    ensures Append(p, q).absolute <==> p.absolute || q.absolute
    ensures NonEmpty(Append(p, q).parts) == (if q.absolute then [] else NonEmpty(p.parts)) + NonEmpty(q.parts)
  {
    if q.absolute {
      assert [] + NonEmpty(q.parts) == NonEmpty(q.parts);
    } else if q.parts == [] {
      NonEmptyConcat(p.parts, [""]);
      NonEmptySingle("");
    } else if p.parts == [] {
      assert p.parts + q.parts == q.parts && [] + NonEmpty(q.parts) == NonEmpty(q.parts);
    } else {
      NamesBehindNames(p, q);
    }
  }

  lemma NamesBehindNames(p: Path, q: Path)
    requires p.parts != [] && !q.absolute && q.parts != []
    ensures NonEmpty(Append(p, q).parts) == NonEmpty(p.parts) + NonEmpty(q.parts)
  {
    var base := if Filename(p) == "" then p.parts[..|p.parts| - 1] else p.parts;
    if Filename(p) == "" { WithoutTrailing(p.parts); }
    NonEmptyConcat(base, q.parts);
  }

  lemma RelativeHasName(b: string)
    requires b != "" && b[0] != '/'
    ensures NonEmpty(Split("/", b)) != []
  {
    JoinOfSplit("/", b);
    FirstPiece(b, Split("/", b));
  }

  lemma FirstPiece(b: string, qs: seq<string>)
    requires |qs| >= 1 && Join("/", qs) == b && b != "" && b[0] != '/'
    ensures NonEmpty(qs) != []
  {
    assert qs[0] != "";
  }

  /** Pieces of a path ending in a name. */
  lemma ElementsOfNamed(ps: seq<string>)
    requires |ps| >= 1 && ps[|ps| - 1] != ""
    ensures Elements(ps) == NonEmpty(ps) && NonEmpty(ps) != [] && NonEmpty(ps)[|NonEmpty(ps)| - 1] != ""
  {
    NonEmptyDropsLast(ps);
  }

  /** Such pieces followed by an empty one, or by those of a relative path. */
  lemma ElementsAfterName(ps: seq<string>, qs: seq<string>)
    requires |ps| >= 1 && ps[|ps| - 1] != ""
    ensures Elements(ps + [""]) == NonEmpty(ps) + [""]
    ensures |qs| >= 1 && NonEmpty(qs) != [] ==> Elements(ps + qs) == NonEmpty(ps) + Elements(qs)
  {
    ElementsOfNamed(ps);
    NonEmptyConcat(ps, [""]);
    NonEmptySingle("");
    if |qs| >= 1 && NonEmpty(qs) != [] {
      NonEmptyConcat(ps, qs);
      MarkConcat(NonEmpty(ps), NonEmpty(qs), qs[|qs| - 1]);
    }
  }

  lemma MarkConcat(a: seq<string>, b: seq<string>, last: string)
    requires a != []
    ensures Mark(a + b, last) == a + if b != [] || last != "" then Mark(b, last) else [""]
  {
  }

  lemma AppendToName(p: Path, q: Path)
    requires p.parts != [] && Filename(p) != "" && !q.absolute
    ensures Append(p, q) == Path(p.absolute, p.parts + if q.parts == [] then [""] else q.parts)
  {
  }

  lemma AppendAfterName(a: string, b: string)
    requires a != "" && a[|a| - 1] != '/' && !Absolute(b)
    ensures Append(Parse(a), Parse(b)) == Parse(a + "/" + b)
  {
    SplitConcat("/", a, b);
    LastPiece(a);
    EmptyOrNamed(b);
    ElementsOfNamed(Split("/", a));
    ElementsAfterName(Split("/", a), Split("/", b));
    AppendToName(Parse(a), Parse(b));
    NonEmptySingle("");
    assert (a + "/" + b)[0] == a[0];
  }

  lemma EmptyOrNamed(b: string)
    requires !Absolute(b)
    ensures if b == "" then Split("/", b) == [""] else NonEmpty(Split("/", b)) != []
  {
    if b == "" {
      assert Find("/", b).None?;
    } else {
      RelativeHasName(b);
    }
  }

  /** Pieces of a path ending in a slash, followed by those of a relative path. */
  lemma ElementsAfterSlash(ps: seq<string>, qs: seq<string>)
    requires |ps| >= 1 && NonEmpty(qs) != []
    ensures var names := NonEmpty(ps);
            && Elements(ps + [""]) == (if names == [] then [] else names + [""])
            && Elements(ps + qs) == names + Elements(qs)
  {
    NonEmptyConcat(ps, [""]);
    NonEmptyConcat(ps, qs);
    NonEmptySingle("");
    assert (ps + qs)[|ps + qs| - 1] == qs[|qs| - 1];
    if NonEmpty(ps) != [] { MarkConcat(NonEmpty(ps), NonEmpty(qs), qs[|qs| - 1]); }
  }

  lemma AppendAfterSlash(a: string, b: string)
    requires a != "" && a[|a| - 1] == '/' && b != "" && !Absolute(b)
    ensures Append(Parse(a), Parse(b)) == Parse(a + b)
  {
    var front := a[..|a| - 1];
    assert a == front + "/" + "" && a + b == front + "/" + b;
    SplitConcat("/", front, "");
    SplitConcat("/", front, b);
    EmptyOrNamed("");
    RelativeHasName(b);
    ElementsAfterSlash(Split("/", front), Split("/", b));
    assert (a + b)[0] == a[0];
    AppendBase(Parse(a), Parse(b), NonEmpty(Split("/", front)));
  }

  lemma AppendBase(p: Path, q: Path, names: seq<string>)
    requires p.parts == if names == [] then [] else names + [""]
    requires !q.absolute && q.parts != []
    ensures Append(p, q) == Path(p.absolute, names + q.parts)
  {
    assert names != [] ==> (names + [""])[..|names|] == names;
  }

  /** The native path FUSE forms for an entry of a directory names the child element. */
  lemma NativeChild(dir: string, name: string)
    requires Filename(Parse(dir)) != "" || dir == "/"
    requires name != "" && '/' !in name
    ensures Parse(if dir == "/" then "/" + name else dir + "/" + name) == Child(Parse(dir), name)
  {
    PiecesOfJoin([name]);
    assert Join("/", [name]) == name;
    NonEmptySingle(name);
    assert name[0] in name;
    AppendIsNative(dir, name);
    if dir == "/" {
      ParseSlash();
    } else {
      LastPiece(dir);
      LastOfElements(dir);
    }
  }

  lemma LastOfElements(dir: string)
    requires Filename(Parse(dir)) != ""
    ensures dir != "" && dir[|dir| - 1] != '/'
  {
    LastPiece(dir);
    ParseSlash();
  }

  lemma {:induction false} JoinOfEmpties(ps: seq<string>)
    requires |ps| >= 1 && forall i | 0 <= i < |ps| :: '/' !in ps[i]
    ensures NonEmpty(ps) == [] <==> AllSlashes(Join("/", ps))
  {
    var s := Join("/", ps);
    if ps[0] != "" {
      assert s[0] == ps[0][0] && ps[0][0] in ps[0];
    } else if |ps| > 1 {
      JoinOfEmpties(ps[1..]);
      assert s == "/" + Join("/", ps[1..]);
      assert forall i | 0 < i < |s| :: s[i] == Join("/", ps[1..])[i - 1];
      if AllSlashes(s) {
        assert forall i | 0 <= i < |Join("/", ps[1..])| :: Join("/", ps[1..])[i] == s[i + 1];
      }
    }
  }

  /** A native path has no element exactly when it is a run of slashes. */
  lemma NoElements(s: string)
    ensures Parse(s).parts == [] <==> AllSlashes(s)
  {
    JoinOfSplit("/", s);
    SlashPieces(s);
    JoinOfEmpties(Split("/", s));
  }

  // Order

  predicate StrLe(a: string, b: string) {
    a == "" || (b != "" && (a[0] < b[0] || (a[0] == b[0] && StrLe(a[1..], b[1..]))))
  }

  predicate PartsLe(a: seq<string>, b: seq<string>) {
    a == [] || (b != [] && if a[0] == b[0] then PartsLe(a[1..], b[1..]) else StrLe(a[0], b[0]))
  }

  /** `path::compare(...) <= 0`: a missing root directory comes first, then element by
      element, each compared character by character. */
  predicate PathLe(p: Path, q: Path) {
    if p.absolute == q.absolute then PartsLe(p.parts, q.parts) else !p.absolute
  }

  lemma {:induction a, b} StrLeTotal(a: string, b: string)
    ensures StrLe(a, b) || StrLe(b, a)
    ensures StrLe(a, b) && StrLe(b, a) ==> a == b
  {
    if a != "" && b != "" && a[0] == b[0] {
      StrLeTotal(a[1..], b[1..]);
      assert a == [a[0]] + a[1..] && b == [b[0]] + b[1..];
    }
  }

  lemma {:induction false} StrLeTransitive(a: string, b: string, c: string)
    requires StrLe(a, b) && StrLe(b, c)
    ensures StrLe(a, c)
  {
    if a != "" && a[0] == b[0] == c[0] { StrLeTransitive(a[1..], b[1..], c[1..]); }
  }

  lemma {:induction false} PartsLeTotal(a: seq<string>, b: seq<string>)
    ensures PartsLe(a, b) || PartsLe(b, a)
    ensures PartsLe(a, b) && PartsLe(b, a) ==> a == b
  {
    if a != [] && b != [] {
      StrLeTotal(a[0], b[0]);
      if a[0] == b[0] {
        PartsLeTotal(a[1..], b[1..]);
        assert a == [a[0]] + a[1..] && b == [b[0]] + b[1..];
      }
    }
  }

  lemma {:induction false} PartsLeTransitive(a: seq<string>, b: seq<string>, c: seq<string>)
    requires PartsLe(a, b) && PartsLe(b, c)
    ensures PartsLe(a, c)
  {
    if a != [] {
      if a[0] == b[0] == c[0] {
        PartsLeTransitive(a[1..], b[1..], c[1..]);
      } else if a[0] != b[0] && b[0] != c[0] {
        StrLeTransitive(a[0], b[0], c[0]);
        StrLeTotal(a[0], b[0]);
      }
    }
  }

  lemma PathLeTotal(p: Path, q: Path)
    ensures PathLe(p, q) || PathLe(q, p)
    ensures PathLe(p, q) && PathLe(q, p) ==> p == q
  {
    PartsLeTotal(p.parts, q.parts);
  }

  lemma PathLeTransitive(p: Path, q: Path, r: Path)
    requires PathLe(p, q) && PathLe(q, r)
    ensures PathLe(p, r)
  {
    if p.absolute == q.absolute == r.absolute { PartsLeTransitive(p.parts, q.parts, r.parts); }
  }

  /** a and b agree up to n, where a ends or has the smaller character. */
  predicate SmallerAt(a: string, b: string, n: nat) {
    n <= |a| && n <= |b| && a[..n] == b[..n] && (n == |a| || (n < |b| && a[n] < b[n]))
  }

  /** The order of names: a prefix first, otherwise by the first character that differs. */
  lemma {:induction false} StrLeExactly(a: string, b: string)
    ensures StrLe(a, b) <==> exists n :: SmallerAt(a, b, n)
  {
    if a == "" {
      assert SmallerAt(a, b, 0);
    } else if b == "" || a[0] != b[0] {
      if b != "" && a[0] < b[0] { assert SmallerAt(a, b, 0); }
      forall n: nat | 0 < n <= |a| && n <= |b| ensures a[..n] != b[..n] {
        assert a[..n][0] == a[0] && b[..n][0] == b[0];
      }
    } else {
      StrLeExactly(a[1..], b[1..]);
      forall n: nat | SmallerAt(a[1..], b[1..], n) ensures SmallerAt(a, b, n + 1) {
        assert a[..n + 1] == [a[0]] + a[1..][..n] && b[..n + 1] == [b[0]] + b[1..][..n];
      }
      forall n: nat | SmallerAt(a, b, n) && n > 0 ensures SmallerAt(a[1..], b[1..], n - 1) {
        assert a[1..][..n - 1] == a[..n][1..] && b[1..][..n - 1] == b[..n][1..];
      }
    }
  }

  /** a and b agree up to n, where a ends or has the smaller element. */
  predicate SmallerElement(a: seq<string>, b: seq<string>, n: nat) {
    n <= |a| && n <= |b| && a[..n] == b[..n] && (n == |a| || (n < |b| && a[n] != b[n] && StrLe(a[n], b[n])))
  }

  lemma {:induction false} PartsLeExactly(a: seq<string>, b: seq<string>)
    ensures PartsLe(a, b) <==> exists n :: SmallerElement(a, b, n)
  {
    if a == [] {
      assert SmallerElement(a, b, 0);
    } else if b == [] || a[0] != b[0] {
      if b != [] && StrLe(a[0], b[0]) { assert SmallerElement(a, b, 0); }
      forall n: nat | 0 < n <= |a| && n <= |b| ensures a[..n] != b[..n] {
        assert a[..n][0] == a[0] && b[..n][0] == b[0];
      }
    } else {
      PartsLeExactly(a[1..], b[1..]);
      forall n: nat | SmallerElement(a[1..], b[1..], n) ensures SmallerElement(a, b, n + 1) {
        assert a[..n + 1] == [a[0]] + a[1..][..n] && b[..n + 1] == [b[0]] + b[1..][..n];
      }
      forall n: nat | SmallerElement(a, b, n) && n > 0 ensures SmallerElement(a[1..], b[1..], n - 1) {
        assert a[1..][..n - 1] == a[..n][1..] && b[1..][..n - 1] == b[..n][1..];
      }
    }
  }

  /** The order of keys: relative paths first, then by the first element that differs, a
      path before those below it. */
  lemma PathLeExactly(p: Path, q: Path)
    ensures PathLe(p, q) <==>
            (!p.absolute && q.absolute)
            || (p.absolute == q.absolute && exists n :: SmallerElement(p.parts, q.parts, n))
  {
    PartsLeExactly(p.parts, q.parts);
  }

  /** The entries of one directory are ordered by their names. */
  lemma {:induction false} SiblingOrder(d: seq<string>, a: string, b: string)
    ensures PartsLe(d + [a], d + [b]) <==> StrLe(a, b)
  {
    if d == [] {
      StrLeTotal(a, b);
    } else {
      assert (d + [a])[1..] == d[1..] + [a] && (d + [b])[1..] == d[1..] + [b];
      SiblingOrder(d[1..], a, b);
    }
  }
}
