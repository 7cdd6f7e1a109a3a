/** The string splitting of src/string.cpp, and the joining that undoes it. */
module Strings {

  import opened Basics

  predicate OccursAt(d: string, s: string, i: int) {
    0 <= i <= |s| - |d| && s[i..i + |d|] == d
  }

  ghost predicate Free(d: string, s: string) {
    forall i | 0 <= i <= |s| :: !OccursAt(d, s, i)
  }

  /** `std::string::find`: the leftmost occurrence of d at or after `from`. */
  function FindFrom(d: string, s: string, from: nat): (r: Option<nat>)
    requires from <= |s|
    ensures r.Some? ==> from <= r.value && OccursAt(d, s, r.value)
    ensures forall i | from <= i < (if r.Some? then r.value else |s| + 1) :: !OccursAt(d, s, i)
    decreases |s| - from
  {
    if OccursAt(d, s, from) then Some(from)
    else if from == |s| then None
    else FindFrom(d, s, from + 1)
  }

  function Find(d: string, s: string): (r: Option<nat>)
    ensures r.Some? ==> OccursAt(d, s, r.value)
    ensures forall i | 0 <= i < (if r.Some? then r.value else |s| + 1) :: !OccursAt(d, s, i)
  {
    FindFrom(d, s, 0)
  }

  /** The leftmost decomposition of s at the occurrences of d. */
  function Split(d: string, s: string): (r: seq<string>)
    requires d != ""
    ensures |r| >= 1
    decreases |s|
  {
    match Find(d, s)
    case None => [s]
    case Some(i) => [s[..i]] + Split(d, s[i + |d|..])
  }

  function Join(d: string, ps: seq<string>): string
    requires |ps| >= 1
  {
    if |ps| == 1 then ps[0] else ps[0] + d + Join(d, ps[1..])
  }

  /** `split`: repeatedly erases the front of str up to and including the next
      delimiter. An empty delimiter is found at 0 for ever, so callers must not pass one. */
  method SplitLoop(d: string, input: string) returns (result: seq<string>)
    requires d != ""
    ensures result == Split(d, input)
  {
    var str := input;
    result := [];
    var pos := Find(d, str);
    while pos.Some?
      invariant pos == Find(d, str)
      invariant result + Split(d, str) == Split(d, input)
      decreases |str|
    {
      result := result + [str[..pos.value]];
      str := str[pos.value + |d|..];
      pos := Find(d, str);
    }
    result := result + [str];
  }

  lemma FreeBeforeFirst(d: string, s: string, n: nat)
    requires n <= |s| && forall i | 0 <= i < n :: !OccursAt(d, s, i)
    requires d != ""
    ensures Free(d, s[..n])
  {
    forall j | 0 <= j <= n ensures !OccursAt(d, s[..n], j) {
      if OccursAt(d, s[..n], j) {
        assert s[..n][j..j + |d|] == s[j..j + |d|];
        assert OccursAt(d, s, j);
      }
    }
  }

  /** Joining the pieces restores the input, and no piece contains the delimiter. */
  lemma {:induction false} JoinOfSplit(d: string, s: string)
    requires d != ""
    ensures Join(d, Split(d, s)) == s
    ensures forall k | 0 <= k < |Split(d, s)| :: Free(d, Split(d, s)[k])
    decreases |s|
  {
    match Find(d, s) {
      case None =>
      case Some(i) =>
        var rest := s[i + |d|..];
        JoinOfSplit(d, rest);
        FreeBeforeFirst(d, s, i);
        Reassembled(d, s, i);
        JoinCons(d, s[..i], Split(d, rest));
        FreeCons(d, s[..i], Split(d, rest));
    }
  }

  lemma Reassembled(d: string, s: string, i: nat)
    requires OccursAt(d, s, i)
    ensures s[..i] + d + s[i + |d|..] == s
  {
    assert s == s[..i] + s[i..i + |d|] + s[i + |d|..];
  }

  lemma FreeCons(d: string, p: string, ps: seq<string>)
    requires Free(d, p) && forall k | 0 <= k < |ps| :: Free(d, ps[k])
    ensures forall k | 0 <= k < |[p] + ps| :: Free(d, ([p] + ps)[k])
  {
  }

  lemma JoinCons(d: string, p: string, ps: seq<string>)
    requires |ps| >= 1
    ensures Join(d, [p] + ps) == p + d + Join(d, ps)
  {
    assert ([p] + ps)[1..] == ps;
  }

  /** What a list of pieces must satisfy for splitting to find it again: the first
      delimiter seen in each piece followed by d is the one that follows it. */
  ghost predicate Splittable(d: string, ps: seq<string>) {
    && |ps| >= 1
    && (forall k | 0 <= k < |ps| - 1 :: forall i | 0 <= i < |ps[k]| :: !OccursAt(d, ps[k] + d, i))
    && Free(d, ps[|ps| - 1])
  }

  lemma FindInPiece(d: string, p: string, rest: string)
    requires d != ""
    ensures Find(d, p + d + rest) == Some(|p|) <==> forall i | 0 <= i < |p| :: !OccursAt(d, p + d, i)
  {
    var s := p + d + rest;
    assert s[|p|..|p| + |d|] == d;
    assert OccursAt(d, s, |p|);
    forall i | 0 <= i < |p| ensures OccursAt(d, s, i) <==> OccursAt(d, p + d, i) {
      assert s[i..i + |d|] == (p + d)[i..i + |d|];
    }
  }

  /** The head of a joined list is split off exactly when nothing before its end is found. */
  lemma SplitFirst(d: string, p: string, rest: string)
    requires d != ""
    ensures var s := p + d + rest;
            Find(d, s).Some? &&
            if (forall i | 0 <= i < |p| :: !OccursAt(d, p + d, i)) then Split(d, s) == [p] + Split(d, rest)
            else Split(d, s)[0] != p
  {
    var s := p + d + rest;
    FindInPiece(d, p, rest);
    assert OccursAt(d, s, |p|) by { assert s[|p|..|p| + |d|] == d; }
    if Find(d, s) == Some(|p|) {
      assert s[..|p|] == p && s[|p| + |d|..] == rest;
    } else {
      assert Split(d, s)[0] == s[..Find(d, s).value];
    }
  }

  /** Splitting a joined list gives the list back exactly when it is splittable. */
  lemma {:induction false} SplitOfJoin(d: string, ps: seq<string>)
    requires d != "" && |ps| >= 1
    ensures Split(d, Join(d, ps)) == ps <==> Splittable(d, ps)
    decreases |ps|
  {
    if |ps| == 1 {
      assert Free(d, ps[0]) <==> Find(d, ps[0]).None?;
    } else {
      SplitFirst(d, ps[0], Join(d, ps[1..]));
      SplitOfJoin(d, ps[1..]);
      SplittableCons(d, ps);
      assert ps == [ps[0]] + ps[1..];
    }
  }

  lemma SplittableCons(d: string, ps: seq<string>)
    requires |ps| >= 2
    ensures Splittable(d, ps) <==>
            (forall i | 0 <= i < |ps[0]| :: !OccursAt(d, ps[0] + d, i)) && Splittable(d, ps[1..])
  {
    if Splittable(d, ps[1..]) && (forall i | 0 <= i < |ps[0]| :: !OccursAt(d, ps[0] + d, i)) {
      forall k | 0 <= k < |ps| - 1 ensures forall i | 0 <= i < |ps[k]| :: !OccursAt(d, ps[k] + d, i) {
        if k > 0 { assert ps[k] == ps[1..][k - 1]; }
      }
    }
  }

  /** With a one-character delimiter, splittable just means that no piece contains it. */
  lemma SplitOfJoinChar(d: string, ps: seq<string>)
    requires |d| == 1 && |ps| >= 1
    ensures Split(d, Join(d, ps)) == ps <==> forall k | 0 <= k < |ps| :: Free(d, ps[k])
  {
    SplitOfJoin(d, ps);
    forall k | 0 <= k < |ps|
      ensures Free(d, ps[k]) <==> forall i | 0 <= i < |ps[k]| :: !OccursAt(d, ps[k] + d, i)
    {
      forall i | 0 <= i < |ps[k]| ensures OccursAt(d, ps[k], i) <==> OccursAt(d, ps[k] + d, i) {
        assert ps[k][i..i + 1] == (ps[k] + d)[i..i + 1];
      }
    }
  }

  /** For a longer delimiter, pieces free of it need not be found again. */
  lemma LongDelimiterOverlaps()
    ensures var ps := ["a", ""];
            (forall k | 0 <= k < |ps| :: Free("aa", ps[k])) && Split("aa", Join("aa", ps)) != ps
  {
    var ps := ["a", ""];
    assert ps[1..] == [""];
    assert Join("aa", ps) == "aaa";
    assert OccursAt("aa", "aaa", 0);
  }

  lemma {:induction false} JoinConcat(d: string, ps: seq<string>, qs: seq<string>)
    requires |ps| >= 1 && |qs| >= 1
    ensures Join(d, ps + qs) == Join(d, ps) + d + Join(d, qs)
  {
    assert (ps + qs)[0] == ps[0];
    if |ps| == 1 {
      assert (ps + qs)[1..] == qs;
    } else {
      assert (ps + qs)[1..] == ps[1..] + qs;
      JoinConcat(d, ps[1..], qs);
      assert ps[0] + d + (Join(d, ps[1..]) + d + Join(d, qs)) == ps[0] + d + Join(d, ps[1..]) + d + Join(d, qs);
    }
  }

  /** Splitting on a character distributes over a delimiter put between two strings. */
  lemma SplitConcat(d: string, a: string, b: string)
    requires |d| == 1
    ensures Split(d, a + d + b) == Split(d, a) + Split(d, b)
  {
    var ps, qs := Split(d, a), Split(d, b);
    JoinOfSplit(d, a);
    JoinOfSplit(d, b);
    JoinConcat(d, ps, qs);
    SplitOfJoinChar(d, ps + qs);
  }
}
