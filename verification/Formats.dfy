/** Reordering the list of formats by FUSE3_P7ZIP_FORMATS (src/7zip/Format.cpp:72-102). */
module Formats {
  import opened Basics
  import Strings

  /** `id` stands for the shared object behind the pointer. */
  datatype Format = Format(id: nat, name: string)

  const STAR := "*"

  /** `std::find_if` by name. */
  function FindName(fs: seq<Format>, name: string): (r: Option<nat>)
    ensures r.Some? ==> r.value < |fs| && fs[r.value].name == name
    ensures forall i | 0 <= i < (if r.Some? then r.value else |fs|) :: fs[i].name != name
  {
    if fs == [] then None
    else if fs[0].name == name then Some(0)
    else
      match FindName(fs[1..], name)
      case None => None
      case Some(i) => Some(i + 1)
  }

  // The specification

  /** The names that a list of override entries mentions; "*" is not a name. */
  function Mentions(es: seq<string>): multiset<string> {
    if es == [] then multiset{} else
      var front, last := es[..|es| - 1], es[|es| - 1];
      if last == STAR then Mentions(front) else Mentions(front) + multiset{last}
  }

  /** The format of the given name that has r others of this name before it. */
  function Nth(fs: seq<Format>, name: string, r: nat): seq<Format> {
    if fs == [] then []
    else if fs[0].name != name then Nth(fs[1..], name, r)
    else if r == 0 then [fs[0]]
    else Nth(fs[1..], name, r - 1)
  }

  /** What entry k picks: its n-th mention of a name picks the n-th format of that name. */
  function Pick(fs: seq<Format>, es: seq<string>, k: nat): seq<Format>
    requires k < |es|
  {
    if es[k] == STAR then [] else Nth(fs, es[k], Mentions(es[..k])[es[k]])
  }

  function Picks(fs: seq<Format>, es: seq<string>, from: nat, to: nat): seq<Format>
    requires from <= to <= |es|
  {
    if from == to then [] else Picks(fs, es, from, to - 1) + Pick(fs, es, to - 1)
  }

  /** The formats that remain, in their order, when every mention in q takes away the first
      format of its name. */
  function Surplus(fs: seq<Format>, q: multiset<string>): seq<Format> {
    if fs == [] then []
    else if fs[0].name in q then Surplus(fs[1..], q - multiset{fs[0].name})
    else [fs[0]] + Surplus(fs[1..], q)
  }

  /** The position of the first "*", or the end. */
  function FirstStar(es: seq<string>): (r: nat)
    ensures r <= |es| && (r < |es| ==> es[r] == STAR)
    ensures forall i | 0 <= i < r :: es[i] != STAR
  {
    if es == [] || es[0] == STAR then 0 else FirstStar(es[1..]) + 1
  }

  function Head(fs: seq<Format>, es: seq<string>): seq<Format> { Picks(fs, es, 0, FirstStar(es)) }

  function Rest(fs: seq<Format>, es: seq<string>): seq<Format> { Surplus(fs, Mentions(es)) }

  function Tail(fs: seq<Format>, es: seq<string>): seq<Format> { Picks(fs, es, FirstStar(es), |es|) }

  /** The order in which formats are tried under the override es. */
  function Reorder(fs: seq<Format>, es: seq<string>): seq<Format> {
    Head(fs, es) + Rest(fs, es) + Tail(fs, es)
  }

  // The code

  /** fs without its first format of the given name, which is `Nth(fs, name, 0)`. */
  function Without(fs: seq<Format>, name: string): seq<Format> {
    if fs == [] then []
    else if fs[0].name == name then fs[1..]
    else [fs[0]] + Without(fs[1..], name)
  }

  lemma {:induction false} FoundFirst(fs: seq<Format>, name: string)
    ensures Nth(fs, name, 0) == var i := FindName(fs, name); if i.Some? then [fs[i.value]] else []
  {
    if fs == [] || fs[0].name == name {
    } else {
      FoundFirst(fs[1..], name);
    }
  }

  lemma EraseNext<T>(xs: seq<T>, i: nat)
    requires 0 < i < |xs|
    ensures [xs[0]] + (xs[1..][..i - 1] + xs[1..][i..]) == xs[..i] + xs[i + 1..]
  {
    assert [xs[0]] + xs[1..][..i - 1] == xs[..i];
    assert xs[1..][i..] == xs[i + 1..];
  }

  /** Erasing the first format of that name by position is taking it out. */
  lemma {:induction false} ErasedFirst(fs: seq<Format>, name: string, i: nat)
    requires i < |fs| && fs[i].name == name && forall j | 0 <= j < i :: fs[j].name != name
    ensures Without(fs, name) == fs[..i] + fs[i + 1..]
  {
    if i == 0 {
      assert fs[..0] + fs[1..] == fs[1..];
    } else {
      assert forall j | 0 <= j < i - 1 :: fs[1..][j].name != name;
      ErasedFirst(fs[1..], name, i - 1);
      EraseNext(fs, i);
    }
  }

  lemma {:induction false} NothingErased(fs: seq<Format>, name: string)
    requires forall j | 0 <= j < |fs| :: fs[j].name != name
    ensures Without(fs, name) == fs
  {
    if fs == [] {
    } else {
      assert forall j | 0 <= j < |fs| - 1 :: fs[1..][j].name != name;
      NothingErased(fs[1..], name);
    }
  }

  lemma {:induction false} TakenApart(fs: seq<Format>, name: string)
    ensures multiset(Nth(fs, name, 0)) + multiset(Without(fs, name)) == multiset(fs)
  {
    if fs == [] {
    } else {
      assert fs == [fs[0]] + fs[1..];
      if fs[0].name != name { TakenApart(fs[1..], name); }
    }
  }

  lemma QuotaCommutes(q: multiset<string>, x: string, y: string)
    requires x in q
    ensures q + multiset{y} - multiset{x} == q - multiset{x} + multiset{y}
  {
  }

  /** One more mention of a name takes the first format of that name from the remainder. */
  lemma {:induction false} SurplusStep(fs: seq<Format>, q: multiset<string>, name: string)
    ensures Surplus(fs, q + multiset{name}) == Without(Surplus(fs, q), name)
  {
    if fs == [] {
    } else {
      var f := fs[0];
      if f.name in q {
        SurplusStep(fs[1..], q - multiset{f.name}, name);
        QuotaCommutes(q, f.name, name);
      } else if f.name == name {
        assert q + multiset{name} - multiset{name} == q;
      } else {
        SurplusStep(fs[1..], q, name);
      }
    }
  }

  /** That format is the one whose rank is the number of earlier mentions. */
  lemma {:induction false} NthOfSurplus(fs: seq<Format>, q: multiset<string>, name: string)
    ensures Nth(Surplus(fs, q), name, 0) == Nth(fs, name, q[name])
  {
    if fs == [] {
    } else {
      if fs[0].name in q {
        NthOfSurplus(fs[1..], q - multiset{fs[0].name}, name);
      } else if fs[0].name != name {
        NthOfSurplus(fs[1..], q, name);
      }
    }
  }

  lemma MentionsNext(es: seq<string>, k: nat)
    requires k < |es|
    ensures Mentions(es[..k + 1]) == if es[k] == STAR then Mentions(es[..k]) else Mentions(es[..k]) + multiset{es[k]}
  {
    assert es[..k + 1][..k] == es[..k];
  }

  /** What remains of the formats after k entries. */
  function Remaining(fs: seq<Format>, es: seq<string>, k: nat): seq<Format>
    requires k <= |es|
  {
    Surplus(fs, Mentions(es[..k]))
  }

  /** One entry: its pick is the first format of that name that remains, and goes. */
  lemma Advance(fs: seq<Format>, es: seq<string>, k: nat)
    requires k < |es|
    ensures Remaining(fs, es, k + 1) ==
            if es[k] == STAR then Remaining(fs, es, k) else Without(Remaining(fs, es, k), es[k])
    ensures Pick(fs, es, k) == if es[k] == STAR then [] else Nth(Remaining(fs, es, k), es[k], 0)
  {
    MentionsNext(es, k);
    if es[k] != STAR {
      SurplusStep(fs, Mentions(es[..k]), es[k]);
      NthOfSurplus(fs, Mentions(es[..k]), es[k]);
    }
  }

  /** What the entries before the first "*" have picked after k entries, and the others. */
  function HeadSoFar(fs: seq<Format>, es: seq<string>, k: nat): seq<Format>
    requires k <= |es|
  {
    Picks(fs, es, 0, if k <= FirstStar(es) then k else FirstStar(es))
  }

  function TailSoFar(fs: seq<Format>, es: seq<string>, k: nat): seq<Format>
    requires k <= |es|
  {
    if k <= FirstStar(es) then [] else Picks(fs, es, FirstStar(es), k)
  }

  lemma PicksAdvance(fs: seq<Format>, es: seq<string>, k: nat)
    requires k < |es|
    ensures HeadSoFar(fs, es, k + 1) == if k < FirstStar(es) then HeadSoFar(fs, es, k) + Pick(fs, es, k)
                                        else HeadSoFar(fs, es, k)
    ensures TailSoFar(fs, es, k + 1) == if k < FirstStar(es) then TailSoFar(fs, es, k)
                                        else TailSoFar(fs, es, k) + Pick(fs, es, k)
  {
  }

  lemma FirstTurn(fs: seq<Format>, es: seq<string>)
    ensures Remaining(fs, es, 0) == fs && HeadSoFar(fs, es, 0) == [] && TailSoFar(fs, es, 0) == []
  {
    SurplusOfNothing(fs);
    assert es[..0] == [];
  }

  lemma LastTurn(fs: seq<Format>, es: seq<string>)
    ensures Remaining(fs, es, |es|) == Rest(fs, es)
    ensures HeadSoFar(fs, es, |es|) == Head(fs, es) && TailSoFar(fs, es, |es|) == Tail(fs, es)
  {
    assert es[..|es|] == es;
  }

  /** A "*" changes nothing but the list that the following entries go to. */
  lemma StarTurn(fs: seq<Format>, es: seq<string>, k: nat)
    requires k < |es| && es[k] == STAR
    ensures FirstStar(es) < k + 1
    ensures Remaining(fs, es, k + 1) == Remaining(fs, es, k)
    ensures HeadSoFar(fs, es, k + 1) == HeadSoFar(fs, es, k) && TailSoFar(fs, es, k + 1) == TailSoFar(fs, es, k)
  {
    MentionsNext(es, k);
    PicksAdvance(fs, es, k);
  }

  /** Any other entry moves the first remaining format of its name to that list. */
  lemma NameTurn(fs: seq<Format>, es: seq<string>, k: nat)
    requires k < |es| && es[k] != STAR
    ensures FirstStar(es) < k + 1 <==> FirstStar(es) < k
    ensures Remaining(fs, es, k + 1) == Without(Remaining(fs, es, k), es[k])
    ensures var picked := Nth(Remaining(fs, es, k), es[k], 0);
            if FirstStar(es) < k then
              HeadSoFar(fs, es, k + 1) == HeadSoFar(fs, es, k)
              && TailSoFar(fs, es, k + 1) == TailSoFar(fs, es, k) + picked
            else
              HeadSoFar(fs, es, k + 1) == HeadSoFar(fs, es, k) + picked
              && TailSoFar(fs, es, k + 1) == TailSoFar(fs, es, k)
  {
    Advance(fs, es, k);
    PicksAdvance(fs, es, k);
  }

  class ImplLib {
    var formats: seq<Format>

    constructor (available: seq<Format>)
      ensures formats == available
    {
      formats := available;
    }

    /** `fill_formats` after the library has listed its formats; `order` is the
        environment variable, if it is set. */
    method FillFormats(order: Option<string>)
      modifies this
      ensures formats == if order.Some? then Reorder(old(formats), Strings.Split(":", order.value)) else old(formats)
    {
      if order.Some? {
        var entries := Strings.SplitLoop(":", order.value);
        var head, tail := MoveOut(entries);
        formats := head + formats;
        formats := formats + tail;
      }
    }

    /** The loop over the entries, with `current` switching from head to tail. */
    method MoveOut(entries: seq<string>) returns (head: seq<Format>, tail: seq<Format>)
      modifies this
      ensures head == Head(old(formats), entries) && tail == Tail(old(formats), entries)
      ensures formats == Rest(old(formats), entries)
    {
      ghost var fs := formats;
      var toTail := false;
      head, tail := [], [];
      var k := 0;
      FirstTurn(fs, entries);
      while k < |entries|
        invariant 0 <= k <= |entries| && (toTail <==> FirstStar(entries) < k)
        invariant formats == Remaining(fs, entries, k)
        invariant head == HeadSoFar(fs, entries, k) && tail == TailSoFar(fs, entries, k)
      {
        if entries[k] == STAR {
          StarTurn(fs, entries, k);
          toTail := true;
        } else {
          NameTurn(fs, entries, k);
          var picked := TakeOut(entries[k]);
          if toTail { tail := tail + picked; } else { head := head + picked; }
        }
        k := k + 1;
      }
      LastTurn(fs, entries);
    }

    /** Find the first format of this name and erase it from the list. */
    method TakeOut(name: string) returns (picked: seq<Format>)
      modifies this
      ensures picked == Nth(old(formats), name, 0) && formats == Without(old(formats), name)
    {
      var f := FindName(formats, name);
      FoundFirst(formats, name);
      picked := [];
      if f.None? {
        NothingErased(formats, name);
      } else {
        ErasedFirst(formats, name, f.value);
        picked := [formats[f.value]];
        formats := formats[..f.value] + formats[f.value + 1..];
      }
    }
  }

  // Permutation and stability

  /** Together, xs and ys have the elements of fs. */
  ghost predicate Shares(fs: seq<Format>, xs: seq<Format>, ys: seq<Format>) {
    multiset(xs) + multiset(ys) == multiset(fs)
  }

  lemma {:induction false} PicksAndSurplus(fs: seq<Format>, es: seq<string>, k: nat)
    requires k <= |es|
    ensures Shares(fs, Picks(fs, es, 0, k), Remaining(fs, es, k))
  {
    if k == 0 {
      FirstTurn(fs, es);
    } else {
      PicksAndSurplus(fs, es, k - 1);
      PickTaken(fs, es, k - 1);
      PickMoves(fs, Picks(fs, es, 0, k - 1), Pick(fs, es, k - 1), Remaining(fs, es, k - 1), Remaining(fs, es, k));
    }
  }

  lemma PickTaken(fs: seq<Format>, es: seq<string>, k: nat)
    requires k < |es|
    ensures Shares(Remaining(fs, es, k), Pick(fs, es, k), Remaining(fs, es, k + 1))
  {
    Advance(fs, es, k);
    TakenApart(Remaining(fs, es, k), es[k]);
  }

  lemma PickMoves(fs: seq<Format>, p: seq<Format>, x: seq<Format>, before: seq<Format>, after: seq<Format>)
    requires Shares(fs, p, before) && Shares(before, x, after)
    ensures Shares(fs, p + x, after)
  {
  }

  lemma {:induction false} SurplusOfNothing(fs: seq<Format>)
    ensures Surplus(fs, multiset{}) == fs
  {
    if fs == [] {
    } else {
      SurplusOfNothing(fs[1..]);
    }
  }

  lemma {:induction false} PicksConcat(fs: seq<Format>, es: seq<string>, a: nat, b: nat, c: nat)
    requires a <= b <= c <= |es|
    ensures Picks(fs, es, a, c) == Picks(fs, es, a, b) + Picks(fs, es, b, c)
    decreases c
  {
    if b < c { PicksConcat(fs, es, a, b, c - 1); }
  }

  /** For any formats and any override the result is a permutation of the formats. */
  lemma Permutation(fs: seq<Format>, es: seq<string>)
    ensures multiset(Reorder(fs, es)) == multiset(fs)
  {
    PicksAndSurplus(fs, es, |es|);
    PicksConcat(fs, es, 0, FirstStar(es), |es|);
    assert es[..|es|] == es;
  }

  /** xs can be got from ys by leaving elements out. */
  predicate IsSubsequence(xs: seq<Format>, ys: seq<Format>) {
    xs == [] || (ys != [] && if xs[0] == ys[0] then IsSubsequence(xs[1..], ys[1..]) else IsSubsequence(xs, ys[1..]))
  }

  lemma {:induction false} SubsequenceWeaken(xs: seq<Format>, ys: seq<Format>)
    requires ys != [] && IsSubsequence(xs, ys[1..])
    ensures IsSubsequence(xs, ys)
    decreases |ys|, 0
  {
    if xs != [] && xs[0] == ys[0] { SubsequenceTail(xs, ys[1..]); }
  }

  lemma {:induction false} SubsequenceTail(xs: seq<Format>, ys: seq<Format>)
    requires xs != [] && IsSubsequence(xs, ys)
    ensures IsSubsequence(xs[1..], ys)
    decreases |ys|, 1
  {
    if xs[0] == ys[0] {
      SubsequenceWeaken(xs[1..], ys);
    } else {
      SubsequenceTail(xs, ys[1..]);
      SubsequenceWeaken(xs[1..], ys);
    }
  }

  /** What is not picked keeps its relative order. */
  lemma {:induction false} Stable(fs: seq<Format>, q: multiset<string>)
    ensures IsSubsequence(Surplus(fs, q), fs)
  {
    if fs == [] {
    } else {
      if fs[0].name in q {
        Stable(fs[1..], q - multiset{fs[0].name});
        SubsequenceWeaken(Surplus(fs[1..], q - multiset{fs[0].name}), fs);
      } else {
        Stable(fs[1..], q);
        assert ([fs[0]] + Surplus(fs[1..], q))[1..] == Surplus(fs[1..], q);
      }
    }
  }
}
