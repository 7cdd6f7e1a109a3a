/** Applying the same format override twice. */
module FormatsTwice {
  import opened Basics
  import opened Formats

  /** The formats of one name, in their order. */
  function OfName(fs: seq<Format>, name: string): seq<Format> {
    if fs == [] then []
    else if fs[0].name == name then [fs[0]] + OfName(fs[1..], name)
    else OfName(fs[1..], name)
  }

  lemma {:induction false} OfNameConcat(xs: seq<Format>, ys: seq<Format>, name: string)
    ensures OfName(xs + ys, name) == OfName(xs, name) + OfName(ys, name)
  {
    if xs == [] {
      assert xs + ys == ys;
    } else {
      assert (xs + ys)[1..] == xs[1..] + ys;
      OfNameConcat(xs[1..], ys, name);
    }
  }

  lemma {:induction false} NthIsOfName(fs: seq<Format>, name: string, r: nat)
    ensures Nth(fs, name, r) == if r < |OfName(fs, name)| then [OfName(fs, name)[r]] else []
    ensures forall f | f in Nth(fs, name, r) :: f.name == name
  {
    if fs == [] {
    } else {
      if fs[0].name != name { NthIsOfName(fs[1..], name, r); }
      else if r > 0 { NthIsOfName(fs[1..], name, r - 1); }
    }
  }

  lemma DropAfter<T>(x: T, xs: seq<T>, n: nat)
    ensures ([x] + xs)[Min(n + 1, |xs| + 1)..] == xs[Min(n, |xs|)..]
  {
  }

  lemma {:induction false} OfNameSurplus(fs: seq<Format>, q: multiset<string>, name: string)
    ensures OfName(Surplus(fs, q), name) == OfName(fs, name)[Min(q[name], |OfName(fs, name)|)..]
  {
    if fs == [] {
    } else if fs[0].name in q {
      OfNameSurplus(fs[1..], q - multiset{fs[0].name}, name);
      if fs[0].name == name { DropAfter(fs[0], OfName(fs[1..], name), q[name] - 1); }
    } else {
      OfNameSurplus(fs[1..], q, name);
    }
  }

  /** How often the first k entries mention a name. */
  function Mentioned(es: seq<string>, k: nat, name: string): nat
    requires k <= |es|
  {
    Mentions(es[..k])[name]
  }

  /** Elements i to j, as far as there are any. */
  function Window(ns: seq<Format>, i: nat, j: nat): seq<Format>
    requires i <= j
  {
    ns[Min(i, |ns|)..Min(j, |ns|)]
  }

  lemma EmptyWindow(ns: seq<Format>, i: nat)
    ensures Window(ns, i, i) == []
  {
  }

  lemma WindowsJoin(ns: seq<Format>, i: nat, j: nat, k: nat)
    requires i <= j <= k
    ensures Window(ns, i, j) + Window(ns, j, k) == Window(ns, i, k)
  {
  }

  lemma OfNamePick(fs: seq<Format>, es: seq<string>, k: nat, name: string)
    requires k < |es|
    ensures Mentioned(es, k, name) <= Mentioned(es, k + 1, name)
    ensures OfName(Pick(fs, es, k), name)
         == Window(OfName(fs, name), Mentioned(es, k, name), Mentioned(es, k + 1, name))
  {
    MentionsNext(es, k);
    if es[k] != STAR { NthIsOfName(fs, es[k], Mentioned(es, k, es[k])); }
  }

  lemma MentionedNext(es: seq<string>, k: nat, name: string)
    requires k < |es|
    ensures Mentioned(es, k, name) <= Mentioned(es, k + 1, name)
  {
    MentionsNext(es, k);
  }

  lemma {:induction false} MentionedGrows(es: seq<string>, a: nat, b: nat, name: string)
    requires a <= b <= |es|
    ensures Mentioned(es, a, name) <= Mentioned(es, b, name)
    decreases b
  {
    if a == b {
    } else {
      MentionedGrows(es, a, b - 1, name);
      MentionedNext(es, b - 1, name);
    }
  }

  /** The formats of one name between the mentions before entry a and before entry b. */
  function Between(fs: seq<Format>, es: seq<string>, a: nat, b: nat, name: string): seq<Format>
    requires a <= b <= |es|
  {
    MentionedGrows(es, a, b, name);
    Window(OfName(fs, name), Mentioned(es, a, name), Mentioned(es, b, name))
  }

  lemma BetweenGrows(fs: seq<Format>, es: seq<string>, a: nat, b: nat, name: string)
    requires a < b <= |es|
    ensures Between(fs, es, a, b, name) == Between(fs, es, a, b - 1, name) + OfName(Pick(fs, es, b - 1), name)
  {
    OfNamePick(fs, es, b - 1, name);
    MentionedGrows(es, a, b - 1, name);
    WindowsJoin(OfName(fs, name), Mentioned(es, a, name), Mentioned(es, b - 1, name), Mentioned(es, b, name));
  }

  lemma BetweenNothing(fs: seq<Format>, es: seq<string>, a: nat, name: string)
    requires a <= |es|
    ensures Between(fs, es, a, a, name) == []
  {
    EmptyWindow(OfName(fs, name), Mentioned(es, a, name));
  }

  lemma PickedNext(fs: seq<Format>, es: seq<string>, a: nat, b: nat, name: string)
    requires a < b <= |es| && OfName(Picks(fs, es, a, b - 1), name) == Between(fs, es, a, b - 1, name)
    ensures OfName(Picks(fs, es, a, b), name) == Between(fs, es, a, b, name)
  {
    BetweenGrows(fs, es, a, b, name);
    OfNameConcat(Picks(fs, es, a, b - 1), Pick(fs, es, b - 1), name);
  }

  /** Of each name, entries a to b pick the formats from the a-th mention to the b-th. */
  lemma {:induction false} OfNamePicks(fs: seq<Format>, es: seq<string>, a: nat, b: nat, name: string)
    requires a <= b <= |es|
    ensures OfName(Picks(fs, es, a, b), name) == Between(fs, es, a, b, name)
    decreases b
  {
    if a == b {
      BetweenNothing(fs, es, a, name);
    } else {
      OfNamePicks(fs, es, a, b - 1, name);
      PickedNext(fs, es, a, b, name);
    }
  }

  /** Mentions of a name before the first "*", and in all. */
  function Early(es: seq<string>, name: string): nat { Mentioned(es, FirstStar(es), name) }

  function All(es: seq<string>, name: string): nat { Mentions(es)[name] }

  /** Where the formats of one name go: the early mentions take the first ones to the
      front, the late ones the next to the back. */
  lemma OfNameReorder(fs: seq<Format>, es: seq<string>, name: string)
    ensures Early(es, name) <= All(es, name)
    ensures var ns := OfName(fs, name);
            var h, m := Min(Early(es, name), |ns|), Min(All(es, name), |ns|);
            OfName(Reorder(fs, es), name) == ns[..h] + ns[m..] + ns[h..m]
  {
    var star := FirstStar(es);
    assert es[..|es|] == es && es[..0] == [];
    MentionedGrows(es, star, |es|, name);
    OfNamePicks(fs, es, 0, star, name);
    OfNamePicks(fs, es, star, |es|, name);
    OfNameSurplus(fs, Mentions(es), name);
    OfNameConcat(Head(fs, es), Rest(fs, es), name);
    OfNameConcat(Head(fs, es) + Rest(fs, es), Tail(fs, es), name);
  }

  /** A name mentioned after the "*" has no formats left over. */
  ghost predicate Settled(fs: seq<Format>, es: seq<string>, name: string) {
    Early(es, name) == All(es, name) || |OfName(fs, name)| <= All(es, name)
  }

  // Sufficiency

  lemma NothingMoved<T>(xs: seq<T>, h: nat, m: nat)
    requires h <= m <= |xs| && (h == m || m == |xs|)
    ensures xs[..h] + xs[m..] + xs[h..m] == xs
  {
  }

  lemma SettledKeepsOrder(fs: seq<Format>, es: seq<string>, name: string)
    requires Settled(fs, es, name)
    ensures OfName(Reorder(fs, es), name) == OfName(fs, name)
  {
    OfNameReorder(fs, es, name);
    var ns := OfName(fs, name);
    NothingMoved(ns, Min(Early(es, name), |ns|), Min(All(es, name), |ns|));
  }

  /** Picks only depend on the order of the formats within each name. */
  lemma {:induction false} SamePicks(fs: seq<Format>, gs: seq<Format>, es: seq<string>, a: nat, b: nat)
    requires a <= b <= |es| && forall name :: OfName(fs, name) == OfName(gs, name)
    ensures Picks(fs, es, a, b) == Picks(gs, es, a, b)
    decreases b
  {
    if a < b {
      SamePicks(fs, gs, es, a, b - 1);
      var r := Mentioned(es, b - 1, es[b - 1]);
      NthIsOfName(fs, es[b - 1], r);
      NthIsOfName(gs, es[b - 1], r);
      assert OfName(fs, es[b - 1]) == OfName(gs, es[b - 1]);
    }
  }

  /** The quota left after going through xs. */
  function Left(xs: seq<Format>, q: multiset<string>): multiset<string> {
    if xs == [] then q else Left(xs[1..], q - multiset{xs[0].name})
  }

  lemma {:induction false} LeftCount(xs: seq<Format>, q: multiset<string>, name: string)
    ensures Left(xs, q)[name] == if q[name] < |OfName(xs, name)| then 0 else q[name] - |OfName(xs, name)|
  {
    if xs == [] {
    } else {
      LeftCount(xs[1..], q - multiset{xs[0].name}, name);
    }
  }

  lemma {:induction false} SurplusConcat(xs: seq<Format>, ys: seq<Format>, q: multiset<string>)
    ensures Surplus(xs + ys, q) == Surplus(xs, q) + Surplus(ys, Left(xs, q))
  {
    if xs == [] {
      assert xs + ys == ys;
    } else {
      assert (xs + ys)[1..] == xs[1..] + ys;
      if xs[0].name in q {
        SurplusConcat(xs[1..], ys, q - multiset{xs[0].name});
      } else {
        assert q - multiset{xs[0].name} == q;
        SurplusConcat(xs[1..], ys, q);
      }
    }
  }

  lemma {:induction false} AllConsumed(xs: seq<Format>, q: multiset<string>)
    requires forall name :: |OfName(xs, name)| <= q[name]
    ensures Surplus(xs, q) == []
  {
    if xs == [] {
    } else {
      var n := xs[0].name;
      assert |OfName(xs, n)| <= q[n];
      forall name ensures |OfName(xs[1..], name)| <= (q - multiset{n})[name] {
        assert |OfName(xs, name)| <= q[name];
      }
      AllConsumed(xs[1..], q - multiset{n});
    }
  }

  lemma {:induction false} NoneConsumed(xs: seq<Format>, q: multiset<string>)
    requires forall name :: |OfName(xs, name)| == 0 || q[name] == 0
    ensures Surplus(xs, q) == xs
  {
    if xs == [] {
    } else {
      assert |OfName(xs, xs[0].name)| == 0 || q[xs[0].name] == 0;
      forall name ensures |OfName(xs[1..], name)| == 0 || q[name] == 0 {
        assert |OfName(xs, name)| == 0 || q[name] == 0;
      }
      NoneConsumed(xs[1..], q);
    }
  }

  lemma RestAgain(fs: seq<Format>, es: seq<string>)
    requires forall name :: Settled(fs, es, name)
    ensures Rest(Reorder(fs, es), es) == Rest(fs, es)
  {
    var head, rest, tail, q := Head(fs, es), Rest(fs, es), Tail(fs, es), Mentions(es);
    var q1 := Left(head, q);
    var q2 := Left(rest, q1);
    SurplusConcat(head + rest, tail, q);
    SurplusConcat(head, rest, q);
    LeftConcat(head, rest, q);
    forall name
      ensures |OfName(head, name)| <= q[name]
      ensures |OfName(rest, name)| == 0 || q1[name] == 0
      ensures |OfName(tail, name)| <= q2[name]
    {
      Quotas(fs, es, name);
    }
    AllConsumed(head, q);
    NoneConsumed(rest, q1);
    AllConsumed(tail, q2);
  }

  lemma {:induction false} LeftConcat(xs: seq<Format>, ys: seq<Format>, q: multiset<string>)
    ensures Left(xs + ys, q) == Left(ys, Left(xs, q))
  {
    if xs == [] {
      assert xs + ys == ys;
    } else {
      assert (xs + ys)[1..] == xs[1..] + ys;
      LeftConcat(xs[1..], ys, q - multiset{xs[0].name});
    }
  }

  /** How the formats of one name are shared out between head, rest and tail. */
  lemma ShareOfName(fs: seq<Format>, es: seq<string>, name: string)
    ensures Early(es, name) <= All(es, name)
    ensures var n := |OfName(fs, name)|;
            && |OfName(Head(fs, es), name)| == Min(Early(es, name), n)
            && |OfName(Rest(fs, es), name)| == n - Min(All(es, name), n)
            && |OfName(Tail(fs, es), name)| == Min(All(es, name), n) - Min(Early(es, name), n)
  {
    var star := FirstStar(es);
    assert es[..|es|] == es && es[..0] == [];
    MentionedGrows(es, star, |es|, name);
    OfNamePicks(fs, es, 0, star, name);
    OfNamePicks(fs, es, star, |es|, name);
    OfNameSurplus(fs, Mentions(es), name);
  }

  lemma Quotas(fs: seq<Format>, es: seq<string>, name: string)
    requires Settled(fs, es, name)
    ensures var q1 := Left(Head(fs, es), Mentions(es));
            && |OfName(Head(fs, es), name)| <= Mentions(es)[name]
            && (|OfName(Rest(fs, es), name)| == 0 || q1[name] == 0)
            && |OfName(Tail(fs, es), name)| <= Left(Rest(fs, es), q1)[name]
  {
    ShareOfName(fs, es, name);
    LeftCount(Head(fs, es), Mentions(es), name);
    LeftCount(Rest(fs, es), Left(Head(fs, es), Mentions(es)), name);
  }

  lemma SettledIsIdempotent(fs: seq<Format>, es: seq<string>)
    requires forall name :: Settled(fs, es, name)
    ensures Reorder(Reorder(fs, es), es) == Reorder(fs, es)
  {
    var gs := Reorder(fs, es);
    forall name ensures OfName(gs, name) == OfName(fs, name) { SettledKeepsOrder(fs, es, name); }
    SamePicks(gs, fs, es, 0, FirstStar(es));
    SamePicks(gs, fs, es, FirstStar(es), |es|);
    RestAgain(fs, es);
  }

  // Necessity

  lemma {:induction false} OfNameDistinct(fs: seq<Format>, name: string)
    requires Distinct(fs)
    ensures Distinct(OfName(fs, name)) && forall f | f in OfName(fs, name) :: f in fs
  {
    if fs == [] {
    } else {
      OfNameDistinct(fs[1..], name);
      assert fs[0] !in fs[1..];
    }
  }

  /** Taking h..m to the back a second time changes a list with elements left over. */
  lemma RotatedTwice(ns: seq<Format>, h: nat, m: nat)
    requires h < m < |ns| && Distinct(ns)
    ensures var r := ns[..h] + ns[m..] + ns[h..m];
            r[..h] + r[m..] + r[h..m] != r
  {
    var r := ns[..h] + ns[m..] + ns[h..m];
    assert r[h] == ns[m];
    assert (r[..h] + r[m..] + r[h..m])[h] == r[m];
    assert r[m] == if 2 * m - h < |ns| then ns[2 * m - h] else ns[2 * m - |ns|];
  }

  /** For distinct formats, the override is idempotent exactly when every name mentioned
      after the "*" has no formats left over. */
  lemma IdempotentExactly(fs: seq<Format>, es: seq<string>)
    requires Distinct(fs)
    ensures Reorder(Reorder(fs, es), es) == Reorder(fs, es) <==> forall name :: Settled(fs, es, name)
  {
    if forall name :: Settled(fs, es, name) {
      SettledIsIdempotent(fs, es);
    } else {
      var name :| !Settled(fs, es, name);
      OfNameReorder(fs, es, name);
      OfNameReorder(Reorder(fs, es), es, name);
      OfNameDistinct(fs, name);
      RotatedTwice(OfName(fs, name), Early(es, name), All(es, name));
    }
  }

  lemma {:induction false} AtMostOne(fs: seq<Format>, name: string)
    requires forall i, j | 0 <= i < j < |fs| :: fs[i].name != fs[j].name
    ensures |OfName(fs, name)| <= 1
    ensures (forall f | f in fs :: f.name != name) ==> OfName(fs, name) == []
  {
    if fs == [] {
    } else {
      AtMostOne(fs[1..], name);
      assert forall f | f in fs[1..] :: f in fs;
      if fs[0].name == name {
        assert forall f | f in fs[1..] :: f.name != name;
      }
    }
  }

  /** With distinct names the override is always idempotent. */
  lemma DistinctNamesIdempotent(fs: seq<Format>, es: seq<string>)
    requires forall i, j | 0 <= i < j < |fs| :: fs[i].name != fs[j].name
    ensures Reorder(Reorder(fs, es), es) == Reorder(fs, es)
  {
    forall name ensures Settled(fs, es, name) {
      AtMostOne(fs, name);
      OfNameReorder(fs, es, name);
    }
    SettledIsIdempotent(fs, es);
  }

  /** Two formats of one name, the first of which is sent to the back, change places again. */
  lemma TwoOfOneName(x: Format, y: Format)
    requires x != y && x.name == y.name != STAR
    ensures Reorder(Reorder([x, y], [STAR, x.name]), [STAR, x.name]) != Reorder([x, y], [STAR, x.name])
  {
    var fs, es := [x, y], [STAR, x.name];
    IdempotentExactly(fs, es);
    assert fs[1..] == [y] && [y][1..] == [];
    assert |OfName([y], x.name)| == 1 && |OfName(fs, x.name)| == 2;
    MentionedOnce(x.name);
    assert !Settled(fs, es, x.name);
  }

  lemma MentionedOnce(name: string)
    requires name != STAR
    ensures Early([STAR, name], name) == 0 && All([STAR, name], name) == 1
  {
    var es := [STAR, name];
    MentionsNext(es, 0);
    MentionsNext(es, 1);
    assert es[..0] == [] && es[..2] == es && FirstStar(es) == 0;
  }
}
