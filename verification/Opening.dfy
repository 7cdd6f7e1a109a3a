/** Trying the formats in order (src/7zip/Archive.cpp:34-50), and how the order given by
    the override matters. */
module Opening {
  import opened Basics
  import opened ComHeaps
  import opened ComObjects
  import opened Formats

  datatype Outcome = Opened(format: Format) | CreateFailed(format: Format) | NoFormat

  /** `accepted` are the formats whose handler opens the file, `broken` those for which the
      library cannot create a handler, which ends the search with an exception. */
  function Choose(fs: seq<Format>, accepted: set<Format>, broken: set<Format>): Outcome {
    if fs == [] then NoFormat
    else if fs[0] in broken then CreateFailed(fs[0])
    else if fs[0] in accepted then Opened(fs[0])
    else Choose(fs[1..], accepted, broken)
  }

  // What the order decides

  /** The outcome is decided by the first format that is accepted or broken. */
  lemma {:induction false} ChooseIsFirst(fs: seq<Format>, accepted: set<Format>, broken: set<Format>, i: nat)
    requires i < |fs| && (fs[i] in accepted || fs[i] in broken)
    requires forall j | 0 <= j < i :: fs[j] !in accepted && fs[j] !in broken
    ensures Choose(fs, accepted, broken) == if fs[i] in broken then CreateFailed(fs[i]) else Opened(fs[i])
  {
    if i > 0 { ChooseIsFirst(fs[1..], accepted, broken, i - 1); }
  }

  lemma {:induction false} ChooseConcat(xs: seq<Format>, ys: seq<Format>, accepted: set<Format>, broken: set<Format>)
    ensures Choose(xs + ys, accepted, broken) ==
            if Choose(xs, accepted, broken) != NoFormat then Choose(xs, accepted, broken)
            else Choose(ys, accepted, broken)
  {
    if xs == [] {
      assert xs + ys == ys;
    } else {
      assert (xs + ys)[1..] == xs[1..] + ys;
      ChooseConcat(xs[1..], ys, accepted, broken);
    }
  }

  /** Under an override a head format decides whenever there is one that can, a tail format
      only if nothing before it does. */
  lemma OverridePriority(fs: seq<Format>, es: seq<string>, accepted: set<Format>, broken: set<Format>)
    ensures var head, rest := Choose(Head(fs, es), accepted, broken), Choose(Rest(fs, es), accepted, broken);
            Choose(Reorder(fs, es), accepted, broken) ==
            if head != NoFormat then head else if rest != NoFormat then rest else Choose(Tail(fs, es), accepted, broken)
  {
    ChooseConcat(Head(fs, es) + Rest(fs, es), Tail(fs, es), accepted, broken);
    ChooseConcat(Head(fs, es), Rest(fs, es), accepted, broken);
  }

  lemma SameFormats(fs: seq<Format>, es: seq<string>, f: Format)
    ensures f in Reorder(fs, es) <==> f in fs
  {
    Permutation(fs, es);
    assert f in multiset(fs) <==> f in multiset(Reorder(fs, es));
  }

  ghost predicate NoneBroken(fs: seq<Format>, broken: set<Format>) {
    forall f | f in fs :: f !in broken
  }

  ghost predicate NoneOpens(fs: seq<Format>, accepted: set<Format>, broken: set<Format>) {
    forall f | f in fs :: !(f in accepted && f !in broken)
  }

  predicate Decisive(f: Format, accepted: set<Format>, broken: set<Format>) {
    f in accepted || f in broken
  }

  function Decision(f: Format, broken: set<Format>): Outcome {
    if f in broken then CreateFailed(f) else Opened(f)
  }

  lemma {:induction false} ChooseFound(fs: seq<Format>, accepted: set<Format>, broken: set<Format>)
    ensures Choose(fs, accepted, broken) != NoFormat ==>
              var f := Choose(fs, accepted, broken).format;
              f in fs && Decisive(f, accepted, broken) && Choose(fs, accepted, broken) == Decision(f, broken)
    ensures Choose(fs, accepted, broken) == NoFormat ==> forall f | f in fs :: !Decisive(f, accepted, broken)
  {
    if fs == [] {
    } else {
      ChooseFound(fs[1..], accepted, broken);
      assert forall f :: f in fs <==> f == fs[0] || f in fs[1..];
    }
  }

  /** When handlers can be created for all formats, or none opens the file, an archive opens
      under any override exactly when it opens without one. */
  lemma OpeningKept(fs: seq<Format>, es: seq<string>, accepted: set<Format>, broken: set<Format>)
    requires NoneBroken(fs, broken) || NoneOpens(fs, accepted, broken)
    ensures Choose(Reorder(fs, es), accepted, broken).Opened? <==> Choose(fs, accepted, broken).Opened?
    ensures Choose(fs, accepted, broken).Opened? <==> !NoneOpens(fs, accepted, broken)
  {
    ChooseFound(fs, accepted, broken);
    ChooseFound(Reorder(fs, es), accepted, broken);
    forall f ensures f in Reorder(fs, es) <==> f in fs { SameFormats(fs, es, f); }
  }

  function NamesOf(fs: seq<Format>): seq<string> {
    if fs == [] then [] else [fs[0].name] + NamesOf(fs[1..])
  }

  /** The override that moves the first i formats to the back. */
  function Rotation(fs: seq<Format>, i: nat): seq<string>
    requires i <= |fs|
  {
    [STAR] + NamesOf(fs[..i])
  }

  lemma {:induction false} NamesAreNames(fs: seq<Format>)
    requires forall f | f in fs :: f.name != STAR
    ensures STAR !in NamesOf(fs)
  {
    if fs == [] {
    } else {
      assert forall f | f in fs[1..] :: f in fs;
      NamesAreNames(fs[1..]);
    }
  }

  lemma {:induction false} MentionsAfterStar(ns: seq<string>)
    requires STAR !in ns
    ensures Mentions([STAR] + ns) == multiset(ns)
  {
    var es := [STAR] + ns;
    if ns == [] {
      assert es[..0] == [];
    } else {
      var front, last := ns[..|ns| - 1], ns[|ns| - 1];
      assert es[..|es| - 1] == [STAR] + front && ns == front + [last];
      MentionsAfterStar(front);
    }
  }

  lemma {:induction false} SurplusOfPrefix(fs: seq<Format>, i: nat)
    requires i <= |fs|
    ensures Surplus(fs, multiset(NamesOf(fs[..i]))) == fs[i..]
  {
    if i == 0 {
      SurplusOfNothing(fs);
    } else {
      var bag, rest := multiset(NamesOf(fs[..i])), multiset(NamesOf(fs[1..][..i - 1]));
      assert fs[..i][1..] == fs[1..][..i - 1];
      assert bag == multiset{fs[0].name} + rest;
      assert bag - multiset{fs[0].name} == rest;
      SurplusOfPrefix(fs[1..], i - 1);
    }
  }

  /** Rotating a format that is accepted or broken to the front lets it decide. */
  lemma RotationDecides(fs: seq<Format>, i: nat, accepted: set<Format>, broken: set<Format>)
    requires i < |fs| && Decisive(fs[i], accepted, broken)
    requires forall f | f in fs :: f.name != STAR
    ensures Choose(Reorder(fs, Rotation(fs, i)), accepted, broken) == Decision(fs[i], broken)
  {
    var es := Rotation(fs, i);
    NamesAreNames(fs[..i]);
    MentionsAfterStar(NamesOf(fs[..i]));
    SurplusOfPrefix(fs, i);
    assert FirstStar(es) == 0 && Head(fs, es) == [];
    OverridePriority(fs, es, accepted, broken);
    ChooseIsFirst(fs[i..], accepted, broken, 0);
  }

  /** An archive opens under every override exactly when it opens without one, if and only
      if handlers can be created for all formats or no format opens it. No format is named
      like the separator. */
  lemma OverrideKeepsOpening(fs: seq<Format>, accepted: set<Format>, broken: set<Format>)
    requires forall f | f in fs :: f.name != STAR
    ensures (forall es :: Choose(Reorder(fs, es), accepted, broken).Opened? <==> Choose(fs, accepted, broken).Opened?)
            <==> NoneBroken(fs, broken) || NoneOpens(fs, accepted, broken)
  {
    if NoneBroken(fs, broken) || NoneOpens(fs, accepted, broken) {
      forall es ensures Choose(Reorder(fs, es), accepted, broken).Opened? <==> Choose(fs, accepted, broken).Opened? {
        OpeningKept(fs, es, accepted, broken);
      }
    } else {
      var i :| 0 <= i < |fs| && fs[i] in broken;
      var j :| 0 <= j < |fs| && fs[j] in accepted && fs[j] !in broken;
      RotationDecides(fs, i, accepted, broken);
      RotationDecides(fs, j, accepted, broken);
      assert !Choose(Reorder(fs, Rotation(fs, i)), accepted, broken).Opened?;
      assert Choose(Reorder(fs, Rotation(fs, j)), accepted, broken).Opened?;
    }
  }

  /** No override changes the outcome, if and only if at most one format is accepted or
      broken at all; that format then decides. */
  lemma UniqueChoice(fs: seq<Format>, accepted: set<Format>, broken: set<Format>)
    requires forall f | f in fs :: f.name != STAR
    ensures (forall es :: Choose(Reorder(fs, es), accepted, broken) == Choose(fs, accepted, broken)) <==>
            forall f, g | f in fs && g in fs && Decisive(f, accepted, broken) && Decisive(g, accepted, broken) :: f == g
  {
    if forall f, g | f in fs && g in fs && Decisive(f, accepted, broken) && Decisive(g, accepted, broken) :: f == g {
      forall es ensures Choose(Reorder(fs, es), accepted, broken) == Choose(fs, accepted, broken) {
        SameChoice(fs, es, accepted, broken);
      }
    } else {
      var f, g :| f in fs && g in fs && Decisive(f, accepted, broken) && Decisive(g, accepted, broken) && f != g;
      var i :| 0 <= i < |fs| && fs[i] == f;
      var j :| 0 <= j < |fs| && fs[j] == g;
      RotationDecides(fs, i, accepted, broken);
      RotationDecides(fs, j, accepted, broken);
      assert Choose(Reorder(fs, Rotation(fs, i)), accepted, broken)
          != Choose(Reorder(fs, Rotation(fs, j)), accepted, broken);
    }
  }

  lemma SameChoice(fs: seq<Format>, es: seq<string>, accepted: set<Format>, broken: set<Format>)
    requires forall f, g | f in fs && g in fs && Decisive(f, accepted, broken) && Decisive(g, accepted, broken) ::
               f == g
    ensures Choose(Reorder(fs, es), accepted, broken) == Choose(fs, accepted, broken)
  {
    ChooseFound(fs, accepted, broken);
    ChooseFound(Reorder(fs, es), accepted, broken);
    forall f ensures f in Reorder(fs, es) <==> f in fs { SameFormats(fs, es, f); }
  }

  /** A format without a handler can make the override decide whether the archive opens. */
  lemma BrokenFormatBlocks(x: Format, y: Format)
    requires x.name == "x" && y.name == "y"
    ensures Choose([x, y], {y}, {x}) == CreateFailed(x)
    ensures Choose(Reorder([x, y], Rotation([x, y], 1)), {y}, {x}) == Opened(y)
  {
    RotationDecides([x, y], 1, {y}, {x});
  }

  // The handler

  /** h with handle x pointing to the handler c, if any, after the handlers `gone` have been
      deleted; no other handler is alive. */
  ghost function Held(h: WorldHeap, x: ComObject, c: Option<UnknownImp>, gone: seq<UnknownImp>): WorldHeap {
    h.(counts := if c.Some? then h.counts[c.value := 1] else h.counts,
       ptrs := h.ptrs[x := c], deleted := h.deleted + gone)
  }

  ghost function Gone(c: Option<UnknownImp>): seq<UnknownImp> {
    if c.Some? then [c.value] else []
  }

  lemma HeldReleased(h: WorldHeap, x: ComObject, c: Option<UnknownImp>, gone: seq<UnknownImp>)
    requires c.Some? ==> c.value !in h.counts
    ensures Points(Held(h, x, c, gone), c)
    ensures Released(Held(h, x, c, gone), x) == Held(h, x, None, gone + Gone(c))
  {
    if c.Some? { assert h.counts[c.value := 1] - {c.value} == h.counts; }
    assert h.deleted + gone + Gone(c) == h.deleted + (gone + Gone(c));
    assert h.ptrs[x := c][x := None] == h.ptrs[x := None];
  }

  lemma HeldStored(h: WorldHeap, x: ComObject, gone: seq<UnknownImp>, p: UnknownImp)
    ensures Adopted(Unheld(h, x, gone, p), x, Some(p)) == Held(h, x, Some(p), gone)
  {
    assert h.raws + multiset{p} - multiset{p} == h.raws;
    assert h.ptrs[x := None][x := Some(p)] == h.ptrs[x := Some(p)];
  }

  lemma HeldDestroyed(h: WorldHeap, x: ComObject, c: Option<UnknownImp>, gone: seq<UnknownImp>)
    requires x !in h.ptrs && (c.Some? ==> c.value !in h.counts)
    ensures Points(Held(h, x, c, gone), c)
    ensures Destroyed(Held(h, x, c, gone), x) == h.(deleted := h.deleted + (gone + Gone(c)))
  {
    HeldReleased(h, x, c, gone);
    DestroyParts(Held(h, x, c, gone), x);
    assert h.ptrs[x := None] - {x} == h.ptrs;
  }

  /** h with a new handler p that no handle points to yet, after those in `gone`. */
  ghost function Unheld(h: WorldHeap, x: ComObject, gone: seq<UnknownImp>, p: UnknownImp): WorldHeap {
    var none := Held(h, x, None, gone);
    none.(counts := none.counts[p := 1], raws := none.raws + multiset{p})
  }

  ghost predicate Creates(g: WorldHeap, g': WorldHeap, p: UnknownImp) {
    p !in g.counts && g' == g.(counts := g.counts[p := 1], raws := g.raws + multiset{p})
  }

  ghost predicate Stores(x: ComObject, g: WorldHeap, g': WorldHeap, p: UnknownImp) {
    x in g.ptrs && g.ptrs[x] == None && g' == Adopted(g, x, Some(p))
  }

  /** One elementary step: the handle x is released, an object is created, or x, being
      null, takes over a raw reference. */
  ghost predicate HandlerStep(x: ComObject, g: WorldHeap, g': WorldHeap) {
    || (x in g.ptrs && Points(g, g.ptrs[x]) && g' == Released(g, x))
    || (exists p :: p in g'.counts && Creates(g, g', p))
    || (exists p :: p in g.raws && Stores(x, g, g', p))
  }

  ghost predicate IsTrace(x: ComObject, trace: seq<WorldHeap>, first: WorldHeap, last: WorldHeap) {
    && trace != [] && trace[0] == first && trace[|trace| - 1] == last
    && forall i | 0 <= i < |trace| - 1 :: HandlerStep(x, trace[i], trace[i + 1])
  }

  /** In every heap of the trace at most one object is alive that is not in h. */
  ghost predicate OneHandler(h: WorldHeap, trace: seq<WorldHeap>) {
    forall i | 0 <= i < |trace| :: AtMostOneMore(h, trace[i])
  }

  ghost predicate AtMostOneMore(h: WorldHeap, g: WorldHeap) {
    forall p, q | p in g.counts && q in g.counts && p !in h.counts && q !in h.counts :: p == q
  }

  lemma ExtendTrace(x: ComObject, h: WorldHeap, s: seq<WorldHeap>, a: WorldHeap, b: WorldHeap, c: WorldHeap)
    requires IsTrace(x, s, a, b) && OneHandler(h, s) && HandlerStep(x, b, c) && AtMostOneMore(h, c)
    ensures IsTrace(x, s + [c], a, c) && OneHandler(h, s + [c])
  {
    var all := s + [c];
    forall i | 0 <= i < |all| - 1 ensures HandlerStep(x, all[i], all[i + 1]) {
      if i < |s| - 1 { assert HandlerStep(x, s[i], s[i + 1]); }
    }
  }

  lemma JoinTraces(x: ComObject, h: WorldHeap, s: seq<WorldHeap>, t: seq<WorldHeap>,
                   a: WorldHeap, b: WorldHeap, c: WorldHeap)
    requires IsTrace(x, s, a, b) && IsTrace(x, t, b, c) && OneHandler(h, s) && OneHandler(h, t)
    ensures IsTrace(x, s + t[1..], a, c) && OneHandler(h, s + t[1..])
  {
    var all := s + t[1..];
    forall i | 0 <= i < |all| - 1 ensures HandlerStep(x, all[i], all[i + 1]) {
      if i < |s| - 1 {
        assert HandlerStep(x, s[i], s[i + 1]);
      } else {
        assert all[i] == t[i - |s| + 1] && all[i + 1] == t[i - |s| + 2];
        assert HandlerStep(x, t[i - |s| + 1], t[i - |s| + 2]);
      }
    }
  }

  lemma HeldIsOne(h: WorldHeap, x: ComObject, c: Option<UnknownImp>, gone: seq<UnknownImp>)
    ensures AtMostOneMore(h, Held(h, x, c, gone))
  {
  }

  lemma ReleaseStep(h: WorldHeap, x: ComObject, c: Option<UnknownImp>, gone: seq<UnknownImp>)
    requires c.Some? ==> c.value !in h.counts
    ensures HandlerStep(x, Held(h, x, c, gone), Held(h, x, None, gone + Gone(c)))
  {
    HeldReleased(h, x, c, gone);
  }

  lemma CreateStep(h: WorldHeap, x: ComObject, gone: seq<UnknownImp>, p: UnknownImp)
    requires p !in h.counts
    ensures HandlerStep(x, Held(h, x, None, gone), Unheld(h, x, gone, p))
    ensures AtMostOneMore(h, Unheld(h, x, gone, p))
  {
    assert Creates(Held(h, x, None, gone), Unheld(h, x, gone, p), p);
  }

  lemma StoreStep(h: WorldHeap, x: ComObject, gone: seq<UnknownImp>, p: UnknownImp)
    ensures HandlerStep(x, Unheld(h, x, gone, p), Held(h, x, Some(p), gone))
  {
    HeldStored(h, x, gone, p);
    assert Stores(x, Unheld(h, x, gone, p), Held(h, x, Some(p), gone), p);
  }

  class ImplArchive {
    const arc: ComObject  // _arc
    var format: Option<Format>

    constructor (arc: ComObject)
      ensures this.arc == arc && format == None
    {
      this.arc := arc;
      format := None;
    }

    /** `operator&` on _arc, then CreateObject. The trace holds every heap on the way. */
    method NextHandler(works: bool, ghost w: World, ghost h: WorldHeap, ghost gone: seq<UnknownImp>)
      returns (ghost trace: seq<WorldHeap>)
      requires w.Valid() && w.heap == Held(h, arc, Opt(arc.ptr), gone)
      requires arc.ptr != null ==> arc.ptr !in h.counts
      modifies arc, arc.Target(), w
      ensures w.Valid() && w.heap == Held(h, arc, Opt(arc.ptr), gone + Gone(Opt(old(arc.ptr))))
      ensures works <==> arc.ptr != null
      ensures works ==> fresh(arc.ptr) && arc.ptr !in h.counts
      ensures IsTrace(arc, trace, old(w.heap), w.heap) && OneHandler(h, trace)
    {
      ghost var c, first := Opt(arc.ptr), w.heap;
      ghost var left := gone + Gone(c);
      HeldIsOne(h, arc, c, gone);
      HeldIsOne(h, arc, None, left);
      HeldReleased(h, arc, c, gone);
      ReleaseStep(h, arc, c, gone);
      arc.Release(w);
      ExtendTrace(arc, h, [first], first, first, w.heap);
      trace := [first] + [w.heap];
      if works {
        var p := new UnknownImp(w);
        trace := StoreHandler(p, w, h, left, trace, first);
      }
    }

    /** The two steps from a null handle to the new handler p. */
    method StoreHandler(p: UnknownImp, ghost w: World, ghost h: WorldHeap, ghost gone: seq<UnknownImp>,
                        ghost before: seq<WorldHeap>, ghost first: WorldHeap) returns (ghost trace: seq<WorldHeap>)
      requires w.Valid() && w.heap == Unheld(h, arc, gone, p) && p !in h.counts && arc.ptr == null
      requires IsTrace(arc, before, first, Held(h, arc, None, gone)) && OneHandler(h, before)
      modifies arc, w
      ensures w.Valid() && w.heap == Held(h, arc, Some(p), gone) && arc.ptr == p
      ensures IsTrace(arc, trace, first, w.heap) && OneHandler(h, trace)
    {
      CreateStep(h, arc, gone, p);
      ExtendTrace(arc, h, before, first, Held(h, arc, None, gone), w.heap);
      trace := before + [w.heap];
      ghost var created := w.heap;
      HeldStored(h, arc, gone, p);
      arc.Store(p, w);
      StoreStep(h, arc, gone, p);
      HeldIsOne(h, arc, Some(p), gone);
      ExtendTrace(arc, h, trace, first, created, w.heap);
      trace := trace + [w.heap];
    }

    /** `open_archive`. The trace holds every heap on the way: handlers are released,
        created and stored one step at a time, and never are two of them alive. */
    method OpenArchive(fs: seq<Format>, accepted: set<Format>, broken: set<Format>, ghost w: World)
      returns (r: Outcome, ghost gone: seq<UnknownImp>, ghost trace: seq<WorldHeap>)
      requires w.Valid() && arc.ptr == null && arc in w.heap.ptrs && w.heap.ptrs[arc] == None
      modifies this, arc, w
      ensures w.Valid() && r == Choose(fs, accepted, broken)
      ensures format == if r.Opened? then Some(r.format) else old(format)
      ensures w.heap == Held(old(w.heap), arc, Opt(arc.ptr), gone)
      ensures arc.ptr != null ==> fresh(arc.ptr) && arc.ptr !in old(w.heap.counts)
      ensures r.Opened? ==> arc.ptr != null
      ensures IsTrace(arc, trace, old(w.heap), w.heap) && OneHandler(old(w.heap), trace)
    {
      ghost var h := w.heap;
      gone, trace := [], [h];
      assert w.heap == Held(h, arc, None, []) by {
        assert h.ptrs[arc := None] == h.ptrs;
      }
      var i := 0;
      while i < |fs|
        invariant 0 <= i <= |fs| && w.Valid()
        invariant Choose(fs, accepted, broken) == Choose(fs[i..], accepted, broken)
        invariant w.heap == Held(h, arc, Opt(arc.ptr), gone) && format == old(format)
        invariant arc.ptr != null ==> fresh(arc.ptr) && arc.ptr !in h.counts
        invariant IsTrace(arc, trace, h, w.heap) && OneHandler(h, trace)
      {
        ghost var held, before := Gone(Opt(arc.ptr)), w.heap;
        ghost var more := NextHandler(fs[i] !in broken, w, h, gone);
        JoinTraces(arc, h, trace, more, h, before, w.heap);
        gone, trace := gone + held, trace + more[1..];
        if arc.ptr == null { return CreateFailed(fs[i]), gone, trace; }
        if fs[i] in accepted {
          format := Some(fs[i]);
          return Opened(fs[i]), gone, trace;
        }
        i := i + 1;
      }
      return NoFormat, gone, trace;
    }
  }

  /** The constructor of ImplArchive: when no format opens the file an exception destroys
      the members, and no handler is left; otherwise the archive holds the one handler, of
      the first format that accepts. */
  method NewArchive(fs: seq<Format>, accepted: set<Format>, broken: set<Format>, ghost w: World)
    returns (archive: ImplArchive?, r: Outcome, ghost gone: seq<UnknownImp>)
    requires w.Valid()
    modifies w
    ensures w.Valid() && r == Choose(fs, accepted, broken) && (archive != null <==> r.Opened?)
    ensures archive != null ==>
              && archive.format == Some(r.format) && archive.arc.ptr != null && fresh(archive.arc.ptr)
              && w.heap == Held(old(w.heap), archive.arc, Some(archive.arc.ptr), gone)
    ensures archive == null ==> w.heap == old(w.heap).(deleted := old(w.heap).deleted + gone)
  {
    ghost var h := w.heap;
    var arc := new ComObject.Default(w);
    ghost var h' := w.heap;
    var a := new ImplArchive(arc);
    ghost var trace;
    r, gone, trace := a.OpenArchive(fs, accepted, broken, w);
    assert w.heap == Held(h, arc, Opt(arc.ptr), gone) by {
      assert h'.ptrs[arc := Opt(arc.ptr)] == h.ptrs[arc := Opt(arc.ptr)];
    }
    if r.Opened? { return a, r, gone; }
    HeldDestroyed(h, arc, Opt(arc.ptr), gone);
    gone := gone + Gone(Opt(arc.ptr));
    arc.Destroy(w);
    archive := null;
  }
}
