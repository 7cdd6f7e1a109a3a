/** Reference counting by AddRef and Release (src/7zip/com.cpp) and by the handles of
    src/include/com.hpp, as steps over a heap of counted objects, handles that point to
    them, and raw references that somebody owns. */
module ComHeaps {
  import opened Basics

  /** `counts` holds the counter of every live object and `deleted` the objects deleted so
      far, in order; `ptrs` is the pointer of every handle. */
  datatype Heap<O(==), H(==)> = Heap(counts: map<O, UInt32>, ptrs: map<H, Option<O>>,
                                     raws: multiset<O>, deleted: seq<O>)

  function AddRef<O, H>(h: Heap<O, H>, o: O): Heap<O, H>
    requires o in h.counts
  {
    h.(counts := h.counts[o := Increment32(h.counts[o])])
  }

  /** Decrements the counter and deletes the object when that makes it zero. */
  function Release<O, H>(h: Heap<O, H>, o: O): Heap<O, H>
    requires o in h.counts
  {
    var n := Decrement32(h.counts[o]);
    if n != 0 then h.(counts := h.counts[o := n])
    else h.(counts := h.counts - {o}, deleted := h.deleted + [o])
  }

  predicate Points<O(==), H>(h: Heap<O, H>, p: Option<O>) { p.Some? ==> p.value in h.counts }

  function AddRefIf<O, H>(h: Heap<O, H>, p: Option<O>): Heap<O, H>
    requires Points(h, p)
  {
    if p.Some? then AddRef(h, p.value) else h
  }

  function ReleaseIf<O, H>(h: Heap<O, H>, p: Option<O>): Heap<O, H>
    requires Points(h, p)
  {
    if p.Some? then Release(h, p.value) else h
  }

  function Raw<O>(p: Option<O>): multiset<O> {
    if p.Some? then multiset{p.value} else multiset{}
  }

  /** x is a handle that the step constructs or works on, y another one, p a raw pointer
      whose reference the step takes over. */
  datatype Op<O, H> =
    | New(o: O)                  // new object, owned by the caller
    | Construct(x: H)            // Object()
    | Adopt(x: H, p: Option<O>)  // Object(pointer)
    | Copy(x: H, y: H)           // Object(const Object&)
    | Move(x: H, y: H)           // Object(Object&&)
    | CopyAssign(x: H, y: H)
    | MoveAssign(x: H, y: H)
    | Swap(x: H, y: H)
    | Attach(x: H, p: Option<O>)
    | Out(x: H, p: Option<O>)    // operator&, then the callee stores p
    | Detach(x: H)
    | ReleaseHandle(x: H)
    | Destroy(x: H)              // ~Object()
    | RawAddRef(o: O)            // AddRef or QueryInterface by the owner of a raw pointer
    | RawRelease(o: O)

  /** What callers must see to: handles exist when used, constructors get a new handle, a
      pointer taken over comes with a reference of its own. */
  predicate Enabled<O(==), H(==)>(h: Heap<O, H>, op: Op<O, H>) {
    match op
    case New(o) => o !in h.counts && o !in h.deleted
    case Construct(x) => x !in h.ptrs
    case Adopt(x, p) => x !in h.ptrs && (p.Some? ==> p.value in h.raws)
    case Copy(x, y) => x !in h.ptrs && y in h.ptrs
    case Move(x, y) => x !in h.ptrs && y in h.ptrs
    case CopyAssign(x, y) => x in h.ptrs && y in h.ptrs
    case MoveAssign(x, y) => x in h.ptrs && y in h.ptrs
    case Swap(x, y) => x in h.ptrs && y in h.ptrs
    case Attach(x, p) => x in h.ptrs && (p.Some? ==> p.value in h.raws)
    case Out(x, p) => x in h.ptrs && (p.Some? ==> p.value in h.raws)
    case Detach(x) => x in h.ptrs
    case ReleaseHandle(x) => x in h.ptrs
    case Destroy(x) => x in h.ptrs
    case RawAddRef(o) => o in h.counts
    case RawRelease(o) => o in h.raws
  }

  predicate Sound<O(==), H>(h: Heap<O, H>) {
    && (forall x | x in h.ptrs :: Points(h, h.ptrs[x]))
    && (forall o | o in h.raws :: o in h.counts)
  }

  /** Drop the old reference of x, then take p over. */
  function Attached<O, H>(h: Heap<O, H>, x: H, p: Option<O>): Heap<O, H>
    requires x in h.ptrs && Points(h, h.ptrs[x])
  {
    ReleaseIf(h, h.ptrs[x]).(ptrs := h.ptrs[x := p], raws := h.raws - Raw(p))
  }

  /** A further raw reference to o, and the end of one. */
  function Shared<O, H>(h: Heap<O, H>, o: O): Heap<O, H>
    requires o in h.counts
  {
    AddRef(h, o).(raws := h.raws + multiset{o})
  }

  function Dropped<O, H>(h: Heap<O, H>, o: O): Heap<O, H>
    requires o in h.counts
  {
    Release(h, o).(raws := h.raws - multiset{o})
  }

  /** The reference of handle x becomes a raw one. */
  function Detached<O, H>(h: Heap<O, H>, x: H): Heap<O, H>
    requires x in h.ptrs
  {
    h.(ptrs := h.ptrs[x := None], raws := h.raws + Raw(h.ptrs[x]))
  }

  /** A raw reference becomes that of handle x. */
  function Adopted<O, H>(h: Heap<O, H>, x: H, p: Option<O>): Heap<O, H> {
    h.(ptrs := h.ptrs[x := p], raws := h.raws - Raw(p))
  }

  function Copied<O, H>(h: Heap<O, H>, x: H, y: H): Heap<O, H>
    requires y in h.ptrs && Points(h, h.ptrs[y])
  {
    AddRefIf(h, h.ptrs[y]).(ptrs := h.ptrs[x := h.ptrs[y]])
  }

  function Moved<O, H>(h: Heap<O, H>, x: H, y: H): Heap<O, H>
    requires y in h.ptrs
  {
    h.(ptrs := h.ptrs[x := h.ptrs[y]][y := None])
  }

  function Swapped<O, H>(h: Heap<O, H>, x: H, y: H): Heap<O, H>
    requires x in h.ptrs && y in h.ptrs
  {
    h.(ptrs := h.ptrs[x := h.ptrs[y]][y := h.ptrs[x]])
  }

  function Released<O, H>(h: Heap<O, H>, x: H): Heap<O, H>
    requires x in h.ptrs && Points(h, h.ptrs[x])
  {
    ReleaseIf(h, h.ptrs[x]).(ptrs := h.ptrs[x := None])
  }

  function Destroyed<O, H>(h: Heap<O, H>, x: H): Heap<O, H>
    requires x in h.ptrs && Points(h, h.ptrs[x])
  {
    ReleaseIf(h, h.ptrs[x]).(ptrs := h.ptrs - {x})
  }

  /** Both pointers end up equal; when they were, nothing happens. */
  function CopyAssigned<O(==), H>(h: Heap<O, H>, x: H, y: H): Heap<O, H>
    requires x in h.ptrs && y in h.ptrs && Points(h, h.ptrs[x]) && Points(h, h.ptrs[y])
  {
    var p, q := h.ptrs[x], h.ptrs[y];
    if p == q then h else ReleaseIf(AddRefIf(h, q), p).(ptrs := h.ptrs[x := q])
  }

  /** The source ends up null, unless both pointed to the same object already. */
  function MoveAssigned<O(==), H>(h: Heap<O, H>, x: H, y: H): Heap<O, H>
    requires x in h.ptrs && y in h.ptrs && Points(h, h.ptrs[x])
  {
    var p, q := h.ptrs[x], h.ptrs[y];
    if p == q then h else ReleaseIf(h, p).(ptrs := h.ptrs[y := None][x := q])
  }

  /** The effect of one step. */
  function Step<O(==), H(==)>(h: Heap<O, H>, op: Op<O, H>): Heap<O, H>
    requires Sound(h) && Enabled(h, op)
  {
    match op
    case New(o) => h.(counts := h.counts[o := 1], raws := h.raws + multiset{o})
    case Construct(x) => h.(ptrs := h.ptrs[x := None])
    case Adopt(x, p) => Adopted(h, x, p)
    case Copy(x, y) => Copied(h, x, y)
    case Move(x, y) => Moved(h, x, y)
    case CopyAssign(x, y) => CopyAssigned(h, x, y)
    case MoveAssign(x, y) => MoveAssigned(h, x, y)
    case Swap(x, y) => Swapped(h, x, y)
    case Attach(x, p) => Attached(h, x, p)
    case Out(x, p) => Attached(h, x, p)
    case Detach(x) => Detached(h, x)
    case ReleaseHandle(x) => Released(h, x)
    case Destroy(x) => Destroyed(h, x)
    case RawAddRef(o) => Shared(h, o)
    case RawRelease(o) => Dropped(h, o)
  }

  /** Copy-and-swap: the temporary handle t leaves nothing behind. */
  lemma CopyAndSwap<O, H>(h: Heap<O, H>, x: H, y: H, t: H)
    requires x in h.ptrs && y in h.ptrs && Points(h, h.ptrs[x]) && Points(h, h.ptrs[y])
    requires t !in h.ptrs && h.ptrs[x] != h.ptrs[y]
    ensures var swapped := Swapped(Copied(h, t, y), t, x);
            Points(swapped, swapped.ptrs[t]) && Destroyed(swapped, t) == CopyAssigned(h, x, y)
  {
    TemporaryGone(h.ptrs, x, t, h.ptrs[y]);
  }

  lemma MoveAndSwap<O, H>(h: Heap<O, H>, x: H, y: H, t: H)
    requires x in h.ptrs && y in h.ptrs && Points(h, h.ptrs[x])
    requires t !in h.ptrs && h.ptrs[x] != h.ptrs[y]
    ensures var swapped := Swapped(Moved(h, t, y), t, x);
            Points(swapped, swapped.ptrs[t]) && Destroyed(swapped, t) == MoveAssigned(h, x, y)
  {
    var q := h.ptrs[y];
    UpdatesCommute(h.ptrs, t, q, y, None);
    TemporaryGone(h.ptrs[y := None], x, t, q);
  }

  lemma TemporaryGone<H, V>(m: map<H, V>, x: H, t: H, v: V)
    requires x in m && t !in m
    ensures m[t := v][t := m[x]][x := v] - {t} == m[x := v]
  {
  }

  // Conservation

  ghost function Holders<O, H>(ptrs: map<H, Option<O>>, o: O): set<H> {
    set x | x in ptrs && ptrs[x] == Some(o)
  }

  /** The number of references to o that somebody owns. */
  ghost function Owners<O, H>(h: Heap<O, H>, o: O): nat {
    |Holders(h.ptrs, o)| + h.raws[o]
  }

  /** The count of each live object is the number of its owners, which is not zero; no
      handle or raw reference points to anything else; nothing is deleted twice or is
      live after deletion. */
  ghost predicate Conserved<O, H>(h: Heap<O, H>) {
    && Sound(h)
    && (forall o | o in h.counts :: h.counts[o] == Owners(h, o) && h.counts[o] != 0)
    && (forall i, j | 0 <= i < j < |h.deleted| :: h.deleted[i] != h.deleted[j])
    && (forall o | o in h.deleted :: o !in h.counts)
  }

  /** Does the step add a reference to an object, and to which? */
  function Added<O(==), H(==)>(h: Heap<O, H>, op: Op<O, H>): Option<O>
    requires Enabled(h, op)
  {
    match op
    case Copy(x, y) => h.ptrs[y]
    case CopyAssign(x, y) => if h.ptrs[x] == h.ptrs[y] then None else h.ptrs[y]
    case RawAddRef(o) => Some(o)
    case _ => None
  }

  /** The 32-bit counter has room for the reference that the step adds. */
  ghost predicate Roomy<O, H>(h: Heap<O, H>, op: Op<O, H>)
    requires Enabled(h, op)
  {
    Added(h, op).Some? ==> Owners(h, Added(h, op).value) + 1 < UINT32_LIMIT
  }

  lemma SizeWithout<T>(s: set<T>, x: T)
    ensures |s| == |s - {x}| + if x in s then 1 else 0
  {
    if x !in s { assert s - {x} == s; }
  }

  lemma SameOthers<O, H>(ptrs: map<H, Option<O>>, x: H, p: Option<O>, o: O)
    ensures Holders(ptrs[x := p], o) - {x} == Holders(ptrs, o) - {x}
  {
  }

  lemma SetHolder<O, H>(ptrs: map<H, Option<O>>, x: H, p: Option<O>, o: O)
    ensures |Holders(ptrs[x := p], o)|
         == |Holders(ptrs, o)| - (if x in ptrs && ptrs[x] == Some(o) then 1 else 0) + (if p == Some(o) then 1 else 0)
  {
    var before, after := Holders(ptrs, o), Holders(ptrs[x := p], o);
    SameOthers(ptrs, x, p, o);
    SizeWithout(before, x);
    SizeWithout(after, x);
  }

  lemma DropHolder<O, H>(ptrs: map<H, Option<O>>, x: H, o: O)
    requires x in ptrs && ptrs[x].None?
    ensures Holders(ptrs - {x}, o) == Holders(ptrs, o)
  {
  }

  // Small steps, each of which conserves

  /** Moving references about conserves when every object keeps the number of its owners. */
  lemma SameOwners<O, H>(h: Heap<O, H>, r: Heap<O, H>)
    requires Conserved(h) && Sound(r) && r.counts == h.counts && r.deleted == h.deleted
    requires forall o | o in h.counts :: Owners(r, o) == Owners(h, o)
    ensures Conserved(r)
  {
  }

  /** One more raw reference; exact about the counter's range. */
  lemma SharedConserves<O, H>(h: Heap<O, H>, o: O)
    requires Conserved(h) && o in h.counts
    ensures Conserved(Shared(h, o)) <==> h.counts[o] < UINT32_LIMIT - 1
  {
    var r := Shared(h, o);
    SharedOwners(h, o);
    if h.counts[o] == UINT32_LIMIT - 1 {
      assert r.counts[o] == 0;
    } else {
      SharedSound(h, o);
    }
  }

  lemma SharedOwners<O, H>(h: Heap<O, H>, o: O)
    requires o in h.counts
    ensures forall q :: Owners(Shared(h, o), q) == Owners(h, q) + if q == o then 1 else 0
  {
    assert Shared(h, o).ptrs == h.ptrs;
  }

  lemma SharedSound<O, H>(h: Heap<O, H>, o: O)
    requires Sound(h) && o in h.counts
    ensures Sound(Shared(h, o))
  {
    forall x | x in h.ptrs ensures Points(Shared(h, o), h.ptrs[x]) { assert Points(h, h.ptrs[x]); }
  }

  lemma DroppedConserves<O, H>(h: Heap<O, H>, o: O)
    requires Conserved(h) && o in h.raws
    ensures Conserved(Dropped(h, o))
  {
    if h.counts[o] == 1 { LastDropped(h, o); } else { OneDropped(h, o); }
  }

  lemma DroppedOwners<O, H>(h: Heap<O, H>, o: O)
    requires o in h.counts && o in h.raws
    ensures forall q :: Owners(Dropped(h, o), q) == Owners(h, q) - if q == o then 1 else 0
  {
    assert Dropped(h, o).ptrs == h.ptrs;
  }

  lemma OneDropped<O, H>(h: Heap<O, H>, o: O)
    requires Conserved(h) && o in h.raws && h.counts[o] > 1
    ensures Conserved(Dropped(h, o))
  {
    var r := Dropped(h, o);
    DroppedOwners(h, o);
    assert r.counts == h.counts[o := h.counts[o] - 1] && r.deleted == h.deleted;
    forall x | x in r.ptrs ensures Points(r, r.ptrs[x]) { assert Points(h, h.ptrs[x]); }
  }

  lemma LastDropped<O, H>(h: Heap<O, H>, o: O)
    requires Conserved(h) && o in h.raws && h.counts[o] == 1
    ensures Conserved(Dropped(h, o))
  {
    var r := Dropped(h, o);
    DroppedOwners(h, o);
    assert r.counts == h.counts - {o} && r.deleted == h.deleted + [o];
    LastDroppedSound(h, o);
  }

  lemma LastDroppedSound<O, H>(h: Heap<O, H>, o: O)
    requires Conserved(h) && o in h.raws && h.counts[o] == 1
    ensures Sound(Dropped(h, o))
  {
    assert Holders(h.ptrs, o) == {} && h.raws[o] == 1;
    assert forall x | x in h.ptrs && h.ptrs[x] == Some(o) :: x in Holders(h.ptrs, o);
    forall x | x in h.ptrs ensures Points(Dropped(h, o), h.ptrs[x]) { assert Points(h, h.ptrs[x]); }
  }

  lemma DetachedConserves<O, H>(h: Heap<O, H>, x: H)
    requires Conserved(h) && x in h.ptrs
    ensures Conserved(Detached(h, x))
  {
    var r := Detached(h, x);
    assert Sound(r) by {
      forall y | y in r.ptrs ensures Points(r, r.ptrs[y]) { assert Points(h, h.ptrs[y]); }
    }
    forall o | o in h.counts ensures Owners(r, o) == Owners(h, o) { SetHolder(h.ptrs, x, None, o); }
    SameOwners(h, r);
  }

  lemma AdoptedConserves<O, H>(h: Heap<O, H>, x: H, p: Option<O>)
    requires Conserved(h) && (x in h.ptrs ==> h.ptrs[x].None?) && (p.Some? ==> p.value in h.raws)
    ensures Conserved(Adopted(h, x, p))
  {
    var r := Adopted(h, x, p);
    assert Sound(r) by {
      forall y | y in r.ptrs && y != x ensures Points(r, r.ptrs[y]) { assert Points(h, h.ptrs[y]); }
    }
    forall o | o in h.counts ensures Owners(r, o) == Owners(h, o) { SetHolder(h.ptrs, x, p, o); }
    SameOwners(h, r);
  }

  lemma DropConserves<O, H>(h: Heap<O, H>, x: H)
    requires Conserved(h) && x in h.ptrs && h.ptrs[x].None?
    ensures Conserved(h.(ptrs := h.ptrs - {x}))
  {
    var r := h.(ptrs := h.ptrs - {x});
    forall o | o in h.counts ensures Owners(r, o) == Owners(h, o) { DropHolder(h.ptrs, x, o); }
  }

  lemma NewConserves<O, H>(h: Heap<O, H>, o: O)
    requires Conserved(h) && o !in h.counts && o !in h.deleted
    ensures Conserved(h.(counts := h.counts[o := 1], raws := h.raws + multiset{o}))
  {
    var r := h.(counts := h.counts[o := 1], raws := h.raws + multiset{o});
    forall x | x in h.ptrs ensures h.ptrs[x] != Some(o) { assert Points(h, h.ptrs[x]); }
    assert Holders(r.ptrs, o) == {};
    assert o !in h.raws;
    assert forall q | q in h.counts :: Owners(r, q) == Owners(h, q);
  }

  lemma SwapConserves<O, H>(h: Heap<O, H>, x: H, y: H)
    requires Conserved(h) && x in h.ptrs && y in h.ptrs
    ensures Conserved(Swapped(h, x, y))
  {
    var r := Swapped(h, x, y);
    forall o | o in h.counts ensures Owners(r, o) == Owners(h, o) {
      SetHolder(h.ptrs, x, h.ptrs[y], o);
      SetHolder(h.ptrs[x := h.ptrs[y]], y, h.ptrs[x], o);
    }
  }

  // Every step conserves

  /** Dropping a handle's reference is detaching it and dropping the raw one. */
  lemma ReleaseParts<O, H>(h: Heap<O, H>, x: H)
    requires x in h.ptrs && Points(h, h.ptrs[x])
    ensures Released(h, x) ==
            if h.ptrs[x].Some? then Dropped(Detached(h, x), h.ptrs[x].value) else Detached(h, x)
  {
    TakenAndGiven(h.raws, h.ptrs[x]);
  }

  lemma ReleaseHandleConserves<O, H>(h: Heap<O, H>, x: H)
    requires Conserved(h) && x in h.ptrs
    ensures Conserved(Released(h, x))
  {
    DetachedConserves(h, x);
    ReleaseParts(h, x);
    if h.ptrs[x].Some? { DroppedConserves(Detached(h, x), h.ptrs[x].value); }
  }

  lemma AttachParts<O, H>(h: Heap<O, H>, x: H, p: Option<O>)
    requires x in h.ptrs && Points(h, h.ptrs[x])
    ensures Attached(h, x, p) == Adopted(Released(h, x), x, p)
  {
    ReleaseKeeps(h, h.ptrs[x]);
    OverwrittenTwice(h.ptrs, x, None, p);
  }

  lemma ReleaseKeeps<O, H>(h: Heap<O, H>, p: Option<O>)
    requires Points(h, p)
    ensures ReleaseIf(h, p).raws == h.raws && ReleaseIf(h, p).ptrs == h.ptrs
  {
  }

  lemma OverwrittenTwice<H, V>(m: map<H, V>, x: H, v: V, w: V)
    ensures m[x := v][x := w] == m[x := w]
  {
  }

  lemma AttachedConserves<O, H>(h: Heap<O, H>, x: H, p: Option<O>)
    requires Conserved(h) && x in h.ptrs && (p.Some? ==> p.value in h.raws)
    ensures Conserved(Attached(h, x, p))
  {
    ReleaseHandleConserves(h, x);
    AttachParts(h, x, p);
    AdoptedConserves(Released(h, x), x, p);
  }

  lemma CopyConserves<O, H>(h: Heap<O, H>, x: H, y: H)
    requires Conserved(h) && x !in h.ptrs && y in h.ptrs
    requires h.ptrs[y].Some? ==> h.counts[h.ptrs[y].value] < UINT32_LIMIT - 1
    ensures Conserved(Copied(h, x, y))
  {
    var p := h.ptrs[y];
    if p.Some? {
      SharedConserves(h, p.value);
      AdoptedConserves(Shared(h, p.value), x, p);
      TakenAndGiven(h.raws, p);
    } else {
      AdoptedConserves(h, x, p);
      assert h.raws - Raw(p) == h.raws;
    }
  }

  lemma MoveConserves<O, H>(h: Heap<O, H>, x: H, y: H)
    requires Conserved(h) && y in h.ptrs && x !in h.ptrs
    ensures Conserved(Moved(h, x, y))
  {
    MoveParts(h, x, y);
    DetachedConserves(h, y);
    AdoptedConserves(Detached(h, y), x, h.ptrs[y]);
  }

  lemma MoveParts<O, H>(h: Heap<O, H>, x: H, y: H)
    requires y in h.ptrs && x != y
    ensures Moved(h, x, y) == Adopted(Detached(h, y), x, h.ptrs[y])
  {
    TakenAndGiven(h.raws, h.ptrs[y]);
    UpdatesCommute(h.ptrs, x, h.ptrs[y], y, None);
  }

  lemma TakenAndGiven<O>(raws: multiset<O>, p: Option<O>)
    ensures raws + Raw(p) - Raw(p) == raws
  {
  }

  lemma UpdatesCommute<H, V>(m: map<H, V>, x: H, v: V, y: H, w: V)
    requires x != y
    ensures m[x := v][y := w] == m[y := w][x := v]
  {
  }

  /** Copy assignment is taking a reference to the source and attaching it. */
  lemma CopyAssignParts<O, H>(h: Heap<O, H>, x: H, y: H)
    requires Sound(h) && x in h.ptrs && y in h.ptrs && h.ptrs[x] != h.ptrs[y] && h.ptrs[y].Some?
    ensures CopyAssigned(h, x, y) == Attached(Shared(h, h.ptrs[y].value), x, h.ptrs[y])
  {
    var q := h.ptrs[y];
    var counted := AddRef(h, q.value);
    TakenAndGiven(h.raws, q);
    assert Shared(h, q.value) == counted.(raws := h.raws + Raw(q));
    ReleaseOfRaws(counted, h.ptrs[x], h.raws + Raw(q));
  }

  lemma ReleaseOfRaws<O, H>(h: Heap<O, H>, p: Option<O>, raws: multiset<O>)
    requires Points(h, p)
    ensures ReleaseIf(h.(raws := raws), p) == ReleaseIf(h, p).(raws := raws)
    ensures ReleaseIf(h, p).raws == h.raws
  {
  }

  lemma CopyAssignConserves<O, H>(h: Heap<O, H>, x: H, y: H)
    requires Conserved(h) && x in h.ptrs && y in h.ptrs && h.ptrs[x] != h.ptrs[y]
    requires h.ptrs[y].Some? ==> h.counts[h.ptrs[y].value] < UINT32_LIMIT - 1
    ensures Conserved(CopyAssigned(h, x, y))
  {
    if h.ptrs[y].Some? {
      CopyAssignParts(h, x, y);
      SharedConserves(h, h.ptrs[y].value);
      AttachedConserves(Shared(h, h.ptrs[y].value), x, h.ptrs[y]);
    } else {
      AttachedConserves(h, x, h.ptrs[y]);
      assert h.raws - multiset{} == h.raws;
    }
  }

  /** Move assignment is detaching the source and attaching what it held. */
  lemma MoveAssignParts<O, H>(h: Heap<O, H>, x: H, y: H)
    requires Sound(h) && x in h.ptrs && y in h.ptrs && h.ptrs[x] != h.ptrs[y]
    ensures MoveAssigned(h, x, y) == Attached(Detached(h, y), x, h.ptrs[y])
  {
    TakenAndGiven(h.raws, h.ptrs[y]);
  }

  lemma MoveAssignConserves<O, H>(h: Heap<O, H>, x: H, y: H)
    requires Conserved(h) && x in h.ptrs && y in h.ptrs && h.ptrs[x] != h.ptrs[y]
    ensures Conserved(MoveAssigned(h, x, y))
  {
    MoveAssignParts(h, x, y);
    DetachedConserves(h, y);
    AttachedConserves(Detached(h, y), x, h.ptrs[y]);
  }

  lemma DestroyParts<O, H>(h: Heap<O, H>, x: H)
    requires x in h.ptrs && Points(h, h.ptrs[x])
    ensures Destroyed(h, x) == Released(h, x).(ptrs := Released(h, x).ptrs - {x})
  {
    assert h.ptrs[x := None] - {x} == h.ptrs - {x};
  }

  lemma DestroyConserves<O, H>(h: Heap<O, H>, x: H)
    requires Conserved(h) && x in h.ptrs
    ensures Conserved(Destroyed(h, x))
  {
    ReleaseHandleConserves(h, x);
    DropConserves(Released(h, x), x);
    DestroyParts(h, x);
  }

  lemma CountersOverflow<O, H>(h: Heap<O, H>, op: Op<O, H>)
    requires Conserved(h) && Enabled(h, op) && !Roomy(h, op)
    ensures !Conserved(Step(h, op))
  {
    var o := Added(h, op).value;
    assert h.counts[o] == UINT32_LIMIT - 1;
    assert Increment32(h.counts[o]) == 0;
    assert o in AddRef(h, o).counts && AddRef(h, o).counts[o] == 0;
    assert o in Step(h, op).counts && Step(h, op).counts[o] == 0;
  }

  /** Reference conservation, one step: exactly the steps that would overflow the 32-bit
      counter break it. */
  lemma StepConserves<O, H>(h: Heap<O, H>, op: Op<O, H>)
    requires Conserved(h) && Enabled(h, op)
    ensures Conserved(Step(h, op)) <==> Roomy(h, op)
  {
    if !Roomy(h, op) {
      CountersOverflow(h, op);
    } else {
      match op
      case New(o) => NewConserves(h, o);
      case Construct(x) => AdoptedConserves(h, x, None); assert h.raws - multiset{} == h.raws;
      case Adopt(x, p) => AdoptedConserves(h, x, p);
      case Copy(x, y) => CopyConserves(h, x, y);
      case Move(x, y) => MoveConserves(h, x, y);
      case CopyAssign(x, y) => if h.ptrs[x] != h.ptrs[y] { CopyAssignConserves(h, x, y); }
      case MoveAssign(x, y) => if h.ptrs[x] != h.ptrs[y] { MoveAssignConserves(h, x, y); }
      case Swap(x, y) => SwapConserves(h, x, y);
      case Attach(x, p) => AttachedConserves(h, x, p);
      case Out(x, p) => AttachedConserves(h, x, p);
      case Detach(x) => DetachedConserves(h, x);
      case ReleaseHandle(x) => ReleaseHandleConserves(h, x);
      case Destroy(x) => DestroyConserves(h, x);
      case RawAddRef(o) => SharedConserves(h, o);
      case RawRelease(o) => DroppedConserves(h, o);
    }
  }

  // The effect of every step

  /** The handles that a step works on. */
  function Named<O, H(==)>(op: Op<O, H>): set<H> {
    match op
    case New(_) => {}
    case RawAddRef(_) => {}
    case RawRelease(_) => {}
    case Copy(x, y) => {x, y}
    case Move(x, y) => {x, y}
    case CopyAssign(x, y) => {x, y}
    case MoveAssign(x, y) => {x, y}
    case Swap(x, y) => {x, y}
    case _ => {op.x}
  }

  /** Handle z exists and has pointer p. */
  predicate Has<O(==), H>(h: Heap<O, H>, z: H, p: Option<O>) { z in h.ptrs && h.ptrs[z] == p }

  /** No step touches the handles it does not name. */
  lemma OthersKept<O, H>(h: Heap<O, H>, op: Op<O, H>, z: H)
    requires Sound(h) && Enabled(h, op) && z !in Named(op)
    ensures z in Step(h, op).ptrs <==> z in h.ptrs
    ensures z in h.ptrs ==> Has(Step(h, op), z, h.ptrs[z])
  {
  }

  /** What the steps on two handles do to their pointers; x and y may be the same handle in an
      assignment or a swap. */
  lemma PairPointers<O, H>(h: Heap<O, H>, x: H, y: H)
    requires Sound(h) && y in h.ptrs
    ensures x !in h.ptrs ==> Has(Step(h, Copy(x, y)), x, h.ptrs[y]) && Has(Step(h, Copy(x, y)), y, h.ptrs[y])
    ensures x !in h.ptrs ==> Has(Step(h, Move(x, y)), x, h.ptrs[y]) && Has(Step(h, Move(x, y)), y, None)
    ensures x in h.ptrs ==>
              && Has(Step(h, CopyAssign(x, y)), x, h.ptrs[y]) && Has(Step(h, CopyAssign(x, y)), y, h.ptrs[y])
              && Has(Step(h, MoveAssign(x, y)), x, h.ptrs[y])
              && Has(Step(h, MoveAssign(x, y)), y, if h.ptrs[x] == h.ptrs[y] then h.ptrs[y] else None)
              && Has(Step(h, Swap(x, y)), x, h.ptrs[y]) && Has(Step(h, Swap(x, y)), y, h.ptrs[x])
  {
  }

  /** A new handle is null or takes p. */
  lemma NewPointers<O, H>(h: Heap<O, H>, x: H, p: Option<O>)
    requires Sound(h) && x !in h.ptrs && (p.Some? ==> p.value in h.raws)
    ensures Has(Step(h, Construct(x)), x, None) && Has(Step(h, Adopt(x, p)), x, p)
  {
  }

  /** An existing one takes p, becomes null, or ceases to exist. */
  lemma TakenPointers<O, H>(h: Heap<O, H>, x: H, p: Option<O>)
    requires Sound(h) && x in h.ptrs && (p.Some? ==> p.value in h.raws)
    ensures Has(Step(h, Attach(x, p)), x, p) && Has(Step(h, Out(x, p)), x, p)
  {
  }

  lemma GivenPointers<O, H>(h: Heap<O, H>, x: H)
    requires Sound(h) && x in h.ptrs
    ensures Has(Step(h, Detach(x)), x, None) && Has(Step(h, ReleaseHandle(x)), x, None)
    ensures x !in Step(h, Destroy(x)).ptrs
  {
  }

  /** Which object loses an owner by the step. */
  function Lost<O(==), H(==)>(h: Heap<O, H>, op: Op<O, H>): Option<O>
    requires Enabled(h, op)
  {
    match op
    case CopyAssign(x, y) => if h.ptrs[x] == h.ptrs[y] then None else h.ptrs[x]
    case MoveAssign(x, y) => if h.ptrs[x] == h.ptrs[y] then None else h.ptrs[x]
    case Attach(x, p) => h.ptrs[x]
    case Out(x, p) => h.ptrs[x]
    case ReleaseHandle(x) => h.ptrs[x]
    case Destroy(x) => h.ptrs[x]
    case RawRelease(o) => Some(o)
    case _ => None
  }

  function OneIf<O(==)>(p: Option<O>, o: O): nat { if p == Some(o) then 1 else 0 }

  function Count<O(==), H>(h: Heap<O, H>, o: O): nat { if o in h.counts then h.counts[o] else 0 }

  lemma AddRefCounts<O, H>(h: Heap<O, H>, p: Option<O>, o: O)
    requires Points(h, p) && (p.Some? ==> h.counts[p.value] < UINT32_LIMIT - 1)
    ensures Count(AddRefIf(h, p), o) == Count(h, o) + OneIf(p, o)
  {
  }

  lemma ReleaseCounts<O, H>(h: Heap<O, H>, p: Option<O>, o: O)
    requires Points(h, p) && (p.Some? ==> h.counts[p.value] > 0)
    ensures Count(ReleaseIf(h, p), o) == Count(h, o) - OneIf(p, o)
  {
  }

  lemma CopyAssignCounts<O, H>(h: Heap<O, H>, x: H, y: H, o: O)
    requires x in h.ptrs && y in h.ptrs && Points(h, h.ptrs[x]) && Points(h, h.ptrs[y]) && h.ptrs[x] != h.ptrs[y]
    requires h.ptrs[x].Some? ==> h.counts[h.ptrs[x].value] > 0
    requires h.ptrs[y].Some? ==> h.counts[h.ptrs[y].value] < UINT32_LIMIT - 1
    ensures Count(CopyAssigned(h, x, y), o) == Count(h, o) + OneIf(h.ptrs[y], o) - OneIf(h.ptrs[x], o)
  {
    AddRefCounts(h, h.ptrs[y], o);
    ReleaseCounts(AddRefIf(h, h.ptrs[y]), h.ptrs[x], o);
  }

  lemma GivenUpCounts<O, H>(h: Heap<O, H>, x: H, p: Option<O>, o: O)
    requires x in h.ptrs && Points(h, h.ptrs[x]) && (h.ptrs[x].Some? ==> h.counts[h.ptrs[x].value] > 0)
    ensures Count(Attached(h, x, p), o) == Count(h, o) - OneIf(h.ptrs[x], o)
    ensures Count(Released(h, x), o) == Count(h, o) - OneIf(h.ptrs[x], o)
    ensures Count(Destroyed(h, x), o) == Count(h, o) - OneIf(h.ptrs[x], o)
  {
    ReleaseCounts(h, h.ptrs[x], o);
  }

  /** The counters that change have room, or something to take away. */
  predicate Ready<O(==), H(==)>(h: Heap<O, H>, op: Op<O, H>)
    requires Enabled(h, op)
  {
    && Points(h, Added(h, op)) && (Added(h, op).Some? ==> h.counts[Added(h, op).value] < UINT32_LIMIT - 1)
    && Points(h, Lost(h, op)) && (Lost(h, op).Some? ==> h.counts[Lost(h, op).value] > 0)
  }

  lemma GainCounts<O, H>(h: Heap<O, H>, op: Op<O, H>, o: O)
    requires Sound(h) && Enabled(h, op) && Ready(h, op) && (op.New? || op.Copy? || op.RawAddRef?)
    ensures Count(Step(h, op), o) == Count(h, o) + OneIf(Added(h, op), o) + if op == New(o) then 1 else 0
  {
    if op.New? {
      assert Count(Step(h, op), o) == Count(h, o) + OneIf(Some(op.o), o);
    } else {
      AddRefCounts(h, Added(h, op), o);
    }
  }

  lemma AssignCounts<O, H>(h: Heap<O, H>, op: Op<O, H>, o: O)
    requires Sound(h) && Enabled(h, op) && Ready(h, op) && (op.CopyAssign? || op.MoveAssign?)
    ensures Count(Step(h, op), o) == Count(h, o) + OneIf(Added(h, op), o) - OneIf(Lost(h, op), o)
  {
    if h.ptrs[op.x] != h.ptrs[op.y] {
      if op.CopyAssign? { CopyAssignCounts(h, op.x, op.y, o); } else { ReleaseCounts(h, h.ptrs[op.x], o); }
    }
  }

  lemma LossCounts<O, H>(h: Heap<O, H>, op: Op<O, H>, o: O)
    requires Sound(h) && Enabled(h, op) && Ready(h, op)
    requires op.Attach? || op.Out? || op.ReleaseHandle? || op.Destroy? || op.RawRelease?
    ensures Count(Step(h, op), o) == Count(h, o) - OneIf(Lost(h, op), o)
  {
    if op.RawRelease? {
      ReleaseCounts(h, Some(op.o), o);
    } else {
      GivenUpCounts(h, op.x, if op.Attach? || op.Out? then op.p else None, o);
    }
  }

  lemma StepCounts<O, H>(h: Heap<O, H>, op: Op<O, H>, o: O)
    requires Sound(h) && Enabled(h, op) && Ready(h, op)
    ensures Count(Step(h, op), o) ==
            Count(h, o) + OneIf(Added(h, op), o) - OneIf(Lost(h, op), o) + if op == New(o) then 1 else 0
  {
    if op.New? || op.Copy? || op.RawAddRef? {
      GainCounts(h, op, o);
    } else if op.CopyAssign? || op.MoveAssign? {
      AssignCounts(h, op, o);
    } else if op.Attach? || op.Out? || op.ReleaseHandle? || op.Destroy? || op.RawRelease? {
      LossCounts(h, op, o);
    } else {
      assert Step(h, op).counts == h.counts;
    }
  }

  /** Every object has the owners it had before, one more if the step takes a reference to it,
      one less if it gives one up, and one if it is new; moving a reference between handles
      and raw pointers changes nothing. */
  lemma StepOwners<O, H>(h: Heap<O, H>, op: Op<O, H>, o: O)
    requires Conserved(h) && Enabled(h, op) && Roomy(h, op)
    ensures Owners(Step(h, op), o) ==
            Owners(h, o) + OneIf(Added(h, op), o) - OneIf(Lost(h, op), o) + if op == New(o) then 1 else 0
  {
    StepConserves(h, op);
    ReadyFor(h, op);
    StepCounts(h, op, o);
    CountIsOwners(h, o);
    CountIsOwners(Step(h, op), o);
  }

  lemma CountIsOwners<O, H>(h: Heap<O, H>, o: O)
    requires Conserved(h)
    ensures Count(h, o) == Owners(h, o)
  {
    Unowned(h, o);
  }

  lemma ReadyFor<O, H>(h: Heap<O, H>, op: Op<O, H>)
    requires Conserved(h) && Enabled(h, op) && Roomy(h, op)
    ensures Ready(h, op)
  {
    AddsLive(h, op);
    LosesLive(h, op);
  }

  lemma AddsLive<O, H>(h: Heap<O, H>, op: Op<O, H>)
    requires Sound(h) && Enabled(h, op)
    ensures Points(h, Added(h, op))
  {
  }

  lemma LosesLive<O, H>(h: Heap<O, H>, op: Op<O, H>)
    requires Sound(h) && Enabled(h, op)
    ensures Points(h, Lost(h, op))
  {
  }

  // Runs

  function Start<O(==), H(==)>(): Heap<O, H> { Heap(map[], map[], multiset{}, []) }

  /** Every step of the run is enabled, and has room in the counter. */
  ghost predicate Legal<O, H>(h: Heap<O, H>, ops: seq<Op<O, H>>)
    requires Conserved(h)
    decreases |ops|
  {
    ops != [] ==>
      && Enabled(h, ops[0]) && Roomy(h, ops[0])
      && (StepConserves(h, ops[0]); Legal(Step(h, ops[0]), ops[1..]))
  }

  ghost function Run<O, H>(h: Heap<O, H>, ops: seq<Op<O, H>>): Heap<O, H>
    requires Conserved(h) && Legal(h, ops)
    decreases |ops|
  {
    if ops == [] then h else
      StepConserves(h, ops[0]);
      Run(Step(h, ops[0]), ops[1..])
  }

  ghost function Created<O, H>(ops: seq<Op<O, H>>): set<O> {
    set i | 0 <= i < |ops| && ops[i].New? :: ops[i].o
  }

  /** Reference conservation over whole runs; and every object created is, at the end,
      either live or deleted, and deleted once. */
  lemma {:induction false} RunConserves<O, H>(h: Heap<O, H>, ops: seq<Op<O, H>>)
    requires Conserved(h) && Legal(h, ops)
    ensures Conserved(Run(h, ops))
    ensures forall o :: Known(Run(h, ops), o) <==> Known(h, o) || o in Created(ops)
    decreases |ops|
  {
    if ops == [] {
    } else {
      StepConserves(h, ops[0]);
      RunConserves(Step(h, ops[0]), ops[1..]);
      forall o ensures Known(Run(h, ops), o) <==> Known(h, o) || o in Created(ops) {
        StepAccounts(h, ops[0], o);
        CreatedFirst(ops, o);
      }
    }
  }

  /** o has been created, and may have been deleted. */
  predicate Known<O(==), H>(h: Heap<O, H>, o: O) { o in h.counts || o in h.deleted }

  lemma CreatedFirst<O, H>(ops: seq<Op<O, H>>, o: O)
    requires ops != []
    ensures o in Created(ops) <==> (ops[0].New? && ops[0].o == o) || o in Created(ops[1..])
  {
    if o in Created(ops) {
      var i :| 0 <= i < |ops| && ops[i].New? && ops[i].o == o;
      if i > 0 { assert ops[1..][i - 1] == ops[i]; }
    }
    if o in Created(ops[1..]) {
      var i :| 0 <= i < |ops[1..]| && ops[1..][i].New? && ops[1..][i].o == o;
      assert ops[i + 1] == ops[1..][i];
    }
  }

  lemma CountingKnows<O, H>(h: Heap<O, H>, p: Option<O>, o: O)
    requires Points(h, p)
    ensures Known(ReleaseIf(h, p), o) <==> Known(h, o)
    ensures Known(AddRefIf(h, p), o) <==> Known(h, o)
    ensures h.counts.Keys <= AddRefIf(h, p).counts.Keys
  {
  }

  lemma CopiedKnows<O, H>(h: Heap<O, H>, x: H, y: H, o: O)
    requires y in h.ptrs && Points(h, h.ptrs[y])
    ensures Known(Copied(h, x, y), o) <==> Known(h, o)
  {
    CountingKnows(h, h.ptrs[y], o);
  }

  lemma AttachedKnows<O, H>(h: Heap<O, H>, x: H, p: Option<O>, o: O)
    requires x in h.ptrs && Points(h, h.ptrs[x])
    ensures Known(Attached(h, x, p), o) <==> Known(h, o)
    ensures Known(Released(h, x), o) <==> Known(h, o)
    ensures Known(Destroyed(h, x), o) <==> Known(h, o)
  {
    CountingKnows(h, h.ptrs[x], o);
  }

  lemma CopyAssignedKnows<O, H>(h: Heap<O, H>, x: H, y: H, o: O)
    requires x in h.ptrs && y in h.ptrs && Points(h, h.ptrs[x]) && Points(h, h.ptrs[y])
    ensures Known(CopyAssigned(h, x, y), o) <==> Known(h, o)
  {
    CountingKnows(h, h.ptrs[y], o);
    CountingKnows(AddRefIf(h, h.ptrs[y]), h.ptrs[x], o);
  }

  lemma MoveAssignedKnows<O, H>(h: Heap<O, H>, x: H, y: H, o: O)
    requires x in h.ptrs && y in h.ptrs && Points(h, h.ptrs[x])
    ensures Known(MoveAssigned(h, x, y), o) <==> Known(h, o)
  {
    CountingKnows(h, h.ptrs[x], o);
  }

  lemma RawKnows<O, H>(h: Heap<O, H>, q: O, o: O)
    requires q in h.counts
    ensures Known(Shared(h, q), o) <==> Known(h, o)
    ensures Known(Dropped(h, q), o) <==> Known(h, o)
  {
    CountingKnows(h, Some(q), o);
  }

  lemma StepAccounts<O, H>(h: Heap<O, H>, op: Op<O, H>, o: O)
    requires Sound(h) && Enabled(h, op)
    ensures Known(Step(h, op), o) <==> Known(h, o) || (op.New? && op.o == o)
  {
    match op
    case New(q) => assert Known(Step(h, op), o) <==> Known(h, o) || q == o;
    case Copy(x, y) => CopiedKnows(h, x, y, o);
    case CopyAssign(x, y) => CopyAssignedKnows(h, x, y, o);
    case MoveAssign(x, y) => MoveAssignedKnows(h, x, y, o);
    case Attach(x, p) => AttachedKnows(h, x, p, o);
    case Out(x, p) => AttachedKnows(h, x, p, o);
    case ReleaseHandle(x) => AttachedKnows(h, x, None, o);
    case Destroy(x) => AttachedKnows(h, x, None, o);
    case RawAddRef(q) => RawKnows(h, q, o);
    case RawRelease(q) => RawKnows(h, q, o);
    case _ =>
      assert Step(h, op).counts == h.counts && Step(h, op).deleted == h.deleted;
  }

  /** An object is deleted by the step that takes its last owner away, and by no other. */
  lemma DeletedWithLastOwner<O, H>(h: Heap<O, H>, op: Op<O, H>, o: O)
    requires Conserved(h) && Enabled(h, op) && Roomy(h, op) && o in h.counts
    ensures o in Step(h, op).deleted <==> Owners(Step(h, op), o) == 0
    ensures o in Step(h, op).deleted ==> Owners(h, o) > 0
  {
    StepConserves(h, op);
    StepAccounts(h, op, o);
    Unowned(h, o);
    Unowned(Step(h, op), o);
  }

  lemma Unowned<O, H>(h: Heap<O, H>, o: O)
    requires Conserved(h)
    ensures o in h.counts <==> Owners(h, o) > 0
  {
    if o !in h.counts {
      forall x | x in h.ptrs ensures h.ptrs[x] != Some(o) { assert Points(h, h.ptrs[x]); }
      assert Holders(h.ptrs, o) == {};
    }
  }

  /** When all references are given up, nothing is left alive. */
  lemma NothingLeaks<O, H>(h: Heap<O, H>)
    requires Conserved(h) && h.raws == multiset{} && forall x | x in h.ptrs :: h.ptrs[x].None?
    ensures h.counts == map[]
  {
    assert forall o | o in h.counts :: Owners(h, o) == |Holders(h.ptrs, o)| && Holders(h.ptrs, o) == {};
    assert h.counts.Keys == {};
  }
}
