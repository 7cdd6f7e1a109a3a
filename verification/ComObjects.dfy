/** The classes of src/include/com.hpp and src/7zip/com.cpp, updated in place. The ghost
    World records which objects and handles exist; every method is proved to take one step
    of ComHeaps.Step, whose conservation law is proved there. */
module ComObjects {
  import opened Basics
  import opened ComHeaps

  class UnknownImp {
    var refCounter: UInt32

    /** `new T`: the caller owns the one reference. */
    constructor (ghost w: World)
      requires w.Valid()
      modifies w
      ensures w.Valid() && this !in old(w.heap.counts) && this !in old(w.heap.deleted)
      ensures w.heap == old(w.heap).(counts := old(w.heap).counts[this := 1], raws := old(w.heap).raws + multiset{this})
    {
      refCounter := 1;
      new;
      w.heap := w.heap.(counts := w.heap.counts[this := 1], raws := w.heap.raws + multiset{this});
    }

    method AddRef(ghost w: World)
      requires w.Valid() && this in w.heap.counts
      modifies this, w
      ensures w.Valid() && w.heap == ComHeaps.AddRef(old(w.heap), this)
    {
      refCounter := Increment32(refCounter);
      w.heap := ComHeaps.AddRef(w.heap, this);
    }

    /** Deletion takes the object out of the heap. */
    method Release(ghost w: World) returns (deleted: bool)
      requires w.Valid() && this in w.heap.counts
      modifies this, w
      ensures w.Valid() && w.heap == ComHeaps.Release(old(w.heap), this)
      ensures deleted <==> this !in w.heap.counts
    {
      refCounter := Decrement32(refCounter);
      deleted := refCounter == 0;
      w.heap := ComHeaps.Release(w.heap, this);
    }

    /** AddRef on behalf of a new owner of a raw pointer. */
    method Share(ghost w: World)
      requires w.Valid() && this in w.heap.counts
      modifies this, w
      ensures w.Valid() && w.heap == Shared(old(w.heap), this)
    {
      AddRef(w);
      w.heap := w.heap.(raws := w.heap.raws + multiset{this});
    }

    /** Release by the owner of a raw pointer. */
    method Drop(ghost w: World) returns (deleted: bool)
      requires w.Valid() && this in w.heap.counts
      modifies this, w
      ensures w.Valid() && w.heap == Dropped(old(w.heap), this)
      ensures deleted <==> this !in w.heap.counts
    {
      deleted := Release(w);
      w.heap := w.heap.(raws := w.heap.raws - multiset{this});
    }

    /** `QueryInterface`: on success the caller owns one more reference; otherwise the
        out-parameter, if there is one, is nulled. */
    method QueryInterface(supported: bool, wanted: bool, ghost w: World) returns (ok: bool, p: UnknownImp?)
      requires w.Valid() && this in w.heap.counts
      modifies this, w
      ensures w.Valid() && (ok <==> wanted && supported)
      ensures if ok then p == this && w.heap == Shared(old(w.heap), this)
              else p == null && w.heap == old(w.heap)
    {
      if wanted && supported {
        Share(w);
        return true, this;
      }
      return false, null;
    }
  }

  type WorldHeap = Heap<UnknownImp, ComObject>

  function Opt(p: UnknownImp?): Option<UnknownImp> {
    if p == null then None else Some(p)
  }

  class World {
    ghost var heap: WorldHeap

    /** The heap describes the fields of the objects and handles that exist. */
    ghost predicate Valid()
      reads this, heap.counts.Keys, heap.ptrs.Keys
    {
      && (forall o | o in heap.counts :: o.refCounter == heap.counts[o])
      && (forall x | x in heap.ptrs :: Opt(x.ptr) == heap.ptrs[x])
    }

    constructor ()
      ensures Valid() && heap == Start()
    {
      heap := Start();
    }
  }

  class ComObject {
    var ptr: UnknownImp?

    function Target(): set<UnknownImp>
      reads this
    {
      if ptr == null then {} else {ptr}
    }

    constructor Default(ghost w: World)
      requires w.Valid()
      modifies w
      ensures w.Valid() && this !in old(w.heap.ptrs) && w.heap == old(w.heap).(ptrs := old(w.heap).ptrs[this := None])
    {
      ptr := null;
      new;
      w.heap := w.heap.(ptrs := w.heap.ptrs[this := None]);
    }

    /** Takes p over without AddRef. */
    constructor FromPointer(p: UnknownImp?, ghost w: World)
      requires w.Valid() && (p != null ==> p in w.heap.raws)
      modifies w
      ensures w.Valid() && this !in old(w.heap.ptrs) && w.heap == Adopted(old(w.heap), this, Opt(p))
    {
      ptr := p;
      new;
      w.heap := Adopted(w.heap, this, Opt(p));
    }

    constructor Copy(other: ComObject, ghost w: World)
      requires w.Valid() && other in w.heap.ptrs && Points(w.heap, w.heap.ptrs[other])
      modifies w, other.Target()
      ensures w.Valid() && this !in old(w.heap.ptrs) && w.heap == Copied(old(w.heap), this, other)
    {
      ptr := other.ptr;
      new;
      if ptr != null { ptr.AddRef(w); }
      w.heap := w.heap.(ptrs := w.heap.ptrs[this := Opt(ptr)]);
    }

    constructor MoveFrom(other: ComObject, ghost w: World)
      requires w.Valid() && other in w.heap.ptrs
      modifies w, other
      ensures w.Valid() && this !in old(w.heap.ptrs) && w.heap == Moved(old(w.heap), this, other)
    {
      ptr := other.ptr;
      new;
      other.ptr := null;
      w.heap := w.heap.(ptrs := w.heap.ptrs[this := w.heap.ptrs[other]][other := None]);
    }

    method Release(ghost w: World)
      requires w.Valid() && this in w.heap.ptrs && Points(w.heap, w.heap.ptrs[this])
      modifies this, w, Target()
      ensures w.Valid() && w.heap == Released(old(w.heap), this) && ptr == null
    {
      if ptr != null {
        var deleted := ptr.Release(w);
        ptr := null;
      }
      w.heap := w.heap.(ptrs := w.heap.ptrs[this := None]);
    }

    /** The destructor: the handle ceases to exist. */
    method Destroy(ghost w: World)
      requires w.Valid() && this in w.heap.ptrs && Points(w.heap, w.heap.ptrs[this])
      modifies this, w, Target()
      ensures w.Valid() && w.heap == Destroyed(old(w.heap), this)
    {
      DestroyParts(w.heap, this);
      Release(w);
      w.heap := w.heap.(ptrs := w.heap.ptrs - {this});
    }

    method Swap(other: ComObject, ghost w: World)
      requires w.Valid() && this in w.heap.ptrs && other in w.heap.ptrs
      modifies this, other, w
      ensures w.Valid() && w.heap == Swapped(old(w.heap), this, other)
      ensures ptr == old(other.ptr) && other.ptr == old(ptr)
    {
      ptr, other.ptr := other.ptr, ptr;
      w.heap := w.heap.(ptrs := w.heap.ptrs[this := w.heap.ptrs[other]][other := w.heap.ptrs[this]]);
    }

    /** Copy assignment: a temporary copy, swapped in, takes the old pointer away. */
    method CopyAssign(other: ComObject, ghost w: World)
      requires w.Valid() && this in w.heap.ptrs && other in w.heap.ptrs
      requires Points(w.heap, w.heap.ptrs[this]) && Points(w.heap, w.heap.ptrs[other])
      modifies this, w, Target(), other.Target()
      ensures w.Valid() && w.heap == CopyAssigned(old(w.heap), this, other)
    {
      if ptr != other.ptr {
        var temporary := new ComObject.Copy(other, w);
        CopyAndSwap(old(w.heap), this, other, temporary);
        temporary.Swap(this, w);
        temporary.Destroy(w);
      }
    }

    /** Move assignment: nothing happens when both point to the same object already. */
    method MoveAssign(other: ComObject, ghost w: World)
      requires w.Valid() && this in w.heap.ptrs && other in w.heap.ptrs
      requires Points(w.heap, w.heap.ptrs[this]) && Points(w.heap, w.heap.ptrs[other])
      modifies this, other, w, Target()
      ensures w.Valid() && w.heap == MoveAssigned(old(w.heap), this, other)
    {
      if ptr != other.ptr {
        var temporary := new ComObject.MoveFrom(other, w);
        MoveAndSwap(old(w.heap), this, other, temporary);
        temporary.Swap(this, w);
        temporary.Destroy(w);
      }
    }

    /** The raw pointer passed in is emptied. */
    method Attach(p: UnknownImp?, ghost w: World) returns (other: UnknownImp?)
      requires w.Valid() && this in w.heap.ptrs && Points(w.heap, w.heap.ptrs[this])
      requires p != null ==> p in w.heap.raws
      modifies this, w, Target()
      ensures w.Valid() && w.heap == Attached(old(w.heap), this, Opt(p))
      ensures ptr == p && other == null
    {
      AttachParts(w.heap, this, Opt(p));
      Release(w);
      ptr := p;
      other := null;
      w.heap := Adopted(w.heap, this, Opt(p));
    }

    /** `operator&`, then a callee that stores p, or nothing. */
    method Out(p: UnknownImp?, ghost w: World)
      requires w.Valid() && this in w.heap.ptrs && Points(w.heap, w.heap.ptrs[this])
      requires p != null ==> p in w.heap.raws
      modifies this, w, Target()
      ensures w.Valid() && w.heap == Attached(old(w.heap), this, Opt(p)) && ptr == p
    {
      AttachParts(w.heap, this, Opt(p));
      Release(w);
      if p != null { Store(p, w); }
      assert w.heap.raws - multiset{} == w.heap.raws;
    }

    /** The store of the callee through the pointer that `operator&` returned. */
    method Store(p: UnknownImp, ghost w: World)
      requires w.Valid() && this in w.heap.ptrs && ptr == null && p in w.heap.raws
      modifies this, w
      ensures w.Valid() && w.heap == Adopted(old(w.heap), this, Some(p)) && ptr == p
    {
      ptr := p;
      w.heap := Adopted(w.heap, this, Some(p));
    }

    method Detach(ghost w: World) returns (other: UnknownImp?)
      requires w.Valid() && this in w.heap.ptrs
      modifies this, w
      ensures w.Valid() && w.heap == Detached(old(w.heap), this)
      ensures other == old(ptr) && ptr == null
    {
      other := ptr;
      ptr := null;
      w.heap := Detached(w.heap, this);
    }
  }
}
