/**
  `dncp::com_ptr` of src/inc/dncp.h: a smart pointer that owns one
  reference to an IUnknown-based object. The pointee is reduced to what the
  smart pointer touches, its reference count; AddRef and Release add and
  remove one reference.
*/
module ComPtr {

  /** An IUnknown-based object, as far as reference counting goes. */
  class Unknown {
    var refCount: int

    constructor (count: int)
      ensures refCount == count
    {
      refCount := count;
    }

    /** IUnknown::AddRef: one more reference. */
    method AddRef()
      modifies this
      ensures refCount == old(refCount) + 1
    {
      refCount := refCount + 1;
    }

    /** IUnknown::Release: one reference fewer. */
    method Release()
      modifies this
      ensures refCount == old(refCount) - 1
    {
      refCount := refCount - 1;
    }
  }

  /**
    The smart pointer (src/inc/dncp.h:205-264). Copying is deleted; a
    reference moves between smart pointers only through Detach, Attach and
    the move operations. Every method names in `modifies` exactly the
    objects it may touch, so an unlisted pointee keeps its count.
  */
  class ComPtr {
    var p: Unknown?

    /** Default construction holds null (src/inc/dncp.h:212). */
    constructor Empty()
      ensures p == null
    {
      p := null;
    }

    /**
      Construction from a raw pointer takes a new reference: one AddRef for
      a non-null pointer, nothing for null (src/inc/dncp.h:214-219).
    */
    constructor FromRaw(t: Unknown?)
      modifies t
      ensures p == t
      ensures t != null ==> t.refCount == old(t.refCount) + 1
    {
      p := t;
      new;
      if p != null {
        p.AddRef();
      }
    }

    /**
      Move construction takes over the other pointer's reference: no AddRef,
      and the other pointer is left null (src/inc/dncp.h:223-225).
    */
    constructor Move(other: ComPtr)
      modifies other
      ensures p == old(other.p) && other.p == null
    {
      var t := other.Detach();
      p := t;
    }

    /**
      Release (src/inc/dncp.h:256-263): gives up the held reference, if any,
      and holds null afterwards; on a null pointer it does nothing.
    */
    method Release()
      modifies this, p
      ensures p == null
      ensures old(p) != null ==> old(p).refCount == old(p.refCount) - 1
    {
      if p != null {
        p.Release();
        p := null;
      }
    }

    /** The destructor (src/inc/dncp.h:227) is Release. */
    method Destroy()
      modifies this, p
      ensures p == null
      ensures old(p) != null ==> old(p).refCount == old(p.refCount) - 1
    {
      Release();
    }

    /**
      Attach (src/inc/dncp.h:243-247): releases the held reference, then
      adopts `t` without AddRef.
    */
    method Attach(t: Unknown?)
      modifies this, p
      ensures p == t
      ensures old(p) != null ==> old(p).refCount == old(p.refCount) - 1
    {
      Release();
      p := t;
    }

    /**
      Detach (src/inc/dncp.h:249-254): hands the held reference to the
      caller and holds null; no count changes.
    */
    method Detach() returns (tmp: Unknown?)
      modifies this
      ensures tmp == old(p) && p == null
    {
      tmp := p;
      p := null;
    }

    /**
      Move assignment (src/inc/dncp.h:231-235) is `Attach(other.Detach())`:
      the target's previous reference is released once, the target takes
      the other's reference without AddRef and the other is left null.
      Moving a pointer into itself changes nothing.
    */
    method MoveAssign(other: ComPtr)
      modifies this, other, p
      ensures other == this ==> p == old(p) && (p != null ==> p.refCount == old(p.refCount))
      ensures other != this ==> && p == old(other.p) && other.p == null
                                && (old(p) != null ==> old(p).refCount == old(p.refCount) - 1)
    {
      var t := other.Detach();
      Attach(t);
    }
  }

  /** A smart pointer built and destroyed in one scope leaves the count as it found it. */
  method ScopedReference(obj: Unknown)
    modifies obj
    ensures obj.refCount == old(obj.refCount)
  {
    var t := new ComPtr.FromRaw(obj);
    assert obj.refCount == old(obj.refCount) + 1;
    t.Destroy();
  }

  /** An explicit Release undoes the constructor's AddRef; a second Release is a no-op. */
  method ReleaseTwice(obj: Unknown)
    modifies obj
    ensures obj.refCount == old(obj.refCount)
  {
    var t := new ComPtr.FromRaw(obj);
    t.Release();
    assert t.p == null;
    t.Release();
  }

  /** Attach then Detach hands back the same pointer and never touches the count. */
  method AttachDetach(obj: Unknown) returns (back: Unknown?)
    ensures back == obj
    ensures obj.refCount == old(obj.refCount)
  {
    var t := new ComPtr.Empty();
    t.Attach(obj);
    back := t.Detach();
    t.Destroy();
  }

  /**
    A reference moved through a chain of smart pointers is released exactly
    once, by whichever pointer holds it last.
  */
  method MoveChain(obj: Unknown)
    modifies obj
    ensures obj.refCount == old(obj.refCount)
  {
    var a := new ComPtr.FromRaw(obj);
    var b := new ComPtr.Move(a);
    var c := new ComPtr.Empty();
    c.MoveAssign(b);
    a.Destroy();
    b.Destroy();
    c.Destroy();
  }
}
