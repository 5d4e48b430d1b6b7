/** The VBoxTlsRef macros as they run on one thread: objects with a count and a state, and the thread's slot. */
module TlsMacros {
  import opened TlsRefs

  class RefObj {
    var cTlsRefs: int
    var enmTlsRefState: RefState
    const cDtorPairs: nat   // how often the object's destructor takes a reference to it and drops it
    var cDtorCalls: nat     // how often the destructor has been called on the object

    /** VBoxTlsRefInit */
    constructor (cDtorPairs: nat)
      ensures cTlsRefs == 1 && enmTlsRefState == Initialized && cDtorCalls == 0 && this.cDtorPairs == cDtorPairs
    {
      cTlsRefs := 1;
      enmTlsRefState := Initialized;
      cDtorCalls := 0;
      this.cDtorPairs := cDtorPairs;
    }

    /** One reference less; when that was the last one, outside a destructor, the object is marked and its destructor
        called, once. */
    twostate predicate Dropped()
      reads this
    {
      && cTlsRefs == old(cTlsRefs) - 1
      && (if old(cTlsRefs == 1 && enmTlsRefState != Destroying)
          then enmTlsRefState == Destroying && cDtorCalls == old(cDtorCalls) + 1
          else enmTlsRefState == old(enmTlsRefState) && cDtorCalls == old(cDtorCalls))
    }

    method AddRef()
      modifies `cTlsRefs
      ensures cTlsRefs == old(cTlsRefs) + 1
    {
      cTlsRefs := cTlsRefs + 1;
    }

    /** VBoxTlsRefRelease: the steps of a release that nobody disturbs. The destructor is called at most once, however
        often it takes and drops references itself. */
    method Release()
      modifies this
      ensures Dropped()
      decreases if enmTlsRefState == Destroying then 0 else 2
    {
      cTlsRefs := cTlsRefs - 1;
      if cTlsRefs == 0 && enmTlsRefState != Destroying {
        enmTlsRefState := Destroying;
        CallDtor();
      }
    }

    /** A destructor that takes references to its object and drops them again: the object is marked as being destroyed,
        so that none of these releases calls it again. */
    method CallDtor()
      requires enmTlsRefState == Destroying
      modifies this
      ensures cTlsRefs == old(cTlsRefs) && enmTlsRefState == Destroying && cDtorCalls == old(cDtorCalls) + 1
      decreases 1
    {
      cDtorCalls := cDtorCalls + 1;
      for i := 0 to cDtorPairs
        invariant cTlsRefs == old(cTlsRefs) && enmTlsRefState == Destroying && cDtorCalls == old(cDtorCalls) + 1
      {
        AddRef();
        Release();
      }
    }

    method MarkDestroy()
      modifies `enmTlsRefState
      ensures enmTlsRefState == ToBeDestroyed
    {
      enmTlsRefState := ToBeDestroyed;
    }
  }

  class Slot {
    var cur: RefObj?

    /** VBoxTlsRefSetCurrent: nothing at all when the slot holds p already; otherwise the old object is released and
        p gains a reference. */
    method SetCurrent(p: RefObj?)
      modifies this, cur, p
      ensures cur == p
      ensures p == old(cur) && p != null ==> unchanged(p)
      ensures p != old(cur) && p != null ==>
        && p.cTlsRefs == old(p.cTlsRefs) + 1
        && p.enmTlsRefState == old(p.enmTlsRefState) && p.cDtorCalls == old(p.cDtorCalls)
      ensures p != old(cur) && old(cur) != null ==> old(cur).Dropped()
    {
      var oldCur := cur;
      if oldCur != p {
        cur := p;
        if oldCur != null {
          oldCur.Release();
        }
        if p != null {
          p.AddRef();
        }
      }
    }

    /** VBoxTlsRefGetCurrentFunctional: the slot's object if it is functional; an object that is not leaves the slot
        and is released. */
    method GetCurrentFunctional() returns (val: RefObj?)
      modifies this, cur
      ensures val == cur == if old(cur) != null && old(cur.enmTlsRefState) == Initialized then old(cur) else null
      ensures val != null ==> unchanged(val)
      ensures old(cur) != null && val == null ==> old(cur).Dropped()
    {
      if cur == null || cur.enmTlsRefState == Initialized {
        val := cur;
      } else {
        SetCurrent(null);
        val := null;
      }
    }
  }
}
