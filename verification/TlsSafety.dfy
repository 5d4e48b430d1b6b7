/** Disciplined runs keep destroyed objects out of every thread's slot, and where the discipline is needed. */
module TlsSafety {
  import opened Words
  import opened TlsRefs
  import opened TlsLaws
  import opened TlsDestructor

  // ---------- the discipline ----------

  predicate Pends(ths: seq<Thread>, x: Todo) {
    exists t | 0 <= t < |ths| :: x in ths[t].todo
  }

  /** The thread is inside a SetCurrent that has not referenced its new object yet. */
  predicate OwesAddRef(th: Thread) {
    exists i | 0 <= i < |th.todo| :: th.todo[i].IncRef?
  }

  /** GetCurrentFunctional has to empty the slot. */
  predicate DropsCurrent(w: World, th: Thread) {
    th.slot.Some? && !(th.slot.value in w.objs && w.objs[th.slot.value].IsFunctional())
  }

  /** What the callers of the macros keep to. A reference is taken to an object that is held, or in the thread's own
      slot, or whose destructor the thread is in; it is not given up while some SetCurrent relies on it. SetCurrent
      is given an object that is held and not being destroyed. A destructor may use its thread's slot, but it does not
      replace it while that very thread is about to reference the slot's object. An object being destroyed is not
      marked again. */
  predicate Disciplined(w: World, e: Event) {
    match e
    case AddRef(t, o) =>
      t < |w.threads| && (w.held[o] > 0 || w.threads[t].slot == Some(o) || InDtor(o) in w.threads[t].todo)
    case SetCurrent(t, p) =>
      t < |w.threads| && (w.threads[t].slot != p ==>
        && !OwesAddRef(w.threads[t])
        && (p.Some? ==> w.held[p.value] > 0 && p.value in w.objs && w.objs[p.value].state != Destroying))
    case GetCurrentFunctional(t) =>
      t < |w.threads| && (DropsCurrent(w, w.threads[t]) ==> !OwesAddRef(w.threads[t]))
    case Release(_, o) => w.held[o] > (if Pends(w.threads, IncRef(o)) then 1 else 0)
    case MarkDestroy(_) => !ReMarks(w, e)
    case _ => true
  }

  predicate DisciplinedRun(w: World, es: seq<Event>)
    decreases |es|
  {
    es == [] ||
    (Disciplined(w, es[0]) && match Step(w, es[0]) case None => true case Some(v) => DisciplinedRun(v, es[1..]))
  }

  // ---------- the invariant ----------

  /** A thread's slot holds no destroyed object; an addref it has yet to do is for the object in its slot, and
      somebody holds that object; the objects whose destructors it is in are being destroyed. */
  ghost predicate ThreadSafe(w: World, th: Thread) {
    && (th.slot.Some? ==> th.slot.value in w.objs && w.objs[th.slot.value].state != Destroying)
    && (forall o :: Count(th.todo, IncRef(o)) <= InSlot(th, o))
    && (forall o :: IncRef(o) in th.todo ==> w.held[o] > 0)
    && (forall o :: InDtor(o) in th.todo ==> o in w.objs && w.objs[o].state == Destroying)
  }

  ghost predicate AllThreadsSafe(w: World) {
    forall t | 0 <= t < |w.threads| :: ThreadSafe(w, w.threads[t])
  }

  ghost predicate Safe(w: World) {
    Conserved(w) && StartsInOrder(w) && AllThreadsSafe(w)
  }

  lemma SafeWeight(w: World, th: Thread, o: Obj)
    requires ThreadSafe(w, th)
    ensures Weight(th, o) >= Count(th.todo, DecRef(o))
    ensures w.held[o] == 0 ==>
      Count(th.todo, IncRef(o)) == 0 && Weight(th, o) == InSlot(th, o) + Count(th.todo, DecRef(o))
  {
    CountMembers(th.todo, IncRef(o));
  }

  lemma {:induction false} TotalBounds(w: World, ths: seq<Thread>, o: Obj, t: nat, u: nat)
    requires forall i | 0 <= i < |ths| :: ThreadSafe(w, ths[i])
    requires t < |ths| && u < |ths|
    ensures 0 <= Weight(ths[t], o) && 0 <= Weight(ths[u], o)
    ensures Total(ths, o) >= if t == u then Weight(ths[t], o) else Weight(ths[t], o) + Weight(ths[u], o)
    decreases |ths|
  {
    hide Weight, ThreadSafe, Count;
    SafeWeight(w, ths[t], o);
    SafeWeight(w, ths[u], o);
    if t == 0 && u == 0 {
      TotalNatural(w, ths[1..], o);
    } else if t == 0 {
      TotalBounds(w, ths[1..], o, u - 1, u - 1);
    } else if u == 0 {
      TotalBounds(w, ths[1..], o, t - 1, t - 1);
    } else {
      SafeWeight(w, ths[0], o);
      TotalBounds(w, ths[1..], o, t - 1, u - 1);
    }
  }

  lemma {:induction false} TotalNatural(w: World, ths: seq<Thread>, o: Obj)
    requires forall i | 0 <= i < |ths| :: ThreadSafe(w, ths[i])
    ensures Total(ths, o) >= 0
  {
    if ths != [] {
      SafeWeight(w, ths[0], o);
      TotalNatural(w, ths[1..], o);
    }
  }

  /** Whatever is held, in a slot or about to be released is counted. */
  lemma Counted(w: World, t: nat, o: Obj)
    requires Safe(w) && o in w.objs && t < |w.threads|
    requires w.held[o] > 0 || w.threads[t].slot == Some(o) || DecRef(o) in w.threads[t].todo
    ensures w.objs[o].cTlsRefs >= 1
  {
    hide Due, Total, Closed, StartsInOrder;
    assert Balanced(w, o);
    CountMembers(w.threads[t].todo, DecRef(o));
    TotalBounds(w, w.threads, o, t, t);
    SafeWeight(w, w.threads[t], o);
  }

  /** When a release is about to take an object's count to zero, nobody else refers to it in any way. */
  lemma LastReference(w: World, t: nat, o: Obj)
    requires Safe(w) && t < |w.threads| && w.threads[t].todo != [] && w.threads[t].todo[0] == DecRef(o)
    requires o in w.objs && w.objs[o].cTlsRefs == 1
    ensures w.held[o] == 0 && Count(w.threads[t].todo, DecRef(o)) == 1
    ensures forall u | 0 <= u < |w.threads| ::
      && w.threads[u].slot != Some(o) && Count(w.threads[u].todo, IncRef(o)) == 0
      && (u != t ==> Count(w.threads[u].todo, DecRef(o)) == 0)
  {
    hide Due, Total, Closed, StartsInOrder;
    assert Balanced(w, o);
    assert DecRef(o) in w.threads[t].todo;
    forall u | 0 <= u < |w.threads|
      ensures w.held[o] == 0 && Count(w.threads[t].todo, DecRef(o)) == 1
      ensures w.threads[u].slot != Some(o) && Count(w.threads[u].todo, IncRef(o)) == 0
      ensures u != t ==> Count(w.threads[u].todo, DecRef(o)) == 0
    {
      TotalBounds(w, w.threads, o, t, u);
      SafeWeight(w, w.threads[t], o);
      SafeWeight(w, w.threads[u], o);
    }
  }

  // ---------- disciplined steps meet the assertions ----------

  /** Where callers keep to the discipline, both assertions of the macros hold. */
  lemma DisciplineMeetsAssertions(w: World, e: Event, v: World)
    requires Safe(w) && Step(w, e) == Some(v) && Disciplined(w, e)
    ensures AddRefAsserted(w, e) && ReleaseAsserted(w, e) && Orderly(w, e)
  {
    hide Conserved, StartsInOrder, Pends, OwesAddRef, DropsCurrent, Replaced, After, Next;
    if e.AddRef? || e.Run? {
      var t := e.t;
      assert ThreadSafe(w, w.threads[t]);
      var o := if e.AddRef? then e.o else w.threads[t].todo[0].o;
      assert e.Run? ==> w.threads[t].todo[0] in w.threads[t].todo;
      if w.held[o] > 0 || w.threads[t].slot == Some(o) || DecRef(o) in w.threads[t].todo {
        Counted(w, t, o);
      }
    }
  }

  // ---------- disciplined steps keep all threads safe ----------

  /** A thread stays safe in a world where its slot's object is not being destroyed, the object it is about to
      reference is still held, and what was being destroyed still is. */
  lemma StaysSafe(w: World, v: World, th: Thread)
    requires ThreadSafe(w, th)
    requires th.slot.Some? ==> th.slot.value in v.objs && v.objs[th.slot.value].state != Destroying
    requires forall o | IncRef(o) in th.todo :: v.held[o] > 0
    requires forall o | InDtor(o) in th.todo :: o in v.objs && v.objs[o].state == Destroying
    ensures ThreadSafe(v, th)
  {
  }

  /** Steps that leave all threads alone, but for one that appears. */
  lemma OtherStepSafe(w: World, e: Event, v: World)
    requires AllThreadsSafe(w) && Step(w, e) == Some(v) && !ReMarks(w, e)
    requires e.Spawn? || e.Init? || e.AddRef? || e.MarkDestroy?
    ensures AllThreadsSafe(v)
  {
    forall t | 0 <= t < |v.threads| ensures ThreadSafe(v, v.threads[t]) {
      if t < |w.threads| { StaysSafe(w, v, w.threads[t]); }
    }
  }

  lemma PushDec(w: World, th: Thread, p: Obj)
    requires ThreadSafe(w, th)
    ensures ThreadSafe(w, th.(todo := [DecRef(p)] + th.todo))
  {
    forall o ensures Count([DecRef(p)] + th.todo, IncRef(o)) == Count(th.todo, IncRef(o)) {
      CountConcat([DecRef(p)], th.todo, IncRef(o));
    }
  }

  lemma ReleaseSafe(w: World, t: nat, p: Obj, v: World)
    requires AllThreadsSafe(w) && Step(w, Release(t, p)) == Some(v) && Disciplined(w, Release(t, p))
    ensures AllThreadsSafe(v)
  {
    hide Free, Count, InSlot;
    forall u | 0 <= u < |v.threads| ensures ThreadSafe(v, v.threads[u]) {
      assert forall o | IncRef(o) in w.threads[u].todo :: Pends(w.threads, IncRef(o));
      StaysSafe(w, v, w.threads[u]);
      if u == t { PushDec(v, w.threads[t], p); }
    }
  }

  /** Replacing the slot of a thread that owes no addref. */
  lemma ReplaceThread(w: World, th: Thread, p: Option<Obj>)
    requires ThreadSafe(w, th) && !OwesAddRef(th)
    requires p.Some? ==> w.held[p.value] > 0 && p.value in w.objs && w.objs[p.value].state != Destroying
    ensures ThreadSafe(w, Replaced(th, p))
  {
    var r := Replaced(th, p);
    if th.slot != p {
      var dec := match th.slot case None => [] case Some(o) => [DecRef(o)];
      var inc := match p case None => [] case Some(o) => [IncRef(o)];
      forall o ensures Count(r.todo, IncRef(o)) <= InSlot(r, o) {
        CountConcat(dec + inc, th.todo, IncRef(o));
        CountConcat(dec, inc, IncRef(o));
        CountMembers(dec, IncRef(o));
        CountMembers(inc, IncRef(o));
        CountMembers(th.todo, IncRef(o));
        if p.Some? { CountOne(IncRef(p.value), IncRef(o)); }
      }
    }
  }

  lemma ReplaceSafe(w: World, t: nat, p: Option<Obj>, v: World)
    requires AllThreadsSafe(w) && t < |w.threads| && !OwesAddRef(w.threads[t])
    requires p.Some? ==> w.held[p.value] > 0 && p.value in w.objs && w.objs[p.value].state != Destroying
    requires v == WithThread(w, t, Replaced(w.threads[t], p))
    ensures AllThreadsSafe(v)
  {
    hide Replaced, OwesAddRef;
    ReplaceThread(w, w.threads[t], p);
    forall u | 0 <= u < |v.threads| ensures ThreadSafe(v, v.threads[u]) {
      assert ThreadSafe(w, v.threads[u]);
      StaysSafe(w, v, v.threads[u]);
    }
  }

  /** A release that is about to call the destructor of o has left nobody with any reference to o. */
  lemma NobodyRefers(w: World, t: nat, o: Obj, u: nat)
    requires Safe(w) && t < |w.threads| && Destroy(o) in w.threads[t].todo && o in w.objs && u < |w.threads|
    ensures w.objs[o].cTlsRefs == w.held[o] == 0 && w.dtorStarts[o] == 0
    ensures w.threads[u].slot != Some(o) && DecRef(o) !in w.threads[u].todo && IncRef(o) !in w.threads[u].todo
  {
    hide Conserved, Owed;
    OwedByOne(w.threads, t, Destroy(o));
    assert InOrder(w, o) && ThreadSafe(w, w.threads[u]);
    if w.held[o] > 0 || w.threads[u].slot == Some(o) || DecRef(o) in w.threads[u].todo { Counted(w, u, o); }
    NotNegative(w, o);
  }

  lemma NotNegative(w: World, o: Obj)
    requires Safe(w) && o in w.objs
    ensures w.objs[o].cTlsRefs >= 0
  {
    hide Total, Closed, StartsInOrder;
    assert Balanced(w, o);
    TotalNatural(w, w.threads, o);
  }

  /** Doing x brings no addref, and a destructor only where x calls it. */
  lemma NextTodo(d: RefData, x: Todo, rest: seq<Todo>, o: Obj)
    ensures var next := Next(d, x) + rest;
      && Count(next, IncRef(o)) <= Count([x] + rest, IncRef(o))
      && (IncRef(o) in next ==> IncRef(o) in rest)
      && (InDtor(o) in next ==> InDtor(o) in rest || x == Destroy(o))
  {
    CountConcat([x], rest, IncRef(o));
    CountConcat(Next(d, x), rest, IncRef(o));
  }

  /** The thread that does its next thing. */
  lemma RunThread(w: World, t: nat, v: World)
    requires AllThreadsSafe(w) && Step(w, Run(t)) == Some(v)
    ensures forall o :: Count(v.threads[t].todo, IncRef(o)) <= InSlot(v.threads[t], o)
    ensures forall o | IncRef(o) in v.threads[t].todo :: v.held[o] > 0
    ensures forall o | InDtor(o) in v.threads[t].todo :: o in v.objs && v.objs[o].state == Destroying
  {
    hide Free, Replaced, Next, Count;
    var todo := w.threads[t].todo;
    assert ThreadSafe(w, w.threads[t]);
    assert todo == [todo[0]] + todo[1..];
    forall o
      ensures Count(v.threads[t].todo, IncRef(o)) <= InSlot(v.threads[t], o)
      ensures IncRef(o) in v.threads[t].todo ==> v.held[o] > 0
      ensures InDtor(o) in v.threads[t].todo ==> o in v.objs && v.objs[o].state == Destroying
    {
      NextTodo(w.objs[todo[0].o], todo[0], todo[1..], o);
      assert IncRef(o) in todo[1..] ==> IncRef(o) in todo;
      assert InDtor(o) in todo[1..] ==> InDtor(o) in todo;
    }
  }

  lemma RunSafe(w: World, t: nat, v: World)
    requires Safe(w) && Step(w, Run(t)) == Some(v)
    ensures AllThreadsSafe(v)
  {
    hide Conserved, StartsInOrder, Count, InSlot, Next, Free, Replaced;
    RunThread(w, t, v);
    var x := w.threads[t].todo[0];
    assert x in w.threads[t].todo;
    forall u | 0 <= u < |v.threads| ensures ThreadSafe(v, v.threads[u]) {
      assert ThreadSafe(w, w.threads[u]);
      if x.Destroy? { NobodyRefers(w, t, x.o, u); }
      if u != t { StaysSafe(w, v, w.threads[u]); }
    }
  }

  lemma StepIsSafe(w: World, e: Event, v: World)
    requires Safe(w) && Step(w, e) == Some(v) && Disciplined(w, e)
    ensures Safe(v)
  {
    hide ThreadSafe, Conserved, StartsInOrder, Pends, OwesAddRef;
    StepConserves(w, e, v);
    DisciplineMeetsAssertions(w, e, v);
    StepIsExact(w, e, v);
    match e
    case Spawn => OtherStepSafe(w, e, v);
    case Init(_) => OtherStepSafe(w, e, v);
    case AddRef(_, _) => OtherStepSafe(w, e, v);
    case MarkDestroy(_) => OtherStepSafe(w, e, v);
    case Release(t, o) => ReleaseSafe(w, t, o, v);
    case SetCurrent(t, p) =>
      if w.threads[t].slot != p { ReplaceSafe(w, t, p, v); } else { assert v == w; }
    case GetCurrentFunctional(t) =>
      if v != w { ReplaceSafe(w, t, None, v); }
    case Run(t) => RunSafe(w, t, v);
  }

  // ---------- disciplined runs ----------

  lemma {:induction false} RunIsSafe(w: World, es: seq<Event>, v: World)
    requires Safe(w) && RunAll(w, es) == Some(v) && DisciplinedRun(w, es)
    ensures Safe(v) && OrderlyRun(w, es) && AddRefsAsserted(w, es)
    decreases |es|
  {
    hide Step, Safe, Disciplined, Orderly, AddRefAsserted;
    if es != [] {
      var x := Step(w, es[0]).value;
      DisciplineMeetsAssertions(w, es[0], x);
      StepIsSafe(w, es[0], x);
      RunIsSafe(x, es[1..], v);
    }
  }

  lemma EmptyIsSafe()
    ensures Safe(EMPTY)
  {
    EmptyInOrder();
  }

  /** After any disciplined run no thread finds a destroyed object in its slot, no destructor has started twice, no
      count is negative, whatever is held is counted and not on its way to a destructor, and the next destructor to
      start finds its object without any other reference. */
  lemma DisciplinedRunsAreSafe(es: seq<Event>, w: World)
    requires RunAll(EMPTY, es) == Some(w) && DisciplinedRun(EMPTY, es)
    ensures Safe(w) && OrderlyRun(EMPTY, es) && AddRefsAsserted(EMPTY, es)
    ensures forall t | 0 <= t < |w.threads| && w.threads[t].slot.Some? ::
      w.threads[t].slot.value in w.objs && w.objs[w.threads[t].slot.value].state != Destroying
    ensures forall o :: w.dtorStarts[o] <= 1
    ensures forall o | o in w.objs ::
      w.objs[o].cTlsRefs >= if w.objs[o].state != Destroying && Entering(w, o) == 0 then 1 else 0
    ensures forall t: nat | t < |w.threads| && w.threads[t].todo != [] && w.threads[t].todo[0].Destroy? ::
      var o := w.threads[t].todo[0].o; w.held[o] == 0 && Holders(w.threads, o) == {}
  {
    hide Step, DisciplinedRun, RunAll, Owed;
    EmptyIsSafe();
    RunIsSafe(EMPTY, es, w);
    forall t | 0 <= t < |w.threads| ensures ThreadSafe(w, w.threads[t]) {
    }
    forall o ensures w.dtorStarts[o] <= 1 { assert InOrder(w, o); }
    forall o | o in w.objs
      ensures w.objs[o].cTlsRefs >= if w.objs[o].state != Destroying && Entering(w, o) == 0 then 1 else 0
    {
      assert InOrder(w, o);
      NotNegative(w, o);
    }
    forall t: nat | t < |w.threads| && w.threads[t].todo != [] && w.threads[t].todo[0].Destroy?
      ensures var o := w.threads[t].todo[0].o; w.held[o] == 0 && Holders(w.threads, o) == {}
    {
      var o := w.threads[t].todo[0].o;
      assert Destroy(o) in w.threads[t].todo;
      assert ThreadClosed(w.threads[t], w.objs.Keys);
      NobodyRefers(w, t, o, t);
      forall u: nat | u < |w.threads| ensures w.threads[u].slot != Some(o) { NobodyRefers(w, t, o, u); }
    }
  }
}
