/** When destructors start: at most once and at the first zero, as long as nobody references a dead object. */
module TlsDestructor {
  import opened Words
  import opened TlsRefs
  import opened TlsLaws

  // ---------- what all threads have yet to do ----------

  /** How many times x is to be done, over all threads. */
  function Owed(ths: seq<Thread>, x: Todo): nat {
    if ths == [] then 0 else Count(ths[0].todo, x) + Owed(ths[1..], x)
  }

  lemma {:induction false} OwedUpdate(ths: seq<Thread>, t: nat, th: Thread, x: Todo)
    requires t < |ths|
    ensures Owed(ths[t := th], x) == Owed(ths, x) - Count(ths[t].todo, x) + Count(th.todo, x)
  {
    if t == 0 {
      assert ths[t := th][1..] == ths[1..];
    } else {
      OwedUpdate(ths[1..], t - 1, th, x);
      assert ths[t := th][1..] == ths[1..][t - 1 := th];
    }
  }

  lemma {:induction false} OwedAppend(ths: seq<Thread>, th: Thread, x: Todo)
    ensures Owed(ths + [th], x) == Owed(ths, x) + Count(th.todo, x)
  {
    if ths == [] {
      assert [] + [th] == [th] && Owed([th], x) == Count(th.todo, x) + Owed([], x);
    } else {
      OwedAppend(ths[1..], th, x);
      assert (ths + [th])[1..] == ths[1..] + [th];
    }
  }

  lemma {:induction false} OwedByOne(ths: seq<Thread>, t: nat, x: Todo)
    requires t < |ths| && x in ths[t].todo
    ensures Owed(ths, x) >= 1
  {
    if t > 0 { OwedByOne(ths[1..], t - 1, x); } else { CountMembers(ths[0].todo, x); }
  }

  lemma {:induction false} QuietOwes(ths: seq<Thread>, x: Todo)
    requires !x.InDtor? && forall t | 0 <= t < |ths| :: Quiet(ths[t].todo)
    ensures Owed(ths, x) == 0
  {
    if ths != [] {
      CountMembers(ths[0].todo, x);
      QuietOwes(ths[1..], x);
    }
  }

  /** The releases of o that have found zero and are on their way to its destructor. */
  function Entering(w: World, o: Obj): nat {
    Owed(w.threads, TestState(o)) + Owed(w.threads, Destroy(o))
  }

  /** Doing y takes y away and puts what is next in its place. */
  lemma RunOwes(w: World, t: nat, v: World, x: Todo)
    requires Step(w, Run(t)) == Some(v)
    ensures var y := w.threads[t].todo[0];
      Owed(v.threads, x) == Owed(w.threads, x) - (if x == y then 1 else 0)
                            + (if Next(w.objs[y.o], y) == [x] then 1 else 0)
  {
    hide Free, Replaced, After, Count;
    var todo := w.threads[t].todo;
    var next := Next(w.objs[todo[0].o], todo[0]);
    OwedUpdate(w.threads, t, v.threads[t], x);
    CountFirst(todo, x);
    CountConcat(next, todo[1..], x);
    CountMembers(next, x);
    if next != [] { CountOne(next[0], x); }
  }

  lemma ReplacedOwes(th: Thread, p: Option<Obj>, x: Todo)
    requires !x.IncRef? && !x.DecRef?
    ensures Count(Replaced(th, p).todo, x) == Count(th.todo, x)
  {
    if th.slot != p {
      var dec := match th.slot case None => [] case Some(q) => [DecRef(q)];
      var inc := match p case None => [] case Some(q) => [IncRef(q)];
      CountConcat(dec + inc, th.todo, x);
      CountConcat(dec, inc, x);
      CountMembers(dec, x);
      CountMembers(inc, x);
    }
  }

  /** Only steps inside a release change how many releases are on their way to a destructor. */
  lemma OtherStepOwes(w: World, e: Event, v: World, x: Todo)
    requires Step(w, e) == Some(v) && !e.Run? && !x.IncRef? && !x.DecRef?
    ensures Owed(v.threads, x) == Owed(w.threads, x)
  {
    hide Step, Free, Replaced;
    StepChanges(w, e, v);
    match Changed(w, e)
    case None =>
      if e.Spawn? { OwedAppend(w.threads, Thread(None, []), x); } else { assert v.threads == w.threads; }
    case Some((t, th)) =>
      OwedUpdate(w.threads, t, th, x);
      match e
      case SetCurrent(_, p) => ReplacedOwes(w.threads[t], p, x);
      case GetCurrentFunctional(_) => ReplacedOwes(w.threads[t], None, x);
      case Release(_, o) =>
        CountConcat([DecRef(o)], w.threads[t].todo, x);
        CountOne(DecRef(o), x);
      case _ =>
  }

  // ---------- the assertions of the macros ----------

  /** The assertion of VBoxTlsRefAddRef, that the new count is above one or the object is being destroyed, holds
      where this step increments a count. It is compiled to nothing unless the including file defines it. */
  predicate AddRefAsserted(w: World, e: Event) {
    match e
    case AddRef(_, o) => o in w.objs ==> w.objs[o].Inc().cTlsRefs > 1 || w.objs[o].state == Destroying
    case Run(t) =>
      t < |w.threads| && w.threads[t].todo != [] && w.threads[t].todo[0].IncRef? && w.threads[t].todo[0].o in w.objs ==>
        var d := w.objs[w.threads[t].todo[0].o]; d.Inc().cTlsRefs > 1 || d.state == Destroying
    case _ => true
  }

  /** The assertion of VBoxTlsRefRelease, that the new count is not negative. */
  predicate ReleaseAsserted(w: World, e: Event) {
    e.Run? && e.t < |w.threads| && w.threads[e.t].todo != [] && w.threads[e.t].todo[0].DecRef?
    && w.threads[e.t].todo[0].o in w.objs ==>
      w.objs[w.threads[e.t].todo[0].o].Dec().cTlsRefs >= 0
  }

  /** MarkDestroy is applied to an object whose destructor has started. */
  predicate ReMarks(w: World, e: Event) {
    e.MarkDestroy? && e.o in w.objs && w.objs[e.o].state == Destroying
  }

  /** A reference is taken to an object whose count is zero and which is not being destroyed. */
  predicate FromZero(w: World, e: Event) {
    match e
    case AddRef(_, o) => o in w.objs && w.objs[o].cTlsRefs == 0 && w.objs[o].state != Destroying
    case Run(t) =>
      && t < |w.threads| && w.threads[t].todo != [] && w.threads[t].todo[0].IncRef? && w.threads[t].todo[0].o in w.objs
      && var d := w.objs[w.threads[t].todo[0].o]; d.cTlsRefs == 0 && d.state != Destroying
    case _ => false
  }

  /** The assertion of AddRef excludes that, and where no count is negative it excludes nothing else. */
  lemma AssertionIsFromZero(w: World, e: Event)
    ensures AddRefAsserted(w, e) ==> !FromZero(w, e)
    ensures (forall o | o in w.objs :: w.objs[o].cTlsRefs >= 0) ==> (AddRefAsserted(w, e) <==> !FromZero(w, e))
  {
  }

  /** The step neither re-marks an object nor takes a reference from zero. */
  predicate Orderly(w: World, e: Event) {
    !ReMarks(w, e) && !FromZero(w, e)
  }

  predicate OrderlyRun(w: World, es: seq<Event>)
    decreases |es|
  {
    es == [] || (Orderly(w, es[0]) && match Step(w, es[0]) case None => true case Some(v) => OrderlyRun(v, es[1..]))
  }

  /** The assertion of AddRef holds throughout the run. */
  predicate AddRefsAsserted(w: World, es: seq<Event>)
    decreases |es|
  {
    es == [] ||
    (AddRefAsserted(w, es[0]) && match Step(w, es[0]) case None => true case Some(v) => AddRefsAsserted(v, es[1..]))
  }

  // ---------- at most once ----------

  /** An object being destroyed has had its destructor started once, and no release is about to start it. Of any
      other object it has not been started, and exactly one release is on its way there if the count is used up. */
  predicate InOrder(w: World, o: Obj) {
    if o !in w.objs then w.dtorStarts[o] == 0 && Entering(w, o) == 0
    else if w.objs[o].state == Destroying then w.dtorStarts[o] == 1 && Owed(w.threads, Destroy(o)) == 0
    else w.dtorStarts[o] == 0 && Entering(w, o) == if w.objs[o].cTlsRefs <= 0 then 1 else 0
  }

  ghost predicate StartsInOrder(w: World) {
    forall o :: InOrder(w, o)
  }

  lemma RunStaysInOrder(w: World, t: nat, v: World, o: Obj)
    requires InOrder(w, o) && Step(w, Run(t)) == Some(v)
    ensures !FromZero(w, Run(t)) ==> InOrder(v, o)
    ensures FromZero(w, Run(t)) && w.threads[t].todo[0].o == o ==> !InOrder(v, o)
  {
    hide Owed, Free, Replaced;
    var x := w.threads[t].todo[0];
    RunOwes(w, t, v, TestState(o));
    RunOwes(w, t, v, Destroy(o));
    OwedByOne(w.threads, t, x);
  }

  /** From a world in order, the world after a step is in order exactly if the step is orderly. */
  lemma StepIsExact(w: World, e: Event, v: World)
    requires StartsInOrder(w) && Step(w, e) == Some(v)
    ensures StartsInOrder(v) <==> Orderly(w, e)
  {
    hide Owed, Free, Replaced, After, Next;
    forall o: Obj
      ensures Orderly(w, e) ==> InOrder(v, o)
      ensures !Orderly(w, e) && Touched(w, e) == Some(o) ==> !InOrder(v, o)
    {
      assert InOrder(w, o);
      if e.Run? {
        RunStaysInOrder(w, e.t, v, o);
      } else {
        OtherStepOwes(w, e, v, TestState(o));
        OtherStepOwes(w, e, v, Destroy(o));
      }
    }
    if !Orderly(w, e) { assert !InOrder(v, Touched(w, e).value); }
  }

  /** The object whose count or mark a step may change. */
  function Touched(w: World, e: Event): Option<Obj> {
    match e
    case AddRef(_, o) => Some(o)
    case MarkDestroy(o) => Some(o)
    case Run(t) => if t < |w.threads| && w.threads[t].todo != [] then Some(w.threads[t].todo[0].o) else None
    case _ => None
  }

  /** However threads and destructors interleave, releases step by step: in every orderly run, so in every run that
      keeps to the assertion of AddRef and never re-marks, no destructor starts twice. */
  lemma {:induction false} DestructorRunsOnce(w: World, es: seq<Event>, v: World)
    requires StartsInOrder(w) && RunAll(w, es) == Some(v) && OrderlyRun(w, es)
    ensures StartsInOrder(v)
    ensures forall o :: v.dtorStarts[o] <= 1
    decreases |es|
  {
    hide Step, Orderly;
    if es != [] {
      var x := Step(w, es[0]).value;
      StepIsExact(w, es[0], x);
      DestructorRunsOnce(x, es[1..], v);
    } else {
      forall o ensures v.dtorStarts[o] <= 1 { assert InOrder(v, o); }
    }
  }

  /** All worlds that the run goes through are in order. */
  ghost predicate AlwaysInOrder(w: World, es: seq<Event>)
    decreases |es|
  {
    StartsInOrder(w) && (es == [] || match Step(w, es[0]) case None => true case Some(v) => AlwaysInOrder(v, es[1..]))
  }

  /** The orderly runs are exactly those that keep starts and counts in order throughout. */
  lemma {:induction false} RunIsExact(w: World, es: seq<Event>)
    requires StartsInOrder(w) && RunAll(w, es).Some?
    ensures AlwaysInOrder(w, es) <==> OrderlyRun(w, es)
    decreases |es|
  {
    hide Step, Orderly, StartsInOrder;
    if es != [] {
      var x := Step(w, es[0]).value;
      StepIsExact(w, es[0], x);
      if StartsInOrder(x) { RunIsExact(x, es[1..]); }
    }
  }

  lemma EmptyInOrder()
    ensures StartsInOrder(EMPTY)
  {
  }

  // ---------- at the first zero ----------

  predicate AtZero(w: World, o: Obj) {
    o in w.objs && w.objs[o].cTlsRefs == 0
  }

  /** At some time in the run the count of o is zero. */
  predicate EverAtZero(w: World, es: seq<Event>, o: Obj)
    decreases |es|
  {
    AtZero(w, o) || (es != [] && match Step(w, es[0]) case None => false case Some(v) => EverAtZero(v, es[1..], o))
  }

  /** The count of o has been used up, or its destructor has started. */
  predicate Spent(w: World, o: Obj) {
    o in w.objs && (w.objs[o].state == Destroying || w.objs[o].cTlsRefs <= 0)
  }

  lemma SpendingStep(w: World, e: Event, v: World, o: Obj)
    requires InOrder(w, o) && Step(w, e) == Some(v) && Orderly(w, e)
    ensures Spent(w, o) ==> Spent(v, o)
    ensures !Spent(w, o) && Spent(v, o) ==> AtZero(v, o)
  {
    hide Owed, Free, Replaced, Next;
    if e.Run? && w.threads[e.t].todo[0] == Destroy(o) {
      OwedByOne(w.threads, e.t, Destroy(o));
      assert Destroy(o) in w.threads[e.t].todo;
    }
  }

  lemma {:induction false} SpentIsEverAtZero(w: World, es: seq<Event>, v: World, o: Obj)
    requires StartsInOrder(w) && RunAll(w, es) == Some(v) && OrderlyRun(w, es)
    requires AtZero(w, o) ==> Spent(w, o)
    ensures Spent(v, o) <==> Spent(w, o) || EverAtZero(w, es, o)
    decreases |es|
  {
    hide Step, Orderly, InOrder;
    if es != [] {
      var x := Step(w, es[0]).value;
      assert InOrder(w, o);
      StepIsExact(w, es[0], x);
      SpendingStep(w, es[0], x, o);
      SpentIsEverAtZero(x, es[1..], v, o);
    }
  }

  /** After such a run, when no macro is under way, the destructor of an object has started, once, exactly if its
      count has been zero at some time. */
  lemma StartsAtZero(es: seq<Event>, v: World, o: Obj)
    requires RunAll(EMPTY, es) == Some(v) && OrderlyRun(EMPTY, es)
    requires forall t | 0 <= t < |v.threads| :: Quiet(v.threads[t].todo)
    ensures v.dtorStarts[o] == if EverAtZero(EMPTY, es, o) then 1 else 0
  {
    hide Step, RunAll, OrderlyRun, Owed;
    EmptyInOrder();
    DestructorRunsOnce(EMPTY, es, v);
    SpentIsEverAtZero(EMPTY, es, v, o);
    QuietOwes(v.threads, TestState(o));
    QuietOwes(v.threads, Destroy(o));
    assert InOrder(v, o);
  }

  // ---------- balanced pairs ----------

  /** An addref and a release by one thread that nobody disturbs. */
  function Pair(u: nat, o: Obj, d: RefData): seq<Event> {
    [AddRef(u, o), Release(u, o)] + seq(ReleaseSteps(d.Inc()), _ => Run(u))
  }

  /** Such a pair starts the destructor if the count was zero and the object not marked as being destroyed, and
      otherwise leaves the world exactly as it was. */
  lemma PairEffect(w: World, u: nat, o: Obj)
    requires u < |w.threads| && Free(w.threads[u]) && o in w.objs
    ensures var d := w.objs[o]; RunAll(w, Pair(u, o, d)) == Some(
      if d.cTlsRefs == 0 && d.state != Destroying
      then Put(w, u, o, d.(state := Destroying), [InDtor(o)] + w.threads[u].todo)
           .(dtorStarts := w.dtorStarts + multiset{o})
      else w)
  {
    hide Step, RunAll;
    var d, todo := w.objs[o], w.threads[u].todo;
    var b := Put(w, u, o, d.Inc(), [DecRef(o)] + todo);
    PairBegins(w, u, o);
    UndisturbedRelease(b, u, o, todo);
    RunConcat(w, [AddRef(u, o), Release(u, o)], seq(ReleaseSteps(d.Inc()), _ => Run(u)));
    if d.cTlsRefs == 0 && d.state != Destroying {
      PutTwice(w, u, o, d.Inc(), [DecRef(o)] + todo, d.(state := Destroying), [InDtor(o)] + todo);
    } else {
      PutTwice(w, u, o, d.Inc(), [DecRef(o)] + todo, d, todo);
      assert w.objs[o := d] == w.objs && w.threads[u := w.threads[u].(todo := todo)] == w.threads;
    }
  }

  lemma PairBegins(w: World, u: nat, o: Obj)
    requires u < |w.threads| && Free(w.threads[u]) && o in w.objs
    ensures RunAll(w, [AddRef(u, o), Release(u, o)])
         == Some(Put(w, u, o, w.objs[o].Inc(), [DecRef(o)] + w.threads[u].todo))
  {
    hide RunAll;
    var a := Step(w, AddRef(u, o)).value;
    RunOne(w, AddRef(u, o));
    Then(w, [AddRef(u, o)], a, Release(u, o));
    assert [AddRef(u, o)] + [Release(u, o)] == [AddRef(u, o), Release(u, o)];
    assert a.held - multiset{o} == w.held;
  }

  /** A destructor that takes a reference to its object and drops it again leaves the world as it was exactly when
      the object is still marked as being destroyed; otherwise the destructor is entered again. */
  lemma BalancedPairInDestructor(w: World, t: nat, o: Obj) returns (v: World)
    requires t < |w.threads| && w.threads[t].todo != [] && w.threads[t].todo[0] == InDtor(o)
    requires o in w.objs && w.objs[o].cTlsRefs == 0
    ensures RunAll(w, Pair(t, o, w.objs[o])) == Some(v)
    ensures v == w <==> w.objs[o].state == Destroying
    ensures w.objs[o].state != Destroying ==>
      v.dtorStarts[o] == w.dtorStarts[o] + 1 && t < |v.threads| && v.threads[t].todo == [InDtor(o)] + w.threads[t].todo
  {
    hide Step, RunAll, Pair;
    PairEffect(w, t, o);
    v := RunAll(w, Pair(t, o, w.objs[o])).value;
  }
}
