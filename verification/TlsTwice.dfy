/** What makes a destructor start twice, exactly. */
module TlsTwice {
  import opened Words
  import opened TlsRefs
  import opened TlsLaws
  import opened TlsDestructor

  // ---------- orderly runs put together ----------

  lemma {:induction false} OrderlyThen(w: World, es: seq<Event>, x: World, e: Event)
    requires RunAll(w, es) == Some(x) && OrderlyRun(w, es) && Orderly(x, e)
    ensures OrderlyRun(w, es + [e]) && RunAll(w, es + [e]) == Step(x, e)
    decreases |es|
  {
    hide Step, Orderly;
    Then(w, es, x, e);
    if es == [] {
      assert [] + [e] == [e];
      assert forall v :: OrderlyRun(v, []);
    } else {
      assert (es + [e])[1..] == es[1..] + [e];
      OrderlyThen(Step(w, es[0]).value, es[1..], x, e);
    }
  }

  /** The steps of a release are orderly wherever they are taken. */
  lemma ReleaseIsOrderly(w: World, es: seq<Event>, x: World, t: nat, o: Obj, rest: seq<Todo>)
    requires RunAll(w, es) == Some(x) && OrderlyRun(w, es)
    requires t < |x.threads| && x.threads[t].todo == [DecRef(o)] + rest && o in x.objs
    requires x.objs[o].cTlsRefs == 1 && x.objs[o].state != Destroying
    ensures OrderlyRun(w, es + [Run(t)] + [Run(t)] + [Run(t)])
    ensures RunAll(w, es + [Run(t)] + [Run(t)] + [Run(t)])
         == Some(Put(x, t, o, RefData(0, Destroying), [InDtor(o)] + rest).(dtorStarts := x.dtorStarts + multiset{o}))
  {
    hide Step, RunAll, OrderlyRun;
    var d := x.objs[o];
    var y := Put(x, t, o, d.Dec(), [TestState(o)] + rest);
    var z := Put(x, t, o, d.Dec(), [Destroy(o)] + rest);
    RunStep(x, t, DecRef(o), rest);
    OrderlyThen(w, es, x, Run(t));
    RunStep(y, t, TestState(o), rest);
    PutTwice(x, t, o, d.Dec(), [TestState(o)] + rest, d.Dec(), [Destroy(o)] + rest);
    OrderlyThen(w, es + [Run(t)], y, Run(t));
    RunStep(z, t, Destroy(o), rest);
    PutTwice(x, t, o, d.Dec(), [Destroy(o)] + rest, RefData(0, Destroying), [InDtor(o)] + rest);
    OrderlyThen(w, es + [Run(t)] + [Run(t)], z, Run(t));
  }

  // ---------- a reference taken from zero ----------

  /** A release has found zero and stands before the test of the state, or before marking the object. */
  predicate StandsBefore(th: Thread, o: Obj) {
    th.todo != [] && (th.todo[0] == TestState(o) || th.todo[0] == Destroy(o))
  }

  /** If another thread then gives up the one reference that there is, both of them call the destructor. */
  lemma BothCall(x: World, t: nat, u: nat, o: Obj, rest: seq<Todo>) returns (fs: seq<Event>, v: World)
    requires t < |x.threads| && u < |x.threads| && t != u && StandsBefore(x.threads[t], o)
    requires x.threads[u].todo == [DecRef(o)] + rest
    requires o in x.objs && x.objs[o].cTlsRefs == 1 && x.objs[o].state != Destroying
    ensures RunAll(x, fs) == Some(v) && OrderlyRun(x, fs) && forall e | e in fs :: !e.MarkDestroy?
    ensures v.dtorStarts[o] == x.dtorStarts[o] + 2
  {
    hide RunAll, OrderlyRun, Put;
    var y;
    fs, y := PassTest(x, t, o);
    ReleaseIsOrderly(x, fs, y, u, o, rest);
    fs := fs + [Run(u)] + [Run(u)] + [Run(u)];
    var a := RunAll(x, fs).value;
    PutKeepsOthers(y, u, o, RefData(0, Destroying), [InDtor(o)] + rest, t);
    OrderlyThen(x, fs, a, Run(t));
    v := Step(a, Run(t)).value;
    fs := fs + [Run(t)];
  }

  lemma {:induction false} OrderlyFirst(x: World, e: Event, y: World, fs: seq<Event>)
    requires Step(x, e) == Some(y) && Orderly(x, e) && OrderlyRun(y, fs)
    ensures OrderlyRun(x, [e] + fs) && RunAll(x, [e] + fs) == RunAll(y, fs)
  {
    hide Step, Orderly;
    assert ([e] + fs)[1..] == fs;
  }

  /** So if another thread takes a reference from zero and drops it. */
  lemma FromZeroStartsTwice(w: World, t: nat, u: nat, o: Obj, x: World) returns (fs: seq<Event>, v: World)
    requires t < |w.threads| && u < |w.threads| && t != u && Free(w.threads[u]) && StandsBefore(w.threads[t], o)
    requires FromZero(w, AddRef(u, o)) && Step(w, AddRef(u, o)) == Some(x)
    ensures RunAll(x, fs) == Some(v) && OrderlyRun(x, fs) && forall e | e in fs :: !e.MarkDestroy?
    ensures v.dtorStarts[o] == w.dtorStarts[o] + 2
  {
    hide RunAll, OrderlyRun, Put;
    var z := Step(x, Release(u, o)).value;
    fs, v := BothCall(z, t, u, o, w.threads[u].todo);
    OrderlyFirst(x, Release(u, o), z, fs);
    fs := [Release(u, o)] + fs;
  }

  /** Or if the reference is the one that SetCurrent takes for its slot, and the slot is emptied again. */
  lemma SetCurrentStartsTwice(w: World, t: nat, u: nat, o: Obj, x: World) returns (fs: seq<Event>, v: World)
    requires t < |w.threads| && u < |w.threads| && t != u && StandsBefore(w.threads[t], o) && Headed(w.threads[u])
    requires w.threads[u].todo != [] && w.threads[u].todo[0] == IncRef(o) && w.threads[u].slot == Some(o)
    requires FromZero(w, Run(u)) && Step(w, Run(u)) == Some(x)
    ensures RunAll(x, fs) == Some(v) && OrderlyRun(x, fs)
    ensures v.dtorStarts[o] == w.dtorStarts[o] + 2
  {
    hide RunAll, OrderlyRun, Put;
    var rest := w.threads[u].todo[1..];
    assert x.threads[u].todo == [] + rest == rest;
    assert Free(x.threads[u]);
    var z := Step(x, SetCurrent(u, None)).value;
    assert [DecRef(o)] + [] + rest == [DecRef(o)] + rest;
    fs, v := BothCall(z, t, u, o, rest);
    OrderlyFirst(x, SetCurrent(u, None), z, fs);
    fs := [SetCurrent(u, None)] + fs;
  }

  lemma PutKeepsOthers(w: World, u: nat, o: Obj, d: RefData, todo: seq<Todo>, t: nat)
    requires u < |w.threads| && t < |w.threads| && t != u
    ensures var v := Put(w, u, o, d, todo);
      |v.threads| == |w.threads| && v.threads[t] == w.threads[t] && v.objs == w.objs[o := d]
      && v.held == w.held && v.dtorStarts == w.dtorStarts
  {
  }

  /** The standing release goes past the test. */
  lemma PassTest(x: World, t: nat, o: Obj) returns (fs: seq<Event>, y: World)
    requires t < |x.threads| && StandsBefore(x.threads[t], o) && o in x.objs && x.objs[o].state != Destroying
    ensures RunAll(x, fs) == Some(y) && OrderlyRun(x, fs) && forall e | e in fs :: !e.MarkDestroy?
    ensures |y.threads| == |x.threads| && y.threads[t].todo != [] && y.threads[t].todo[0] == Destroy(o)
    ensures y == x.(threads := y.threads) && forall u | 0 <= u < |x.threads| && u != t :: y.threads[u] == x.threads[u]
  {
    assert RunAll(x, []) == Some(x) && OrderlyRun(x, []);
    fs, y := [], x;
    if x.threads[t].todo[0] == TestState(o) {
      OrderlyThen(x, [], x, Run(t));
      fs := [] + [Run(t)];
      y := Step(x, Run(t)).value;
      assert y.objs == x.objs;
    }
  }

  /** Some orderly continuation has the destructor of o start twice. */
  ghost predicate MayStartTwice(x: World, o: Obj) {
    exists fs :: OrderlyRun(x, fs) && StartsAfter(x, fs, o) >= 2
  }

  function StartsAfter(x: World, fs: seq<Event>, o: Obj): nat {
    match RunAll(x, fs) case None => 0 case Some(v) => v.dtorStarts[o]
  }

  // ---------- exactly then ----------

  /** A release on its way to a destructor is the innermost thing its thread has to do, and behind the addref of a
      SetCurrent there is nothing but a destructor that the SetCurrent was called from. */
  predicate HeadOnly(w: World) {
    forall t | 0 <= t < |w.threads| :: Headed(w.threads[t])
  }

  predicate Headed(th: Thread) {
    forall i | 1 <= i < |th.todo| ::
      !th.todo[i].TestState? && !th.todo[i].Destroy? && (th.todo[i - 1].IncRef? ==> th.todo[i].InDtor?)
  }

  lemma ChangedIsHeaded(w: World, e: Event)
    requires HeadOnly(w) && Step(w, e).Some? && Changed(w, e).Some?
    ensures Headed(Changed(w, e).value.1)
  {
    hide After;
    var t := Changed(w, e).value.0;
    assert Headed(w.threads[t]);
  }

  lemma StepKeepsHeads(w: World, e: Event, v: World)
    requires HeadOnly(w) && Step(w, e) == Some(v)
    ensures HeadOnly(v)
  {
    hide Step, Changed, Headed;
    StepChanges(w, e, v);
    if Changed(w, e).Some? { ChangedIsHeaded(w, e); } else { assert Headed(Thread(None, [])) by { NewIsHeaded(); } }
    forall t | 0 <= t < |v.threads| ensures Headed(v.threads[t]) {
      if t < |w.threads| { assert Headed(w.threads[t]); }
    }
  }

  lemma NewIsHeaded()
    ensures Headed(Thread(None, []))
  {
  }

  lemma {:induction false} RunKeepsHeads(w: World, es: seq<Event>, v: World)
    requires HeadOnly(w) && RunAll(w, es) == Some(v)
    ensures HeadOnly(v)
    decreases |es|
  {
    hide Step, HeadOnly;
    if es != [] {
      StepKeepsHeads(w, es[0], Step(w, es[0]).value);
      RunKeepsHeads(Step(w, es[0]).value, es[1..], v);
    }
  }

  lemma {:induction false} SomebodyOwes(ths: seq<Thread>, x: Todo) returns (t: nat)
    requires Owed(ths, x) > 0
    ensures t < |ths| && x in ths[t].todo
  {
    CountMembers(ths[0].todo, x);
    if x in ths[0].todo {
      t := 0;
    } else {
      t := SomebodyOwes(ths[1..], x);
      t := t + 1;
    }
  }

  /** In an orderly world, a count of zero means that one release stands before test or marking. */
  lemma SomebodyStands(w: World, o: Obj) returns (t: nat)
    requires InOrder(w, o) && HeadOnly(w) && AtZero(w, o) && w.objs[o].state != Destroying
    ensures t < |w.threads| && StandsBefore(w.threads[t], o)
  {
    hide Owed;
    var x := if Owed(w.threads, TestState(o)) > 0 then TestState(o) else Destroy(o);
    t := SomebodyOwes(w.threads, x);
    assert w.threads[t].todo[0] == x;
  }

  /** From every world that an orderly run reaches: a free thread's addref lets the destructor start twice, in a
      continuation that is orderly itself, exactly when it takes the reference from zero; where no count is negative,
      exactly when it breaks the assertion of AddRef. */
  lemma AddRefIsExact(es: seq<Event>, w: World, u: nat, o: Obj, x: World)
    requires RunAll(EMPTY, es) == Some(w) && OrderlyRun(EMPTY, es)
    requires u < |w.threads| && Free(w.threads[u]) && Step(w, AddRef(u, o)) == Some(x)
    ensures MayStartTwice(x, o) <==> FromZero(w, AddRef(u, o))
    ensures (forall p | p in w.objs :: w.objs[p].cTlsRefs >= 0) ==>
      (MayStartTwice(x, o) <==> !AddRefAsserted(w, AddRef(u, o)))
  {
    hide Step, RunAll, OrderlyRun, Owed, FromZero, HeadOnly, Free, StandsBefore;
    EmptyInOrder();
    DestructorRunsOnce(EMPTY, es, w);
    AssertionIsFromZero(w, AddRef(u, o));
    if FromZero(w, AddRef(u, o)) {
      AddRefFromZero(es, w, u, o, x);
    } else {
      StepIsExact(w, AddRef(u, o), x);
      InOrderNeverTwice(x, o);
    }
  }

  lemma AddRefFromZero(es: seq<Event>, w: World, u: nat, o: Obj, x: World)
    requires RunAll(EMPTY, es) == Some(w) && StartsInOrder(w)
    requires u < |w.threads| && Free(w.threads[u]) && Step(w, AddRef(u, o)) == Some(x) && FromZero(w, AddRef(u, o))
    ensures MayStartTwice(x, o)
  {
    hide Step, RunAll, OrderlyRun, Owed, HeadOnly;
    ReachedHeads(es, w);
    assert InOrder(w, o);
    var t := SomebodyStands(w, o);
    var fs, v := FromZeroStartsTwice(w, t, u, o, x);
    assert StartsAfter(x, fs, o) >= 2;
  }

  /** The same for the addref inside SetCurrent, with the object still in the thread's slot. */
  lemma SetCurrentIsExact(es: seq<Event>, w: World, u: nat, o: Obj, x: World)
    requires RunAll(EMPTY, es) == Some(w) && OrderlyRun(EMPTY, es)
    requires u < |w.threads| && w.threads[u].todo != [] && w.threads[u].todo[0] == IncRef(o)
    requires w.threads[u].slot == Some(o) && Step(w, Run(u)) == Some(x)
    ensures MayStartTwice(x, o) <==> FromZero(w, Run(u))
    ensures (forall p | p in w.objs :: w.objs[p].cTlsRefs >= 0) ==>
      (MayStartTwice(x, o) <==> !AddRefAsserted(w, Run(u)))
  {
    hide Step, RunAll, OrderlyRun, Owed, HeadOnly, Headed;
    EmptyInOrder();
    DestructorRunsOnce(EMPTY, es, w);
    AssertionIsFromZero(w, Run(u));
    if FromZero(w, Run(u)) {
      ReachedHeads(es, w);
      assert InOrder(w, o);
      var t := SomebodyStands(w, o);
      assert Headed(w.threads[u]) by { ThreadIsHeaded(w, u); }
      var fs, v := SetCurrentStartsTwice(w, t, u, o, x);
      assert StartsAfter(x, fs, o) >= 2;
    } else {
      StepIsExact(w, Run(u), x);
      InOrderNeverTwice(x, o);
    }
  }

  lemma ThreadIsHeaded(w: World, u: nat)
    requires HeadOnly(w) && u < |w.threads|
    ensures Headed(w.threads[u])
  {
  }

  lemma InOrderNeverTwice(x: World, o: Obj)
    requires StartsInOrder(x)
    ensures !MayStartTwice(x, o)
  {
    hide RunAll, OrderlyRun;
    forall fs | OrderlyRun(x, fs) ensures StartsAfter(x, fs, o) < 2 {
      if RunAll(x, fs).Some? { DestructorRunsOnce(x, fs, RunAll(x, fs).value); }
    }
  }

  lemma ReachedHeads(es: seq<Event>, w: World)
    requires RunAll(EMPTY, es) == Some(w)
    ensures HeadOnly(w)
  {
    hide RunAll, HeadOnly;
    assert HeadOnly(EMPTY) by { NoHeads(); }
    RunKeepsHeads(EMPTY, es, w);
  }

  lemma NoHeads()
    ensures HeadOnly(EMPTY)
  {
  }

  /** Giving up the last reference leaves a release about to call the destructor. */
  lemma LastReleaseEnters(w: World, t: nat, o: Obj)
    requires t < |w.threads| && Free(w.threads[t]) && o in w.held
    requires o in w.objs && w.objs[o].cTlsRefs == 1 && w.objs[o].state != Destroying
    ensures RunAll(w, [Release(t, o), Run(t), Run(t)])
         == Some(Put(w, t, o, w.objs[o].Dec(), [Destroy(o)] + w.threads[t].todo).(held := w.held - multiset{o}))
  {
    hide RunAll;
    var d, todo := w.objs[o], w.threads[t].todo;
    var a := Step(w, Release(t, o)).value;
    var b := Put(a, t, o, d.Dec(), [TestState(o)] + todo);
    RunStep(a, t, DecRef(o), todo);
    RunStep(b, t, TestState(o), todo);
    assert a.threads[t := w.threads[t].(todo := [Destroy(o)] + todo)]
        == w.threads[t := w.threads[t].(todo := [Destroy(o)] + todo)];
    PutTwice(a, t, o, d.Dec(), [TestState(o)] + todo, d.Dec(), [Destroy(o)] + todo);
    RunOne(w, Release(t, o));
    Then(w, [Release(t, o)], a, Run(t));
    Then(w, [Release(t, o)] + [Run(t)], b, Run(t));
    assert [Release(t, o)] + [Run(t)] + [Run(t)] == [Release(t, o), Run(t), Run(t)];
  }

  lemma TwoThreadsOneObject() returns (w: World)
    ensures RunAll(EMPTY, [Spawn, Spawn, Init(0)]) == Some(w)
    ensures w == World(map[0 := RefData(1, Initialized)], [Thread(None, []), Thread(None, [])], multiset{0}, multiset{})
  {
    hide RunAll;
    var x := Step(EMPTY, Spawn).value;
    var y := Step(x, Spawn).value;
    w := Step(y, Init(0)).value;
    RunOne(EMPTY, Spawn);
    Then(EMPTY, [Spawn], x, Spawn);
    Then(EMPTY, [Spawn] + [Spawn], y, Init(0));
    assert [Spawn] + [Spawn] + [Init(0)] == [Spawn, Spawn, Init(0)];
  }

  /** Two threads and one object come to that point, so without the assertion a destructor can start twice although
      nobody ever re-marks an object. */
  lemma DestructorMayStartTwice() returns (es: seq<Event>, v: World)
    ensures RunAll(EMPTY, es) == Some(v) && (forall e | e in es :: !e.MarkDestroy?) && v.dtorStarts[0] == 2
  {
    hide RunAll, Step, OrderlyRun;
    var start, last := [Spawn, Spawn, Init(0)], [Release(0, 0), Run(0), Run(0)];
    var w := TwoThreadsOneObject();
    LastReleaseEnters(w, 0, 0);
    RunConcat(EMPTY, start, last);
    var x := RunAll(EMPTY, start + last).value;
    var y := AddRefStep(x, 1, 0);
    var fs;
    fs, v := FromZeroStartsTwice(x, 0, 1, 0, y);
    Then(EMPTY, start + last, x, AddRef(1, 0));
    RunConcat(EMPTY, start + last + [AddRef(1, 0)], fs);
    es := start + last + [AddRef(1, 0)] + fs;
  }

  lemma AddRefStep(x: World, u: nat, o: Obj) returns (y: World)
    requires u < |x.threads| && Free(x.threads[u]) && o in x.objs
    ensures Step(x, AddRef(u, o)) == Some(y)
  {
    y := Step(x, AddRef(u, o)).value;
  }

  // ---------- re-marking alone ----------

  lemma {:induction false} AssertedThen(w: World, es: seq<Event>, x: World, e: Event)
    requires RunAll(w, es) == Some(x) && AddRefsAsserted(w, es) && AddRefAsserted(x, e)
    ensures AddRefsAsserted(w, es + [e]) && RunAll(w, es + [e]) == Step(x, e)
    decreases |es|
  {
    hide Step, AddRefAsserted;
    Then(w, es, x, e);
    if es == [] {
      assert [] + [e] == [e];
      assert forall v :: AddRefsAsserted(v, []);
    } else {
      assert (es + [e])[1..] == es[1..] + [e];
      AssertedThen(Step(w, es[0]).value, es[1..], x, e);
    }
  }

  /** A thread takes a reference to an object that is being destroyed, marks the object, and is about to give the
      reference up. */
  lemma MarksWhileHolding(w: World, u: nat, o: Obj) returns (x: World)
    requires u < |w.threads| && Free(w.threads[u]) && o in w.objs && w.objs[o].state == Destroying
    ensures var es := [AddRef(u, o), MarkDestroy(o), Release(u, o)];
      RunAll(w, es) == Some(x) && AddRefsAsserted(w, es)
    ensures u < |x.threads| && x.threads[u].todo == [DecRef(o)] + w.threads[u].todo && o in x.objs
    ensures x.objs[o] == RefData(w.objs[o].cTlsRefs + 1, ToBeDestroyed) && x.dtorStarts == w.dtorStarts
  {
    hide RunAll, AddRefsAsserted, Free;
    var a := Step(w, AddRef(u, o)).value;
    var b := Step(a, MarkDestroy(o)).value;
    x := Step(b, Release(u, o)).value;
    Nothing(w);
    AssertedThen(w, [], w, AddRef(u, o));
    AssertedThen(w, [] + [AddRef(u, o)], a, MarkDestroy(o));
    AssertedThen(w, [] + [AddRef(u, o)] + [MarkDestroy(o)], b, Release(u, o));
    assert [] + [AddRef(u, o)] + [MarkDestroy(o)] + [Release(u, o)] == [AddRef(u, o), MarkDestroy(o), Release(u, o)];
  }

  lemma Nothing(w: World)
    ensures RunAll(w, []) == Some(w) && OrderlyRun(w, []) && AddRefsAsserted(w, [])
  {
  }

  /** Where the assertion of AddRef holds throughout, re-marking alone does it: in any world in order, a thread takes
      a reference to an object that is being destroyed with count zero, marks it, and gives the reference up. */
  lemma ReMarkStartsTwice(w: World, u: nat, o: Obj) returns (v: World)
    requires StartsInOrder(w) && u < |w.threads| && Free(w.threads[u])
    requires o in w.objs && w.objs[o] == RefData(0, Destroying)
    ensures var es := [AddRef(u, o), MarkDestroy(o), Release(u, o), Run(u), Run(u), Run(u)];
      RunAll(w, es) == Some(v) && AddRefsAsserted(w, es) && v.dtorStarts[o] == 2
  {
    hide RunAll, AddRefsAsserted, Free, Step, Owed;
    assert InOrder(w, o);
    var rest, es := w.threads[u].todo, [AddRef(u, o), MarkDestroy(o), Release(u, o)];
    var x := MarksWhileHolding(w, u, o);
    var y := Put(x, u, o, RefData(0, ToBeDestroyed), [TestState(o)] + rest);
    var z := Put(x, u, o, RefData(0, ToBeDestroyed), [Destroy(o)] + rest);
    RunStep(x, u, DecRef(o), rest);
    AssertedThen(w, es, x, Run(u));
    RunStep(y, u, TestState(o), rest);
    PutTwice(x, u, o, RefData(0, ToBeDestroyed), [TestState(o)] + rest, RefData(0, ToBeDestroyed), [Destroy(o)] + rest);
    AssertedThen(w, es + [Run(u)], y, Run(u));
    RunStep(z, u, Destroy(o), rest);
    AssertedThen(w, es + [Run(u)] + [Run(u)], z, Run(u));
    assert es + [Run(u)] + [Run(u)] + [Run(u)] == [AddRef(u, o), MarkDestroy(o), Release(u, o), Run(u), Run(u), Run(u)];
    v := Step(z, Run(u)).value;
  }

  lemma {:induction false} OrderlyConcat(w: World, es: seq<Event>, x: World, fs: seq<Event>)
    requires RunAll(w, es) == Some(x) && OrderlyRun(w, es) && OrderlyRun(x, fs)
    ensures OrderlyRun(w, es + fs) && RunAll(w, es + fs) == RunAll(x, fs)
    decreases |es|
  {
    hide Step, Orderly;
    if es == [] {
      assert es + fs == fs;
    } else {
      assert (es + fs)[1..] == es[1..] + fs;
      OrderlyConcat(Step(w, es[0]).value, es[1..], x, fs);
    }
  }

  /** No macro is under way anywhere; destructors may be. */
  predicate AllQuiet(w: World) {
    forall t | 0 <= t < |w.threads| :: Quiet(w.threads[t].todo)
  }

  /** Where an object is referenced somebody can begin to release it: a thread with the object in its slot, or any
      thread for an explicit reference. */
  lemma BeginsRelease(x: World, o: Obj) returns (fs: seq<Event>, y: World, u: nat)
    requires Conserved(x) && AllQuiet(x) && o in x.objs && x.objs[o].cTlsRefs >= 1
    ensures RunAll(x, fs) == Some(y) && OrderlyRun(x, fs) && Conserved(y) && o in y.objs && u < |y.threads|
    ensures y.threads[u].todo != [] && y.threads[u].todo[0] == DecRef(o) && Quiet(y.threads[u].todo[1..])
    ensures forall t | 0 <= t < |y.threads| && t != u :: Quiet(y.threads[t].todo)
    ensures y.objs[o] == x.objs[o] && y.dtorStarts == x.dtorStarts
  {
    hide RunAll, OrderlyRun, Conserved, Total, Due;
    assert Balanced(x, o) by { ConservedBalances(x, o); }
    TotalIsHolders(x.threads, o);
    Nothing(x);
    if x.held[o] > 0 {
      var a := Step(x, Spawn).value;
      StepConserves(x, Spawn, a);
      OrderlyThen(x, [], x, Spawn);
      u := |x.threads|;
      OrderlyThen(x, [] + [Spawn], a, Release(u, o));
      y := Step(a, Release(u, o)).value;
      StepConserves(a, Release(u, o), y);
      fs := [] + [Spawn] + [Release(u, o)];
    } else {
      u :| u in Holders(x.threads, o);
      assert Quiet(x.threads[u].todo);
      OrderlyThen(x, [], x, SetCurrent(u, None));
      y := Step(x, SetCurrent(u, None)).value;
      StepConserves(x, SetCurrent(u, None), y);
      assert [DecRef(o)] + [] + x.threads[u].todo == [DecRef(o)] + x.threads[u].todo;
      fs := [] + [SetCurrent(u, None)];
    }
  }

  lemma ConservedBalances(x: World, o: Obj)
    requires Conserved(x) && o in x.objs
    ensures Balanced(x, o)
  {
  }

  /** One reference after the other can be dropped until the last release calls the destructor. */
  lemma {:induction false} DropsAll(x: World, o: Obj) returns (fs: seq<Event>, v: World)
    requires Conserved(x) && AllQuiet(x) && o in x.objs && x.objs[o].cTlsRefs >= 1 && x.objs[o].state != Destroying
    ensures RunAll(x, fs) == Some(v) && OrderlyRun(x, fs) && v.dtorStarts[o] == x.dtorStarts[o] + 1
    decreases x.objs[o].cTlsRefs
  {
    hide RunAll, OrderlyRun, Conserved, Quiet;
    var y, u;
    fs, y, u := BeginsRelease(x, o);
    var rest := y.threads[u].todo[1..];
    assert y.threads[u].todo == [DecRef(o)] + rest;
    if y.objs[o].cTlsRefs == 1 {
      ReleaseIsOrderly(x, fs, y, u, o, rest);
      fs := fs + [Run(u)] + [Run(u)] + [Run(u)];
      v := RunAll(x, fs).value;
    } else {
      RunStep(y, u, DecRef(o), rest);
      var z := Step(y, Run(u)).value;
      assert [] + rest == rest;
      StepConserves(y, Run(u), z);
      OrderlyThen(x, fs, y, Run(u));
      var gs;
      gs, v := DropsAll(z, o);
      OrderlyConcat(x, fs + [Run(u)], z, gs);
      fs := fs + [Run(u)] + gs;
    }
  }

  /** An object marked again with its count used up and no release on its way. */
  predicate Stuck(w: World, o: Obj) {
    o in w.objs && w.objs[o].state != Destroying && w.objs[o].cTlsRefs <= 0 && Entering(w, o) == 0
  }

  lemma StuckStep(w: World, o: Obj, e: Event, v: World)
    requires Stuck(w, o) && Step(w, e) == Some(v) && Orderly(w, e)
    ensures Stuck(v, o) && v.dtorStarts[o] == w.dtorStarts[o]
  {
    hide Owed, Free, Replaced;
    if e.Run? {
      var y := w.threads[e.t].todo[0];
      RunOwes(w, e.t, v, TestState(o));
      RunOwes(w, e.t, v, Destroy(o));
      OwedByOne(w.threads, e.t, y);
    } else {
      OtherStepOwes(w, e, v, TestState(o));
      OtherStepOwes(w, e, v, Destroy(o));
    }
  }

  lemma {:induction false} StuckRun(w: World, o: Obj, es: seq<Event>, v: World)
    requires Stuck(w, o) && RunAll(w, es) == Some(v) && OrderlyRun(w, es)
    ensures v.dtorStarts[o] == w.dtorStarts[o]
    decreases |es|
  {
    hide Step, Orderly, Stuck;
    if es != [] {
      StuckStep(w, o, es[0], Step(w, es[0]).value);
      StuckRun(Step(w, es[0]).value, o, es[1..], v);
    }
  }

  lemma EmptyIsConserved()
    ensures Conserved(EMPTY)
  {
  }

  /** From every world that an orderly run reaches, between operations: marking an object lets its destructor start
      twice, in an orderly continuation, exactly when the object is being destroyed already and still referenced. */
  lemma MarkIsExact(es: seq<Event>, w: World, o: Obj, x: World)
    requires RunAll(EMPTY, es) == Some(w) && OrderlyRun(EMPTY, es) && AllQuiet(w)
    requires Step(w, MarkDestroy(o)) == Some(x)
    ensures MayStartTwice(x, o) <==> ReMarks(w, MarkDestroy(o)) && w.objs[o].cTlsRefs > 0
  {
    hide RunAll, OrderlyRun, Owed, Conserved, Quiet;
    EmptyInOrder();
    DestructorRunsOnce(EMPTY, es, w);
    EmptyIsConserved();
    RunConserves(EMPTY, es, w);
    assert InOrder(w, o);
    if !ReMarks(w, MarkDestroy(o)) {
      StepIsExact(w, MarkDestroy(o), x);
      InOrderNeverTwice(x, o);
    } else if w.objs[o].cTlsRefs > 0 {
      StepConserves(w, MarkDestroy(o), x);
      var fs, v := DropsAll(x, o);
      assert StartsAfter(x, fs, o) >= 2;
    } else {
      QuietOwes(w.threads, TestState(o));
      forall fs | OrderlyRun(x, fs) ensures StartsAfter(x, fs, o) < 2 {
        if RunAll(x, fs).Some? { StuckRun(x, o, fs, RunAll(x, fs).value); }
      }
    }
  }
}
