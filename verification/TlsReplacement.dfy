/** Replacing the slot too early: the one thing a destructor must not do with its thread's slot. */
module TlsReplacement {
  import opened Words
  import opened TlsRefs
  import opened TlsLaws
  import opened TlsDestructor
  import opened TlsSafety

  /** The step takes p out of the slot of thread t. */
  predicate TakesOut(w: World, e: Event, t: nat, p: Obj) {
    && t < |w.threads| && w.threads[t].slot == Some(p)
    && match e
       case SetCurrent(u, q) => u == t && q != Some(p)
       case GetCurrentFunctional(u) => u == t && DropsCurrent(w, w.threads[t])
       case _ => false
  }

  /** Taking out the slot's object makes its release the next thing to do. */
  lemma TakenOut(w: World, e: Event, t: nat, p: Obj, v: World) returns (rest: seq<Todo>)
    requires TakesOut(w, e, t, p) && Step(w, e) == Some(v)
    ensures t < |v.threads| && v.threads[t].todo == [DecRef(p)] + rest
    ensures v == w.(threads := v.threads)
  {
    var q := if e.SetCurrent? then e.p else None;
    var inc := match q case None => [] case Some(o) => [IncRef(o)];
    rest := inc + w.threads[t].todo;
    assert [DecRef(p)] + inc + w.threads[t].todo == [DecRef(p)] + rest;
  }

  /** A thread that owes an addref for p has p in its slot, and somebody holds p; only inside a destructor can it
      take p out. */
  lemma OwesForSlot(w: World, t: nat, p: Obj)
    requires Safe(w) && t < |w.threads| && IncRef(p) in w.threads[t].todo
    ensures w.threads[t].slot == Some(p) && w.held[p] > 0 && p in w.objs
    ensures w.objs[p].state != Destroying && w.objs[p].cTlsRefs >= 1 && w.dtorStarts[p] == 0
    ensures Free(w.threads[t]) ==> w.threads[t].todo[0].InDtor?
  {
    hide Conserved, Owed;
    assert ThreadSafe(w, w.threads[t]);
    CountMembers(w.threads[t].todo, IncRef(p));
    assert InOrder(w, p);
    Counted(w, t, p);
  }

  /** Where the discipline forbids it: in any safe world, a thread that owes an addref for p and takes p out of its
      slot then releases p. That release destroys p, which is still held, exactly when the count of p is one. */
  lemma EarlyReplacementIsExact(w: World, t: nat, p: Obj, e: Event, v: World) returns (x: World)
    requires Safe(w) && t < |w.threads| && IncRef(p) in w.threads[t].todo
    requires TakesOut(w, e, t, p) && Step(w, e) == Some(v)
    ensures !Disciplined(w, e) && p in w.objs && p in v.objs
    ensures RunAll(v, seq(ReleaseSteps(v.objs[p]), _ => Run(t))) == Some(x) && p in x.objs
    ensures x.held[p] == w.held[p] > 0
    ensures x.dtorStarts[p] == (if w.objs[p].cTlsRefs == 1 then 1 else 0)
    ensures x.objs[p].state == Destroying <==> w.objs[p].cTlsRefs == 1
    ensures x.objs[p].cTlsRefs == w.objs[p].cTlsRefs - 1
  {
    hide Safe, Step, RunAll, DropsCurrent, ReleaseSteps;
    OwesForSlot(w, t, p);
    var rest := TakenOut(w, e, t, p, v);
    UndisturbedRelease(v, t, p, rest);
    x := RunAll(v, seq(ReleaseSteps(v.objs[p]), _ => Run(t))).value;
    var i :| 0 <= i < |w.threads[t].todo| && w.threads[t].todo[i] == IncRef(p);
    assert OwesAddRef(w.threads[t]);
  }

  // ---------- it can come to that ----------

  lemma {:induction false} DisciplinedThen(w: World, es: seq<Event>, x: World, e: Event)
    requires RunAll(w, es) == Some(x) && DisciplinedRun(w, es) && Disciplined(x, e)
    ensures DisciplinedRun(w, es + [e]) && RunAll(w, es + [e]) == Step(x, e)
    decreases |es|
  {
    hide Step, Disciplined;
    Then(w, es, x, e);
    if es == [] {
      assert [] + [e] == [e];
      assert forall v :: DisciplinedRun(v, []);
    } else {
      assert (es + [e])[1..] == es[1..] + [e];
      DisciplinedThen(Step(w, es[0]).value, es[1..], x, e);
    }
  }

  /** Two objects, 0 and 1, and one thread; object 1 has count one and is held. */
  function Scene(zero: RefData, th: Thread, held: multiset<Obj>, dtorStarts: multiset<Obj>): World {
    World(map[0 := zero, 1 := RefData(1, Initialized)], [th], held, dtorStarts)
  }

  /** The thread of the scene does its next thing, on object 0. */
  lemma SceneRuns(d: RefData, slot: Option<Obj>, x: Todo, rest: seq<Todo>, held: multiset<Obj>, starts: multiset<Obj>)
    requires x.o == 0
    ensures Step(Scene(d, Thread(slot, [x] + rest), held, starts), Run(0))
         == Some(Scene(After(d, x), Thread(slot, Next(d, x) + rest), held,
                       if x.Destroy? then starts + multiset{0} else starts))
  {
    hide Step;
    var w := Scene(d, Thread(slot, [x] + rest), held, starts);
    RunStep(w, 0, x, rest);
    assert w.objs[0 := After(d, x)] == Scene(After(d, x), w.threads[0], held, starts).objs;
    assert w.threads[0 := Thread(slot, Next(d, x) + rest)] == [Thread(slot, Next(d, x) + rest)];
  }

  lemma SceneThread(d: RefData, th: Thread, held: multiset<Obj>, starts: multiset<Obj>, other: Thread)
    ensures WithThread(Scene(d, th, held, starts), 0, other) == Scene(d, other, held, starts)
  {
    assert [th][0 := other] == [other];
  }

  lemma SceneIsSet() returns (es: seq<Event>)
    ensures RunAll(EMPTY, es) == Some(Scene(RefData(1, Initialized), Thread(None, []), multiset{0, 1}, multiset{}))
    ensures DisciplinedRun(EMPTY, es)
  {
    hide RunAll, DisciplinedRun;
    var x := Step(EMPTY, Spawn).value;
    var y := Step(x, Init(0)).value;
    NothingRun(EMPTY);
    DisciplinedThen(EMPTY, [], EMPTY, Spawn);
    DisciplinedThen(EMPTY, [] + [Spawn], x, Init(0));
    DisciplinedThen(EMPTY, [] + [Spawn] + [Init(0)], y, Init(1));
    es := [] + [Spawn] + [Init(0)] + [Init(1)];
    var z := Step(y, Init(1)).value;
    assert z.objs == map[0 := RefData(1, Initialized), 1 := RefData(1, Initialized)];
    assert z.held == multiset{0, 1} && z.threads == [Thread(None, [])] && z.dtorStarts == multiset{};
  }

  lemma NothingRun(w: World)
    ensures RunAll(w, []) == Some(w) && DisciplinedRun(w, [])
  {
  }

  /** Object 0 goes into the slot and is given up otherwise. */
  lemma SlotIsLast(es: seq<Event>) returns (fs: seq<Event>)
    requires RunAll(EMPTY, es) == Some(Scene(RefData(1, Initialized), Thread(None, []), multiset{0, 1}, multiset{}))
    requires DisciplinedRun(EMPTY, es)
    ensures RunAll(EMPTY, fs) == Some(Scene(RefData(1, Initialized), Thread(Some(0), []), multiset{1}, multiset{}))
    ensures DisciplinedRun(EMPTY, fs)
  {
    hide RunAll, DisciplinedRun, OwesAddRef, Pends, Scene;
    var d, two, none := RefData(1, Initialized), multiset{0, 1}, multiset{};
    var w := Scene(d, Thread(None, []), two, none);
    var a := Scene(d, Thread(Some(0), [IncRef(0)]), two, none);
    var b := Scene(d.Inc(), Thread(Some(0), []), two, none);
    var c := Scene(d.Inc(), Thread(Some(0), [DecRef(0)]), multiset{1}, none);
    PutsZeroIn(w, a);
    DisciplinedThen(EMPTY, es, w, SetCurrent(0, Some(0)));
    assert [IncRef(0)] + [] == [IncRef(0)] && Next(d, IncRef(0)) + [] == [];
    SceneRuns(d, Some(0), IncRef(0), [], two, none);
    DisciplinedThen(EMPTY, es + [SetCurrent(0, Some(0))], a, Run(0));
    GivesZeroUp(b, c);
    DisciplinedThen(EMPTY, es + [SetCurrent(0, Some(0))] + [Run(0)], b, Release(0, 0));
    assert [DecRef(0)] + [] == [DecRef(0)] && Next(d.Inc(), DecRef(0)) + [] == [];
    SceneRuns(d.Inc(), Some(0), DecRef(0), [], multiset{1}, none);
    DisciplinedThen(EMPTY, es + [SetCurrent(0, Some(0))] + [Run(0)] + [Release(0, 0)], c, Run(0));
    fs := es + [SetCurrent(0, Some(0))] + [Run(0)] + [Release(0, 0)] + [Run(0)];
  }

  lemma PutsZeroIn(w: World, a: World)
    requires w == Scene(RefData(1, Initialized), Thread(None, []), multiset{0, 1}, multiset{})
    requires a == Scene(RefData(1, Initialized), Thread(Some(0), [IncRef(0)]), multiset{0, 1}, multiset{})
    ensures Step(w, SetCurrent(0, Some(0))) == Some(a) && Disciplined(w, SetCurrent(0, Some(0)))
  {
    SceneThread(RefData(1, Initialized), w.threads[0], w.held, w.dtorStarts, a.threads[0]);
    assert [] + [IncRef(0)] + [] == [IncRef(0)];
  }

  lemma GivesZeroUp(b: World, c: World)
    requires b == Scene(RefData(2, Initialized), Thread(Some(0), []), multiset{0, 1}, multiset{})
    requires c == Scene(RefData(2, Initialized), Thread(Some(0), [DecRef(0)]), multiset{1}, multiset{})
    ensures Step(b, Release(0, 0)) == Some(c) && Disciplined(b, Release(0, 0))
  {
    assert b.held - multiset{0} == c.held && [DecRef(0)] + [] == [DecRef(0)];
    SceneThread(RefData(2, Initialized), b.threads[0], c.held, b.dtorStarts, c.threads[0]);
  }

  lemma PutsOneIn(w: World, a: World)
    requires w == Scene(RefData(1, Initialized), Thread(Some(0), []), multiset{1}, multiset{})
    requires a == Scene(RefData(1, Initialized), Thread(Some(1), [DecRef(0)] + [IncRef(1)]), multiset{1}, multiset{})
    ensures Step(w, SetCurrent(0, Some(1))) == Some(a) && Disciplined(w, SetCurrent(0, Some(1)))
  {
    SceneThread(RefData(1, Initialized), w.threads[0], w.held, w.dtorStarts, a.threads[0]);
    assert [DecRef(0)] + [IncRef(1)] + [] == [DecRef(0)] + [IncRef(1)];
  }

  /** SetCurrent to object 1 calls the destructor of object 0 before it references object 1. */
  lemma InsideSetCurrent(es: seq<Event>) returns (fs: seq<Event>, w: World)
    requires RunAll(EMPTY, es) == Some(Scene(RefData(1, Initialized), Thread(Some(0), []), multiset{1}, multiset{}))
    requires DisciplinedRun(EMPTY, es)
    ensures RunAll(EMPTY, fs) == Some(w) && DisciplinedRun(EMPTY, fs)
    ensures w == Scene(RefData(0, Destroying), Thread(Some(1), [InDtor(0), IncRef(1)]), multiset{1}, multiset{0})
  {
    hide RunAll, DisciplinedRun, OwesAddRef, Scene;
    var d, rest, one, none := RefData(1, Initialized), [IncRef(1)], multiset{1}, multiset{};
    var s := Scene(d, Thread(Some(0), []), one, none);
    var a := Scene(d, Thread(Some(1), [DecRef(0)] + rest), one, none);
    var b := Scene(d.Dec(), Thread(Some(1), [TestState(0)] + rest), one, none);
    var c := Scene(d.Dec(), Thread(Some(1), [Destroy(0)] + rest), one, none);
    PutsOneIn(s, a);
    DisciplinedThen(EMPTY, es, s, SetCurrent(0, Some(1)));
    SceneRuns(d, Some(1), DecRef(0), rest, one, none);
    DisciplinedThen(EMPTY, es + [SetCurrent(0, Some(1))], a, Run(0));
    SceneRuns(d.Dec(), Some(1), TestState(0), rest, one, none);
    DisciplinedThen(EMPTY, es + [SetCurrent(0, Some(1))] + [Run(0)], b, Run(0));
    SceneRuns(d.Dec(), Some(1), Destroy(0), rest, one, none);
    DisciplinedThen(EMPTY, es + [SetCurrent(0, Some(1))] + [Run(0)] + [Run(0)], c, Run(0));
    fs := es + [SetCurrent(0, Some(1))] + [Run(0)] + [Run(0)] + [Run(0)];
    w := Step(c, Run(0)).value;
    assert none + multiset{0} == multiset{0} && [InDtor(0)] + rest == [InDtor(0), IncRef(1)];
  }

  /** A run from nothing, disciplined until a destructor empties its thread's slot, that destroys a held object. */
  lemma DestructorMayFreeHeldObject() returns (es: seq<Event>, x: World)
    ensures DisciplinedRun(EMPTY, es)
    ensures RunAll(EMPTY, es + [SetCurrent(0, None), Run(0), Run(0), Run(0)]) == Some(x)
    ensures x.held[1] == 1 && 1 in x.objs && x.objs[1] == RefData(0, Destroying) && x.dtorStarts[1] == 1
  {
    hide RunAll, DisciplinedRun, Safe, Disciplined;
    var w;
    es := SceneIsSet();
    es := SlotIsLast(es);
    es, w := InsideSetCurrent(es);
    EmptyIsSafe();
    RunIsSafe(EMPTY, es, w);
    assert w.threads[0].todo[1] == IncRef(1);
    var v := Step(w, SetCurrent(0, None)).value;
    x := EarlyReplacementIsExact(w, 0, 1, SetCurrent(0, None), v);
    Then(EMPTY, es, w, SetCurrent(0, None));
    assert seq(3, _ => Run(0)) == [Run(0), Run(0), Run(0)];
    RunConcat(EMPTY, es + [SetCurrent(0, None)], [Run(0), Run(0), Run(0)]);
    assert es + [SetCurrent(0, None), Run(0), Run(0), Run(0)]
        == es + [SetCurrent(0, None)] + [Run(0), Run(0), Run(0)];
  }
}
