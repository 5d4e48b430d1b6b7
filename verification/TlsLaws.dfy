/** Whole runs of the reference counting macros: conservation between operations, undisturbed releases. */
module TlsLaws {
  import opened Words
  import opened TlsRefs

  // ---------- runs ----------

  function RunAll(w: World, es: seq<Event>): Option<World>
    decreases |es|
  {
    if es == [] then Some(w)
    else match Step(w, es[0]) case None => None case Some(v) => RunAll(v, es[1..])
  }

  const EMPTY: World := World(map[], [], multiset{}, multiset{})

  lemma {:induction false} RunConserves(w: World, es: seq<Event>, v: World)
    requires Conserved(w) && RunAll(w, es) == Some(v)
    ensures Conserved(v)
    decreases |es|
  {
    hide Step, Conserved;
    if es != [] {
      StepConserves(w, es[0], Step(w, es[0]).value);
      RunConserves(Step(w, es[0]).value, es[1..], v);
    }
  }

  // ---------- between complete operations ----------

  /** No macro is under way; destructors may be. */
  predicate Quiet(todo: seq<Todo>) {
    forall i | 0 <= i < |todo| :: todo[i].InDtor?
  }

  function Holders(ths: seq<Thread>, o: Obj): set<nat> {
    set t: nat | t < |ths| && ths[t].slot == Some(o)
  }

  lemma QuietDue(todo: seq<Todo>, o: Obj)
    requires Quiet(todo)
    ensures Due(todo, o) == 0
  {
    CountMembers(todo, DecRef(o));
    CountMembers(todo, IncRef(o));
  }

  lemma HoldersSnoc(ths: seq<Thread>, o: Obj)
    requires ths != []
    ensures var n := |ths| - 1; |Holders(ths, o)| == |Holders(ths[..n], o)| + InSlot(ths[n], o)
  {
    var n := |ths| - 1;
    assert Holders(ths, o) == Holders(ths[..n], o) + (if ths[n].slot == Some(o) then {n} else {});
  }

  lemma {:induction false} TotalIsHolders(ths: seq<Thread>, o: Obj)
    requires forall t | 0 <= t < |ths| :: Quiet(ths[t].todo)
    ensures Total(ths, o) == |Holders(ths, o)|
  {
    if ths == [] {
      assert Holders(ths, o) == {};
    } else {
      var n := |ths| - 1;
      TotalIsHolders(ths[..n], o);
      QuietDue(ths[n].todo, o);
      TotalAppend(ths[..n], ths[n], o);
      assert ths[..n] + [ths[n]] == ths;
      HoldersSnoc(ths, o);
    }
  }

  /** After any run at all: when no macro is under way, the count of every object is its explicit references plus
      the number of threads whose slot holds it. */
  lemma CountsBetweenOperations(es: seq<Event>, w: World, o: Obj)
    requires RunAll(EMPTY, es) == Some(w) && o in w.objs
    requires forall t | 0 <= t < |w.threads| :: Quiet(w.threads[t].todo)
    ensures w.objs[o].cTlsRefs == w.held[o] + |Holders(w.threads, o)|
  {
    assert Conserved(EMPTY);
    RunConserves(EMPTY, es, w);
    assert Balanced(w, o);
    TotalIsHolders(w.threads, o);
  }

  // ---------- putting runs together ----------

  lemma {:induction false} RunConcat(w: World, es: seq<Event>, fs: seq<Event>)
    ensures RunAll(w, es + fs) ==
      match RunAll(w, es) case None => None case Some(v) => RunAll(v, fs)
    decreases |es|
  {
    hide Step;
    if es == [] {
      assert es + fs == fs;
    } else {
      assert (es + fs)[1..] == es[1..] + fs;
      if Step(w, es[0]).Some? { RunConcat(Step(w, es[0]).value, es[1..], fs); }
    }
  }

  lemma RunOne(w: World, e: Event)
    ensures RunAll(w, [e]) == Step(w, e)
  {
    hide Step;
    if Step(w, e).Some? { assert RunAll(Step(w, e).value, []) == Some(Step(w, e).value); }
  }

  /** One more step at the end of a run. */
  lemma Then(w: World, es: seq<Event>, x: World, e: Event)
    requires RunAll(w, es) == Some(x)
    ensures RunAll(w, es + [e]) == Step(x, e)
  {
    hide Step, RunAll;
    RunConcat(w, es, [e]);
    RunOne(x, e);
  }

  // ---------- a release that nobody disturbs ----------

  /** The steps a release takes: the decrement; the test of the state if that gave zero; the destructor call. */
  function ReleaseSteps(d: RefData): nat {
    if d.cTlsRefs != 1 then 1 else if d.state == Destroying then 2 else 3
  }

  /** The world with one object and what one thread has to do replaced. */
  function Put(w: World, t: nat, o: Obj, d: RefData, todo: seq<Todo>): World
    requires t < |w.threads|
  {
    w.(objs := w.objs[o := d], threads := w.threads[t := w.threads[t].(todo := todo)])
  }

  /** Two steps of a thread on the same object. */
  lemma PutTwice(w: World, t: nat, o: Obj, d: RefData, todo: seq<Todo>, e: RefData, rest: seq<Todo>)
    requires t < |w.threads|
    ensures Put(Put(w, t, o, d, todo), t, o, e, rest) == Put(w, t, o, e, rest)
  {
  }

  lemma RunStep(w: World, t: nat, x: Todo, rest: seq<Todo>)
    requires t < |w.threads| && w.threads[t].todo == [x] + rest && x.o in w.objs
    ensures var v := Put(w, t, x.o, After(w.objs[x.o], x), Next(w.objs[x.o], x) + rest);
      Step(w, Run(t)) == Some(if x.Destroy? then v.(dtorStarts := w.dtorStarts + multiset{x.o}) else v)
  {
    hide After, Next;
    assert ([x] + rest)[1..] == rest;
  }

  /** When no other thread steps in between, the steps of a release come to the macro as one. */
  lemma UndisturbedRelease(w: World, t: nat, o: Obj, rest: seq<Todo>)
    requires t < |w.threads| && w.threads[t].todo == [DecRef(o)] + rest && o in w.objs
    ensures var d := w.objs[o]; var n := d.cTlsRefs - 1; var starts := n == 0 && d.state != Destroying;
      var v := Put(w, t, o, RefData(n, if starts then Destroying else d.state),
                   if starts then [InDtor(o)] + rest else rest);
      RunAll(w, seq(ReleaseSteps(d), _ => Run(t)))
        == Some(if starts then v.(dtorStarts := w.dtorStarts + multiset{o}) else v)
  {
    hide Step, RunAll;
    var d := w.objs[o];
    RunStep(w, t, DecRef(o), rest);
    RunOne(w, Run(t));
    assert [] + rest == rest;
    if d.cTlsRefs != 1 {
      assert seq(1, _ => Run(t)) == [Run(t)];
    } else {
      var x := Put(w, t, o, d.Dec(), [TestState(o)] + rest);
      RunStep(x, t, TestState(o), rest);
      Then(w, [Run(t)], x, Run(t));
      var next := Next(d.Dec(), TestState(o)) + rest;
      PutTwice(w, t, o, d.Dec(), [TestState(o)] + rest, d.Dec(), next);
      if d.state == Destroying {
        assert seq(2, _ => Run(t)) == [Run(t)] + [Run(t)];
      } else {
        var y := Put(w, t, o, d.Dec(), [Destroy(o)] + rest);
        RunStep(y, t, Destroy(o), rest);
        Then(w, [Run(t)] + [Run(t)], y, Run(t));
        PutTwice(w, t, o, d.Dec(), [Destroy(o)] + rest, RefData(0, Destroying), [InDtor(o)] + rest);
        assert seq(3, _ => Run(t)) == [Run(t)] + [Run(t)] + [Run(t)];
      }
    }
  }

  // ---------- which objects are handed out ----------

  /** GetCurrentFunctional leaves everything as it is when the slot is empty or holds an initialised object, and else
      takes the object out of the slot and begins to release it. */
  lemma GetCurrentIsExact(w: World, t: nat)
    requires t < |w.threads| && Free(w.threads[t]) && (w.threads[t].slot.Some? ==> w.threads[t].slot.value in w.objs)
    ensures Step(w, GetCurrentFunctional(t)) == Some(
      match w.threads[t].slot
      case None => w
      case Some(o) =>
        if w.objs[o].state == Initialized then w
        else w.(threads := w.threads[t := Thread(None, [DecRef(o)] + w.threads[t].todo)]))
  {
    if w.threads[t].slot.Some? {
      assert [DecRef(w.threads[t].slot.value)] + [] + w.threads[t].todo
          == [DecRef(w.threads[t].slot.value)] + w.threads[t].todo;
    }
  }

  /** A new object has one reference, which its creator holds, and is handed out; a marked one never is. */
  lemma InitAndMark(w: World, o: Obj)
    ensures o !in w.objs ==>
      Step(w, Init(o)) == Some(w.(objs := w.objs[o := RefData(1, Initialized)], held := w.held + multiset{o}))
    ensures o in w.objs ==>
      Step(w, MarkDestroy(o)) == Some(w.(objs := w.objs[o := RefData(w.objs[o].cTlsRefs, ToBeDestroyed)]))
  {
  }

  /** So marking the object in a slot makes the next GetCurrentFunctional give it up. */
  lemma MarkedIsGivenUp(w: World, t: nat, o: Obj) returns (v: World)
    requires t < |w.threads| && Free(w.threads[t]) && w.threads[t].slot == Some(o) && o in w.objs
    ensures RunAll(w, [MarkDestroy(o), GetCurrentFunctional(t)]) == Some(v)
    ensures |v.threads| == |w.threads| && v.threads[t] == Thread(None, [DecRef(o)] + w.threads[t].todo)
    ensures v.objs == w.objs[o := RefData(w.objs[o].cTlsRefs, ToBeDestroyed)]
  {
    hide Step, RunAll;
    InitAndMark(w, o);
    var x := Step(w, MarkDestroy(o)).value;
    GetCurrentIsExact(x, t);
    v := Step(x, GetCurrentFunctional(t)).value;
    RunOne(w, MarkDestroy(o));
    Then(w, [MarkDestroy(o)], x, GetCurrentFunctional(t));
    assert [MarkDestroy(o)] + [GetCurrentFunctional(t)] == [MarkDestroy(o), GetCurrentFunctional(t)];
  }

  // ---------- SetCurrent that nobody disturbs ----------

  /** SetCurrent puts p into the slot; unless it was there already, a release of the old object and then a reference to
      p are due before anything else. */
  lemma SetCurrentEffect(w: World, t: nat, p: Option<Obj>)
    requires t < |w.threads| && Free(w.threads[t]) && (p.Some? ==> p.value in w.objs)
    ensures var th := w.threads[t];
      Step(w, SetCurrent(t, p)) == Some(
        if th.slot == p then w
        else w.(threads := w.threads[t := Thread(p,
          (match th.slot case None => [] case Some(q) => [DecRef(q)])
          + (match p case None => [] case Some(q) => [IncRef(q)]) + th.todo)]))
  {
    assert w.threads[t := w.threads[t]] == w.threads;
  }

  /** An addref due is one more reference and nothing else. */
  lemma AddRefEffect(w: World, t: nat, o: Obj, rest: seq<Todo>)
    requires t < |w.threads| && w.threads[t].todo == [IncRef(o)] + rest && o in w.objs
    ensures Step(w, Run(t)) == Some(Put(w, t, o, RefData(w.objs[o].cTlsRefs + 1, w.objs[o].state), rest))
  {
    RunStep(w, t, IncRef(o), rest);
    assert [] + rest == rest;
  }
}
