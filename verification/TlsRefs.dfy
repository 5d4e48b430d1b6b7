/** Reference counting with per-thread slots (VBoxTlsRef*): any number of threads and objects, every interleaving. */
module TlsRefs {
  import opened Words

  datatype RefState = Undefined | Initialized | ToBeDestroyed | Destroying

  /** VBOXTLSREFDATA without the destructor pointer; calls of the destructor are recorded by the world instead. */
  datatype RefData = RefData(cTlsRefs: int, state: RefState)
  {
    /** VBoxTlsRefIsFunctional */
    predicate IsFunctional() {
      state == Initialized
    }

    /** The atomic increment of VBoxTlsRefAddRef. */
    function Inc(): RefData {
      this.(cTlsRefs := cTlsRefs + 1)
    }

    /** The atomic decrement of VBoxTlsRefRelease. */
    function Dec(): RefData {
      this.(cTlsRefs := cTlsRefs - 1)
    }
  }

  type Obj = nat

  /** What a thread has yet to do inside the macros it is in: an addref; a release, step by step, from its atomic
      decrement by way of the test of the state to marking the object and calling its destructor; or the rest of a
      destructor. */
  datatype Todo = IncRef(o: Obj) | DecRef(o: Obj) | TestState(o: Obj) | Destroy(o: Obj) | InDtor(o: Obj)

  /** A thread with its slot and, innermost first, what it has yet to do. */
  datatype Thread = Thread(slot: Option<Obj>, todo: seq<Todo>)

  /** held counts the explicit references to each object, dtorStarts the destructor calls. */
  datatype World = World(objs: map<Obj, RefData>, threads: seq<Thread>, held: multiset<Obj>,
                         dtorStarts: multiset<Obj>)

  datatype Event =
    | Spawn                                   // a thread with an empty slot appears
    | Init(o: Obj)                            // VBoxTlsRefInit: the creator holds the first reference
    | AddRef(t: nat, o: Obj)                  // VBoxTlsRefAddRef for an explicit reference
    | Release(t: nat, o: Obj)                 // an explicit reference is given up, VBoxTlsRefRelease begins
    | MarkDestroy(o: Obj)                     // VBoxTlsRefMarkDestroy
    | SetCurrent(t: nat, p: Option<Obj>)      // VBoxTlsRefSetCurrent: the slot is replaced
    | GetCurrentFunctional(t: nat)            // VBoxTlsRefGetCurrentFunctional
    | Run(t: nat)                             // the thread does the next thing it has to do

  /** The thread may start a macro: it is inside none, or inside a destructor. */
  predicate Free(th: Thread) {
    th.todo == [] || th.todo[0].InDtor?
  }

  /** The slot is replaced; then the old object is released and the new one referenced, in that order. */
  function Replaced(th: Thread, p: Option<Obj>): Thread {
    if th.slot == p then th
    else
      var dec := match th.slot case None => [] case Some(o) => [DecRef(o)];
      var inc := match p case None => [] case Some(o) => [IncRef(o)];
      Thread(p, dec + inc + th.todo)
  }

  /** What doing x makes of its object. */
  function After(d: RefData, x: Todo): RefData {
    match x
    case IncRef(_) => d.Inc()
    case DecRef(_) => d.Dec()
    case Destroy(_) => d.(state := Destroying)
    case _ => d
  }

  /** What the thread has to do in place of x once x is done. */
  function Next(d: RefData, x: Todo): seq<Todo> {
    match x
    case DecRef(o) => if d.cTlsRefs - 1 == 0 then [TestState(o)] else []
    case TestState(o) => if d.state != Destroying then [Destroy(o)] else []
    case Destroy(o) => [InDtor(o)]
    case _ => []
  }

  function WithThread(w: World, t: nat, th: Thread): World
    requires t < |w.threads|
  {
    w.(threads := w.threads[t := th])
  }

  /** One step, or None where it cannot be taken. */
  function Step(w: World, e: Event): Option<World> {
    match e
    case Spawn => Some(w.(threads := w.threads + [Thread(None, [])]))
    case Init(o) =>
      if o in w.objs then None
      else Some(w.(objs := w.objs[o := RefData(1, Initialized)], held := w.held + multiset{o}))
    case AddRef(t, o) =>
      if t < |w.threads| && Free(w.threads[t]) && o in w.objs then
        Some(w.(objs := w.objs[o := w.objs[o].Inc()], held := w.held + multiset{o}))
      else None
    case Release(t, o) =>
      if t < |w.threads| && Free(w.threads[t]) && o in w.objs && o in w.held then
        var th := w.threads[t];
        Some(WithThread(w.(held := w.held - multiset{o}), t, th.(todo := [DecRef(o)] + th.todo)))
      else None
    case MarkDestroy(o) =>
      if o in w.objs then Some(w.(objs := w.objs[o := w.objs[o].(state := ToBeDestroyed)])) else None
    case SetCurrent(t, p) =>
      if t < |w.threads| && Free(w.threads[t]) && (p.Some? ==> p.value in w.objs) then
        Some(WithThread(w, t, Replaced(w.threads[t], p)))
      else None
    case GetCurrentFunctional(t) =>
      if t < |w.threads| && Free(w.threads[t]) then
        var cur := w.threads[t].slot;
        if cur == None || (cur.value in w.objs && w.objs[cur.value].IsFunctional()) then Some(w)
        else Some(WithThread(w, t, Replaced(w.threads[t], None)))
      else None
    case Run(t) =>
      if t < |w.threads| && w.threads[t].todo != [] && w.threads[t].todo[0].o in w.objs then
        var th := w.threads[t];
        var x := th.todo[0];
        var v := w.(objs := w.objs[x.o := After(w.objs[x.o], x)],
                    dtorStarts := if x.Destroy? then w.dtorStarts + multiset{x.o} else w.dtorStarts);
        Some(WithThread(v, t, th.(todo := Next(w.objs[x.o], x) + th.todo[1..])))
      else None
  }

  // ---------- conservation ----------

  /** References a thread accounts for through its slot. */
  function InSlot(th: Thread, o: Obj): int {
    if th.slot == Some(o) then 1 else 0
  }

  /** How many times x is to be done. */
  function Count(todo: seq<Todo>, x: Todo): nat {
    if todo == [] then 0 else (if todo[0] == x then 1 else 0) + Count(todo[1..], x)
  }

  /** Releases not done yet count, addrefs not done yet count against. */
  function Due(todo: seq<Todo>, o: Obj): int {
    Count(todo, DecRef(o)) - Count(todo, IncRef(o))
  }

  function Weight(th: Thread, o: Obj): int {
    InSlot(th, o) + Due(th.todo, o)
  }

  function Total(ths: seq<Thread>, o: Obj): int {
    if ths == [] then 0 else Weight(ths[0], o) + Total(ths[1..], o)
  }

  lemma {:induction false} TotalUpdate(ths: seq<Thread>, t: nat, th: Thread, o: Obj)
    requires t < |ths|
    ensures Total(ths[t := th], o) == Total(ths, o) - Weight(ths[t], o) + Weight(th, o)
  {
    if t == 0 {
      assert ths[t := th][1..] == ths[1..];
    } else {
      TotalUpdate(ths[1..], t - 1, th, o);
      assert ths[t := th][1..] == ths[1..][t - 1 := th];
    }
  }

  lemma {:induction false} TotalAppend(ths: seq<Thread>, th: Thread, o: Obj)
    ensures Total(ths + [th], o) == Total(ths, o) + Weight(th, o)
  {
    if ths == [] {
      assert [] + [th] == [th] && Total([th], o) == Weight(th, o) + Total([], o);
    } else {
      TotalAppend(ths[1..], th, o);
      assert (ths + [th])[1..] == ths[1..] + [th];
    }
  }

  lemma {:induction false} CountConcat(a: seq<Todo>, b: seq<Todo>, x: Todo)
    ensures Count(a + b, x) == Count(a, x) + Count(b, x)
  {
    if a == [] {
      assert a + b == b;
    } else {
      CountConcat(a[1..], b, x);
      assert (a + b)[1..] == a[1..] + b;
    }
  }

  lemma {:induction false} CountMembers(todo: seq<Todo>, x: Todo)
    ensures Count(todo, x) > 0 <==> x in todo
  {
    if todo != [] { CountMembers(todo[1..], x); }
  }

  lemma CountOne(y: Todo, x: Todo)
    ensures Count([y], x) == if y == x then 1 else 0
  {
  }

  /** What a thread does first, and then the rest. */
  lemma CountFirst(todo: seq<Todo>, x: Todo)
    requires todo != []
    ensures Count(todo, x) == (if todo[0] == x then 1 else 0) + Count(todo[1..], x)
  {
  }

  lemma DueOne(x: Todo, o: Obj)
    ensures Due([], o) == 0
    ensures Due([x], o) == if x == DecRef(o) then 1 else if x == IncRef(o) then -1 else 0
  {
    CountOne(x, DecRef(o));
    CountOne(x, IncRef(o));
  }

  lemma DueConcat(a: seq<Todo>, b: seq<Todo>, o: Obj)
    ensures Due(a + b, o) == Due(a, o) + Due(b, o)
  {
    CountConcat(a, b, DecRef(o));
    CountConcat(a, b, IncRef(o));
  }

  /** Replacing the slot changes nothing in what the thread accounts for: what the slot loses or gains is due. */
  lemma ReplacedWeighsTheSame(th: Thread, p: Option<Obj>, o: Obj)
    ensures Weight(Replaced(th, p), o) == Weight(th, o)
  {
    if th.slot != p {
      var dec := match th.slot case None => [] case Some(x) => [DecRef(x)];
      var inc := match p case None => [] case Some(x) => [IncRef(x)];
      DueConcat(dec + inc, th.todo, o);
      DueConcat(dec, inc, o);
      if th.slot.Some? { DueOne(DecRef(th.slot.value), o); }
      if p.Some? { DueOne(IncRef(p.value), o); }
      assert Due(dec, o) == InSlot(th, o);
      assert Due(inc, o) == -InSlot(Replaced(th, p), o);
    }
  }

  predicate ThreadClosed(th: Thread, objs: set<Obj>) {
    (th.slot.Some? ==> th.slot.value in objs) && forall i | 0 <= i < |th.todo| :: th.todo[i].o in objs
  }

  /** Objects named anywhere exist. */
  predicate Closed(w: World) {
    && (forall o | o in w.held :: o in w.objs)
    && (forall t | 0 <= t < |w.threads| :: ThreadClosed(w.threads[t], w.objs.Keys))
  }

  /** The count of each object is its explicit references, plus the threads whose slot holds it, corrected by what
      threads in the middle of a macro have yet to do. */
  predicate Balanced(w: World, o: Obj)
    requires o in w.objs
  {
    w.objs[o].cTlsRefs == w.held[o] + Total(w.threads, o)
  }

  predicate Conserved(w: World) {
    Closed(w) && forall o | o in w.objs :: Balanced(w, o)
  }

  lemma {:induction false} UnnamedWeighsNothing(ths: seq<Thread>, objs: set<Obj>, o: Obj)
    requires o !in objs && forall t | 0 <= t < |ths| :: ThreadClosed(ths[t], objs)
    ensures Total(ths, o) == 0
  {
    if ths != [] {
      UnnamedDue(ths[0].todo, o);
      UnnamedWeighsNothing(ths[1..], objs, o);
    }
  }

  lemma UnnamedDue(todo: seq<Todo>, o: Obj)
    requires forall i | 0 <= i < |todo| :: todo[i].o != o
    ensures Due(todo, o) == 0
  {
    CountMembers(todo, DecRef(o));
    CountMembers(todo, IncRef(o));
  }

  lemma ReplacedIsClosed(th: Thread, p: Option<Obj>, objs: set<Obj>)
    requires ThreadClosed(th, objs) && (p.Some? ==> p.value in objs)
    ensures ThreadClosed(Replaced(th, p), objs)
  {
  }

  /** The thread a step changes, if it changes one, and what it becomes. */
  function Changed(w: World, e: Event): Option<(nat, Thread)>
    requires Step(w, e).Some?
  {
    match e
    case Release(t, o) => Some((t, w.threads[t].(todo := [DecRef(o)] + w.threads[t].todo)))
    case SetCurrent(t, p) => Some((t, Replaced(w.threads[t], p)))
    case GetCurrentFunctional(t) =>
      Some((t, if Step(w, e) == Some(w) then w.threads[t] else Replaced(w.threads[t], None)))
    case Run(t) =>
      var th := w.threads[t];
      Some((t, th.(todo := Next(w.objs[th.todo[0].o], th.todo[0]) + th.todo[1..])))
    case _ => None
  }

  /** At most one thread changes in a step, or one is added. */
  lemma StepChanges(w: World, e: Event, v: World)
    requires Step(w, e) == Some(v)
    ensures v.objs.Keys >= w.objs.Keys
    ensures match Changed(w, e)
      case Some((t, th)) => t < |w.threads| && v.threads == w.threads[t := th] && v.objs.Keys == w.objs.Keys
      case None => v.threads == w.threads + (if e.Spawn? then [Thread(None, [])] else [])
  {
    match e
    case GetCurrentFunctional(t) => assert w.threads[t := w.threads[t]] == w.threads;
    case _ =>
  }

  lemma ChangedIsClosed(w: World, e: Event)
    requires Closed(w) && Step(w, e).Some? && Changed(w, e).Some?
    ensures ThreadClosed(Changed(w, e).value.1, w.objs.Keys)
  {
    var t := Changed(w, e).value.0;
    assert ThreadClosed(w.threads[t], w.objs.Keys);
    match e
    case SetCurrent(_, p) => ReplacedIsClosed(w.threads[t], p, w.objs.Keys);
    case GetCurrentFunctional(_) => ReplacedIsClosed(w.threads[t], None, w.objs.Keys);
    case _ =>
  }

  lemma HeldStaysKnown(w: World, e: Event, v: World)
    requires Closed(w) && Step(w, e) == Some(v)
    ensures forall o | o in v.held :: o in v.objs
  {
    hide ThreadClosed;
  }

  lemma StepCloses(w: World, e: Event, v: World)
    requires Closed(w) && Step(w, e) == Some(v)
    ensures Closed(v)
  {
    hide Step, Changed;
    StepChanges(w, e, v);
    HeldStaysKnown(w, e, v);
    if Changed(w, e).Some? { ChangedIsClosed(w, e); }
    forall t | 0 <= t < |v.threads| ensures ThreadClosed(v.threads[t], v.objs.Keys) {
      if t < |w.threads| { assert ThreadClosed(w.threads[t], w.objs.Keys); }
    }
  }

  // ---------- every step conserves ----------

  /** Doing x changes the count by what is then no longer due. */
  lemma DoneWeighs(w: World, t: nat, v: World, o: Obj)
    requires Step(w, Run(t)) == Some(v) && o in w.objs
    ensures v.objs[o].cTlsRefs - w.objs[o].cTlsRefs == Weight(v.threads[t], o) - Weight(w.threads[t], o)
  {
    hide Free, Replaced;
    var todo := w.threads[t].todo;
    DueConcat(Next(w.objs[todo[0].o], todo[0]), todo[1..], o);
    assert Due(Next(w.objs[todo[0].o], todo[0]), o) == 0;
  }

  /** What a step adds to the count of o, beyond what it adds to the explicit references. */
  lemma ChangedWeighs(w: World, e: Event, v: World, o: Obj)
    requires Step(w, e) == Some(v) && o in w.objs
    ensures v.objs[o].cTlsRefs - w.objs[o].cTlsRefs == v.held[o] - w.held[o] +
      match Changed(w, e) case None => 0 case Some((t, th)) => Weight(th, o) - Weight(w.threads[t], o)
  {
    hide Free, Replaced, Due, After, Next;
    match e
    case Release(t, p) =>
      DueConcat([DecRef(p)], w.threads[t].todo, o);
      DueOne(DecRef(p), o);
    case SetCurrent(t, p) => ReplacedWeighsTheSame(w.threads[t], p, o);
    case GetCurrentFunctional(t) => ReplacedWeighsTheSame(w.threads[t], None, o);
    case Run(t) => DoneWeighs(w, t, v, o);
    case _ =>
  }

  /** Every step of every interleaving conserves references, whatever destructors do in between. */
  lemma StepConserves(w: World, e: Event, v: World)
    requires Conserved(w) && Step(w, e) == Some(v)
    ensures Conserved(v)
  {
    StepCloses(w, e, v);
    StepChanges(w, e, v);
    forall o | o in v.objs ensures Balanced(v, o) {
      if o in w.objs {
        hide Step, Changed, Closed;
        assert Balanced(w, o);
        ChangedWeighs(w, e, v, o);
        if Changed(w, e).Some? {
          TotalUpdate(w.threads, Changed(w, e).value.0, Changed(w, e).value.1, o);
        } else {
          TotalAppend(w.threads, Thread(None, []), o);
        }
      } else {
        UnnamedWeighsNothing(w.threads, w.objs.Keys, o);
      }
    }
  }
}
