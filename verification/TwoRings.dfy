/** Both rings of a buffer at work at once, each with a writer and a reader, over the one memory they share. */
module TwoRings {
  import opened Words
  import opened Slots
  import opened Rings
  import opened Runs
  import opened RunLaws
  import opened Corner
  import opened CornerRuns
  import opened Confinement
  import opened NetBuffer

  // ---------- a ring over other memory outside its area ----------

  lemma GoodOverSameArea(y: System, m: seq<byte>)
    requires Good(y) && SameArea(y, m)
    ensures Good(Over(y, m))
  {
    hide Good, Bounds.Dist;
    GoodOverFreeBytes(y, m);
  }

  lemma SlotOverSameArea(a: Area, m: seq<byte>, n: seq<byte>, p: nat)
    requires |m| == |n| && a.offEnd <= |m| && SameBytes(m, n, a.offStart, a.offEnd)
    requires a.Cursor(p) && a.SlotOk(p, HdrAt(m, p))
    ensures LookIn(n)(p) == LookIn(m)(p)
  {
    hide Aligned, Align8, HdrAt, FrameAt, Bounds.SlotOk, Bounds.After;
    SlotEnd(a, p, HdrAt(m, p));
    SameSlot(m, n, p, p + HdrAt(m, p).offFrame);
  }

  lemma FullOverSameArea(y: System, m: seq<byte>)
    requires Full(y) && SameArea(y, m)
    ensures Full(Over(y, m))
  {
    hide Good, Aligned, HdrAt, FrameAt, Shown, Bounds.SlotOk, Bounds.After, SameBytes;
    SlotOverSameArea(y.ring.area, y.ring.mem, m, y.ring.offReadX);
    GoodOverSameArea(Ahead(y), m);
    assert Ahead(Over(y, m)) == Over(Ahead(y), m);
  }

  lemma BrimOverSameArea(y: System, at: nat, m: seq<byte>)
    requires Brim(y, at) && SameArea(y, m)
    ensures Brim(Over(y, m), at)
  {
    hide Good, Aligned, HdrAt, FrameAt, Bounds.SlotOk, Bounds.After, SameBytes;
    if !y.writer.Reserved? { SlotOverSameArea(y.ring.area, y.ring.mem, m, at); }
    GoodOverSameArea(Without(y, at), m);
    assert Without(Over(y, m), at) == Over(Without(y, at), m);
  }

  /** How a ring stands depends on its own area only. */
  lemma HoldsOverSameArea(y: System, mode: Mode, m: seq<byte>)
    requires Holds(y, mode) && SameArea(y, m)
    ensures Holds(Over(y, m), mode)
  {
    hide Good, Full, Brim, SameArea, Over;
    match mode
    case Clear => GoodOverSameArea(y, m);
    case Brimming(at) => BrimOverSameArea(y, at, m);
    case Filled => FullOverSameArea(y, m);
  }

  // ---------- the buffer ----------

  /** The whole memory and the two ring systems; each sees the memory from its own structure on. */
  datatype Buffer = Buffer(mem: seq<byte>, recv: System, send: System)

  /** The areas lie apart and both writers stay in theirs. */
  predicate Apart(b: Buffer) {
    && |b.mem| >= SEND_AT && b.recv.ring.mem == b.mem[RECV_AT..] && b.send.ring.mem == b.mem[SEND_AT..]
    && RECV_AT + b.recv.ring.area.offEnd <= SEND_AT + b.send.ring.area.offStart
    && Contained(b.recv) && Contained(b.send)
  }

  function RecvStep(b: Buffer, act: Act): Option<Buffer>
    requires |b.mem| >= SEND_AT
  {
    match Step(b.recv, act)
    case None => None
    case Some(z) =>
      var m := b.mem[..RECV_AT] + z.ring.mem;
      if |m| < SEND_AT then None else Some(Buffer(m, z, Over(b.send, m[SEND_AT..])))
  }

  function SendStep(b: Buffer, act: Act): Option<Buffer>
    requires |b.mem| >= SEND_AT
  {
    match Step(b.send, act)
    case None => None
    case Some(z) =>
      var m := b.mem[..SEND_AT] + z.ring.mem;
      Some(Buffer(m, Over(b.recv, m[RECV_AT..]), z))
  }

  /** A step on one ring that does not stray leaves the other ring its cursors, its messages and every byte of its area,
      so that it stands exactly as before. */
  lemma RecvStepKeeps(b: Buffer, act: Act, c: Buffer)
    requires Apart(b) && RecvStep(b, act) == Some(c) && !Strays(b.recv, act)
    ensures Apart(c) && Step(b.recv, act) == Some(c.recv)
    ensures c.send == Over(b.send, c.send.ring.mem) && SameArea(b.send, c.send.ring.mem)
    ensures forall mode | Holds(b.send, mode) :: Holds(c.send, mode)
  {
    hide Aligned, Step, Holds, InArea, Bounds.SlotOk, SkipStrays, PadStrays;
    var z := Step(b.recv, act).value;
    StepIsConfined(b.recv, act, z);
    var m := b.mem[..RECV_AT] + z.ring.mem;
    forall i | b.send.ring.area.offStart <= i < b.send.ring.area.offEnd
      ensures m[SEND_AT..][i] == b.send.ring.mem[i]
    {
      assert z.ring.mem[SEND_AT - RECV_AT + i] == b.recv.ring.mem[SEND_AT - RECV_AT + i];
    }
    forall mode | Holds(b.send, mode) ensures Holds(c.send, mode) { HoldsOverSameArea(b.send, mode, m[SEND_AT..]); }
  }

  lemma SendStepKeeps(b: Buffer, act: Act, c: Buffer)
    requires Apart(b) && SendStep(b, act) == Some(c) && !Strays(b.send, act)
    ensures Apart(c) && Step(b.send, act) == Some(c.send)
    ensures c.recv == Over(b.recv, c.recv.ring.mem) && SameArea(b.recv, c.recv.ring.mem)
    ensures forall mode | Holds(b.recv, mode) :: Holds(c.recv, mode)
  {
    hide Aligned, Step, Holds, InArea, Bounds.SlotOk, SkipStrays, PadStrays;
    var z := Step(b.send, act).value;
    StepIsConfined(b.send, act, z);
    var m := b.mem[..SEND_AT] + z.ring.mem;
    forall i | b.recv.ring.area.offStart <= i < b.recv.ring.area.offEnd
      ensures m[RECV_AT..][i] == b.recv.ring.mem[i]
    {
      if SEND_AT <= RECV_AT + i {
        assert z.ring.mem[RECV_AT + i - SEND_AT] == b.send.ring.mem[RECV_AT + i - SEND_AT];
      }
    }
    forall mode | Holds(b.recv, mode) ensures Holds(c.recv, mode) { HoldsOverSameArea(b.recv, mode, m[RECV_AT..]); }
  }

  // ---------- runs of the four parties ----------

  datatype Side = Recv | Send

  datatype BufferAct = On(side: Side, act: Act)

  function Of(b: Buffer, side: Side): System {
    match side case Recv => b.recv case Send => b.send
  }

  function BufferStep(b: Buffer, e: BufferAct): Option<Buffer> {
    if |b.mem| < SEND_AT then None
    else match e.side case Recv => RecvStep(b, e.act) case Send => SendStep(b, e.act)
  }

  function BufferRun(b: Buffer, es: seq<BufferAct>): Option<Buffer>
    decreases |es|
  {
    if es == [] then Some(b)
    else match BufferStep(b, es[0]) case None => None case Some(c) => BufferRun(c, es[1..])
  }

  /** How the ring on one side stands after a step on either. */
  function NextOn(b: Buffer, side: Side, mode: Mode, e: BufferAct, c: Buffer): Mode {
    if e.side == side then NextMode(Of(b, side), mode, e.act, Of(c, side)) else mode
  }

  function ModeOn(b: Buffer, side: Side, mode: Mode, es: seq<BufferAct>): Mode
    decreases |es|
  {
    if es == [] then mode
    else match BufferStep(b, es[0]) case None => mode
      case Some(c) => ModeOn(c, side, NextOn(b, side, mode, es[0], c), es[1..])
  }

  /** The writer on one side is patient. */
  predicate PatientOn(b: Buffer, side: Side, mode: Mode, es: seq<BufferAct>)
    decreases |es|
  {
    es == [] || (
      && (es[0].side == side ==> PatientAct(Of(b, side), mode, es[0].act))
      && match BufferStep(b, es[0]) case None => true
         case Some(c) => PatientOn(c, side, NextOn(b, side, mode, es[0], c), es[1..]))
  }

  /** No step on one side follows a header out of its area. */
  predicate StaysOn(b: Buffer, side: Side, es: seq<BufferAct>)
    decreases |es|
  {
    es == [] ||
    match BufferStep(b, es[0])
    case None => true
    case Some(c) => (es[0].side == side ==> !Strays(Of(b, side), es[0].act)) && StaysOn(c, side, es[1..])
  }

  function Other(side: Side): Side {
    if side.Recv? then Send else Recv
  }

  lemma BufferStepKeeps(b: Buffer, side: Side, mode: Mode, e: BufferAct, c: Buffer)
    requires Apart(b) && Holds(Of(b, side), mode) && BufferStep(b, e) == Some(c)
    requires if e.side == side then PatientAct(Of(b, side), mode, e.act) else !Strays(Of(b, e.side), e.act)
    ensures Apart(c) && Holds(Of(c, side), NextOn(b, side, mode, e, c))
  {
    hide Apart, Step, Holds, PatientAct, NextMode, Strays;
    match e.side
    case Recv => OnRecvKeeps(b, side, mode, e.act, c);
    case Send => OnSendKeeps(b, side, mode, e.act, c);
  }

  lemma OnRecvKeeps(b: Buffer, side: Side, mode: Mode, act: Act, c: Buffer)
    requires Apart(b) && Holds(Of(b, side), mode) && RecvStep(b, act) == Some(c)
    requires if side.Recv? then PatientAct(b.recv, mode, act) else !Strays(b.recv, act)
    ensures Apart(c) && Holds(Of(c, side), NextOn(b, side, mode, On(Recv, act), c))
  {
    hide Step, Holds, PatientAct, NextMode, Contained, Strays;
    if side.Recv? { PatientStaysIn(b.recv, mode, act, Step(b.recv, act).value); }
    RecvStepKeeps(b, act, c);
    if side.Recv? { PatientStep(b.recv, mode, act, c.recv); }
  }

  lemma OnSendKeeps(b: Buffer, side: Side, mode: Mode, act: Act, c: Buffer)
    requires Apart(b) && Holds(Of(b, side), mode) && SendStep(b, act) == Some(c)
    requires if side.Send? then PatientAct(b.send, mode, act) else !Strays(b.send, act)
    ensures Apart(c) && Holds(Of(c, side), NextOn(b, side, mode, On(Send, act), c))
  {
    hide Step, Holds, PatientAct, NextMode, Contained, Strays;
    if side.Send? { PatientStaysIn(b.send, mode, act, Step(b.send, act).value); }
    SendStepKeeps(b, act, c);
    if side.Send? { PatientStep(b.send, mode, act, c.send); }
  }

  lemma {:induction false} BufferRunKeeps(b: Buffer, side: Side, mode: Mode, es: seq<BufferAct>, c: Buffer)
    requires Apart(b) && Holds(Of(b, side), mode) && BufferRun(b, es) == Some(c)
    requires PatientOn(b, side, mode, es) && StaysOn(b, Other(side), es)
    ensures Apart(c) && Holds(Of(c, side), ModeOn(b, side, mode, es))
    decreases |es|
  {
    hide Apart, Holds, BufferStep, PatientAct, NextOn, Strays;
    if es != [] {
      var x := BufferStep(b, es[0]).value;
      BufferStepKeeps(b, side, mode, es[0], x);
      BufferRunKeeps(x, side, NextOn(b, side, mode, es[0], x), es[1..], c);
    }
  }

  /** Where both writers are patient nobody strays. */
  lemma {:induction false} PatienceStaysOn(b: Buffer, recv: Mode, send: Mode, es: seq<BufferAct>)
    requires Apart(b) && Holds(b.recv, recv) && Holds(b.send, send)
    requires PatientOn(b, Recv, recv, es) && PatientOn(b, Send, send, es)
    ensures StaysOn(b, Recv, es) && StaysOn(b, Send, es)
    decreases |es|
  {
    hide Apart, Holds, PatientAct, Strays, Step, NextMode;
    if es != [] && BufferStep(b, es[0]).Some? {
      var e, c := es[0], BufferStep(b, es[0]).value;
      if e.side.Recv? { PatientStaysIn(b.recv, recv, e.act, Step(b.recv, e.act).value); }
      else { PatientStaysIn(b.send, send, e.act, Step(b.send, e.act).value); }
      BufferStepKeeps(b, Recv, recv, e, c);
      BufferStepKeeps(b, Send, send, e, c);
      PatienceStaysOn(c, NextOn(b, Recv, recv, e, c), NextOn(b, Send, send, e, c), es[1..]);
    }
  }

  /** The buffer as initialised, before anybody has touched it. */
  ghost function Initial(n: NetBuf): Buffer
    requires n.recv.Shaped() && n.send.Shaped()
    reads n.mem, n.recv, n.recv.mem, n.send, n.send.mem
  {
    Buffer(n.mem[..], Start(n.recv.State()), Start(n.send.State()))
  }

  lemma InitialIsApart(n: NetBuf)
    requires n.LaidOut() && n.recv.Valid() && n.send.Valid()
    requires n.recv.State().Held() == n.send.State().Held() == Some(Queues([], []))
    ensures Apart(Initial(n)) && Good(Initial(n).recv) && Good(Initial(n).send)
  {
    hide Aligned, Walk, HdrAt, Ring.HeldUpTo, Good, Contained;
    StartIsGood(n.recv.State());
    StartIsGood(n.send.State());
    GoodIsContained(Start(n.recv.State()));
    GoodIsContained(Start(n.send.State()));
    assert n.mem[..][RECV_AT..] == n.mem[RECV_AT..] && n.mem[..][SEND_AT..] == n.mem[SEND_AT..];
  }

  /** A buffer as its constructor leaves it, and then any interleaving of the steps of both writers and both readers: on
      each side whose writer is patient everything is in sequence, first in, first out, whatever the other side does, as
      long as that does not follow an overwritten header out of its area. */
  lemma EachRingIsFifo(n: NetBuf, side: Side, es: seq<BufferAct>, c: Buffer)
    requires n.LaidOut() && n.recv.Valid() && n.send.Valid()
    requires n.recv.State().Held() == n.send.State().Held() == Some(Queues([], []))
    requires BufferRun(Initial(n), es) == Some(c)
    requires PatientOn(Initial(n), side, Clear, es) && StaysOn(Initial(n), Other(side), es)
    ensures InSequence(Of(c, side), ModeOn(Initial(n), side, Clear, es))
  {
    hide Good, BufferRun, PatientOn, StaysOn, ModeOn, InSequence, Ring.HeldUpTo;
    InitialIsApart(n);
    BufferRunKeeps(Initial(n), side, Clear, es, c);
    HoldsInSequence(Of(c, side), ModeOn(Initial(n), side, Clear, es));
  }

  /** With two patient writers nothing more is needed. */
  lemma BothRingsAreFifo(n: NetBuf, es: seq<BufferAct>, c: Buffer)
    requires n.LaidOut() && n.recv.Valid() && n.send.Valid()
    requires n.recv.State().Held() == n.send.State().Held() == Some(Queues([], []))
    requires BufferRun(Initial(n), es) == Some(c)
    requires PatientOn(Initial(n), Recv, Clear, es) && PatientOn(Initial(n), Send, Clear, es)
    ensures InSequence(c.recv, ModeOn(Initial(n), Recv, Clear, es))
    ensures InSequence(c.send, ModeOn(Initial(n), Send, Clear, es))
  {
    hide Good, BufferRun, PatientOn, StaysOn, ModeOn, InSequence, Ring.HeldUpTo;
    InitialIsApart(n);
    PatienceStaysOn(Initial(n), Clear, Clear, es);
    EachRingIsFifo(n, Recv, es, c);
    EachRingIsFifo(n, Send, es, c);
  }
}
