/** Messages do arrive: the runs spoken of elsewhere exist, however many messages go through one ring. */
module Delivery {
  import opened Words
  import opened Slots
  import opened Rings
  import opened RingLaws
  import opened OneShot
  import opened Runs
  import opened RunLaws
  import opened Space

  /** Nobody is inside an operation and the ring is empty; its cursors may stand anywhere. */
  predicate AtRest(y: System) {
    Good(y) && y.writer.Idle? && !y.readerSawMore && y.pending == [] && Unread(y) == []
  }

  /** A frame the ring has room for wherever its cursors stand. */
  predicate Fits(a: Area, m: Message) {
    && (m.u8Type == TYPE_FRAME || m.u8Type == TYPE_GSO) && |m.data| < TWO_24
    && 2 * Align8(|m.data|) < a.Size() && HDR < a.Size()
  }

  /** Allocate, copy, commit; then look and skip. */
  function Pass(m: Message): seq<Act> {
    [Sample(|m.data|, m.u8Type), CompareExchange, StoreHdr, Fill(0, 0, m.data), Commit, Look, Skip]
  }

  function PassAll(ms: seq<Message>): seq<Act> {
    if ms == [] then [] else Pass(ms[0]) + PassAll(ms[1..])
  }

  lemma RestingCursors(y: System)
    requires AtRest(y)
    ensures y.ring.offReadX == y.ring.offWriteCom == y.ring.offWriteInt && y.ring.area.Cursor(y.ring.offReadX)
    ensures y.received == y.sent
  {
    hide Walk, Aligned, HdrAt, Ring.HeldUpTo;
    EmptyCursors(y.ring);
  }

  /** Sampling and compare-exchange reserve a slot, outside the corner. */
  lemma Reserves(y: System, m: Message) returns (x: System, z: System)
    requires AtRest(y) && Fits(y.ring.area, m)
    ensures Step(y, Sample(|m.data|, m.u8Type)) == Some(x) && Good(x)
    ensures Step(x, CompareExchange) == Some(z) && !InCorner(x, CompareExchange) && Good(z)
    ensures z.writer.Reserved? && z.writer.hdr.cbFrame == |m.data| && z.writer.hdr.u8Type == m.u8Type
    ensures z == y.(writer := z.writer, ring := y.ring.(offWriteInt := z.ring.offWriteInt)) && Unread(z) == []
  {
    hide Aligned, AlignU32, Align8, HdrAt, FrameAt, Walk, Ring.HeldUpTo;
    var a, p, cb := y.ring.area, y.ring.offReadX, Align8(|m.data|);
    RestingCursors(y);
    RoomOnOneSide(a, p, cb);
    AlignU32IsAlign8(|m.data|);
    x := Step(y, Sample(|m.data|, m.u8Type)).value;
    SampleKeeps(y, |m.data|, m.u8Type, x);
    assert !ExactFit(a, p, p, |m.data|) by { if cb > 0 { AlignedGap(0, cb); } }
    z := Step(x, CompareExchange).value;
    CompareExchangeKeeps(x, z);
  }

  /** The stored header leads to a pending frame of the size and type asked for. */
  lemma Stores(y: System, m: Message) returns (z: System)
    requires Good(y) && y.writer.Reserved? && y.pending == []
    requires y.writer.hdr.cbFrame == |m.data| && y.writer.hdr.u8Type == m.u8Type
    ensures Step(y, StoreHdr) == Some(z) && Good(z) && Unread(z) == Unread(y)
    ensures z.writer.Idle? && |z.pending| == 1
    ensures z.pending[0].u8Type == m.u8Type && |z.pending[0].data| == |m.data|
    ensures z == y.(writer := z.writer, ring := y.ring.(mem := z.ring.mem), pending := z.pending)
  {
    hide Aligned, AlignU32, Align8, HdrAt, Walk, Splice, Encode, Good, Ring.HeldUpTo, Bounds.SlotOk, Bounds.After;
    WriterIsNeverStuck(y);
    z := Step(y, StoreHdr).value;
    StoreHdrKeeps(y, z);
    StoredSize(y);
  }

  /** The payload is copied in and committed. */
  lemma Sends(y: System, m: Message) returns (x: System, z: System)
    requires Good(y) && y.writer.Idle? && |y.pending| == 1
    requires y.pending[0].u8Type == m.u8Type && |y.pending[0].data| == |m.data|
    ensures Step(y, Fill(0, 0, m.data)) == Some(x) && Step(x, Commit) == Some(z) && Good(z)
    ensures z.pending == [] && z.sent == y.sent + [m] && |Unread(z)| == |Unread(y)| + 1
    ensures z == y.(ring := z.ring, pending := [], sent := z.sent) && z.ring.area == y.ring.area
  {
    hide Aligned, AlignU32, Align8, HdrAt, FrameAt, Walk, Good, Unread, Splice, Ring.HeldUpTo, Bounds.SlotOk,
         Bounds.After, Bounds.CommitTarget;
    SpliceAll(y.pending[0].data, m.data);
    WriterIsNeverStuck(y);
    x := Step(y, Fill(0, 0, m.data)).value;
    StepKeeps(y, Fill(0, 0, m.data), x);
    WriterIsNeverStuck(x);
    z := Step(x, Commit).value;
    StepKeeps(x, Commit, z);
  }

  /** With one unread frame, looking and skipping leave the ring empty. */
  lemma Receives(y: System) returns (x: System, z: System)
    requires Good(y) && y.writer.Idle? && y.pending == [] && |Unread(y)| == 1
    ensures Step(y, Look) == Some(x) && Step(x, Skip) == Some(z)
    ensures AtRest(z) && z.sent == z.received == y.sent && z.ring.area == y.ring.area
  {
    hide Aligned, AlignU32, Align8, HdrAt, FrameAt, Walk, Ring.HeldUpTo, Bounds.SlotOk, Bounds.After,
         Bounds.SkipTarget;
    x := Step(y, Look).value;
    StepKeeps(y, Look, x);
    HeldFacts(y.ring, y.ring.offWriteInt);
    if y.ring.offReadX == y.ring.offWriteCom { EmptyWalk(y.ring.area, LookIn(y.ring.mem), y.ring.offReadX); }
    z := Step(x, Skip).value;
    StepKeeps(x, Skip, z);
  }

  lemma RunFrom(y: System, acts: seq<Act>, k: nat, z: System)
    requires k < |acts| && Step(y, acts[k]) == Some(z) && !InCorner(y, acts[k])
    ensures Run(y, acts[k..]) == Run(z, acts[k + 1..])
    ensures CornerFree(y, acts[k..]) <==> CornerFree(z, acts[k + 1..])
  {
    hide Step, InCorner;
    assert acts[k..][1..] == acts[k + 1..];
  }

  /** One message goes through. */
  lemma Passes(y: System, m: Message) returns (z: System)
    requires AtRest(y) && Fits(y.ring.area, m)
    ensures Run(y, Pass(m)) == Some(z) && CornerFree(y, Pass(m))
    ensures AtRest(z) && z.ring.area == y.ring.area && z.received == z.sent == y.sent + [m]
  {
    hide Step, Unread, Fits, WriterOk, HoldsPending, Fifo, Run, CornerFree;
    var y1, y2 := Reserves(y, m);
    var y3 := Stores(y2, m);
    var y4, y5 := Sends(y3, m);
    var y6, y7 := Receives(y5);
    z := y7;
    var acts := Pass(m);
    RunFrom(y, acts, 0, y1);
    RunFrom(y1, acts, 1, y2);
    RunFrom(y2, acts, 2, y3);
    RunFrom(y3, acts, 3, y4);
    RunFrom(y4, acts, 4, y5);
    RunFrom(y5, acts, 5, y6);
    RunFrom(y6, acts, 6, z);
    NoSteps(z);
    assert acts[0..] == acts && acts[7..] == [];
  }

  lemma NoSteps(y: System)
    ensures Run(y, []) == Some(y) && CornerFree(y, [])
  {
  }

  /** Any number of messages, each of which the ring has room for, can go through one after the other, and all of
      them are received, in order, as they were sent. */
  lemma {:induction false} AllMessagesPass(y: System, ms: seq<Message>) returns (z: System)
    requires AtRest(y) && forall m | m in ms :: Fits(y.ring.area, m)
    ensures Run(y, PassAll(ms)) == Some(z) && CornerFree(y, PassAll(ms))
    ensures AtRest(z) && z.ring.area == y.ring.area && z.received == z.sent
    ensures z.sent == y.sent + ms
    decreases |ms|
  {
    hide Run, CornerFree, AtRest, Fits, Pass;
    if ms == [] {
      z := y;
      NoSteps(y);
      RestingCursors(y);
    } else {
      var x := Passes(y, ms[0]);
      z := AllMessagesPass(x, ms[1..]);
      RunConcat(y, Pass(ms[0]), PassAll(ms[1..]), x);
      assert ms == [ms[0]] + ms[1..];
    }
  }

  /** From a ring as initialised, or empty anywhere: the reader receives exactly the messages sent. */
  lemma EverythingArrives(s: Ring, ms: seq<Message>)
    requires s.Held() == Some(Queues([], [])) && forall m | m in ms :: Fits(s.area, m)
    ensures Run(Start(s), PassAll(ms)).Some? && CornerFree(Start(s), PassAll(ms))
    ensures var z := Run(Start(s), PassAll(ms)).value;
      && z.sent == z.received == ms && z.ring.Held() == Some(Queues([], []))
  {
    hide Run, CornerFree, PassAll, Fits, Walk, Ring.HeldUpTo;
    var z := AllMessagesPass(Start(s), ms);
  }

  // ---------- the one-shot write as a run ----------

  /** A one-shot write with nothing pending is the run of allocate, copy and commit, from whatever it has sampled. */
  lemma WriteFrameInSteps(y: System, data: seq<byte>) returns (z: System)
    requires Good(y) && y.pending == []
    requires y.writer.Sampled? && y.writer.cbFrame == |data| && y.writer.u8Type == TYPE_FRAME
    requires y.ring.area.offEnd <= |y.ring.mem| && y.ring.area.Cursor(y.writer.offRead)
    requires y.ring.area.Cursor(y.writer.offWrite)
    ensures var (t, o) := y.ring.WriteFrameFrom(y.writer.offRead, y.writer.offWrite, data);
      if o.Allocated? then
        && Run(y, [CompareExchange, StoreHdr, Fill(0, 0, data), Commit]) == Some(z)
        && z == y.(ring := t, writer := Idle, sent := y.sent + [Message(TYPE_FRAME, data)])
      else
        Step(y, CompareExchange) == Some(z) && z == y.(ring := t, writer := Idle)
  {
    hide Aligned, AlignU32, Align8, HdrAt, FrameAt, Walk, Splice, Encode, Good, Ring.HeldUpTo, Ring.WriteFrameFrom,
         Bounds.Place, Bounds.CommitTarget;
    var s, w := y.ring, y.writer;
    SampledInOrder(y);
    var (t, o) := s.AllocateFrom(w.offRead, w.offWrite, |data|, TYPE_FRAME);
    WriteFrameIsTwoPhase(s, w.offRead, data, t, o);
    var x := Step(y, CompareExchange).value;
    if o.Allocated? {
      AllocatedRoom(s, w.offRead, |data|, TYPE_FRAME, t, o);
      var h := Hdr(|data|, TYPE_FRAME, o.pvFrame - o.pHdr);
      HdrStored(s.mem, o.pHdr, h);
      var u := Step(x, StoreHdr).value;
      FrameOfHdr(t.mem, o.pHdr, h, o.pvFrame);
      var v := Step(u, Fill(0, 0, data)).value;
      SpliceAll(u.pending[0].data, data);
      z := Step(v, Commit).value;
      FourActs(y, CompareExchange, StoreHdr, Fill(0, 0, data), Commit, x, u, v);
    } else {
      z := x;
    }
  }

  lemma SampledInOrder(y: System)
    requires Good(y) && y.writer.Sampled?
    ensures var s := y.ring;
      && s.area.Cursor(s.offReadX) && s.area.Cursor(s.offWriteInt) && y.writer.offWrite == s.offWriteInt
      && Stale(s.area, y.writer.offRead, s.offReadX, s.offWriteInt) && y.writer.cbFrame < TWO_24
  {
    hide Aligned, Walk;
    HeldFacts(y.ring, y.ring.offWriteInt);
  }

  lemma FourActs(y: System, a: Act, b: Act, c: Act, d: Act, x: System, u: System, v: System)
    requires Step(y, a) == Some(x) && Step(x, b) == Some(u) && Step(u, c) == Some(v)
    ensures Run(y, [a, b, c, d]) == Step(v, d)
  {
    hide Step;
    assert [a, b, c, d][1..] == [b, c, d] && [b, c, d][1..] == [c, d] && [c, d][1..] == [d] && [d][1..] == [];
    if Step(v, d).Some? { NoSteps(Step(v, d).value); }
    assert Run(u, [c, d]) == Run(v, [d]) == Step(v, d);
  }

  /** The system without the reader. */
  function Alone(y: System): System {
    y.(ring := y.ring.(offReadX := 0), readerSawMore := false, received := [])
  }

  lemma ActAlone(y: System, act: Act, z: System)
    requires Step(y, act) == Some(z) && !act.Sample?
    ensures if Reads(act) then Alone(z) == Alone(y) else Step(Alone(y), act) == Some(Alone(z))
  {
    hide Aligned, AlignU32, Align8, HdrAt, FrameAt, Splice, Encode, Shown, Cut, Bounds.Place, Bounds.CommitTarget,
         Bounds.SkipTarget;
  }

  /** After its sampling the writer does not notice the reader. */
  lemma {:induction false} RunAlone(y: System, acts: seq<Act>, z: System)
    requires Run(y, acts) == Some(z) && forall act | act in acts :: !act.Sample?
    ensures Run(Alone(y), Writes(acts)) == Some(Alone(z))
    decreases |acts|
  {
    hide Step, Alone;
    if acts != [] {
      var x := Step(y, acts[0]).value;
      ActAlone(y, acts[0], x);
      RunAlone(x, acts[1..], z);
      if Reads(acts[0]) {
        assert [] + Writes(acts[1..]) == Writes(acts[1..]);
      } else {
        assert ([acts[0]] + Writes(acts[1..]))[1..] == Writes(acts[1..]);
      }
    }
  }

  lemma {:induction false} SamplesAreWritten(acts: seq<Act>)
    ensures forall act | act in acts && !Reads(act) :: act in Writes(acts)
  {
    if acts != [] { SamplesAreWritten(acts[1..]); }
  }

  /** And however the reader's steps fall in between: a run in which the writer does just that leaves the ring as the
      one-shot write does, but for the read cursor; so what holds over runs holds with one-shot writes as well. */
  lemma WriteFrameInRun(y: System, data: seq<byte>, acts: seq<Act>, z: System)
    requires Good(y) && y.pending == []
    requires y.writer.Sampled? && y.writer.cbFrame == |data| && y.writer.u8Type == TYPE_FRAME
    requires y.ring.area.offEnd <= |y.ring.mem| && y.ring.area.Cursor(y.writer.offRead)
    requires y.ring.area.Cursor(y.writer.offWrite)
    requires Run(y, acts) == Some(z)
    requires Writes(acts) ==
      if y.ring.WriteFrameFrom(y.writer.offRead, y.writer.offWrite, data).1.Allocated?
      then [CompareExchange, StoreHdr, Fill(0, 0, data), Commit] else [CompareExchange]
    ensures var (t, o) := y.ring.WriteFrameFrom(y.writer.offRead, y.writer.offWrite, data);
      && z.ring == t.(offReadX := z.ring.offReadX) && z.writer.Idle? && z.pending == []
      && z.sent == if o.Allocated? then y.sent + [Message(TYPE_FRAME, data)] else y.sent
  {
    hide Step, Run, Good, Writes, Aligned, Ring.WriteFrameFrom;
    var x := WriteFrameInSteps(y, data);
    SamplesAreWritten(acts);
    RunAlone(y, acts, z);
    assert Run(y, Writes(acts)) == Some(x) by { RunSingle(y, CompareExchange); }
    AllWrites(Writes(acts));
    RunAlone(y, Writes(acts), x);
    assert Alone(z) == Alone(x);
  }

  lemma RunSingle(y: System, act: Act)
    ensures Run(y, [act]) == Step(y, act)
  {
    hide Step;
    if Step(y, act).Some? { NoSteps(Step(y, act).value); }
  }

  lemma {:induction false} AllWrites(acts: seq<Act>)
    requires forall act | act in acts :: !Reads(act)
    ensures Writes(acts) == acts
  {
    if acts != [] { AllWrites(acts[1..]); }
  }
}
