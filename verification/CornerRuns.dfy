/** Whole runs through the exact-fit corner: what keeps them first in, first out, and what they lose otherwise. */
module CornerRuns {
  import opened Words
  import opened Slots
  import opened Rings
  import opened RingLaws
  import opened CommitLaws
  import opened Runs
  import opened RunLaws
  import opened Corner

  // ---------- runs ----------

  /** How a run stands with the corner: not in it; run into a reader that had nothing to read, with the last frame at
      an offset and nothing committed yet; or with something for the reader to skip. */
  datatype Mode = Clear | Brimming(at: nat) | Filled

  predicate Holds(y: System, mode: Mode) {
    match mode
    case Clear => Good(y)
    case Brimming(at) => Brim(y, at)
    case Filled => Full(y)
  }

  function NextMode(y: System, mode: Mode, act: Act, z: System): Mode {
    match mode
    case Clear =>
      if InCorner(y, act) && z.writer.Reserved? then
        if y.ring.HasMoreToRead() then Filled else Brimming(z.writer.at)
      else Clear
    case Brimming(_) => if act.Commit? || act.PublishPadded? then Filled else mode
    case Filled => if act.Skip? then Clear else Filled
  }

  function ModeAfter(y: System, mode: Mode, acts: seq<Act>): Mode
    decreases |acts|
  {
    if acts == [] then mode
    else match Step(y, acts[0]) case None => mode
      case Some(z) => ModeAfter(z, NextMode(y, mode, acts[0], z), acts[1..])
  }

  /** What the writer keeps to at one step. */
  predicate PatientAct(y: System, mode: Mode, act: Act) {
    if mode.Clear? then InCorner(y, act) ==> y.ring.HasMoreToRead() || y.pending != [] else !act.Sample?
  }

  /** The run may go through the corner when something is unread or pending; then the writer may finish with the
      frames it has, but samples the cursors for another one only after the reader has skipped. */
  predicate Patient(y: System, mode: Mode, acts: seq<Act>)
    decreases |acts|
  {
    acts == [] || (
      && PatientAct(y, mode, acts[0])
      && match Step(y, acts[0]) case None => true
         case Some(z) => Patient(z, NextMode(y, mode, acts[0], z), acts[1..]))
  }

  lemma PatientStep(y: System, mode: Mode, act: Act, z: System)
    requires Holds(y, mode) && Step(y, act) == Some(z) && PatientAct(y, mode, act)
    ensures Holds(z, NextMode(y, mode, act, z))
  {
    hide Good, InCorner, Full, Brim;
    match mode
    case Clear =>
      if InCorner(y, act) {
        CornerIsCompareExchange(y, act);
        if !z.writer.Reserved? { CornerMissed(y, z); }
        else if y.ring.HasMoreToRead() { CornerFills(y, z); }
        else { CornerBrims(y, z); }
      } else {
        StepKeeps(y, act, z);
      }
    case Brimming(at) =>
      if Writing(act) { BrimWrites(y, at, act, z); } else { BrimReads(y, at, act, z); }
    case Filled =>
      if act.Skip? { SkipRepairs(y, z); }
      else if Writing(act) { FullWrites(y, act, z); }
      else { FullLooks(y, act, z); }
  }

  lemma CornerIsCompareExchange(y: System, act: Act)
    requires InCorner(y, act)
    ensures act.CompareExchange?
  {
  }

  /** In a brimming ring the reader finds nothing. */
  lemma BrimReads(y: System, at: nat, act: Act, z: System)
    requires Brim(y, at) && Step(y, act) == Some(z) && !Writing(act) && !act.Sample?
    ensures z == y
  {
    hide Good, Aligned, HdrAt, FrameAt, Bounds.SlotOk, Bounds.After;
  }

  lemma FullLooks(y: System, act: Act, z: System)
    requires Full(y) && Step(y, act) == Some(z) && !Writing(act) && !act.Sample? && !act.Skip?
    ensures Full(z)
  {
    hide Good, Shown, Aligned, HdrAt, FrameAt, Bounds.SlotOk, Bounds.After;
    assert Ahead(z) == Ahead(y);
  }

  /** A stale sample may fail to see the room. */
  lemma CornerMissed(y: System, z: System)
    requires Good(y) && Step(y, CompareExchange) == Some(z) && !z.writer.Reserved?
    ensures Good(z)
  {
    hide Aligned, AlignU32, Align8, HdrAt, FrameAt, Walk, Bounds.Place;
    CornerIsExact(y, z);
  }

  lemma {:induction false} PatientRunKeeps(y: System, mode: Mode, acts: seq<Act>, z: System)
    requires Holds(y, mode) && Run(y, acts) == Some(z) && Patient(y, mode, acts)
    ensures Holds(z, ModeAfter(y, mode, acts))
    decreases |acts|
  {
    hide Step, Holds, PatientAct;
    if acts != [] {
      var x := Step(y, acts[0]).value;
      PatientStep(y, mode, acts[0], x);
      PatientRunKeeps(x, NextMode(y, mode, acts[0], x), acts[1..], z);
    }
  }

  /** The messages sent are those received and those yet to read, in order. In a filled ring these are the frame at
      the read cursor and those behind it. */
  predicate InSequence(z: System, mode: Mode) {
    var t := z.ring;
    match mode
    case Clear =>
      && t.Between(t.offReadX, t.offWriteCom).Some?
      && z.sent == z.received + Messages(t.Between(t.offReadX, t.offWriteCom).value)
      && (!t.HasMoreToRead() ==> z.sent == z.received)
    case Brimming(_) =>
      t.offWriteInt == t.offReadX && !t.HasMoreToRead() && z.pending != [] && z.sent == z.received
    case Filled =>
      && t.offWriteInt == t.offReadX && (z.pending == [] && z.writer.Idle? ==> !t.HasMoreToRead())
      && t.Skip().Between(t.Skip().offReadX, t.offWriteCom).Some?
      && z.sent == z.received + Shown(FrameAt(t.mem, t.offReadX))
                   + Messages(t.Skip().Between(t.Skip().offReadX, t.offWriteCom).value)
  }

  lemma HoldsInSequence(z: System, mode: Mode)
    requires Holds(z, mode)
    ensures InSequence(z, mode)
  {
    hide Good, Shown, Aligned, HdrAt, FrameAt, Ring.Between, Bounds.SlotOk, Bounds.After, Bounds.SkipTarget;
    match mode
    case Clear => GoodIsFifo(z);
    case Brimming(at) => GoodIsFifo(Without(z, at));
    case Filled =>
      GoodIsFifo(Ahead(z));
      CursorArithmeticIsExact(z.ring.area, z.ring.offReadX, HdrAt(z.ring.mem, z.ring.offReadX));
      if z.pending == [] && z.writer.Idle? { FullLooksEmpty(z); }
  }

  /** End to end through the corner: after any patient run from an empty ring everything is in sequence. */
  lemma FifoThroughTheCorner(s: Ring, acts: seq<Act>, z: System)
    requires s.Held() == Some(Queues([], []))
    requires Run(Start(s), acts) == Some(z) && Patient(Start(s), Clear, acts)
    ensures InSequence(z, ModeAfter(Start(s), Clear, acts))
  {
    hide Run, ModeAfter, Patient, Good, InSequence;
    StartIsGood(s);
    PatientRunKeeps(Start(s), Clear, acts, z);
    HoldsInSequence(z, ModeAfter(Start(s), Clear, acts));
  }

  // ---------- without a skip ----------

  /** The commits of all pending frames, one after the other. */
  function CommitAll(n: nat): seq<Act> {
    seq(n, _ => Commit)
  }

  /** Commits go along the headers: fs lie between the commit cursor and at, and one more frame follows there. */
  lemma {:induction false} CommitsAlong(y: System, at: nat, fs: seq<Frame>) returns (x: System)
    requires y.writer.Idle? && |y.pending| == |fs| + 1 && y.pending[|fs|].pHdr == at
    requires forall i | 0 <= i < |fs| :: y.pending[i].pHdr == fs[i].pHdr
    requires y.ring.Between(y.ring.offWriteCom, at) == Some(fs)
    requires y.ring.area.Cursor(at) && y.ring.area.SlotOk(at, HdrAt(y.ring.mem, at))
    ensures Run(y, CommitAll(|fs| + 1)) == Some(x)
    ensures x.ring.offWriteCom == y.ring.area.After(at, HdrAt(y.ring.mem, at)) && x.ring.offReadX == y.ring.offReadX
    ensures x.pending == [] && x.received == y.received && |x.sent| == |y.sent| + |fs| + 1
    decreases |fs|
  {
    hide Aligned, Align8, AlignU32, HdrAt, FrameAt, Bounds.SlotOk, Bounds.After, Bounds.Span, Bounds.Dist,
         Bounds.CommitTarget, Bounds.SkipTarget;
    var s, a := y.ring, y.ring.area;
    var c := s.offWriteCom;
    var z := Step(y, Commit).value;
    assert CommitAll(|fs| + 1)[0] == Commit && CommitAll(|fs| + 1)[1..] == CommitAll(|fs|);
    if fs == [] {
      if c != at { WalkStep(a, LookIn(s.mem), c, at); }
      CursorArithmeticIsExact(a, at, HdrAt(s.mem, at));
      x := z;
      assert Run(z, CommitAll(0)) == Some(x);
    } else {
      if c == at { EmptyWalk(a, LookIn(s.mem), at); }
      WalkStep(a, LookIn(s.mem), c, at);
      FirstOfWalk(s.mem, c);
      CursorArithmeticIsExact(a, c, HdrAt(s.mem, c));
      x := CommitsAlong(z, at, fs[1..]);
    }
  }

  lemma FirstOfWalk(m: seq<byte>, p: nat)
    ensures LookIn(m)(p).frame.pHdr == p
  {
  }

  /** Memory that differs only from at on holds the same frames before. */
  lemma SameBefore(s: Ring, m: seq<byte>, at: nat)
    requires s.area.offEnd <= |s.mem| == |m| && s.Between(s.offWriteCom, at).Some? && s.offWriteCom <= at
    requires forall i | 0 <= i < at :: i < |m| ==> m[i] == s.mem[i]
    ensures s.(mem := m).Between(s.offWriteCom, at) == s.Between(s.offWriteCom, at)
  {
    hide Aligned, HdrAt, FrameAt;
    WalkAgrees(s.area, s.mem, m, s.offWriteCom, at);
  }

  /** If instead the writer stores and fills the frame and commits all its frames before the reader has skipped, then
      the ring looks empty although not all that was sent has been received. */
  lemma WithoutSkip(y: System, z: System, b: seq<byte>) returns (x: System)
    requires Good(y) && InCorner(y, CompareExchange) && Step(y, CompareExchange) == Some(z) && z.writer.Reserved?
    requires |b| <= y.writer.cbFrame
    ensures Run(z, [StoreHdr, Fill(|y.pending|, 0, b)] + CommitAll(|y.pending| + 1)) == Some(x)
    ensures x.pending == [] && !x.ring.HasMoreToRead()
    ensures x.received == y.received && |x.sent| == |y.sent| + |y.pending| + 1 > |x.received|
  {
    hide Good, Step, InCorner, Aligned, HdrAt, FrameAt, Splice, Encode, CommitAll, Walk, Bounds.SlotOk, Bounds.After;
    CornerSlot(y, z);
    var n, at, h := |y.pending|, z.writer.at, z.writer.hdr;
    var v, w := StoreAndFill(z, n, b);
    SameBefore(y.ring, w.ring.mem, at);
    ReceivedWasSent(y);
    x := CommitsAlong(w, at, y.pending);
    RunTwo(z, StoreHdr, Fill(n, 0, b), v, w, CommitAll(n + 1));
  }

  lemma ReceivedWasSent(y: System)
    requires Good(y)
    ensures |y.sent| >= |y.received|
  {
    hide Aligned, HdrAt, FrameAt, Walk, Ring.HeldUpTo;
  }

  lemma StoreAndFill(z: System, n: nat, b: seq<byte>) returns (v: System, w: System)
    requires z.writer.Reserved? && z.writer.hdr.Fits() && z.writer.hdr.offFrame == HDR && n == |z.pending|
    requires z.writer.at + HDR + z.writer.hdr.cbFrame <= |z.ring.mem| && |b| <= z.writer.hdr.cbFrame
    ensures Step(z, StoreHdr) == Some(v) && Step(v, Fill(n, 0, b)) == Some(w)
    ensures w == z.(writer := Idle, pending := w.pending, ring := z.ring.(mem := w.ring.mem))
    ensures |w.pending| == n + 1 && w.pending[..n] == z.pending && w.pending[n].pHdr == z.writer.at
    ensures HdrAt(w.ring.mem, z.writer.at) == z.writer.hdr && |w.ring.mem| == |z.ring.mem|
    ensures forall i | 0 <= i < z.writer.at :: w.ring.mem[i] == z.ring.mem[i]
  {
    hide Aligned, HdrAt, FrameAt, Splice, Encode;
    var at, h := z.writer.at, z.writer.hdr;
    v := Step(z, StoreHdr).value;
    HdrStored(z.ring.mem, at, h);
    FrameOfHdr(v.ring.mem, at, h, at + HDR);
    w := Step(v, Fill(n, 0, b)).value;
    FillSlot(v.ring.mem, at, h, at + HDR, 0, b);
    SpliceIndex(z.ring.mem, at, Encode(h));
    SpliceIndex(v.ring.mem, at + HDR, b);
  }

  lemma RunTwo(y: System, a: Act, b: Act, v: System, w: System, rest: seq<Act>)
    requires Step(y, a) == Some(v) && Step(v, b) == Some(w)
    ensures Run(y, [a, b] + rest) == Run(w, rest)
  {
    hide Step;
    assert ([a, b] + rest)[1..] == [b] + rest;
    assert ([b] + rest)[1..] == rest;
  }

  // ---------- it can come to that ----------

  /** On a fresh ring a frame of all but the header's bytes is in the corner, and the ring then looks empty for good:
      there is nothing unread that the reader could skip. */
  lemma FreshRingReachesCorner(s: Ring, b: seq<byte>) returns (x: System)
    requires s.Held() == Some(Queues([], [])) && s.offReadX == s.area.offStart
    requires |b| == s.area.Size() - HDR && |b| < TWO_24
    ensures Run(Start(s), [Sample(|b|, TYPE_FRAME), CompareExchange] + ([StoreHdr, Fill(0, 0, b)] + CommitAll(1)))
         == Some(x)
    ensures InCorner(Step(Start(s), Sample(|b|, TYPE_FRAME)).value, CompareExchange)
    ensures !x.ring.HasMoreToRead() && |x.sent| == 1 && x.received == []
  {
    hide Walk, HdrAt, FrameAt, Run, Ring.HeldUpTo, Aligned, Align8, AlignU32;
    StartIsGood(s);
    var y := Step(Start(s), Sample(|b|, TYPE_FRAME)).value;
    SampleKeeps(Start(s), |b|, TYPE_FRAME, y);
    EmptyCursors(s);
    AlignedGap(s.area.offStart, s.area.offEnd);
    AlignedSum(s.area.offEnd, s.area.offStart);
    AlignedFixed(|b|);
    AlignU32IsAlign8(|b|);
    var z := Step(y, CompareExchange).value;
    x := WithoutSkip(y, z, b);
    RunTwo(Start(s), Sample(|b|, TYPE_FRAME), CompareExchange, y, z, [StoreHdr, Fill(0, 0, b)] + CommitAll(1));
  }
}
