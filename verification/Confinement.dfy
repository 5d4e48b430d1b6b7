/** Where the stores of a ring go: inside its area, or exactly when they do not. */
module Confinement {
  import opened Words
  import opened Slots
  import opened Rings
  import opened RingLaws
  import opened ShortCommit
  import opened Runs
  import opened RunLaws
  import opened Corner
  import opened CornerRuns

  /** The two memories agree outside the ring's area. */
  predicate OutsideKept(a: Area, m: seq<byte>, n: seq<byte>) {
    |m| == |n| && forall i | 0 <= i < |m| && !(a.offStart <= i < a.offEnd) :: m[i] == n[i]
  }

  lemma SpliceInside(a: Area, m: seq<byte>, at: nat, b: seq<byte>)
    requires a.offStart <= at && at + |b| <= a.offEnd <= |m|
    ensures OutsideKept(a, m, Splice(m, at, b))
  {
    hide Splice, Aligned;
    SpliceIndex(m, at, b);
  }

  // ---------- contained systems ----------

  /** The cursors that steer the next stores, and all that the writer is about to write through, lie inside the ring's
      area. No more is asked: frames may have been lost or overwritten, and headers may be garbage. */
  predicate Contained(y: System) {
    var a := y.ring.area;
    && a.offEnd <= |y.ring.mem| && a.Cursor(y.ring.offWriteInt) && a.offStart <= y.ring.offReadX < a.offEnd
    && (match y.writer
        case Sampled(cbFrame, u8Type, offRead, offWrite) =>
          cbFrame < TWO_24 && IsValidFrameType(u8Type) && a.Cursor(offWrite) && a.offStart <= offRead < a.offEnd
        case Reserved(at, h) => a.Cursor(at) && h.Fits() && a.SlotOk(at, h)
        case _ => true)
    && forall f | f in y.pending :: InArea(a, f)
  }

  predicate InArea(a: Area, f: Frame) {
    a.Cursor(f.pHdr) && a.offStart <= f.pvFrame && f.pvFrame + |f.data| <= a.offEnd
  }

  /** The short commit of the oldest pending frame stores its padding header, as far as the header found there leads,
      not wholly inside the area. */
  predicate PadStrays(y: System, cbUsed: nat) {
    y.pending != [] &&
    var s, p := y.ring, y.pending[0].pHdr;
    s.Pads(p, cbUsed) && !(s.area.offStart <= s.PadAt(p, cbUsed) && s.PadAt(p, cbUsed) + HDR <= s.area.offEnd)
  }

  /** The header at the read cursor leads the reader below the ring's area. */
  predicate SkipStrays(y: System) {
    var s := y.ring;
    s.area.SkipTarget(s.offReadX, HdrAt(s.mem, s.offReadX)) < s.area.offStart
  }

  /** What can lead out of the area: headers that are no longer as the writer allocated them. */
  predicate Strays(y: System, act: Act) {
    match act
    case PadUnused(cbUsed) => PadStrays(y, cbUsed)
    case Skip => SkipStrays(y)
    case _ => false
  }

  /** No other store ever leaves the area: not the headers, not payload or context, whatever has gone on before; and
      the system stays contained unless the reader strays. */
  lemma StepIsConfined(y: System, act: Act, z: System)
    requires Contained(y) && Step(y, act) == Some(z)
    ensures z.ring.area == y.ring.area && |z.ring.mem| == |y.ring.mem|
    ensures Contained(z) <==> !(act.Skip? && SkipStrays(y))
    ensures !Strays(y, act) ==> OutsideKept(y.ring.area, y.ring.mem, z.ring.mem)
  {
    hide Aligned, AlignU32, Align8, HdrAt, FrameAt, Splice, Encode, OutsideKept, InArea, Cut, Shown, Ring.CanPad,
         Ring.Pad, Ring.Pads, Ring.PadAt, Bounds.SlotOk, Bounds.Place, Bounds.CommitTarget, Bounds.SkipTarget;
    var s, a := y.ring, y.ring.area;
    if !act.StoreHdr? && !act.Fill? && !act.PadUnused? { SpliceNothing(a, s.mem); }
    match act
    case CompareExchange =>
      if z.writer.Reserved? {
        PlacedSlot(a, y.writer.offRead, y.writer.offWrite, y.writer.cbFrame, y.writer.u8Type);
      }
    case StoreHdr => StoredInArea(s, y.writer.at, y.writer.hdr);
    case Fill(k, at, b) =>
      FilledInArea(a, y.pending[k], at, b);
      SpliceInside(a, s.mem, y.pending[k].pvFrame + at, b);
    case PadUnused(cbUsed) => PadStores(y, cbUsed);
    case Skip => SkipTargetBelowEnd(a, s.offReadX, HdrAt(s.mem, s.offReadX));
    case _ =>
  }

  /** Each placement gives a slot inside the area as long as what was taken for the read cursor lies in it. */
  lemma PlacedSlot(a: Area, offRead: nat, w: nat, cbFrame: nat, u8Type: byte)
    requires a.Cursor(w) && a.offStart <= offRead < a.offEnd && cbFrame < TWO_24 && IsValidFrameType(u8Type)
    requires !a.Place(offRead, w, AlignU32(cbFrame)).NoFit?
    ensures var pl := a.Place(offRead, w, AlignU32(cbFrame)); var h := a.HdrFor(w, pl, cbFrame, u8Type);
      h.Fits() && a.SlotOk(w, h) && a.Cursor(pl.offNew)
  {
    hide Aligned, Align8, AlignU32;
    AlignU32IsAlign8(cbFrame);
    var h := a.HdrFor(w, a.Place(offRead, w, AlignU32(cbFrame)), cbFrame, u8Type);
    assert a.SlotOk(w, h);
    SlotEnd(a, w, h);
  }

  lemma StoredInArea(s: Ring, at: nat, h: Hdr)
    requires s.area.offEnd <= |s.mem| && s.area.Cursor(at) && h.Fits() && s.area.SlotOk(at, h)
    ensures InArea(s.area, FrameAt(s.PutHdr(at, h).mem, at)) && OutsideKept(s.area, s.mem, s.PutHdr(at, h).mem)
  {
    hide Aligned, Align8, HdrAt, FrameAt, Splice, Encode, Decode, Bounds.SlotOk, Bounds.After, OutsideKept;
    SlotEnd(s.area, at, h);
    HdrStored(s.mem, at, h);
    FrameOfHdr(s.PutHdr(at, h).mem, at, h, at + h.offFrame);
    SpliceInside(s.area, s.mem, at, Encode(h));
  }

  lemma FilledInArea(a: Area, f: Frame, at: nat, b: seq<byte>)
    requires InArea(a, f) && at + |b| <= |f.data|
    ensures InArea(a, f.(data := Splice(f.data, at, b)))
    ensures a.offStart <= f.pvFrame + at && f.pvFrame + at + |b| <= a.offEnd
  {
    hide Splice;
  }

  lemma SkipTargetBelowEnd(a: Area, p: nat, h: Hdr)
    ensures a.SkipTarget(p, h) < a.offEnd
  {
    hide AlignU32;
  }

  lemma SpliceNothing(a: Area, m: seq<byte>)
    ensures OutsideKept(a, m, m)
  {
  }

  /** The two stores of a short commit. */
  lemma PadStores(y: System, cbUsed: nat)
    requires y.pending != [] && y.ring.CanPad(y.pending[0].pHdr, cbUsed)
    requires y.ring.area.offEnd <= |y.ring.mem| && InArea(y.ring.area, y.pending[0])
    ensures var s := y.ring; var t := s.Pad(y.pending[0].pHdr, cbUsed);
      && t == s.(mem := t.mem) && |t.mem| == |s.mem|
      && (!PadStrays(y, cbUsed) ==> OutsideKept(s.area, s.mem, t.mem))
  {
    hide Aligned, AlignU32, HdrAt, Splice, Encode, Ring.Pads, Ring.PadAt;
    var s, p := y.ring, y.pending[0].pHdr;
    if s.Pads(p, cbUsed) && !PadStrays(y, cbUsed) {
      var h := HdrAt(s.mem, p);
      var hp := PadHdr(h, cbUsed);
      var m1 := Splice(s.mem, s.PadAt(p, cbUsed), Encode(hp));
      SpliceInside(s.area, s.mem, s.PadAt(p, cbUsed), Encode(hp));
      SpliceInside(s.area, m1, p, Encode(HdrAt(m1, p).(cbFrame := Low24(WithCtx(h.u8Type, cbUsed)))));
    } else if !s.Pads(p, cbUsed) {
      SpliceNothing(s.area, s.mem);
    }
  }

  /** The padding header that a short commit stores behind the header h. */
  function PadHdr(h: Hdr, cbUsed: nat): (hp: Hdr)
    ensures hp.Fits()
  {
    Hdr(Low24(AlignU32(h.cbFrame) - AlignU32(WithCtx(h.u8Type, cbUsed)) - HDR), TYPE_PADDING, HDR)
  }

  lemma GoodIsContained(y: System)
    requires Good(y) && y.writer.Idle? && y.pending == []
    ensures Contained(y)
  {
    hide Aligned, Walk;
    HeldFacts(y.ring, y.ring.offWriteInt);
  }

  // ---------- exactly when a short commit strays ----------

  function Over(y: System, m: seq<byte>): System {
    y.(ring := y.ring.(mem := m))
  }

  /** m holds the ring's own area. */
  predicate SameArea(y: System, m: seq<byte>) {
    y.ring.area.offEnd <= |m| == |y.ring.mem| && SameBytes(y.ring.mem, m, y.ring.area.offStart, y.ring.area.offEnd)
  }

  /** A short commit keeps to the area, whatever lies outside, exactly if the header found at the frame leads the
      padding header inside. */
  lemma PadIsConfinedExactly(y: System, cbUsed: nat)
    requires Contained(y) && Step(y, PadUnused(cbUsed)).Some?
    ensures !PadStrays(y, cbUsed) <==>
      forall m, z | SameArea(y, m) && Step(Over(y, m), PadUnused(cbUsed)) == Some(z) ::
        OutsideKept(y.ring.area, m, z.ring.mem)
  {
    hide Aligned, AlignU32, HdrAt, Splice, Encode, SameBytes, OutsideKept, Ring.Pad, Ring.CanPad, Bounds.CommitTarget;
    assert InArea(y.ring.area, y.pending[0]);
    if PadStrays(y, cbUsed) {
      var m, z := StrayingPad(y, cbUsed);
    } else {
      forall m, z | SameArea(y, m) && Step(Over(y, m), PadUnused(cbUsed)) == Some(z)
        ensures OutsideKept(y.ring.area, m, z.ring.mem)
      {
        SameHdr(y, m, y.pending[0].pHdr);
        PadStores(Over(y, m), cbUsed);
      }
    }
  }

  lemma SameHdr(y: System, m: seq<byte>, p: nat)
    requires SameArea(y, m) && y.ring.area.Cursor(p)
    ensures HdrAt(m, p) == HdrAt(y.ring.mem, p)
  {
    hide Aligned, Decode;
    SameSlice(y.ring.mem, m, p, p + HDR);
  }

  /** Some byte outside that the padding header changes. */
  lemma StrayingPad(y: System, cbUsed: nat) returns (m: seq<byte>, z: System)
    requires Contained(y) && Step(y, PadUnused(cbUsed)).Some? && PadStrays(y, cbUsed)
    ensures SameArea(y, m) && Step(Over(y, m), PadUnused(cbUsed)) == Some(z)
    ensures !OutsideKept(y.ring.area, m, z.ring.mem)
  {
    hide Aligned, AlignU32, HdrAt, Splice, Encode, OutsideKept, Bounds.CommitTarget;
    var s, a, p := y.ring, y.ring.area, y.pending[0].pHdr;
    assert InArea(a, y.pending[0]);
    var pp: nat := s.PadAt(p, cbUsed);
    var b := Encode(PadHdr(HdrAt(s.mem, p), cbUsed));
    var i := if pp < a.offStart then pp else pp + HDR - 1;
    m := s.mem[i := if b[i - pp] == 0 then 1 else 0];
    SameHdr(y, m, p);
    z := Step(Over(y, m), PadUnused(cbUsed)).value;
    var g := HdrAt(Splice(m, pp, b), p).(cbFrame := Low24(WithCtx(HdrAt(m, p).u8Type, cbUsed)));
    BeyondSecond(m, pp, b, p, Encode(g), i);
    Changes(a, m, z.ring.mem, i);
  }

  lemma BeyondSecond(m: seq<byte>, pp: nat, b: seq<byte>, p: nat, c: seq<byte>, i: nat)
    requires pp + |b| <= |m| && p + |c| <= |m| && pp <= i < pp + |b| && !(p <= i < p + |c|)
    ensures Splice(Splice(m, pp, b), p, c)[i] == b[i - pp]
  {
    hide Splice;
    SpliceIndex(m, pp, b);
    SpliceIndex(Splice(m, pp, b), p, c);
  }

  lemma Changes(a: Area, m: seq<byte>, n: seq<byte>, i: nat)
    requires i < |m| && i < |n| && !(a.offStart <= i < a.offEnd) && m[i] != n[i]
    ensures !OutsideKept(a, m, n)
  {
  }

  // ---------- patient writers do not stray ----------

  lemma GoodStaysIn(y: System, act: Act, z: System)
    requires Good(y) && Step(y, act) == Some(z)
    ensures !Strays(y, act)
  {
    hide Aligned, AlignU32, Align8, HdrAt, FrameAt, Walk, Ring.HeldUpTo, Ring.PadAt, Ring.Pads, Ring.Pad, Ring.CanPad,
         Bounds.SlotOk, Bounds.After, Bounds.Span, Bounds.SkipTarget, Bounds.CommitTarget;
    if act.PadUnused? { GoodPadStaysIn(y.ring, act.cbUsed); OldestAtCommitCursor(y.ring, y.ring.offWriteInt); }
    if act.Skip? { GoodSkipStaysIn(y); }
  }

  lemma GoodPadStaysIn(s: Ring, cbUsed: nat)
    requires s.Inv() && s.Held().value.pending != []
    requires var f := s.Held().value.pending[0]; WithCtx(f.u8Type, cbUsed) <= |f.data|
    ensures var p := s.offWriteCom; s.Pads(p, cbUsed) ==> s.area.Cursor(s.PadAt(p, cbUsed))
  {
    hide Aligned, AlignU32, Align8, HdrAt, FrameAt, Walk, Ring.HeldUpTo, Ring.PadAt, Ring.Pads, Bounds.SlotOk,
         Bounds.After, Bounds.Span;
    var p := s.offWriteCom;
    PendingCanPad(s, cbUsed);
    SlotCanPad(s, p, cbUsed);
    if s.Pads(p, cbUsed) {
      PaddingFills(s.area, p, HdrAt(s.mem, p), WithCtx(HdrAt(s.mem, p).u8Type, cbUsed));
    }
  }

  lemma GoodSkipStaysIn(y: System)
    requires Good(y) && y.ring.HasMoreToRead()
    ensures !SkipStrays(y)
  {
    hide Aligned, Align8, HdrAt, FrameAt, Ring.HeldUpTo, Bounds.SlotOk, Bounds.After, Bounds.SkipTarget;
    SkipIsAhead(y);
    CursorArithmeticIsExact(y.ring.area, y.ring.offReadX, HdrAt(y.ring.mem, y.ring.offReadX));
  }

  /** While the writer is patient, in the corner or out, neither side meets a header that leads it astray. */
  lemma PatientStaysIn(y: System, mode: Mode, act: Act, z: System)
    requires Holds(y, mode) && Step(y, act) == Some(z)
    ensures !Strays(y, act)
  {
    hide Good, Aligned, AlignU32, HdrAt, FrameAt, Shown, Bounds.SlotOk, Bounds.After, Bounds.SkipTarget;
    match mode
    case Clear => GoodStaysIn(y, act, z);
    case Brimming(at) => BrimStaysIn(y, at, act, z);
    case Filled =>
      if act.PadUnused? {
        StepIgnoresReader(y, act, z);
        GoodStaysIn(Ahead(y), act, Step(Ahead(y), act).value);
        assert PadStrays(y, act.cbUsed) == PadStrays(Ahead(y), act.cbUsed);
      }
      CursorArithmeticIsExact(y.ring.area, y.ring.offReadX, HdrAt(y.ring.mem, y.ring.offReadX));
  }

  lemma BrimStaysIn(y: System, at: nat, act: Act, z: System)
    requires Brim(y, at) && Step(y, act) == Some(z)
    ensures !Strays(y, act)
  {
    hide Good, Aligned, AlignU32, HdrAt, FrameAt, Ring.Pad, Ring.CanPad, Bounds.SlotOk, Bounds.After,
         Bounds.CommitTarget;
    if act.PadUnused? {
      PadIgnoresLast(y, at, act.cbUsed, z);
      GoodStaysIn(Without(y, at), act, Step(Without(y, at), act).value);
      assert PadStrays(y, act.cbUsed) == PadStrays(Without(y, at), act.cbUsed);
    }
  }

  // ---------- an impatient writer may stray ----------

  /** An allocation that goes straight, in its three steps. */
  lemma AllocatesStraight(y: System, cbFrame: nat, n: nat) returns (z: System)
    requires y.writer.Idle? && cbFrame < TWO_24
    requires var s := y.ring; var a := s.area;
      && a.offEnd <= |s.mem| && a.Cursor(s.offWriteInt)
      && a.Place(s.offReadX, s.offWriteInt, AlignU32(cbFrame)) == Straight(n)
      && s.offWriteInt + HDR + cbFrame <= a.offEnd
    ensures Run(y, [Sample(cbFrame, TYPE_FRAME), CompareExchange, StoreHdr]) == Some(z)
    ensures var s := y.ring; var w := s.offWriteInt; var m := z.ring.mem;
      && z == y.(ring := s.(offWriteInt := n, mem := m), pending := z.pending)
      && |m| == |s.mem| && HdrAt(m, w) == Hdr(cbFrame, TYPE_FRAME, HDR)
      && z.pending == y.pending + [Frame(w, w + HDR, TYPE_FRAME, m[w + HDR..w + HDR + cbFrame])]
      && forall p: nat | p + HDR <= w :: HdrAt(m, p) == HdrAt(s.mem, p)
  {
    hide Aligned, AlignU32, HdrAt, FrameAt, Splice, Encode, Bounds.Place;
    var w, h := y.ring.offWriteInt, Hdr(cbFrame, TYPE_FRAME, HDR);
    var u := Step(y, Sample(cbFrame, TYPE_FRAME)).value;
    var v := Step(u, CompareExchange).value;
    z := Step(v, StoreHdr).value;
    HdrStored(y.ring.mem, w, h);
    FrameOfHdr(z.ring.mem, w, h, w + HDR);
    forall p: nat | p + HDR <= w ensures HdrAt(z.ring.mem, p) == HdrAt(y.ring.mem, p) {
      HdrAway(y.ring.mem, p, w, Encode(h));
    }
    ThreeActs(y, Sample(cbFrame, TYPE_FRAME), CompareExchange, StoreHdr);
  }

  /** Two frames of 16 bytes, of which the first is committed, and one of 40 bytes in the corner. */
  lemma FillsSmallRing(s: Ring) returns (acts: seq<Act>, y: System)
    requires s.area == Bounds(0, 96) && s.area.offEnd <= |s.mem|
    requires s.offReadX == s.offWriteCom == s.offWriteInt == 0
    ensures Run(Start(s), acts) == Some(y) && y.writer.Idle? && y.ring.area == s.area && |y.ring.mem| == |s.mem|
    ensures y.ring.offReadX == y.ring.offWriteInt == 0 && y.ring.offWriteCom == 24
    ensures |y.pending| == 2 && y.pending[0].pHdr == 24 && y.pending[0].u8Type == TYPE_FRAME
    ensures |y.pending[0].data| == 16
  {
    hide Step, Run, HdrAt, FrameAt;
    var a := AllocatesStraight(Start(s), 16, 24);
    var b := AllocatesStraight(a, 16, 48);
    var c := CommitsFirst(b);
    y := AllocatesStraight(c, 40, 0);
    var put := (cb: nat) => [Sample(cb, TYPE_FRAME), CompareExchange, StoreHdr];
    RunConcat(Start(s), put(16), put(16), a);
    RunConcat(Start(s), put(16) + put(16), [Commit], b);
    RunConcat(Start(s), put(16) + put(16) + [Commit], put(40), c);
    acts := put(16) + put(16) + [Commit] + put(40);
  }

  lemma CommitsFirst(b: System) returns (c: System)
    requires b.writer.Idle? && b.pending != [] && b.pending[0].pHdr == 0 && b.ring.area == Bounds(0, 96)
    requires HdrAt(b.ring.mem, 0) == Hdr(16, TYPE_FRAME, HDR)
    ensures Run(b, [Commit]) == Some(c)
    ensures c == b.(ring := c.ring, pending := b.pending[1..], sent := c.sent)
    ensures c.ring ==
      b.ring.(offWriteCom := 24, cbStatWritten := c.ring.cbStatWritten, cStatFrames := c.ring.cStatFrames)
  {
    hide HdrAt;
    c := Step(b, Commit).value;
    assert Run(c, []) == Some(c);
  }

  /** The third frame's payload is written over the header of the first. */
  lemma FillsOverHeader(v: System, h: Hdr) returns (y: System)
    requires v.writer.Idle? && |v.pending| == 3 && v.pending[2].pvFrame == 8 && |v.pending[2].data| == 40
    requires |v.ring.mem| >= 96 && h.Fits()
    ensures Run(v, [Fill(2, 16, Encode(h))]) == Some(y) && HdrAt(y.ring.mem, 24) == h
    ensures y == v.(ring := v.ring.(mem := y.ring.mem), pending := y.pending)
    ensures |y.ring.mem| == |v.ring.mem| && y.pending != [] && y.pending[0] == v.pending[0]
  {
    hide HdrAt, Splice, Encode;
    HdrStored(v.ring.mem, 24, h);
    y := Step(v, Fill(2, 16, Encode(h))).value;
    assert Run(y, []) == Some(y);
  }

  lemma PadFar(s: Ring)
    requires HdrAt(s.mem, 24) == Hdr(32, TYPE_FRAME, 56) && |s.mem| >= 104
    ensures s.CanPad(24, 16) && s.Pads(24, 16) && s.PadAt(24, 16) == 96
    ensures HdrAt(s.Pad(24, 16).mem, 96) == Hdr(8, TYPE_PADDING, HDR)
  {
    hide HdrAt, Splice, Encode, Decode;
    var hp := Hdr(8, TYPE_PADDING, HDR);
    assert s.PadAt(24, 16) == 96 && s.Pads(24, 16);
    var m := Splice(s.mem, 96, Encode(hp));
    HdrStored(s.mem, 96, hp);
    HdrAway(m, 96, 24, Encode(HdrAt(m, 24).(cbFrame := 16)));
  }

  lemma PadsBehind(y: System) returns (z: System)
    requires y.writer.Idle? && y.pending != [] && y.pending[0].pHdr == 24 && y.pending[0].u8Type == TYPE_FRAME
    requires |y.pending[0].data| == 16 && |y.ring.mem| >= 104 && y.ring.area == Bounds(0, 96)
    requires HdrAt(y.ring.mem, 24) == Hdr(32, TYPE_FRAME, 56)
    ensures PadStrays(y, 16) && Step(y, PadUnused(16)) == Some(z)
    ensures HdrAt(z.ring.mem, 96) == Hdr(8, TYPE_PADDING, HDR)
  {
    hide HdrAt, Ring.Pad, Ring.CanPad, Ring.Pads, Ring.PadAt, Bounds.CommitTarget;
    PadFar(y.ring);
    z := Step(y, PadUnused(16)).value;
  }

  /** If the writer goes on in the full ring, its payload can overwrite the header of a frame that it has yet to commit.
      Then the cursors are in the asserted order, the frame is the oldest, the header found there has a valid type and a
      payload that starts inside the area, and no more is used than was allocated; and still the padding header of a
      short commit comes to lie behind the area. */
  lemma ImpatientPadStrays(s: Ring) returns (acts: seq<Act>, y: System, z: System)
    requires s.area == Bounds(0, 96) && s.area.offEnd + HDR <= |s.mem|
    requires s.offReadX == s.offWriteCom == s.offWriteInt == 0
    ensures Run(Start(s), acts) == Some(y) && y.ring.AssertedSanity() && y.pending != []
    ensures var p := y.pending[0].pHdr; var h := HdrAt(y.ring.mem, p);
      && p == y.ring.offWriteCom && IsValidFrameType(h.u8Type) && 0 <= p + h.offFrame < y.ring.area.offEnd
      && |y.pending[0].data| == 16
    ensures PadStrays(y, 16) && Step(y, PadUnused(16)) == Some(z)
    ensures HdrAt(z.ring.mem, s.area.offEnd) == Hdr(8, TYPE_PADDING, HDR)
  {
    hide Step, Run, HdrAt, FrameAt, Encode, PadStrays;
    var u;
    acts, u := FillsSmallRing(s);
    var v := AllocatesStraight(u, 40, 48);
    RunConcat(Start(s), acts, [Sample(40, TYPE_FRAME), CompareExchange, StoreHdr], u);
    acts := acts + [Sample(40, TYPE_FRAME), CompareExchange, StoreHdr];
    var h := Hdr(32, TYPE_FRAME, 56);
    y := FillsOverHeader(v, h);
    RunConcat(Start(s), acts, [Fill(2, 16, Encode(h))], v);
    acts := acts + [Fill(2, 16, Encode(h))];
    z := PadsBehind(y);
  }
}
