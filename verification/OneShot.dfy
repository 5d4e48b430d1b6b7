/** IntNetRingWriteFrame against allocate, copy and commit. */
module OneShot {
  import opened Words
  import opened Slots
  import opened Rings
  import opened RingLaws
  import opened CommitLaws

  /** A header stays readable when bytes are written beside it. */
  lemma HdrBeside(m: seq<byte>, p: nat, h: Hdr, f: nat, b: seq<byte>)
    requires p + HDR <= |m| && h.Fits() && f + |b| <= |m| && (p + HDR <= f || f + |b| <= p)
    ensures HdrAt(Splice(Splice(m, p, Encode(h)), f, b), p) == h
  {
    hide Splice, Encode, Decode;
    var m1 := Splice(m, p, Encode(h));
    HdrStored(m, p, h);
    SpliceIndex(m1, f, b);
    SameSlice(m1, Splice(m1, f, b), p, p + HDR);
  }

  /** Where an allocation fits, its payload lies inside the ring and beside its header. */
  lemma AllocatedRoom(s: Ring, offRead: nat, cbFrame: nat, u8Type: byte, t: Ring, o: Outcome)
    requires s.area.Cursor(s.offReadX) && s.area.Cursor(s.offWriteInt) && s.area.offEnd <= |s.mem|
    requires Stale(s.area, offRead, s.offReadX, s.offWriteInt)
    requires cbFrame < TWO_24 && IsValidFrameType(u8Type)
    requires s.AllocateFrom(offRead, s.offWriteInt, cbFrame, u8Type) == (t, o) && o.Allocated?
    ensures var w := s.offWriteInt; var h := Hdr(cbFrame, u8Type, o.pvFrame - w);
      && o.pHdr == w && h.Fits() && t == s.(offWriteInt := t.offWriteInt).PutHdr(w, h)
      && (o.pvFrame == w + HDR || o.pvFrame + cbFrame <= w)
      && s.area.offStart <= o.pvFrame && o.pvFrame + cbFrame <= s.area.offEnd
      && s.area.CommitTarget(w, h) == t.offWriteInt
  {
    hide Splice, Encode, Decode, Walk, Aligned, Align8, AlignU32, Bounds.CommitTarget, Bounds.SkipTarget;
    var a, w := s.area, s.offWriteInt;
    var h := a.HdrFor(w, a.Place(offRead, w, AlignU32(cbFrame)), cbFrame, u8Type);
    PlacementFits(a, offRead, s.offReadX, w, cbFrame, u8Type);
    SlotEnd(a, w, h);
    CursorArithmeticIsExact(a, w, h);
    assert h == Hdr(cbFrame, u8Type, o.pvFrame - w);
  }

  /** The one-shot write is allocate, copy, and commit of the new frame: the same memory, cursors, counters and result,
      in every placement (the exact-fit corner included) and on overflow, even when the read cursor it sampled is
      stale. */
  lemma WriteFrameIsTwoPhase(s: Ring, offRead: nat, data: seq<byte>, t: Ring, o: Outcome)
    requires s.area.Cursor(s.offReadX) && s.area.Cursor(s.offWriteInt) && s.area.offEnd <= |s.mem|
    requires |data| < TWO_24 && Stale(s.area, offRead, s.offReadX, s.offWriteInt)
    requires s.AllocateFrom(offRead, s.offWriteInt, |data|, TYPE_FRAME) == (t, o)
    ensures o.Allocated? ==>
      && o.pvFrame + |data| <= |t.mem|
      && s.WriteFrameFrom(offRead, s.offWriteInt, data) == (t.PutBytes(o.pvFrame, data).Commit(o.pHdr), o)
    ensures !o.Allocated? ==> o.Overflow? && s.WriteFrameFrom(offRead, s.offWriteInt, data) == (t, o)
  {
    hide Splice, Encode, HdrAt, Align8, Aligned, Bounds.CommitTarget;
    if o.Allocated? {
      var w := s.offWriteInt;
      var h := Hdr(|data|, TYPE_FRAME, o.pvFrame - w);
      AllocatedRoom(s, offRead, |data|, TYPE_FRAME, t, o);
      HdrBeside(s.mem, w, h, o.pvFrame, data);
    }
  }

  /** The whole outcome of a one-shot write on sampled cursors, as of an allocation. */
  lemma WriteFrameIsExact(s: Ring, offRead: nat, offWrite: nat, data: seq<byte>, t: Ring, o: Outcome)
    requires s.area.Cursor(offRead) && s.area.Cursor(offWrite) && s.area.offEnd <= |s.mem| && |data| < TWO_24
    requires s.WriteFrameFrom(offRead, offWrite, data) == (t, o)
    ensures
      if !HasRoom(s.area, offRead, offWrite, |data|, TYPE_FRAME) then
        o == Overflow && t == s.(cOverflows := (s.cOverflows + 1) % 0x1_0000_0000_0000_0000)
      else if s.offWriteInt != offWrite then o == WrongOrder && t == s
      else o == Allocated(offWrite, PayloadAt(s.area, offRead, offWrite, |data|, TYPE_FRAME))
  {
    hide Aligned, Align8, AlignU32, Splice, Encode, HdrAt, HasRoom, PayloadAt;
    PlacementIsExact(s.area, offRead, offWrite, |data|, TYPE_FRAME);
  }

  /** Allocate and copy outside the corner. */
  lemma AllocateAndCopy(s: Ring, data: seq<byte>, t: Ring, o: Outcome)
    requires s.Inv() && |data| < TWO_24
    requires s.Allocate(|data|, TYPE_FRAME) == (t, o) && o.Allocated? && t.offWriteInt != t.offReadX
    ensures o.pvFrame + |data| <= |t.mem|
    ensures var v := s.Held().value;
      t.PutBytes(o.pvFrame, data).Held()
        == Some(v.(pending := v.pending + [Frame(o.pHdr, o.pvFrame, TYPE_FRAME, data)]))
  {
    hide Splice, Encode, Decode, Walk, Aligned, Align8, AlignU32, HdrAt, FrameAt, Ring.AllocateFrom, Ring.HeldUpTo;
    HeldFacts(s, s.offWriteInt);
    AllocateLaw(s, s.offReadX, |data|, TYPE_FRAME, t, o);
    AllocatedRoom(s, s.offReadX, |data|, TYPE_FRAME, t, o);
    var k := |s.Held().value.pending|;
    FillLaw(t, t.offWriteInt, k, 0, data);
    SpliceAll(t.Held().value.pending[k].data, data);
    assert t.Held().value.pending[k := Frame(o.pHdr, o.pvFrame, TYPE_FRAME, data)]
        == s.Held().value.pending + [Frame(o.pHdr, o.pvFrame, TYPE_FRAME, data)];
  }

  /** Publishing the write cursor commits all pending frames. */
  lemma PublishAll(s: Ring, cb: nat)
    requires s.Inv()
    ensures var v := s.Held().value; s.Publish(s.offWriteInt, cb).Held() == Some(Queues(v.committed + v.pending, []))
  {
    hide Aligned, Align8, HdrAt, FrameAt, Walk, Nth, Ring.HeldUpTo, Bounds.SlotOk, Bounds.After, Bounds.Span,
         Bounds.Dist;
    var v := s.Held().value;
    HeldFacts(s, s.offWriteInt);
    WalkLength(s.area, LookIn(s.mem), s.offWriteCom, s.offWriteInt);
    PublishLaw(s, s.offWriteInt, |v.pending|, cb);
    assert v.pending[..|v.pending|] == v.pending && v.pending[|v.pending|..] == [];
  }

  /** A one-shot write appends the frame with its bytes, exactly outside the exact-fit corner. In the corner the ring
      afterwards looks empty to the reader and all its frames are out of reach. What the program assumes, that nothing
      is pending, keeps it from committing pending frames together with its own. */
  lemma WriteFrameLaw(s: Ring, data: seq<byte>, t: Ring, o: Outcome)
    requires s.Inv() && |data| < TWO_24
    requires s.WriteFrame(data) == (t, o) && o.Allocated?
    ensures var v := s.Held().value; var corner := ExactFit(s.area, s.offReadX, s.offWriteInt, |data|);
      && (t.Held() == Some(Queues(v.committed + v.pending + [Frame(o.pHdr, o.pvFrame, TYPE_FRAME, data)], []))
          <==> !corner)
      && (t.Held() == Some(Queues([], [])) <==> corner)
  {
    hide Splice, Encode, Decode, Aligned, Align8, AlignU32, HdrAt, FrameAt, Walk, Ring.WriteFrameFrom,
         Ring.AllocateFrom, Ring.HeldUpTo, Bounds.CommitTarget;
    HeldFacts(s, s.offWriteInt);
    var (t1, o1) := s.Allocate(|data|, TYPE_FRAME);
    WriteFrameIsTwoPhase(s, s.offReadX, data, t1, o1);
    AllocateLaw(s, s.offReadX, |data|, TYPE_FRAME, t1, o1);
    AllocatedRoom(s, s.offReadX, |data|, TYPE_FRAME, t1, o1);
    HdrBeside(s.mem, s.offWriteInt, Hdr(|data|, TYPE_FRAME, o.pvFrame - o.pHdr), o.pvFrame, data);
    if t1.offWriteInt != t1.offReadX {
      AllocateAndCopy(s, data, t1, o1);
      PublishAll(t1.PutBytes(o.pvFrame, data), |data|);
      var v := s.Held().value;
      ConcatAssoc(v.committed, v.pending, [Frame(o.pHdr, o.pvFrame, TYPE_FRAME, data)]);
    } else {
      LooksEmpty(t);
    }
  }

  lemma LooksEmpty(t: Ring)
    requires t.offReadX == t.offWriteCom == t.offWriteInt && t.area.Cursor(t.offReadX) && t.area.offEnd <= |t.mem|
    ensures t.Held() == Some(Queues([], []))
  {
  }
}
