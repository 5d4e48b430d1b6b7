/** How the bytes of the ring are accounted for. */
module Space {
  import opened Words
  import opened Slots
  import opened Rings
  import opened RingLaws
  import opened CommitLaws
  import opened ShortCommit

  /** The 32-bit size queries return cyclic distances, and together with the pending bytes and the one byte that
      is never used they make up the ring. */
  lemma SpaceIsConserved(s: Ring)
    requires s.Ordered(s.offWriteInt)
    ensures s.GetReadable() == s.area.Dist(s.offReadX, s.offWriteCom)
    ensures s.GetWritable() == s.area.Size() - 1 - s.area.Dist(s.offReadX, s.offWriteInt)
    ensures s.GetReadable() + s.area.Dist(s.offWriteCom, s.offWriteInt) + s.GetWritable() + 1 == s.area.Size()
    ensures s.GetReadable() == 0 <==> !s.HasMoreToRead()
  {
    hide Aligned;
  }

  /** A successful allocation fits the writable bytes exactly outside the exact-fit corner; it then uses up its
      header and aligned payload, or payload and abandoned tail, and leaves at least eight bytes before the reader. */
  lemma AllocationSpace(s: Ring, cbFrame: nat, u8Type: byte, t: Ring, o: Outcome)
    requires s.Inv() && cbFrame < TWO_24 && IsValidFrameType(u8Type)
    requires s.Allocate(cbFrame, u8Type) == (t, o) && o.Allocated?
    ensures var cb := Align8(cbFrame); var corner := ExactFit(s.area, s.offReadX, s.offWriteInt, cbFrame);
      && (cb + HDR <= s.GetWritable() <==> !corner)
      && (!corner ==>
           && t.GetWritable() + 1 >= HDR
           && s.GetWritable() - t.GetWritable()
              == (if o.pvFrame == s.offWriteInt + HDR then HDR + cb else s.area.offEnd - s.offWriteInt + cb))
  {
    hide Aligned, Align8, AlignU32, Walk, HdrAt, Splice, Encode, Bounds.After, Bounds.HdrFor;
    HeldFacts(s, s.offWriteInt);
    SpaceIsConserved(s);
    AlignU32IsAlign8(cbFrame);
    PlacementIsCursor(s.area, s.offReadX, s.offWriteInt, Align8(cbFrame));
    PlacementOrder(s.area, s.offReadX, s.offReadX, s.offWriteInt, Align8(cbFrame));
    if t.offWriteInt != t.offReadX {
      SpaceIsConserved(t);
      WriterGap(s.area, s.offReadX, t.offWriteInt);
    }
  }

  /** Two different cursors are at least a header apart, whichever way round. */
  lemma WriterGap(a: Area, r: nat, w: nat)
    requires a.Cursor(r) && a.Cursor(w) && r != w
    ensures HDR <= a.Dist(r, w) <= a.Size() - HDR
  {
    hide Aligned;
    if r < w { AlignedGap(r, w); } else { AlignedGap(w, r); }
  }

  // ---------- the half-capacity guarantee ----------

  /** The ring with all three cursors at p. */
  function EmptyAt(s: Ring, p: nat): Ring {
    s.(offReadX := p, offWriteCom := p, offWriteInt := p)
  }

  lemma EmptyFits(s: Ring, p: nat, cbFrame: nat)
    requires s.area.Cursor(p) && s.area.offEnd <= |s.mem| && cbFrame < TWO_24
    ensures EmptyAt(s, p).Inv()
    ensures EmptyAt(s, p).Allocate(cbFrame, TYPE_FRAME).1.Allocated? <==>
              Align8(cbFrame) + HDR <= s.area.offEnd - p || Align8(cbFrame) < p - s.area.offStart
  {
    hide Aligned, Align8, AlignU32, HdrAt, FrameAt, Splice, Encode, Bounds.HdrFor;
    AlignU32IsAlign8(cbFrame);
  }

  /** An empty ring takes a frame wherever its cursors stand exactly when twice the aligned frame is less than
      the ring. */
  lemma HalfCapacity(s: Ring, cbFrame: nat)
    requires s.area.offEnd <= |s.mem| && cbFrame < TWO_24
    ensures (forall p: nat | s.area.Cursor(p) :: EmptyAt(s, p).Allocate(cbFrame, TYPE_FRAME).1.Allocated?)
       <==> 2 * Align8(cbFrame) < s.area.Size()
  {
    hide Aligned, Align8, AlignU32, Ring.AllocateFrom;
    var a, cb := s.area, Align8(cbFrame);
    forall p: nat | a.Cursor(p)
      ensures EmptyAt(s, p).Allocate(cbFrame, TYPE_FRAME).1.Allocated? <==>
                cb + HDR <= a.offEnd - p || cb < p - a.offStart
      ensures 2 * cb < a.Size() ==> cb + HDR <= a.offEnd - p || cb < p - a.offStart
    {
      EmptyFits(s, p, cbFrame);
      if 2 * cb < a.Size() { RoomOnOneSide(a, p, cb); }
    }
    if 2 * cb >= a.Size() {
      var p := if cb < a.Size() then a.offStart + cb else a.offStart;
      AlignedSum(a.offStart, cb);
      AlignedGap(a.offStart, a.offEnd);
      if cb < a.Size() { AlignedGap(p, a.offEnd); }
      assert a.Cursor(p);
    }
  }

  lemma RoomOnOneSide(a: Area, p: nat, cb: nat)
    requires a.Cursor(p) && Aligned(cb) && 2 * cb < a.Size()
    ensures cb + HDR <= a.offEnd - p || cb < p - a.offStart
  {
    hide Aligned;
    if cb < a.offEnd - p {
      AlignedSum(a.offEnd, p);
      AlignedGap(cb, a.offEnd - p);
    }
  }

  // ---------- draining ----------

  function SkipN(s: Ring, n: nat): (t: Ring)
    ensures t == s.(offReadX := t.offReadX)
  {
    if n == 0 then s else SkipN(s, n - 1).Skip()
  }

  /** While the writer rests, each skip removes one frame and at least eight readable bytes, there is more to read
      until all frames are gone, and then the reader stands at the committed cursor. */
  lemma {:induction false} Drain(s: Ring, n: nat)
    requires s.Inv() && n <= |s.Held().value.committed|
    ensures var t := SkipN(s, n); var q := s.Held().value.committed;
      && t.Held() == Some(s.Held().value.(committed := q[n..]))
      && t.GetReadable() + HDR * n <= s.GetReadable()
      && (t.HasMoreToRead() <==> n < |q|)
  {
    hide Aligned, Align8, HdrAt, FrameAt, Bounds.SkipTarget, Bounds.SlotOk, Bounds.Span, Bounds.After;
    HeldFacts(s, s.offWriteInt);
    SpaceIsConserved(s);
    if n > 0 {
      var u := SkipN(s, n - 1);
      Drain(s, n - 1);
      SkipLaw(u, u.offWriteInt);
      HeldFacts(u, u.offWriteInt);
      HeldFacts(u.Skip(), u.offWriteInt);
      SpaceIsConserved(u);
      SpaceIsConserved(u.Skip());
      SkipMoves(u);
    }
    var t := SkipN(s, n);
    HeldFacts(t, t.offWriteInt);
    if t.offReadX != t.offWriteCom { WalkStep(t.area, LookIn(t.mem), t.offReadX, t.offWriteCom); }
  }

  lemma SkipMoves(s: Ring)
    requires s.Inv() && s.HasMoreToRead()
    ensures s.area.Dist(s.Skip().offReadX, s.offWriteCom) + HDR <= s.area.Dist(s.offReadX, s.offWriteCom)
  {
    hide Aligned, Align8, HdrAt, FrameAt;
    WalkStep(s.area, LookIn(s.mem), s.offReadX, s.offWriteCom);
    CursorArithmeticIsExact(s.area, s.offReadX, HdrAt(s.mem, s.offReadX));
  }

  /** After a short commit, skipping all unread frames, the shortened one and its padding brings the reader to the
      cursor that a plain commit of the same frame would have published. */
  lemma ShortCommitWalk(s: Ring, cbUsed: nat) returns (fs: seq<Frame>)
    requires s.Inv() && s.Held().value.pending != [] && s.CanCommitEx(s.offWriteCom, cbUsed)
    ensures var t := s.CommitEx(s.offWriteCom, cbUsed); var q := s.Held().value.committed;
      && t.Held() == Some(Queues(q + fs, s.Held().value.pending[1..])) && 1 <= |fs| <= 2
      && SkipN(t, |q| + |fs|).offReadX == s.Commit(s.offWriteCom).offWriteCom
  {
    hide Aligned, AlignU32, Align8, HdrAt, FrameAt, Walk, Ring.HeldUpTo, Ring.Pad, SkipN, Bounds.SlotOk,
         Bounds.CommitTarget;
    fs := CommitExLaw(s, cbUsed);
    var t := s.CommitEx(s.offWriteCom, cbUsed);
    Drain(t, |s.Held().value.committed| + |fs|);
  }

  // ---------- stale read cursors ----------

  lemma StalerStill(a: Area, offRead: nat, r: nat, next: nat, w: nat)
    requires a.Cursor(offRead) && a.Cursor(r) && a.Cursor(next) && a.Cursor(w)
    requires Stale(a, offRead, r, w) && a.Dist(r, next) + a.Dist(next, w) == a.Dist(r, w)
    ensures Stale(a, offRead, next, w)
  {
    hide Aligned;
  }

  lemma {:induction false} SampleGoesStale(s: Ring, n: nat)
    requires s.Inv() && n <= |s.Held().value.committed|
    ensures Stale(s.area, s.offReadX, SkipN(s, n).offReadX, s.offWriteInt)
  {
    hide Aligned, Align8, HdrAt, FrameAt, Walk, Bounds.SkipTarget, Bounds.SlotOk, Ring.HeldUpTo, Stale;
    HeldFacts(s, s.offWriteInt);
    if n == 0 {
      FreshSample(s.area, s.offReadX, s.offWriteInt);
    } else {
      SampleGoesStale(s, n - 1);
      Drain(s, n - 1);
      var u := SkipN(s, n - 1);
      HeldFacts(u, u.offWriteInt);
      SkipLaw(u, u.offWriteInt);
      HeldFacts(u.Skip(), u.offWriteInt);
      StalerStill(s.area, s.offReadX, u.offReadX, u.Skip().offReadX, s.offWriteInt);
    }
  }

  lemma FreshSample(a: Area, r: nat, w: nat)
    requires a.Cursor(r)
    ensures Stale(a, r, r, w)
  {
  }

  /** The writer samples the cursors, the reader skips any number of frames, and only then the writer allocates on
      what it has sampled: still exactly the exact-fit corner of the present cursors goes wrong, and otherwise what
      is unread and pending by then is intact and the new frame comes after it. */
  lemma StaleSampleIsSafe(s: Ring, n: nat, cbFrame: nat, u8Type: byte, t: Ring, o: Outcome)
    requires s.Inv() && n <= |s.Held().value.committed|
    requires s.area.offEnd <= |s.mem| && s.area.Cursor(s.offWriteInt)
    requires cbFrame < TWO_24 && IsValidFrameType(u8Type)
    requires SkipN(s, n).AllocateFrom(s.offReadX, s.offWriteInt, cbFrame, u8Type) == (t, o) && o.Allocated?
    ensures t.offWriteInt == t.offReadX <==> ExactFit(s.area, SkipN(s, n).offReadX, s.offWriteInt, cbFrame)
    ensures o.pvFrame + cbFrame <= |t.mem|
    ensures var v := s.Held().value; t.offWriteInt != t.offReadX ==>
      t.Held() == Some(Queues(v.committed[n..],
        v.pending + [Frame(o.pHdr, o.pvFrame, u8Type, t.mem[o.pvFrame..o.pvFrame + cbFrame])]))
  {
    hide Aligned, Align8, AlignU32, HdrAt, FrameAt, Walk, SkipN, Ring.HeldUpTo, Ring.AllocateFrom;
    SampleGoesStale(s, n);
    Drain(s, n);
    AllocateLaw(SkipN(s, n), s.offReadX, cbFrame, u8Type, t, o);
  }
}
