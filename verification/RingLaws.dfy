/** What each ring operation keeps and what it does to the frames in the ring. */
module RingLaws {
  import opened Words
  import opened Slots
  import opened Rings

  // ---------- the order of the cursors ----------

  /** The asserted order, strengthened where the committed cursor has wrapped and the read cursor has not. */
  lemma OrderIsStrengthenedSanity(s: Ring)
    requires s.area.Cursor(s.offReadX) && s.area.Cursor(s.offWriteCom) && s.area.Cursor(s.offWriteInt)
    ensures s.Ordered(s.offWriteInt) <==>
              s.AssertedSanity() && (s.offWriteCom < s.offReadX ==> s.offWriteInt < s.offReadX)
  {
    hide Aligned, AlignU32;
    forall p: nat | s.area.Cursor(p) ensures AlignU32(p) == p { AlignedIffFixed(p); }
  }

  /** The asserted order alone is not kept: here an allocation that fits breaks it. */
  lemma AssertedSanityIsNotInductive() returns (s: Ring)
    ensures s.AssertedSanity() && s.area.offEnd <= |s.mem| && s.area.Cursor(s.offWriteInt)
    ensures s.Allocate(32, TYPE_FRAME).1.Allocated? && s.Allocate(32, TYPE_FRAME).0.offWriteInt != s.offReadX
    ensures !s.Allocate(32, TYPE_FRAME).0.AssertedSanity()
  {
    s := Ring(Bounds(0, 64), 16, 8, 24, 0, 0, 0, seq(64, _ => 0));
    assert s.Allocate(32, TYPE_FRAME).0.offWriteInt == 0;
  }

  // ---------- placing an allocation ----------

  /** offRead is a read cursor sampled earlier: the reader went on from there, the writer did not. */
  predicate Stale(a: Area, offRead: nat, r: nat, w: nat) {
    a.Cursor(offRead) && a.Dist(offRead, r) + a.Dist(r, w) == a.Dist(offRead, w)
  }

  /** The allocation ends exactly at the end of the ring while the reader stands at its start. */
  predicate ExactFit(a: Area, r: nat, w: nat, cbFrame: nat) {
    r == a.offStart && a.offEnd - w == Align8(cbFrame) + HDR
  }

  /** The three placements end at an aligned offset of the ring. */
  lemma PlacementIsCursor(a: Area, offRead: nat, w: nat, cb: nat)
    requires a.Cursor(offRead) && a.Cursor(w) && Aligned(cb) && cb < TWO_31
    requires !a.Place(offRead, w, cb).NoFit?
    ensures a.Cursor(a.Place(offRead, w, cb).offNew)
    ensures match a.Place(offRead, w, cb)
      case Straight(n) => w + HDR + cb <= a.offEnd && n == if w + HDR + cb == a.offEnd then a.offStart else w + HDR + cb
      case Wrapped(n) => n == a.offStart + cb < offRead <= w
  {
    hide Aligned;
    assert Aligned(w + HDR + cb) && Aligned(a.offStart + cb) by {
      AlignedSum(w, HDR); AlignedSum(w + HDR, cb); AlignedSum(a.offStart, cb);
    }
    if offRead > w {
      AlignedGap(w + HDR + cb, offRead);
    } else if a.offEnd - w < cb + HDR {
      AlignedGap(a.offStart + cb, offRead);
    } else if w + HDR + cb < a.offEnd {
      AlignedGap(w + HDR + cb, a.offEnd);
    }
  }

  /** Where the three placements leave the write cursor with respect to the reader. */
  lemma PlacementOrder(a: Area, offRead: nat, r: nat, w: nat, cb: nat)
    requires a.Cursor(r) && a.Cursor(w) && Stale(a, offRead, r, w) && Aligned(cb) && cb < TWO_31
    requires !a.Place(offRead, w, cb).NoFit?
    ensures var n := a.Place(offRead, w, cb).offNew;
      && (n == r <==> r == a.offStart && a.offEnd - w == cb + HDR)
      && (n != r ==> n != w && a.Dist(r, w) + a.Dist(w, n) == a.Dist(r, n))
  {
    hide Aligned;
    PlacementIsCursor(a, offRead, w, cb);
    if offRead > w {
      assert r > w ==> r >= offRead;
    } else {
      assert offRead <= r <= w;   // the reader cannot have wrapped
    }
  }

  /** A placement found with a stale read cursor is a slot at w; the writer runs into the reader only in the
      exact-fit corner. */
  lemma PlacementFits(a: Area, offRead: nat, r: nat, w: nat, cbFrame: nat, u8Type: byte)
    requires a.Cursor(r) && a.Cursor(w) && Stale(a, offRead, r, w)
    requires cbFrame < TWO_24 && IsValidFrameType(u8Type)
    requires !a.Place(offRead, w, AlignU32(cbFrame)).NoFit?
    ensures var pl := a.Place(offRead, w, AlignU32(cbFrame)); var h := a.HdrFor(w, pl, cbFrame, u8Type);
      && h.Fits() && a.SlotOk(w, h) && a.After(w, h) == pl.offNew && a.Cursor(pl.offNew)
      && w + h.offFrame == (if pl.Wrapped? then a.offStart else w + HDR)
      && (pl.offNew == r <==> ExactFit(a, r, w, cbFrame))
      && (pl.offNew != r ==> pl.offNew != w && a.Dist(r, w) + a.Dist(w, pl.offNew) == a.Dist(r, pl.offNew))
  {
    hide Aligned, Align8, AlignU32;
    AlignU32IsAlign8(cbFrame);
    PlacementIsCursor(a, offRead, w, Align8(cbFrame));
    PlacementOrder(a, offRead, r, w, Align8(cbFrame));
  }

  lemma HeldFacts(s: Ring, wh: nat)
    requires s.HeldUpTo(wh).Some?
    ensures s.Ordered(wh) && s.area.offEnd <= |s.mem|
    ensures s.Between(s.offReadX, s.offWriteCom) == Some(s.HeldUpTo(wh).value.committed)
    ensures s.Between(s.offWriteCom, wh) == Some(s.HeldUpTo(wh).value.pending)
  {
    hide Aligned, Walk;
  }

  /** A slot with header h at w ends before the reader at r. */
  predicate Room(a: Area, r: nat, w: nat, h: Hdr) {
    a.SlotOk(w, h) && a.Dist(r, w) + a.Span(w, h) < a.Size()
  }

  /** Some slot of the frame, in either shape, ends before the reader, or exactly fits to the end of the ring. */
  ghost predicate HasRoom(a: Area, r: nat, w: nat, cbFrame: nat, u8Type: byte) {
    ExactFit(a, r, w, cbFrame) || exists off :: Room(a, r, w, Hdr(cbFrame, u8Type, off))
  }

  /** Where the payload goes: behind the header whenever that has room, and only else to the ring start. */
  function PayloadAt(a: Area, r: nat, w: nat, cbFrame: nat, u8Type: byte): nat {
    if ExactFit(a, r, w, cbFrame) || Room(a, r, w, Hdr(cbFrame, u8Type, HDR)) then w + HDR else a.offStart
  }

  /** The three placement tests miss no room, find none that is not there, and give up the end of the ring only where
      the frame does not fit before it. */
  lemma PlacementIsExact(a: Area, offRead: nat, w: nat, cbFrame: nat, u8Type: byte)
    requires a.Cursor(offRead) && a.Cursor(w) && cbFrame < TWO_24 && IsValidFrameType(u8Type)
    ensures var pl := a.Place(offRead, w, AlignU32(cbFrame));
      && (!pl.NoFit? <==> HasRoom(a, offRead, w, cbFrame, u8Type))
      && (!pl.NoFit? ==> (if pl.Wrapped? then a.offStart else w + HDR) == PayloadAt(a, offRead, w, cbFrame, u8Type))
  {
    hide Aligned, Align8, AlignU32;
    AlignU32IsAlign8(cbFrame);
    var straight, wrapped := Hdr(cbFrame, u8Type, HDR), Hdr(cbFrame, u8Type, a.offStart - w);
    assert a.SlotOk(w, straight) <==> w + HDR + Align8(cbFrame) <= a.offEnd;
    assert a.SlotOk(w, wrapped) <==> a.offStart + Align8(cbFrame) < w;
    assert Room(a, offRead, w, straight) || Room(a, offRead, w, wrapped) ==>
      exists off :: Room(a, offRead, w, Hdr(cbFrame, u8Type, off));
  }

  /** The whole outcome of an allocation on sampled cursors: an overflow, counted modulo 2^64, exactly where there is no
      room; a lost race, which changes nothing; or the pointers to header and payload. */
  lemma AllocationIsExact(s: Ring, offRead: nat, offWrite: nat, cbFrame: nat, u8Type: byte, t: Ring, o: Outcome)
    requires s.area.Cursor(offRead) && s.area.Cursor(offWrite) && s.area.offEnd <= |s.mem|
    requires cbFrame < TWO_24 && IsValidFrameType(u8Type)
    requires s.AllocateFrom(offRead, offWrite, cbFrame, u8Type) == (t, o)
    ensures
      if !HasRoom(s.area, offRead, offWrite, cbFrame, u8Type) then
        o == Overflow && t == s.(cOverflows := (s.cOverflows + 1) % 0x1_0000_0000_0000_0000)
      else if s.offWriteInt != offWrite then o == WrongOrder && t == s
      else o == Allocated(offWrite, PayloadAt(s.area, offRead, offWrite, cbFrame, u8Type))
  {
    hide Aligned, Align8, AlignU32, Splice, Encode, HdrAt, Bounds.Place, HasRoom, PayloadAt;
    PlacementIsExact(s.area, offRead, offWrite, cbFrame, u8Type);
  }

  lemma CountersHoldNothing(s: Ring, n: nat)
    ensures s.(cOverflows := n).Held() == s.Held()
  {
    hide Aligned, Walk;
  }

  // ---------- writes that stay behind the written headers ----------

  /** Memory that agrees up to wh holds the same unread and pending frames. */
  lemma KeepsWalks(s: Ring, m: seq<byte>, wh: nat)
    requires s.HeldUpTo(wh).Some? && |m| == |s.mem| && Agree(s.area, s.mem, m, s.offReadX, wh)
    ensures s.(mem := m).HeldUpTo(wh) == s.HeldUpTo(wh)
  {
    AgreeOnTail(s.area, s.mem, m, s.offReadX, s.offWriteCom, wh);
    WalkAgrees(s.area, s.mem, m, s.offReadX, s.offWriteCom);
    WalkAgrees(s.area, s.mem, m, s.offWriteCom, wh);
  }

  /** A splice into the arc behind wh leaves the arc before it alone. */
  lemma SpliceBehind(a: Area, m: seq<byte>, at: nat, b: seq<byte>, r: nat, wh: nat, e: nat)
    requires a.Cursor(r) && a.Cursor(wh) && a.Cursor(e) && a.Dist(r, wh) + a.Dist(wh, e) == a.Dist(r, e)
    requires at + |b| <= |m| && forall i :: at <= i < at + |b| ==> a.InArc(wh, e, i)
    ensures Agree(a, m, Splice(m, at, b), r, wh)
  {
    hide Splice;
    SpliceIndex(m, at, b);
    forall i | 0 <= i < |m| && a.InArc(r, wh, i) ensures m[i] == Splice(m, at, b)[i] {
      assert !a.InArc(wh, e, i);
    }
  }

  lemma FrameOfHdr(m: seq<byte>, p: nat, h: Hdr, f: nat)
    requires HdrAt(m, p) == h && f == p + h.offFrame && f + h.cbFrame <= |m|
    ensures FrameAt(m, p) == Frame(p, f, h.u8Type, m[f..f + h.cbFrame])
  {
  }

  lemma HdrStored(m: seq<byte>, p: nat, h: Hdr)
    requires p + HDR <= |m| && h.Fits()
    ensures HdrAt(Splice(m, p, Encode(h)), p) == h
  {
    hide Splice, Encode, Decode;
    DecodeEncode(h);
    SpliceSlice(m, p, Encode(h));
  }

  /** Storing the header of a reserved slot makes it the last pending frame. */
  lemma PutHdrLaw(s: Ring, wh: nat, h: Hdr)
    requires s.HeldUpTo(wh).Some? && h.Fits() && s.area.SlotOk(wh, h)
    requires s.area.After(wh, h) == s.offWriteInt != wh
    ensures var t := s.PutHdr(wh, h); var v := s.HeldUpTo(wh).value;
      HdrAt(t.mem, wh) == h && t.Held() == Some(v.(pending := v.pending + [FrameAt(t.mem, wh)]))
  {
    hide Encode, Decode, Splice, HdrAt, FrameAt, Aligned, Align8;
    var a, t := s.area, s.PutHdr(wh, h);
    HdrStored(s.mem, wh, h);
    SingleSlot(a, LookIn(t.mem), wh);
    SlotInArc(a, wh, h, s.offWriteInt);
    SpliceBehind(a, s.mem, wh, Encode(h), s.offReadX, wh, s.offWriteInt);
    KeepsWalks(s, t.mem, wh);
    WalkConcat(a, LookIn(t.mem), s.offWriteCom, wh, s.offWriteInt);
  }

  // ---------- allocation ----------

  /** A successful allocation stores the header of a slot that ends where the write cursor goes. */
  lemma AllocationIsSlot(s: Ring, offRead: nat, cbFrame: nat, u8Type: byte, t: Ring, o: Outcome)
    requires s.Inv() && Stale(s.area, offRead, s.offReadX, s.offWriteInt)
    requires cbFrame < TWO_24 && IsValidFrameType(u8Type)
    requires s.AllocateFrom(offRead, s.offWriteInt, cbFrame, u8Type) == (t, o) && o.Allocated?
    ensures var a := s.area; var w := s.offWriteInt; var h := Hdr(cbFrame, u8Type, o.pvFrame - w);
      && h.Fits() && t == s.(offWriteInt := t.offWriteInt).PutHdr(w, h)
      && a.SlotOk(w, h) && a.After(w, h) == t.offWriteInt && a.Cursor(t.offWriteInt)
      && o.pHdr == w && o.pvFrame + cbFrame <= a.offEnd
      && (t.offWriteInt == s.offReadX <==> ExactFit(a, s.offReadX, w, cbFrame))
      && (t.offWriteInt != s.offReadX ==>
           t.offWriteInt != w && a.Dist(s.offReadX, w) + a.Dist(w, t.offWriteInt) == a.Dist(s.offReadX, t.offWriteInt))
  {
    hide Splice, Encode, Decode, Walk, Aligned, Align8, AlignU32;
    var a, w := s.area, s.offWriteInt;
    var h := a.HdrFor(w, a.Place(offRead, w, AlignU32(cbFrame)), cbFrame, u8Type);
    PlacementFits(a, offRead, s.offReadX, w, cbFrame, u8Type);
    SlotEnd(a, w, h);
    assert h == Hdr(cbFrame, u8Type, o.pvFrame - w);
  }

  /** Allocation with a possibly stale read cursor: the write cursor meets the reader exactly in the exact-fit
      corner; otherwise a frame joins the pending ones and nothing else the ring holds changes. */
  lemma AllocateLaw(s: Ring, offRead: nat, cbFrame: nat, u8Type: byte, t: Ring, o: Outcome)
    requires s.Inv() && Stale(s.area, offRead, s.offReadX, s.offWriteInt)
    requires cbFrame < TWO_24 && IsValidFrameType(u8Type)
    requires s.AllocateFrom(offRead, s.offWriteInt, cbFrame, u8Type) == (t, o) && o.Allocated?
    ensures t.offWriteInt == t.offReadX <==> ExactFit(s.area, s.offReadX, s.offWriteInt, cbFrame)
    ensures o.pvFrame + cbFrame <= |t.mem|
    ensures var v := s.Held().value; t.offWriteInt != t.offReadX ==>
      t.Held() == Some(v.(pending :=
        v.pending + [Frame(o.pHdr, o.pvFrame, u8Type, t.mem[o.pvFrame..o.pvFrame + cbFrame])]))
  {
    hide Ring.AllocateFrom, Splice, Encode, HdrAt, FrameAt, Walk, Aligned, Align8;
    AllocationIsSlot(s, offRead, cbFrame, u8Type, t, o);
    var h := Hdr(cbFrame, u8Type, o.pvFrame - s.offWriteInt);
    if t.offWriteInt != s.offReadX {
      var s1 := s.(offWriteInt := t.offWriteInt);
      assert s1.HeldUpTo(s.offWriteInt) == s.Held();
      PutHdrLaw(s1, s.offWriteInt, h);
      FrameOfHdr(t.mem, s.offWriteInt, h, o.pvFrame);
    }
  }
}
