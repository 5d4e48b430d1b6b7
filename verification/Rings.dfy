/** INTNETRINGBUF: the ring as a value, its invariant and its operations. */
module Rings {
  import opened Words
  import opened Slots

  /** VINF_SUCCESS with the two out-pointers, VERR_BUFFER_OVERFLOW or VERR_WRONG_ORDER. */
  datatype Outcome = Allocated(pHdr: nat, pvFrame: nat) | Overflow | WrongOrder

  /** Frames the reader has yet to skip, and frames the writer has yet to commit, oldest first. */
  datatype Queues = Queues(committed: seq<Frame>, pending: seq<Frame>)

  datatype Ring = Ring(area: Area, offReadX: nat, offWriteCom: nat, offWriteInt: nat,
                       cbStatWritten: nat, cStatFrames: nat, cOverflows: nat, mem: seq<byte>)
  {
    // ---------- the invariant ----------

    /** INTNETRINGBUF_ASSERT_SANITY. */
    predicate AssertedSanity() {
      && (forall p | p in {offWriteCom, offReadX, offWriteInt} ::
            p == AlignU32(p) && area.offStart <= p < area.offEnd)
      && (if offReadX <= offWriteCom then offWriteCom <= offWriteInt || offWriteInt < offReadX
          else offWriteCom <= offWriteInt)
    }

    /** The cursors come in the order read, committed, end of the written headers, reserved. */
    predicate Ordered(wh: nat) {
      && area.Cursor(offReadX) && area.Cursor(offWriteCom) && area.Cursor(wh) && area.Cursor(offWriteInt)
      && area.Dist(offReadX, offWriteCom) + area.Dist(offWriteCom, wh) + area.Dist(wh, offWriteInt)
         == area.Dist(offReadX, offWriteInt)
    }

    /** The frames on the walk from p to q. */
    function Between(p: nat, q: nat): Option<seq<Frame>> {
      Walk(area, LookIn(mem), p, q)
    }

    /** What the ring holds when headers have been written up to wh, if the ring is in order. Between wh and
        offWriteInt there may be a reservation whose header is not written yet. */
    function HeldUpTo(wh: nat): Option<Queues> {
      if !Ordered(wh) || area.offEnd > |mem| then None
      else
        match (Between(offReadX, offWriteCom), Between(offWriteCom, wh))
        case (Some(committed), Some(pending)) => Some(Queues(committed, pending))
        case _ => None
    }

    function Held(): Option<Queues> {
      HeldUpTo(offWriteInt)
    }

    /** The class invariant: cursors in order and well-formed frames all the way. */
    predicate Inv() {
      Held().Some?
    }

    // ---------- the read-only operations ----------

    /** IntNetRingGetWritable */
    function GetWritable(): nat {
      if offReadX <= offWriteInt then Wrap32(area.offEnd - offWriteInt + offReadX - area.offStart - 1)
      else Wrap32(offReadX - offWriteInt - 1)
    }

    /** IntNetRingGetReadable */
    function GetReadable(): nat {
      if offReadX <= offWriteCom then Wrap32(offWriteCom - offReadX)
      else Wrap32(area.offEnd - offReadX + offWriteCom - area.offStart)
    }

    /** IntNetRingHasMoreToRead */
    predicate HasMoreToRead() {
      offReadX != offWriteCom
    }

    /** IntNetRingGetNextFrameToRead: the header pointer, or None for NULL. */
    function GetNextFrameToRead(): Option<nat> {
      if offReadX == offWriteCom then None else Some(offReadX)
    }

    /** IntNetHdrGetFramePtr, and IntNetHdrGetGsoContext alike. */
    function HdrGetFramePtr(pHdr: nat): int {
      pHdr + HdrAt(mem, pHdr).offFrame
    }

    // ---------- writing ----------

    function PutHdr(p: nat, h: Hdr): Ring
      requires p + HDR <= |mem| && h.Fits()
    {
      this.(mem := Splice(mem, p, Encode(h)))
    }

    function PutBytes(p: nat, b: seq<byte>): Ring
      requires p + |b| <= |mem|
    {
      this.(mem := Splice(mem, p, b))
    }

    /** intnetRingAllocateFrameInternal from its compare-exchange on; offRead and offWrite are what it sampled. */
    function AllocateFrom(offRead: nat, offWrite: nat, cbFrame: nat, u8Type: byte): (Ring, Outcome)
      requires area.offEnd <= |mem| && area.Cursor(offWrite) && cbFrame < TWO_24
    {
      var pl := area.Place(offRead, offWrite, AlignU32(cbFrame));
      if pl.NoFit? then
        (this.(cOverflows := Wrap64(cOverflows + 1)), Overflow)
      else if offWriteInt != offWrite then
        (this, WrongOrder)
      else
        (this.(offWriteInt := pl.offNew).PutHdr(offWrite, area.HdrFor(offWrite, pl, cbFrame, u8Type)),
         Allocated(offWrite, if pl.Wrapped? then area.offStart else offWrite + HDR))
    }

    /** intnetRingAllocateFrameInternal with nobody in between. */
    function Allocate(cbFrame: nat, u8Type: byte): (Ring, Outcome)
      requires area.offEnd <= |mem| && area.Cursor(offWriteInt) && cbFrame < TWO_24
    {
      AllocateFrom(offReadX, offWriteInt, cbFrame, u8Type)
    }

    function Publish(offNew: nat, cb: nat): Ring {
      this.(offWriteCom := offNew, cbStatWritten := Wrap64(cbStatWritten + cb), cStatFrames := Wrap64(cStatFrames + 1))
    }

    /** IntNetRingCommitFrame */
    function Commit(pHdr: nat): Ring {
      var h := HdrAt(mem, pHdr);
      Publish(area.CommitTarget(pHdr, h), h.cbFrame)
    }

    /** Where IntNetRingCommitFrameEx stores the padding header, wherever the header found at pHdr leads. */
    function PadAt(pHdr: nat, cbUsed: nat): int {
      var h := HdrAt(mem, pHdr);
      pHdr + h.offFrame + AlignU32(WithCtx(h.u8Type, cbUsed))
    }

    /** There is an unused end to be given back. */
    predicate Pads(pHdr: nat, cbUsed: nat) {
      var h := HdrAt(mem, pHdr);
      AlignU32(h.cbFrame) != AlignU32(WithCtx(h.u8Type, cbUsed))
    }

    /** All stores fall into the memory that is modelled. */
    predicate CanPad(pHdr: nat, cbUsed: nat) {
      && pHdr + HDR <= |mem|
      && (Pads(pHdr, cbUsed) ==> 0 <= PadAt(pHdr, cbUsed) && PadAt(pHdr, cbUsed) + HDR <= |mem|)
    }

    /** The header is that of a slot, and no more is used than was allocated. */
    predicate CanCommitEx(pHdr: nat, cbUsed: nat) {
      && CanPad(pHdr, cbUsed) && area.offEnd <= |mem| && area.Cursor(pHdr) && area.SlotOk(pHdr, HdrAt(mem, pHdr))
      && WithCtx(HdrAt(mem, pHdr).u8Type, cbUsed) <= HdrAt(mem, pHdr).cbFrame
    }

    /** The writes of IntNetRingCommitFrameEx ahead of publishing: a padding header behind the used part, and then the
        size in the frame's own header. */
    function Pad(pHdr: nat, cbUsed: nat): Ring
      requires CanPad(pHdr, cbUsed)
    {
      var h := HdrAt(mem, pHdr);
      var used := WithCtx(h.u8Type, cbUsed);
      if !Pads(pHdr, cbUsed) then this
      else
        var t := PutHdr(PadAt(pHdr, cbUsed),
                        Hdr(Low24(AlignU32(h.cbFrame) - AlignU32(used) - HDR), TYPE_PADDING, HDR));
        t.PutHdr(pHdr, HdrAt(t.mem, pHdr).(cbFrame := Low24(used)))
    }

    /** IntNetRingCommitFrameEx */
    function CommitEx(pHdr: nat, cbUsed: nat): Ring
      requires CanPad(pHdr, cbUsed)
    {
      var h := HdrAt(mem, pHdr);
      Pad(pHdr, cbUsed).Publish(area.CommitTarget(pHdr, h), WithCtx(h.u8Type, cbUsed))
    }

    /** IntNetRingWriteFrame once it has sampled the cursors: its own three branches, each with its own
        compare-exchange and storing header, payload and both cursors. */
    function WriteFrameFrom(offRead: nat, offWrite: nat, data: seq<byte>): (Ring, Outcome)
      requires area.offEnd <= |mem| && area.Cursor(offRead) && area.Cursor(offWrite) && |data| < TWO_24
    {
      var cb := AlignU32(|data|);
      AlignU32IsAlign8(|data|);
      if offRead <= offWrite then
        if area.offEnd - offWrite >= cb + HDR then
          var off := Wrap32(offWrite + cb + HDR);
          var offNew := if off >= area.offEnd then area.offStart else off;
          if offWriteInt != offWrite then (this, WrongOrder)
          else
            (this.(offWriteInt := offNew)
             .PutHdr(offWrite, Hdr(|data|, TYPE_FRAME, HDR)).PutBytes(offWrite + HDR, data)
             .Publish(offNew, |data|),
             Allocated(offWrite, offWrite + HDR))
        else if Wrap32(offRead - area.offStart) > cb then
          var offNew := Wrap32(area.offStart + cb);
          if offWriteInt != offWrite then (this, WrongOrder)
          else
            (this.(offWriteInt := offNew)
             .PutHdr(offWrite, Hdr(|data|, TYPE_FRAME, ToI32(Wrap32(area.offStart - offWrite))))
             .PutBytes(area.offStart, data).Publish(offNew, |data|),
             Allocated(offWrite, area.offStart))
        else
          (this.(cOverflows := Wrap64(cOverflows + 1)), Overflow)
      else if offRead - offWrite > cb + HDR then
        var offNew := Wrap32(offWrite + cb + HDR);
        if offWriteInt != offWrite then (this, WrongOrder)
        else
          (this.(offWriteInt := offNew)
           .PutHdr(offWrite, Hdr(|data|, TYPE_FRAME, HDR)).PutBytes(offWrite + HDR, data)
           .Publish(offNew, |data|),
           Allocated(offWrite, offWrite + HDR))
      else
        (this.(cOverflows := Wrap64(cOverflows + 1)), Overflow)
    }

    /** IntNetRingWriteFrame with nobody in between. */
    function WriteFrame(data: seq<byte>): (Ring, Outcome)
      requires area.offEnd <= |mem| && area.Cursor(offReadX) && area.Cursor(offWriteInt) && |data| < TWO_24
    {
      WriteFrameFrom(offReadX, offWriteInt, data)
    }

    // ---------- reading ----------

    /** IntNetRingSkipFrame */
    function Skip(): Ring {
      this.(offReadX := area.SkipTarget(offReadX, HdrAt(mem, offReadX)))
    }
  }
}
