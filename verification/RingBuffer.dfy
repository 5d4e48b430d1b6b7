/** INTNETRINGBUF as the program has it: cursors and counters in a structure, frames in the memory behind it. */
module RingBuffer {
  import opened Words
  import opened Slots
  import opened Rings
  import opened RingLaws
  import opened CommitLaws
  import opened ShortCommit
  import opened OneShot
  import opened Space
  import opened RunLaws
  import opened Gso

  class RingBuf {
    const mem: array<byte>   // the whole interface buffer
    const base: nat          // where this ring structure lies in it; all ring offsets count from here
    const offStart: nat
    const offEnd: nat
    var offReadX: nat
    var offWriteCom: nat
    var offWriteInt: nat
    var cbStatWritten: nat
    var cStatFrames: nat
    var cOverflows: nat

    constructor (mem: array<byte>, base: nat, offStart: nat, offEnd: nat)
      ensures this.mem == mem && this.base == base && this.offStart == offStart && this.offEnd == offEnd
      ensures offReadX == offWriteCom == offWriteInt == offStart
      ensures cbStatWritten == cStatFrames == cOverflows == 0
    {
      this.mem, this.base, this.offStart, this.offEnd := mem, base, offStart, offEnd;
      offReadX, offWriteCom, offWriteInt := offStart, offStart, offStart;
      cbStatWritten, cStatFrames, cOverflows := 0, 0, 0;
    }

    ghost predicate Shaped() {
      Bounds(offStart, offEnd).Ok() && base + offEnd <= mem.Length
    }

    /** The abstract value of the ring. */
    ghost function State(): Ring
      requires Shaped()
      reads this, mem
    {
      Ring(Bounds(offStart, offEnd), offReadX, offWriteCom, offWriteInt, cbStatWritten, cStatFrames, cOverflows,
           mem[base..])
    }

    ghost predicate Valid()
      reads this, mem
    {
      Shaped() && State().Inv()
    }

    /** Only bytes of this ring's area have changed. */
    twostate predicate Confined()
      reads mem
    {
      forall i | 0 <= i < mem.Length && !(base + offStart <= i < base + offEnd) :: mem[i] == old(mem[i])
    }

    // ---------- memory accesses ----------

    /** memcpy into the ring. */
    method StoreBytes(off: nat, b: seq<byte>)
      requires Shaped() && offStart <= off && off + |b| <= offEnd
      modifies mem
      ensures mem[base..] == Splice(old(mem[base..]), off, b)
      ensures Confined()
    {
      hide Aligned;
      ghost var was := mem[base..];
      for i := 0 to |b|
        invariant forall k | 0 <= k < i :: mem[base + off + k] == b[k]
        invariant forall k | 0 <= k < mem.Length && !(base + off <= k < base + off + i) :: mem[k] == old(mem[k])
      {
        mem[base + off + i] := b[i];
      }
      SpliceIndex(was, off, b);
      assert mem[base..] == Splice(was, off, b);
    }

    method StoreHdr(off: nat, h: Hdr)
      requires Shaped() && offStart <= off && off + HDR <= offEnd && h.Fits()
      modifies mem
      ensures mem[base..] == Splice(old(mem[base..]), off, Encode(h))
      ensures Confined()
    {
      hide Splice, Encode, Aligned;
      StoreBytes(off, Encode(h));
    }

    method LoadHdr(off: nat) returns (h: Hdr)
      requires Shaped() && off + HDR <= offEnd
      ensures h == HdrAt(mem[base..], off)
    {
      hide Decode, Aligned;
      h := Decode(mem[base + off..base + off + HDR]);
      assert mem[base + off..base + off + HDR] == mem[base..][off..off + HDR];
    }

    // ---------- allocation ----------

    /** intnetRingAllocateFrameInternal with the cursors it has sampled. */
    method AllocateSampled(offRead: nat, offWrite: nat, cbFrame: nat, u8Type: byte) returns (o: Outcome)
      requires Shaped() && cbFrame < TWO_24
      requires Bounds(offStart, offEnd).Cursor(offRead) && Bounds(offStart, offEnd).Cursor(offWrite)
      modifies `offWriteInt, `cOverflows, mem
      ensures (State(), o) == old(State()).AllocateFrom(offRead, offWrite, cbFrame, u8Type)
      ensures Confined()
    {
      hide Splice, Encode, Aligned, Align8, AlignU32;
      AlignU32IsAlign8(cbFrame);
      var cb := AlignU32(cbFrame);
      if offRead <= offWrite {
        if offEnd - offWrite >= cb + HDR {
          var offNew := Wrap32(offWrite + cb + HDR);
          if offNew >= offEnd {
            offNew := offStart;
          }
          if offWriteInt != offWrite {
            return WrongOrder;
          }
          offWriteInt := offNew;
          StoreHdr(offWrite, Hdr(cbFrame, u8Type, HDR));
          return Allocated(offWrite, offWrite + HDR);
        }
        if Wrap32(offRead - offStart) > cb {
          if offWriteInt != offWrite {
            return WrongOrder;
          }
          offWriteInt := Wrap32(offStart + cb);
          StoreHdr(offWrite, Hdr(cbFrame, u8Type, ToI32(Wrap32(offStart - offWrite))));
          return Allocated(offWrite, offStart);
        }
      } else if offRead - offWrite > cb + HDR {
        if offWriteInt != offWrite {
          return WrongOrder;
        }
        offWriteInt := Wrap32(offWrite + cb + HDR);
        StoreHdr(offWrite, Hdr(cbFrame, u8Type, HDR));
        return Allocated(offWrite, offWrite + HDR);
      }
      cOverflows := Wrap64(cOverflows + 1);
      return Overflow;
    }

    /** IntNetRingAllocateFrame. Where the frame fits it joins the pending frames and nothing else the ring holds
        changes, except in the exact-fit corner, where the write cursor runs into the read cursor. */
    method AllocateFrame(cbFrame: nat) returns (o: Outcome)
      requires Valid() && cbFrame < TWO_24
      modifies `offWriteInt, `cOverflows, mem
      ensures (State(), o) == old(State()).Allocate(cbFrame, TYPE_FRAME)
      ensures Confined()
      ensures
        if old(HasRoom(State().area, offReadX, offWriteInt, cbFrame, TYPE_FRAME)) then
          o == Allocated(old(offWriteInt), old(PayloadAt(State().area, offReadX, offWriteInt, cbFrame, TYPE_FRAME)))
        else
          && o == Overflow && State().Held() == old(State().Held())
          && State() == old(State()).(cOverflows := (old(cOverflows) + 1) % 0x1_0000_0000_0000_0000)
      ensures o.Allocated? ==>
        (offWriteInt == offReadX <==> old(ExactFit(State().area, offReadX, offWriteInt, cbFrame)))
      ensures o.Allocated? && offWriteInt != offReadX ==>
        && o.pvFrame + cbFrame <= |State().mem|
        && var v := old(State().Held().value);
        State().Held() == Some(v.(pending :=
          v.pending + [Frame(o.pHdr, o.pvFrame, 0x42, State().mem[o.pvFrame..o.pvFrame + cbFrame])]))
    {
      hide Aligned, Align8, AlignU32, Splice, Encode, Walk, HdrAt, FrameAt, HasRoom, PayloadAt, Ring.HeldUpTo,
           Ring.AllocateFrom;
      ghost var s := State();
      HeldFacts(s, offWriteInt);
      o := AllocateSampled(offReadX, offWriteInt, cbFrame, TYPE_FRAME);
      AllocationIsExact(s, s.offReadX, s.offWriteInt, cbFrame, TYPE_FRAME, State(), o);
      CountersHoldNothing(s, State().cOverflows);
      if o.Allocated? {
        AllocateLaw(s, s.offReadX, cbFrame, TYPE_FRAME, State(), o);
      }
    }

    /** IntNetRingAllocateGsoFrame: as AllocateFrame, with the context in front of the room for the payload. */
    method AllocateGsoFrame(cbFrame: nat, ctx: seq<byte>) returns (o: Outcome)
      requires Valid() && |ctx| == GSO && cbFrame + GSO < TWO_24
      modifies `offWriteInt, `cOverflows, mem
      ensures (State(), o) == AllocateGso(old(State()), cbFrame, ctx)
      ensures Confined()
      ensures
        if old(HasRoom(State().area, offReadX, offWriteInt, cbFrame + 8, TYPE_GSO)) then
          var pv := old(PayloadAt(State().area, offReadX, offWriteInt, cbFrame + 8, TYPE_GSO));
          o == Allocated(old(offWriteInt), pv + 8)
        else
          && o == Overflow && State().Held() == old(State().Held())
          && State() == old(State()).(cOverflows := (old(cOverflows) + 1) % 0x1_0000_0000_0000_0000)
      ensures o.Allocated? ==>
        (offWriteInt == offReadX <==> old(ExactFit(State().area, offReadX, offWriteInt, cbFrame + 8)))
      ensures o.Allocated? && offWriteInt != offReadX ==>
        && 8 <= o.pvFrame && o.pvFrame + cbFrame <= |State().mem|
        && var v := old(State().Held().value); var f := o.pvFrame;
        State().Held() == Some(v.(pending :=
          v.pending + [Frame(o.pHdr, f - 8, 0x64, ctx + State().mem[f..f + cbFrame])]))
    {
      hide Aligned, Align8, AlignU32, Splice, Encode, Walk, HdrAt, FrameAt, HasRoom, PayloadAt, Ring.HeldUpTo,
           Ring.AllocateFrom;
      ghost var s := State();
      HeldFacts(s, offWriteInt);
      o := AllocateSampled(offReadX, offWriteInt, cbFrame + GSO, TYPE_GSO);
      if o.Allocated? {
        AllocatedRoom(s, s.offReadX, cbFrame + GSO, TYPE_GSO, State(), o);
        StoreBytes(o.pvFrame, ctx);
        o := Allocated(o.pHdr, o.pvFrame + GSO);
      }
      AllocateGsoIsExact(s, cbFrame, ctx, State(), o);
      CountersHoldNothing(s, State().cOverflows);
    }

    // ---------- commits ----------

    /** IntNetRingCommitFrame: the oldest pending frame becomes the newest unread one. */
    method CommitFrame(pHdr: nat)
      requires Valid() && State().Held().value.pending != [] && pHdr == offWriteCom
      modifies `offWriteCom, `cbStatWritten, `cStatFrames
      ensures Valid() && State() == old(State()).Commit(pHdr)
      ensures var v := old(State().Held().value);
        State().Held() == Some(Queues(v.committed + [v.pending[0]], v.pending[1..]))
    {
      hide Aligned, Align8, AlignU32, Walk, HdrAt, FrameAt, Ring.HeldUpTo;
      ghost var s := State();
      HeldFacts(s, offWriteInt);
      CommitLaw(s);
      var h := LoadHdr(pHdr);
      var cb := AlignU32(h.cbFrame);
      var off := Wrap32(pHdr + h.offFrame + cb);
      if off >= offEnd {
        off := offStart;
      }
      offWriteCom := off;
      cbStatWritten := Wrap64(cbStatWritten + h.cbFrame);
      cStatFrames := Wrap64(cStatFrames + 1);
    }

    /** The stores of IntNetRingCommitFrameEx: a padding header behind the used part, and the used size. */
    method PadFrame(pHdr: nat, h: Hdr, cbUsed: nat)
      requires Shaped() && State().CanCommitEx(pHdr, cbUsed) && h == HdrAt(mem[base..], pHdr)
      modifies mem
      ensures State() == old(State()).Pad(pHdr, cbUsed)
      ensures Confined()
    {
      hide Aligned, Align8, AlignU32, HdrAt, Splice, Encode, Bounds.After, Bounds.Span, Bounds.Dist;
      var used := WithCtx(h.u8Type, cbUsed);
      var cbAlignedFrame := AlignU32(h.cbFrame);
      var cbAlignedUsed := AlignU32(used);
      AlignMonotone(used, h.cbFrame);
      SlotEnd(State().area, pHdr, h);
      if cbAlignedFrame != cbAlignedUsed {
        StoreHdr(pHdr + h.offFrame + cbAlignedUsed, Hdr(cbAlignedFrame - cbAlignedUsed - HDR, TYPE_PADDING, HDR));
        var g := LoadHdr(pHdr);
        StoreHdr(pHdr, g.(cbFrame := used));
      }
    }

    /** IntNetRingCommitFrameEx: as CommitFrame, with the unused end given back as a padding frame; fs is what the
        oldest pending frame has turned into. */
    method CommitFrameEx(pHdr: nat, cbUsed: nat) returns (ghost fs: seq<Frame>)
      requires Valid() && State().Held().value.pending != [] && pHdr == offWriteCom
      requires State().CanCommitEx(pHdr, cbUsed)
      modifies `offWriteCom, `cbStatWritten, `cStatFrames, mem
      ensures Valid() && State() == old(State()).CommitEx(pHdr, cbUsed)
      ensures Confined()
      ensures var v := old(State().Held().value);
        var used := cbUsed + if v.pending[0].u8Type == 0x64 then 8 else 0;
        && cbStatWritten == (old(cbStatWritten) + used) % 0x1_0000_0000_0000_0000
        && used <= |v.pending[0].data| && Shortened(v.pending[0], used, fs)
        && State().Held() == Some(Queues(v.committed + fs, v.pending[1..]))
    {
      hide Aligned, Align8, AlignU32, Walk, HdrAt, FrameAt, Ring.HeldUpTo, Ring.Pad, Bounds.SlotOk, Shortened;
      fs := CommitExLaw(State(), cbUsed);
      var h := LoadHdr(pHdr);
      var off := Wrap32(pHdr + h.offFrame + AlignU32(h.cbFrame));
      if off >= offEnd {
        off := offStart;
      }
      PadFrame(pHdr, h, cbUsed);
      offWriteCom := off;
      cbStatWritten := Wrap64(cbStatWritten + WithCtx(h.u8Type, cbUsed));
      cStatFrames := Wrap64(cStatFrames + 1);
    }

    // ---------- the one-shot write ----------

    /** The stores common to the three branches of IntNetRingWriteFrame. */
    method StoreFrame(pHdr: nat, h: Hdr, pvFrame: nat, data: seq<byte>, offNew: nat)
      requires Shaped() && h.Fits() && offStart <= pHdr && pHdr + HDR <= offEnd
      requires offStart <= pvFrame && pvFrame + |data| <= offEnd
      modifies `offWriteCom, `cbStatWritten, `cStatFrames, mem
      ensures State() == old(State()).PutHdr(pHdr, h).PutBytes(pvFrame, data).Publish(offNew, |data|)
      ensures Confined()
    {
      hide Splice, Encode, Aligned;
      StoreHdr(pHdr, h);
      StoreBytes(pvFrame, data);
      offWriteCom := offNew;
      cbStatWritten := Wrap64(cbStatWritten + |data|);
      cStatFrames := Wrap64(cStatFrames + 1);
    }

    /** IntNetRingWriteFrame with the cursors it has sampled. */
    method WriteSampled(offRead: nat, offWrite: nat, data: seq<byte>) returns (o: Outcome)
      requires Shaped() && |data| < TWO_24
      requires Bounds(offStart, offEnd).Cursor(offRead) && Bounds(offStart, offEnd).Cursor(offWrite)
      modifies `offWriteCom, `offWriteInt, `cbStatWritten, `cStatFrames, `cOverflows, mem
      ensures (State(), o) == old(State()).WriteFrameFrom(offRead, offWrite, data)
      ensures Confined()
    {
      hide Splice, Encode, Aligned, Align8, AlignU32, Ring.PutHdr, Ring.PutBytes, Ring.Publish;
      AlignU32IsAlign8(|data|);
      var cb := AlignU32(|data|);
      if offRead <= offWrite {
        if offEnd - offWrite >= cb + HDR {
          var offNew := Wrap32(offWrite + cb + HDR);
          if offNew >= offEnd {
            offNew := offStart;
          }
          if offWriteInt != offWrite {
            return WrongOrder;
          }
          offWriteInt := offNew;
          StoreFrame(offWrite, Hdr(|data|, TYPE_FRAME, HDR), offWrite + HDR, data, offNew);
          return Allocated(offWrite, offWrite + HDR);
        }
        if Wrap32(offRead - offStart) > cb {
          var offNew := Wrap32(offStart + cb);
          if offWriteInt != offWrite {
            return WrongOrder;
          }
          offWriteInt := offNew;
          StoreFrame(offWrite, Hdr(|data|, TYPE_FRAME, ToI32(Wrap32(offStart - offWrite))), offStart, data, offNew);
          return Allocated(offWrite, offStart);
        }
      } else if offRead - offWrite > cb + HDR {
        var offNew := Wrap32(offWrite + cb + HDR);
        if offWriteInt != offWrite {
          return WrongOrder;
        }
        offWriteInt := offNew;
        StoreFrame(offWrite, Hdr(|data|, TYPE_FRAME, HDR), offWrite + HDR, data, offNew);
        return Allocated(offWrite, offWrite + HDR);
      }
      cOverflows := Wrap64(cOverflows + 1);
      return Overflow;
    }

    /** IntNetRingWriteFrame: appends the frame, and what is pending, to the unread ones exactly outside the exact-fit
        corner; in the corner the ring looks empty afterwards. */
    method WriteFrame(data: seq<byte>) returns (o: Outcome)
      requires Valid() && |data| < TWO_24
      modifies `offWriteCom, `offWriteInt, `cbStatWritten, `cStatFrames, `cOverflows, mem
      ensures (State(), o) == old(State()).WriteFrame(data)
      ensures Valid() && Confined()
      ensures
        if old(HasRoom(State().area, offReadX, offWriteInt, |data|, TYPE_FRAME)) then
          o == Allocated(old(offWriteInt), old(PayloadAt(State().area, offReadX, offWriteInt, |data|, TYPE_FRAME)))
        else
          o == Overflow && State() == old(State()).(cOverflows := (old(cOverflows) + 1) % 0x1_0000_0000_0000_0000)
      ensures var v := old(State().Held()); match o
        case Allocated(pHdr, pvFrame) =>
          State().Held() == Some(Queues(
            if old(ExactFit(State().area, offReadX, offWriteInt, |data|)) then []
            else v.value.committed + v.value.pending + [Frame(pHdr, pvFrame, 0x42, data)], []))
        case Overflow => State().Held() == v
        case WrongOrder => false
    {
      hide Splice, Encode, Aligned, Align8, AlignU32, Walk, HdrAt, FrameAt, HasRoom, PayloadAt, Ring.HeldUpTo,
           Ring.WriteFrameFrom;
      ghost var s := State();
      HeldFacts(s, offWriteInt);
      o := WriteSampled(offReadX, offWriteInt, data);
      WriteFrameIsExact(s, s.offReadX, s.offWriteInt, data, State(), o);
      CountersHoldNothing(s, State().cOverflows);
      if o.Allocated? {
        WriteFrameLaw(s, data, State(), o);
      }
    }

    // ---------- reading ----------

    /** IntNetRingGetWritable: all but the bytes up to the write cursor and the one byte that is never used. */
    method GetWritable() returns (cb: nat)
      requires Valid()
      ensures cb == State().GetWritable() == State().area.Size() - 1 - State().area.Dist(offReadX, offWriteInt)
    {
      HeldFacts(State(), offWriteInt);
      SpaceIsConserved(State());
      if offReadX <= offWriteInt {
        cb := Wrap32(offEnd - offWriteInt + offReadX - offStart - 1);
      } else {
        cb := Wrap32(offReadX - offWriteInt - 1);
      }
    }

    /** IntNetRingGetReadable: zero exactly when there is no unread frame. */
    method GetReadable() returns (cb: nat)
      requires Valid()
      ensures cb == State().GetReadable() == State().area.Dist(offReadX, offWriteCom)
    {
      HeldFacts(State(), offWriteInt);
      SpaceIsConserved(State());
      if offReadX <= offWriteCom {
        cb := Wrap32(offWriteCom - offReadX);
      } else {
        cb := Wrap32(offEnd - offReadX + offWriteCom - offStart);
      }
    }

    /** IntNetRingGetNextFrameToRead: the header of the oldest unread frame, None exactly when there is none. */
    method GetNextFrameToRead() returns (pHdr: Option<nat>)
      requires Valid()
      ensures var q := State().Held().value.committed;
        pHdr == if q == [] then None else Some(q[0].pHdr)
    {
      hide Aligned, Align8, Walk, HdrAt, Ring.HeldUpTo;
      HeldFacts(State(), offWriteInt);
      EmptyWalk(State().area, LookIn(State().mem), offReadX);
      if State().Held().value.committed != [] {
        HeadIsReadable(State(), offWriteInt);
      } else {
        Drain(State(), 0);
      }
      pHdr := if offReadX == offWriteCom then None else Some(offReadX);
    }

    /** IntNetRingSkipFrame: drops the oldest unread frame. */
    method SkipFrame()
      requires Valid() && State().HasMoreToRead()
      modifies `offReadX
      ensures Valid() && State() == old(State()).Skip()
      ensures var v := old(State().Held().value);
        v.committed != [] && State().Held() == Some(v.(committed := v.committed[1..]))
    {
      hide Aligned, Align8, AlignU32, Walk, HdrAt, FrameAt, Ring.HeldUpTo;
      HeldFacts(State(), offWriteInt);
      SkipLaw(State(), offWriteInt);
      var h := LoadHdr(offReadX);
      var offReadNew := AlignU32(Wrap32(Wrap32(offReadX + Wrap32(h.offFrame)) + h.cbFrame));
      if offReadNew >= offEnd {
        offReadNew := offStart;
      }
      offReadX := offReadNew;
    }

    /** IntNetRingReadAndSkipFrame: copies the oldest unread frame out and drops it; 0 if there is none. */
    method ReadAndSkipFrame(dst: array<byte>) returns (cb: nat)
      requires Valid() && dst != mem
      requires var q := State().Held().value.committed; q != [] ==> |q[0].data| <= dst.Length
      modifies `offReadX, dst
      ensures Valid()
      ensures var v := old(State().Held().value);
        if v.committed == [] then cb == 0 && State() == old(State()) && dst[..] == old(dst[..])
        else
          && cb == |v.committed[0].data| && dst[..cb] == v.committed[0].data && dst[cb..] == old(dst[cb..])
          && State().Held() == Some(v.(committed := v.committed[1..]))
    {
      hide Aligned, Align8, AlignU32, Walk, HdrAt, FrameAt, Ring.HeldUpTo;
      ghost var s := State();
      var next := GetNextFrameToRead();
      if next == None {
        return 0;
      }
      HeadIsReadable(s, offWriteInt);
      HeldFacts(s, offWriteInt);
      var h := LoadHdr(offReadX);
      cb := h.cbFrame;
      var f := offReadX + h.offFrame;
      for i := 0 to cb
        invariant dst[..i] == s.mem[f..f + i] && dst[cb..] == old(dst[cb..])
        invariant State() == s
      {
        dst[i] := mem[base + f + i];
      }
      SkipFrame();
    }
  }
}
