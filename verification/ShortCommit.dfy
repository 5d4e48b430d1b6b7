/** IntNetRingCommitFrameEx: giving back the unused end of a frame as a padding frame. */
module ShortCommit {
  import opened Words
  import opened Slots
  import opened Rings
  import opened CommitLaws

  /** The header of the padding frame behind the used part. */
  function PaddingHdr(h: Hdr, used: nat): Hdr
    requires used <= h.cbFrame < TWO_24 && Align8(used) != Align8(h.cbFrame)
  {
    AlignMonotone(used, h.cbFrame);
    Hdr(Align8(h.cbFrame) - Align8(used) - HDR, TYPE_PADDING, HDR)
  }

  /** The shortened slot and the padding slot together take the place of the slot. */
  lemma PaddingFills(a: Area, p: nat, h: Hdr, used: nat)
    requires a.Cursor(p) && a.SlotOk(p, h) && h.Fits() && used <= h.cbFrame && Align8(used) != Align8(h.cbFrame)
    ensures var g := h.(cbFrame := used); var pp := p + h.offFrame + Align8(used); var hp := PaddingHdr(h, used);
      && 0 <= pp && a.Cursor(pp) && hp.Fits() && g.Fits() && a.SlotOk(p, g) && a.After(p, g) == pp
      && a.SlotOk(pp, hp) && a.After(pp, hp) == a.After(p, h) && a.Span(p, g) + a.Span(pp, hp) == a.Span(p, h)
      && (p + HDR <= pp || pp + HDR < p) && pp + HDR <= p + h.offFrame + Align8(h.cbFrame)
  {
    hide Aligned, Align8, AlignU32;
    SlotEnd(a, p, h);
    AlignMonotone(used, h.cbFrame);
    var f: nat, g := p + h.offFrame, h.(cbFrame := used);
    AlignedSum(f, Align8(used));
    AlignedSum(Align8(h.cbFrame), Align8(used));
    AlignedSum(Align8(h.cbFrame) - Align8(used), HDR);
    AlignedFixed(Align8(h.cbFrame) - Align8(used) - HDR);
    assert a.SlotOk(p, g);
    SlotEnd(a, p, g);
  }

  // ---------- the bytes of the two headers ----------

  /** Storing two headers that do not overlap makes both readable and leaves bytes elsewhere alone. */
  lemma TwoHeaders(m: seq<byte>, pp: nat, hp: Hdr, p: nat, g: Hdr, lo: nat, hi: nat)
    requires pp + HDR <= |m| && p + HDR <= |m| && hp.Fits() && g.Fits()
    requires p + HDR <= pp || pp + HDR <= p
    requires lo <= hi <= |m| && (hi <= pp || pp + HDR <= lo) && (hi <= p || p + HDR <= lo)
    ensures var t := Splice(Splice(m, pp, Encode(hp)), p, Encode(g));
      HdrAt(t, pp) == hp && HdrAt(t, p) == g && t[lo..hi] == m[lo..hi]
  {
    hide Splice, Encode, Decode;
    var m1 := Splice(m, pp, Encode(hp));
    var t := Splice(m1, p, Encode(g));
    DecodeEncode(hp);
    DecodeEncode(g);
    SpliceSlice(m, pp, Encode(hp));
    SpliceSlice(m1, p, Encode(g));
    SpliceIndex(m, pp, Encode(hp));
    SpliceIndex(m1, p, Encode(g));
    SameSlice(m1, t, pp, pp + HDR);
    SameSlice(m, t, lo, hi);
  }

  lemma AgreeTrans(a: Area, m: seq<byte>, n: seq<byte>, t: seq<byte>, p: nat, q: nat)
    requires |m| == |n| == |t| && Agree(a, m, n, p, q) && Agree(a, n, t, p, q)
    ensures Agree(a, m, t, p, q)
  {
  }

  /** The slot at p rewritten as the used part and a padding frame; nothing outside the slot changes. */
  lemma PaddedSlot(a: Area, m: seq<byte>, r: nat, p: nat, h: Hdr, wh: nat, used: nat)
    requires a.offEnd <= |m| && a.Cursor(r) && a.Cursor(p) && a.Cursor(wh) && h == HdrAt(m, p) && a.SlotOk(p, h)
    requires used <= h.cbFrame && Align8(used) != Align8(h.cbFrame)
    requires var n := a.After(p, h);
      && n != p && a.Cursor(n) && a.Dist(p, n) == a.Span(p, h)
      && a.Dist(r, p) + a.Dist(p, n) + a.Dist(n, wh) == a.Dist(r, wh)
    ensures var f := p + h.offFrame; var pp := f + Align8(used);
      && 0 <= f && pp + HDR <= |m| && f + used <= |m|
      && var t := Splice(Splice(m, pp, Encode(PaddingHdr(h, used))), p, Encode(h.(cbFrame := used)));
      && Walk(a, LookIn(t), p, a.After(p, h)) == Some([Frame(p, f, h.u8Type, m[f..f + used]), FrameAt(t, pp)])
      && FrameAt(t, pp).u8Type == TYPE_PADDING
      && Agree(a, m, t, r, p) && Agree(a, m, t, a.After(p, h), wh)
  {
    hide Aligned, Align8, HdrAt, Splice, Encode, Agree, Bounds.Dist, Bounds.After, Bounds.Span;
    PaddingFills(a, p, h, used);
    SlotEnd(a, p, h);
    var f: nat := p + h.offFrame;
    var pp, g, hp := f + Align8(used), h.(cbFrame := used), PaddingHdr(h, used);
    var m1 := Splice(m, pp, Encode(hp));
    var t := Splice(m1, p, Encode(g));
    TwoHeaders(m, pp, hp, p, g, f, f + used);
    SpliceInSlot(a, m, pp, Encode(hp), r, p, h, wh);
    SpliceInSlot(a, m1, p, Encode(g), r, p, h, wh);
    AgreeTrans(a, m, m1, t, r, p);
    AgreeTrans(a, m, m1, t, a.After(p, h), wh);
    TwoSlots(a, LookIn(t), p, pp, a.After(p, h));
  }

  /** Two slots in a row. */
  lemma TwoSlots(a: Area, look: Look, p: nat, q: nat, n: nat)
    requires a.Cursor(p) && a.SlotOk(p, look(p).hdr) && a.After(p, look(p).hdr) == q
    requires a.Cursor(q) && a.SlotOk(q, look(q).hdr) && a.After(q, look(q).hdr) == n
    requires n != p && a.Dist(p, n) == a.Span(p, look(p).hdr) + a.Span(q, look(q).hdr)
    ensures Walk(a, look, p, n) == Some([look(p).frame, look(q).frame])
  {
    hide Aligned, Align8;
    AfterFacts(a, p, look(p).hdr);
    AfterFacts(a, q, look(q).hdr);
    SingleSlot(a, look, q);
    WalkCons(a, look, p, n);
    assert [look(p).frame] + [look(q).frame] == [look(p).frame, look(q).frame];
  }

  // ---------- the operation ----------

  /** What a short commit makes of the oldest pending frame: the used bytes as a frame of their own and a padding
      frame behind them, unless both sizes round to the same; then the frame stays as it was allocated. */
  predicate Shortened(f: Frame, used: nat, fs: seq<Frame>)
    requires used <= |f.data|
  {
    if Align8(used) == Align8(|f.data|) then fs == [f]
    else |fs| == 2 && fs[0] == f.(data := f.data[..used]) && fs[1].u8Type == TYPE_PADDING
  }

  /** The strict header assertion, that the payload starts before the end of the ring, fails on a well-formed slot
      exactly for zero-length padding in the last eight bytes. */
  lemma StrictHeaderCheck(a: Area, p: nat, h: Hdr)
    requires a.Cursor(p) && a.SlotOk(p, h)
    ensures a.offStart <= p + h.offFrame < a.offEnd <==> !(h.offFrame == HDR && p + HDR == a.offEnd)
    ensures h.offFrame == HDR && p + HDR == a.offEnd ==> h.cbFrame == 0 && a.After(p, h) == a.offStart
  {
    hide Aligned, Align8;
    SlotEnd(a, p, h);
    assert Align8(h.cbFrame) >= h.cbFrame;
  }

  lemma SlicePrefix(m: seq<byte>, f: nat, len: nat, used: nat)
    requires used <= len && f + len <= |m|
    ensures m[f..f + len][..used] == m[f..f + used]
  {
  }

  /** For the header of a slot all stores of the short commit fall into the slot. */
  lemma SlotCanPad(s: Ring, p: nat, cbUsed: nat)
    requires s.area.offEnd <= |s.mem| && s.area.Cursor(p) && s.area.SlotOk(p, HdrAt(s.mem, p))
    requires WithCtx(HdrAt(s.mem, p).u8Type, cbUsed) <= HdrAt(s.mem, p).cbFrame
    ensures s.CanCommitEx(p, cbUsed)
    ensures var h := HdrAt(s.mem, p); var used := WithCtx(h.u8Type, cbUsed);
      && s.PadAt(p, cbUsed) == p + h.offFrame + Align8(used)
      && (s.Pads(p, cbUsed) <==> Align8(used) != Align8(h.cbFrame))
  {
    hide Aligned, Align8, AlignU32, HdrAt;
    var h := HdrAt(s.mem, p);
    var used := WithCtx(h.u8Type, cbUsed);
    AlignMonotone(used, h.cbFrame);
    if Align8(used) != Align8(h.cbFrame) { PaddingFills(s.area, p, h, used); }
  }

  /** So the oldest pending frame of a ring in order can be committed with any size up to what was allocated. */
  lemma PendingCanPad(s: Ring, cbUsed: nat)
    requires s.Inv() && s.Held().value.pending != []
    requires var f := s.Held().value.pending[0]; WithCtx(f.u8Type, cbUsed) <= |f.data|
    ensures s.CanCommitEx(s.offWriteCom, cbUsed)
  {
    hide Aligned, Align8, AlignU32, HdrAt, FrameAt, Walk, Ring.HeldUpTo, Bounds.SlotOk, Bounds.After, Bounds.Span,
         Bounds.Dist;
    PendingSlot(s, s.offWriteInt, 0);
    SlotCanPad(s, s.offWriteCom, cbUsed);
  }

  /** And the two headers do not disturb each other. */
  lemma PadIsTwoHeaders(s: Ring, p: nat, cbUsed: nat)
    requires s.CanCommitEx(p, cbUsed) && s.Pads(p, cbUsed)
    ensures var h := HdrAt(s.mem, p); var used := WithCtx(h.u8Type, cbUsed); var pp := p + h.offFrame + Align8(used);
      && used <= h.cbFrame && Align8(used) != Align8(h.cbFrame) && 0 <= pp && pp + HDR <= |s.mem|
      && s.Pad(p, cbUsed) == s.PutHdr(pp, PaddingHdr(h, used)).PutHdr(p, h.(cbFrame := used))
  {
    hide Aligned, Align8, AlignU32, HdrAt, Splice, Encode, Decode, Bounds.SlotOk, Bounds.After, Bounds.Span;
    var h := HdrAt(s.mem, p);
    var used := WithCtx(h.u8Type, cbUsed);
    SlotCanPad(s, p, cbUsed);
    AlignMonotone(used, h.cbFrame);
    PaddingFills(s.area, p, h, used);
    var pp: nat := p + h.offFrame + Align8(used);
    HdrAway(s.mem, p, pp, Encode(PaddingHdr(h, used)));
  }

  lemma HdrAway(m: seq<byte>, p: nat, at: nat, b: seq<byte>)
    requires p + HDR <= |m| && at + |b| <= |m| && (at + |b| <= p || p + HDR <= at)
    ensures HdrAt(Splice(m, at, b), p) == HdrAt(m, p)
  {
    hide Splice, Decode;
    SpliceIndex(m, at, b);
    SameSlice(m, Splice(m, at, b), p, p + HDR);
  }

  /** Where the sizes round differently the oldest pending slot is rewritten as the used part and a padding frame. */
  lemma PadSplits(s: Ring, cbUsed: nat) returns (fs: seq<Frame>)
    requires s.Inv() && s.Held().value.pending != [] && s.CanCommitEx(s.offWriteCom, cbUsed)
    requires s.Pads(s.offWriteCom, cbUsed)
    ensures var v := s.Held().value; var h := HdrAt(s.mem, s.offWriteCom); var used := WithCtx(h.u8Type, cbUsed);
      && used <= |v.pending[0].data| && Shortened(v.pending[0], used, fs)
      && s.Pad(s.offWriteCom, cbUsed) == s.(mem := s.Pad(s.offWriteCom, cbUsed).mem)
      && s.Pad(s.offWriteCom, cbUsed).Held() == Some(v.(pending := fs + v.pending[1..]))
      && Nth(s.area, LookIn(s.Pad(s.offWriteCom, cbUsed).mem), s.offWriteCom, |fs|)
         == s.area.After(s.offWriteCom, h)
  {
    hide Aligned, Align8, AlignU32, Walk, HdrAt, FrameAt, Splice, Encode, Agree, Bounds.SlotOk, Bounds.Dist,
         Bounds.After, Bounds.Span, Ring.HeldUpTo, Ring.PadAt, Ring.Pads, Ring.Pad;
    var a, c, w, v := s.area, s.offWriteCom, s.offWriteInt, s.Held().value;
    var h := HdrAt(s.mem, c);
    var used := WithCtx(h.u8Type, cbUsed);
    PendingSlot(s, w, 0);
    SlotCanPad(s, c, cbUsed);
    PaddedSlot(a, s.mem, s.offReadX, c, h, w, used);
    PadIsTwoHeaders(s, c, cbUsed);
    var f: nat := c + h.offFrame;
    var m := s.Pad(c, cbUsed).mem;
    fs := [Frame(c, f, h.u8Type, s.mem[f..f + used]), FrameAt(m, f + Align8(used))];
    SlicePrefix(s.mem, f, h.cbFrame, used);
    ReplaceSlot(s, w, 0, m, fs);
    assert v.pending[..0] + (fs + v.pending[1..]) == fs + v.pending[1..];
    WalkLength(a, LookIn(m), c, a.After(c, h));
  }

  /** Before anything is published: the oldest pending frame has been replaced, and the cursor to be published
      is the one behind the replacement. */
  lemma PadLaw(s: Ring, cbUsed: nat) returns (fs: seq<Frame>)
    requires s.Inv() && s.Held().value.pending != [] && s.CanCommitEx(s.offWriteCom, cbUsed)
    ensures var v := s.Held().value; var h := HdrAt(s.mem, s.offWriteCom); var used := WithCtx(h.u8Type, cbUsed);
      && v.pending[0].u8Type == h.u8Type && used <= |v.pending[0].data| && Shortened(v.pending[0], used, fs)
      && s.Pad(s.offWriteCom, cbUsed) == s.(mem := s.Pad(s.offWriteCom, cbUsed).mem)
      && s.Pad(s.offWriteCom, cbUsed).Held() == Some(v.(pending := fs + v.pending[1..]))
      && Nth(s.area, LookIn(s.Pad(s.offWriteCom, cbUsed).mem), s.offWriteCom, |fs|)
         == s.area.CommitTarget(s.offWriteCom, h)
  {
    hide Aligned, Align8, AlignU32, Walk, HdrAt, FrameAt, Bounds.SlotOk, Bounds.Dist, Bounds.After, Bounds.Span,
         Ring.HeldUpTo, Bounds.SkipTarget, Bounds.CommitTarget, Ring.PadAt, Ring.Pads;
    var a, c := s.area, s.offWriteCom;
    var h := HdrAt(s.mem, c);
    PendingSlot(s, s.offWriteInt, 0);
    CursorArithmeticIsExact(a, c, h);
    SlotCanPad(s, c, cbUsed);
    if s.Pads(c, cbUsed) {
      fs := PadSplits(s, cbUsed);
    } else {
      var v := s.Held().value;
      fs := [v.pending[0]];
      assert fs + v.pending[1..] == v.pending;
      SingleSlot(a, LookIn(s.mem), c);
      WalkLength(a, LookIn(s.mem), c, a.After(c, h));
    }
  }

  /** IntNetRingCommitFrameEx as a whole. It counts the used bytes, a context of eight bytes included, even where the
      frame stays longer. */
  lemma CommitExLaw(s: Ring, cbUsed: nat) returns (fs: seq<Frame>)
    requires s.Inv() && s.Held().value.pending != [] && s.CanCommitEx(s.offWriteCom, cbUsed)
    ensures var v := s.Held().value; var used := cbUsed + if v.pending[0].u8Type == 0x64 then 8 else 0;
      && used <= |v.pending[0].data| && Shortened(v.pending[0], used, fs)
      && s.CommitEx(s.offWriteCom, cbUsed).Held() == Some(Queues(v.committed + fs, v.pending[1..]))
      && s.CommitEx(s.offWriteCom, cbUsed).cbStatWritten == (s.cbStatWritten + used) % 0x1_0000_0000_0000_0000
      && s.CommitEx(s.offWriteCom, cbUsed).cStatFrames == (s.cStatFrames + 1) % 0x1_0000_0000_0000_0000
  {
    hide Aligned, Align8, AlignU32, Walk, HdrAt, Splice, Ring.Pad, Bounds.SlotOk, Bounds.CommitTarget,
         Ring.HeldUpTo;
    fs := PadLaw(s, cbUsed);
    var t, rest := s.Pad(s.offWriteCom, cbUsed), s.Held().value.pending[1..];
    PublishLaw(t, s.offWriteInt, |fs|, WithCtx(HdrAt(s.mem, s.offWriteCom).u8Type, cbUsed));
    assert (fs + rest)[..|fs|] == fs && (fs + rest)[|fs|..] == rest;
  }

  /** For a normal frame, and for one with a context of eight bytes in front: any used size up to what was allocated can
      be committed. The reader sees the context and the used bytes, with padding behind, if both sizes round
      differently, and else the whole allocated frame; so it sees the used length exactly when both sizes round
      differently or are equal. */
  lemma VisibleLength(s: Ring, cbUsed: nat)
    requires s.Inv() && s.Held().value.pending != []
    requires s.Held().value.pending[0].u8Type == 0x42 || s.Held().value.pending[0].u8Type == 0x64
    requires var f := s.Held().value.pending[0]; cbUsed + (if f.u8Type == 0x64 then 8 else 0) <= |f.data|
    ensures s.CanCommitEx(s.offWriteCom, cbUsed)
    ensures var v := s.Held().value; var f := v.pending[0];
      var used := cbUsed + if f.u8Type == 0x64 then 8 else 0;
      var t := s.CommitEx(s.offWriteCom, cbUsed);
      && t.Inv() && |t.Held().value.committed| > |v.committed|
      && var seen := t.Held().value.committed[|v.committed|];
      && seen.u8Type == f.u8Type
      && seen.data == (if Align8(used) != Align8(|f.data|) then f.data[..used] else f.data)
      && (|seen.data| == used <==> Align8(used) != Align8(|f.data|) || used == |f.data|)
      && (Align8(used) != Align8(|f.data|) ==>
           && |t.Held().value.committed| == |v.committed| + 2
           && t.Held().value.committed[|v.committed| + 1].u8Type == 0x53)
  {
    hide Align8, Walk, HdrAt, FrameAt, Ring.CommitEx, Ring.CanCommitEx, Ring.HeldUpTo;
    PendingCanPad(s, cbUsed);
    var fs := CommitExLaw(s, cbUsed);
  }
}
