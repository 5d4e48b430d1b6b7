/** Filling, committing and skipping frames. */
module CommitLaws {
  import opened Words
  import opened Slots
  import opened Rings
  import opened RingLaws

  // ---------- skipping ----------

  /** Skip drops exactly the oldest unread frame; a read cursor sampled before stays a stale one. */
  lemma SkipLaw(s: Ring, wh: nat)
    requires s.HeldUpTo(wh).Some? && s.HasMoreToRead()
    ensures var v := s.HeldUpTo(wh).value; var t := s.Skip();
      && v.committed != [] && v.committed[0] == FrameAt(s.mem, s.offReadX)
      && t.HeldUpTo(wh) == Some(v.(committed := v.committed[1..]))
      && s.area.Dist(s.offReadX, t.offReadX) + s.area.Dist(t.offReadX, s.offWriteInt)
         == s.area.Dist(s.offReadX, s.offWriteInt)
  {
    hide Aligned, Align8, HdrAt, FrameAt;
    var h := HdrAt(s.mem, s.offReadX);
    WalkStep(s.area, LookIn(s.mem), s.offReadX, s.offWriteCom);
    CursorArithmeticIsExact(s.area, s.offReadX, h);
  }

  // ---------- publishing ----------

  /** Publishing the cursor behind the first k pending frames commits exactly those. */
  lemma PublishLaw(s: Ring, wh: nat, k: nat, cb: nat)
    requires s.HeldUpTo(wh).Some? && k <= |s.HeldUpTo(wh).value.pending|
    ensures var v := s.HeldUpTo(wh).value; var n := Nth(s.area, LookIn(s.mem), s.offWriteCom, k);
      s.Publish(n, cb).HeldUpTo(wh) == Some(Queues(v.committed + v.pending[..k], v.pending[k..]))
  {
    hide Aligned, Align8, HdrAt, FrameAt;
    var look := LookIn(s.mem);
    WalkSplit(s.area, look, s.offWriteCom, wh, k);
    WalkConcat(s.area, look, s.offReadX, s.offWriteCom, Nth(s.area, look, s.offWriteCom, k));
  }

  /** IntNetRingCommitFrame moves the oldest pending frame to the end of the unread ones and counts its bytes. */
  lemma CommitLaw(s: Ring)
    requires s.Inv() && s.Held().value.pending != []
    ensures var v := s.Held().value; var t := s.Commit(s.offWriteCom);
      && t.Held() == Some(Queues(v.committed + [v.pending[0]], v.pending[1..]))
      && t.cbStatWritten == (s.cbStatWritten + |v.pending[0].data|) % 0x1_0000_0000_0000_0000
      && t.cStatFrames == (s.cStatFrames + 1) % 0x1_0000_0000_0000_0000
  {
    hide Aligned, Align8, HdrAt, FrameAt, Walk, Ring.HeldUpTo, Bounds.SlotOk, Bounds.After, Bounds.Span, Bounds.Dist,
         Bounds.CommitTarget, Bounds.SkipTarget;
    var c, look := s.offWriteCom, LookIn(s.mem);
    PendingSlot(s, s.offWriteInt, 0);
    CursorArithmeticIsExact(s.area, c, HdrAt(s.mem, c));
    assert Nth(s.area, look, c, 1) == Nth(s.area, look, s.area.After(c, HdrAt(s.mem, c)), 0);
    PublishLaw(s, s.offWriteInt, 1, HdrAt(s.mem, c).cbFrame);
    assert s.Held().value.pending[..1] == [s.Held().value.pending[0]];
  }

  // ---------- rewriting one pending slot in place ----------

  /** Memory that differs only inside the k-th pending slot, where it holds the slots fs. */
  lemma ReplaceSlot(s: Ring, wh: nat, k: nat, m: seq<byte>, fs: seq<Frame>)
    requires s.HeldUpTo(wh).Some? && k < |s.HeldUpTo(wh).value.pending| && |m| == |s.mem|
    requires var p := Nth(s.area, LookIn(s.mem), s.offWriteCom, k);
      var n := s.area.After(p, HdrAt(s.mem, p));
      && Agree(s.area, s.mem, m, s.offReadX, p) && Agree(s.area, s.mem, m, n, wh)
      && Walk(s.area, LookIn(m), p, n) == Some(fs)
    ensures var v := s.HeldUpTo(wh).value;
      s.(mem := m).HeldUpTo(wh) == Some(v.(pending := v.pending[..k] + (fs + v.pending[k + 1..])))
  {
    hide Aligned, Align8, HdrAt, FrameAt, Walk, Nth, Agree, Bounds.SlotOk, Bounds.Span, Bounds.After;
    var a, c, look := s.area, s.offWriteCom, LookIn(s.mem);
    var p := Nth(a, look, c, k);
    var n := a.After(p, look(p).hdr);
    WalkSplit(a, look, c, wh, k);
    WalkStep(a, look, p, wh);
    AgreeOnTail(a, s.mem, m, s.offReadX, c, p);
    WalkAgrees(a, s.mem, m, s.offReadX, c);
    WalkAgrees(a, s.mem, m, c, p);
    WalkAgrees(a, s.mem, m, n, wh);
    WalkConcat(a, LookIn(m), p, n, wh);
    WalkConcat(a, LookIn(m), c, p, wh);
    assert s.HeldUpTo(wh).value.pending[k..][1..] == s.HeldUpTo(wh).value.pending[k + 1..];
  }

  lemma SpliceOfSlice(m: seq<byte>, f: nat, len: nat, at: nat, b: seq<byte>)
    requires f + len <= |m| && at + |b| <= len
    ensures Splice(m, f + at, b)[f..f + len] == Splice(m[f..f + len], at, b)
  {
    hide Splice;
    SpliceIndex(m, f + at, b);
    SpliceIndex(m[f..f + len], at, b);
  }

  /** A splice into the arc from p to n leaves the arcs on both sides alone. */
  lemma SpliceBetween(a: Area, m: seq<byte>, at: nat, b: seq<byte>, r: nat, p: nat, n: nat, wh: nat)
    requires a.Cursor(r) && a.Cursor(p) && a.Cursor(n) && a.Cursor(wh)
    requires a.Dist(r, p) + a.Dist(p, n) + a.Dist(n, wh) == a.Dist(r, wh)
    requires at + |b| <= |m| && forall i :: at <= i < at + |b| ==> a.InArc(p, n, i)
    ensures Agree(a, m, Splice(m, at, b), r, p) && Agree(a, m, Splice(m, at, b), n, wh)
  {
    hide Aligned, Splice;
    SpliceBehind(a, m, at, b, r, p, n);
    SpliceIndex(m, at, b);
    forall i | 0 <= i < |m| && a.InArc(n, wh, i) ensures m[i] == Splice(m, at, b)[i] {
      assert !a.InArc(p, n, i);
    }
  }

  /** A splice into the header or the payload room of a slot leaves the arcs on both sides of the slot alone. */
  lemma SpliceInSlot(a: Area, m: seq<byte>, at: nat, b: seq<byte>, r: nat, p: nat, h: Hdr, wh: nat)
    requires a.Cursor(r) && a.Cursor(p) && a.Cursor(wh) && a.SlotOk(p, h) && at + |b| <= |m|
    requires var n := a.After(p, h);
      && a.Cursor(n) && a.Dist(p, n) == a.Span(p, h)
      && a.Dist(r, p) + a.Dist(p, n) + a.Dist(n, wh) == a.Dist(r, wh)
    requires var f := p + h.offFrame;
      (p <= at && at + |b| <= p + HDR) || (f <= at && at + |b| <= f + Align8(h.cbFrame))
    ensures var t := Splice(m, at, b); Agree(a, m, t, r, p) && Agree(a, m, t, a.After(p, h), wh)
  {
    hide Aligned, Align8, Splice;
    SlotInArc(a, p, h, a.After(p, h));
    SpliceBetween(a, m, at, b, r, p, a.After(p, h), wh);
  }

  /** Geometry and content of the k-th pending slot. */
  lemma PendingSlot(s: Ring, wh: nat, k: nat)
    requires s.HeldUpTo(wh).Some? && k < |s.HeldUpTo(wh).value.pending|
    ensures var a := s.area; var p := Nth(a, LookIn(s.mem), s.offWriteCom, k);
      var h := HdrAt(s.mem, p); var n := a.After(p, h); var f := p + h.offFrame;
      && a.Cursor(s.offReadX) && a.Cursor(p) && a.Cursor(n) && a.Cursor(wh)
      && a.SlotOk(p, h) && a.Dist(p, n) == a.Span(p, h) && n != p && (f == p + HDR || f + Align8(h.cbFrame) < p)
      && a.Dist(s.offReadX, p) + a.Dist(p, n) + a.Dist(n, wh) == a.Dist(s.offReadX, wh)
      && a.offStart <= f && f + h.cbFrame <= f + Align8(h.cbFrame) <= a.offEnd <= |s.mem|
      && FrameAt(s.mem, p) == s.HeldUpTo(wh).value.pending[k] == Frame(p, f, h.u8Type, s.mem[f..f + h.cbFrame])
  {
    hide Aligned, Align8, HdrAt, Walk, Nth, Bounds.Span, Bounds.After;
    var a, look := s.area, LookIn(s.mem);
    var p := Nth(a, look, s.offWriteCom, k);
    WalkSplit(a, look, s.offWriteCom, wh, k);
    WalkStep(a, look, p, wh);
    SlotEnd(a, p, HdrAt(s.mem, p));
  }

  // ---------- writing payload ----------

  /** Rewriting payload bytes of one slot keeps its header and changes its frame accordingly. */
  lemma FillSlot(m: seq<byte>, p: nat, h: Hdr, f: nat, at: nat, b: seq<byte>)
    requires p + HDR <= |m| && h == HdrAt(m, p) && f == p + h.offFrame && f + h.cbFrame <= |m|
    requires at + |b| <= h.cbFrame && (p + HDR <= f || f + h.cbFrame <= p)
    ensures var t := Splice(m, f + at, b);
      HdrAt(t, p) == h && FrameAt(t, p) == FrameAt(m, p).(data := Splice(FrameAt(m, p).data, at, b))
  {
    hide Decode, Splice;
    SpliceIndex(m, f + at, b);
    SpliceOfSlice(m, f, h.cbFrame, at, b);
    SameSlice(m, Splice(m, f + at, b), p, p + HDR);
  }

  lemma UpdateAsSplit<T>(s: seq<T>, k: nat, x: T)
    requires k < |s|
    ensures s[k := x] == s[..k] + ([x] + s[k + 1..])
  {
  }

  /** Writing payload bytes of the k-th pending frame stays inside its slot. */
  lemma FillInPlace(s: Ring, wh: nat, k: nat, at: nat, b: seq<byte>)
    requires s.HeldUpTo(wh).Some? && k < |s.HeldUpTo(wh).value.pending|
    requires at + |b| <= |s.HeldUpTo(wh).value.pending[k].data|
    ensures var f := s.HeldUpTo(wh).value.pending[k]; var p := Nth(s.area, LookIn(s.mem), s.offWriteCom, k);
      && 0 <= f.pvFrame && f.pvFrame + at + |b| <= |s.mem|
      && var m := Splice(s.mem, f.pvFrame + at, b); var n := s.area.After(p, HdrAt(s.mem, p));
      && Agree(s.area, s.mem, m, s.offReadX, p) && Agree(s.area, s.mem, m, n, wh)
      && Walk(s.area, LookIn(m), p, n) == Some([f.(data := Splice(f.data, at, b))])
  {
    hide Aligned, Align8, Walk, Nth, HdrAt, FrameAt, Splice, Ring.HeldUpTo;
    hide Bounds.Dist, Bounds.Span, Bounds.After, Bounds.SlotOk, Agree;
    PendingSlot(s, wh, k);
    var a, p := s.area, Nth(s.area, LookIn(s.mem), s.offWriteCom, k);
    var h := HdrAt(s.mem, p);
    var dst := p + h.offFrame + at;
    SpliceInSlot(a, s.mem, dst, b, s.offReadX, p, h, wh);
    FillSlot(s.mem, p, h, p + h.offFrame, at, b);
    SingleSlot(a, LookIn(Splice(s.mem, dst, b)), p);
  }

  /** Payload bytes written through the frame pointer change that pending frame and nothing else. */
  lemma FillLaw(s: Ring, wh: nat, k: nat, at: nat, b: seq<byte>)
    requires s.HeldUpTo(wh).Some? && k < |s.HeldUpTo(wh).value.pending|
    requires at + |b| <= |s.HeldUpTo(wh).value.pending[k].data|
    ensures var v := s.HeldUpTo(wh).value; var f := v.pending[k];
      && 0 <= f.pvFrame && f.pvFrame + at + |b| <= |s.mem|
      && s.PutBytes(f.pvFrame + at, b).HeldUpTo(wh)
         == Some(v.(pending := v.pending[k := f.(data := Splice(f.data, at, b))]))
  {
    hide Aligned, Align8, Walk, Nth, HdrAt, FrameAt, LookIn, Splice, Agree, Ring.HeldUpTo, Bounds.After;
    FillInPlace(s, wh, k, at, b);
    var f := s.HeldUpTo(wh).value.pending[k];
    var g := f.(data := Splice(f.data, at, b));
    ReplaceSlot(s, wh, k, Splice(s.mem, f.pvFrame + at, b), [g]);
    UpdateAsSplit(s.HeldUpTo(wh).value.pending, k, g);
  }
}
