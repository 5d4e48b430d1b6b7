/** Segment-offload frames: a context of eight bytes in front of the payload. */
module Gso {
  import opened Words
  import opened Slots
  import opened Rings
  import opened RingLaws
  import opened CommitLaws
  import opened ShortCommit
  import opened OneShot
  import opened Runs
  import opened RunLaws

  /** IntNetRingAllocateGsoFrame: allocates room for the context as well, stores it and returns what follows it. */
  function AllocateGso(s: Ring, cbFrame: nat, ctx: seq<byte>): (Ring, Outcome)
    requires s.area.offEnd <= |s.mem| && s.area.Cursor(s.offReadX) && s.area.Cursor(s.offWriteInt)
    requires |ctx| == GSO && cbFrame + GSO < TWO_24
  {
    var (t, o) := s.Allocate(cbFrame + GSO, TYPE_GSO);
    if o.Allocated? then
      AllocatedRoom(s, s.offReadX, cbFrame + GSO, TYPE_GSO, t, o);
      (t.PutBytes(o.pvFrame, ctx), Allocated(o.pHdr, o.pvFrame + GSO))
    else (t, o)
  }

  /** The whole outcome: refused exactly where the frame with its context has no room, and then counted; else pointers
      to the header and behind the context, which is stored in front of the room for the payload. */
  lemma AllocateGsoIsExact(s: Ring, cbFrame: nat, ctx: seq<byte>, t: Ring, o: Outcome)
    requires s.Inv() && |ctx| == GSO && cbFrame + GSO < TWO_24
    requires s.area.offEnd <= |s.mem| && s.area.Cursor(s.offReadX) && s.area.Cursor(s.offWriteInt)
    requires AllocateGso(s, cbFrame, ctx) == (t, o)
    ensures var a, r, w := s.area, s.offReadX, s.offWriteInt;
      if !HasRoom(a, r, w, cbFrame + 8, TYPE_GSO) then
        o == Overflow && t == s.(cOverflows := (s.cOverflows + 1) % 0x1_0000_0000_0000_0000)
      else
        && o == Allocated(w, PayloadAt(a, r, w, cbFrame + 8, TYPE_GSO) + 8)
        && (t.offWriteInt == t.offReadX <==> ExactFit(a, r, w, cbFrame + 8))
    ensures var v := s.Held().value; o.Allocated? && t.offWriteInt != t.offReadX ==>
      && 8 <= o.pvFrame && o.pvFrame + cbFrame <= |t.mem|
      && t.Held() == Some(v.(pending :=
           v.pending + [Frame(o.pHdr, o.pvFrame - 8, TYPE_GSO, ctx + t.mem[o.pvFrame..o.pvFrame + cbFrame])]))
  {
    hide Aligned, AlignU32, Align8, HdrAt, FrameAt, Walk, Splice, HasRoom, PayloadAt, Ring.AllocateFrom, Ring.HeldUpTo;
    var (t1, o1) := s.Allocate(cbFrame + GSO, TYPE_GSO);
    AllocationIsExact(s, s.offReadX, s.offWriteInt, cbFrame + GSO, TYPE_GSO, t1, o1);
    if o1.Allocated? {
      var k := |s.Held().value.pending|;
      AllocateLaw(s, s.offReadX, cbFrame + GSO, TYPE_GSO, t1, o1);
      AllocatedRoom(s, s.offReadX, cbFrame + GSO, TYPE_GSO, t1, o1);
      if t1.offWriteInt != t1.offReadX {
        FillLaw(t1, t1.offWriteInt, k, 0, ctx);
        ContextInFront(t1.mem, o1.pvFrame, cbFrame, ctx);
        var f := Frame(o1.pHdr, o1.pvFrame, TYPE_GSO, ctx + t.mem[o.pvFrame..o.pvFrame + cbFrame]);
        assert t1.Held().value.pending[k := f] == s.Held().value.pending + [f];
      }
    }
  }

  lemma ContextInFront(m: seq<byte>, f: nat, n: nat, ctx: seq<byte>)
    requires f + |ctx| + n <= |m|
    ensures Splice(m[f..f + |ctx| + n], 0, ctx) == ctx + Splice(m, f, ctx)[f + |ctx|..f + |ctx| + n]
  {
  }

  lemma TwoParts(d: seq<byte>, ctx: seq<byte>, payload: seq<byte>)
    requires |d| == |ctx| + |payload|
    ensures Splice(Splice(d, 0, ctx), |ctx|, payload) == ctx + payload
  {
  }

  /** After allocating a segment-offload frame and copying the payload in, the last pending frame is the context
      followed by the payload. */
  lemma GsoFilled(s: Ring, ctx: seq<byte>, payload: seq<byte>, t: Ring, o: Outcome)
    requires s.Inv() && |ctx| == GSO && |payload| + GSO < TWO_24
    requires s.area.offEnd <= |s.mem| && s.area.Cursor(s.offReadX) && s.area.Cursor(s.offWriteInt)
    requires AllocateGso(s, |payload|, ctx) == (t, o) && o.Allocated? && t.offWriteInt != t.offReadX
    ensures o.pvFrame + |payload| <= |t.mem| && o.pvFrame >= GSO
    ensures var v := s.Held().value;
      var f := Frame(o.pHdr, o.pvFrame - GSO, TYPE_GSO, ctx + payload);
      t.PutBytes(o.pvFrame, payload).Held() == Some(v.(pending := v.pending + [f]))
  {
    hide Aligned, AlignU32, Align8, HdrAt, FrameAt, Walk, Splice, Ring.AllocateFrom, Ring.HeldUpTo;
    var (t1, o1) := s.Allocate(|payload| + GSO, TYPE_GSO);
    var k := |s.Held().value.pending|;
    AllocateLaw(s, s.offReadX, |payload| + GSO, TYPE_GSO, t1, o1);
    AllocatedRoom(s, s.offReadX, |payload| + GSO, TYPE_GSO, t1, o1);
    TwoParts(t1.Held().value.pending[k].data, ctx, payload);
    FillLaw(t1, t1.offWriteInt, k, 0, ctx);
    FillLaw(t, t.offWriteInt, k, GSO, payload);
    assert t.PutBytes(o.pvFrame, payload).Held().value.pending
        == s.Held().value.pending + [Frame(o.pHdr, o.pvFrame - GSO, TYPE_GSO, ctx + payload)];
  }

  /** The reader's next frame is a segment-offload frame, and its context pointer leads to context and payload. */
  predicate GsoNext(s: Ring, ctx: seq<byte>, payload: seq<byte>)
    requires |ctx| == GSO
  {
    match s.GetNextFrameToRead()
    case None => false
    case Some(p) =>
      var g := s.HdrGetFramePtr(p);
      && HdrAt(s.mem, p).u8Type == TYPE_GSO && HdrAt(s.mem, p).cbFrame == GSO + |payload|
      && 0 <= g && g + GSO + |payload| <= |s.mem|
      && s.mem[g..g + GSO] == ctx && s.mem[g + GSO..g + GSO + |payload|] == payload
  }

  /** Once such a frame is committed, whatever corner-free steps writer and reader take: when the frames before it
      have been skipped, the reader's next frame is this one, and its context pointer leads to the same context
      followed by the same payload. */
  lemma GsoRoundTrip(y: System, x: System, acts: seq<Act>, z: System, ctx: seq<byte>, payload: seq<byte>)
    requires Good(y) && y.pending != [] && |ctx| == GSO
    requires y.pending[0].u8Type == TYPE_GSO && y.pending[0].data == ctx + payload
    requires Step(y, Commit) == Some(x) && Run(x, acts) == Some(z) && CornerFree(x, acts)
    requires Skips(acts) == |Unread(y)|
    ensures z.ring.GetNextFrameToRead() == Some(y.pending[0].pHdr)
    ensures z.ring.HdrGetFramePtr(y.pending[0].pHdr) == y.pending[0].pvFrame && GsoNext(z.ring, ctx, payload)
  {
    hide Step, Run, CornerFree, Aligned, HdrAt, FrameAt, Ring.HeldUpTo, Ring.HdrGetFramePtr, Ring.GetNextFrameToRead;
    StepKeeps(y, Commit, x);
    RunKeeps(x, acts, z);
    var f := y.pending[0];
    assert Unread(x)[Skips(acts)..] == [f];
    assert Unread(z)[0] == f;
    GsoAtHead(z, ctx, payload);
  }

  lemma GsoAtHead(z: System, ctx: seq<byte>, payload: seq<byte>)
    requires Good(z) && Unread(z) != [] && |ctx| == GSO
    requires Unread(z)[0].u8Type == TYPE_GSO && Unread(z)[0].data == ctx + payload
    ensures z.ring.GetNextFrameToRead() == Some(Unread(z)[0].pHdr)
    ensures z.ring.HdrGetFramePtr(Unread(z)[0].pHdr) == Unread(z)[0].pvFrame && GsoNext(z.ring, ctx, payload)
  {
    hide Aligned, HdrAt, FrameAt, Ring.HeldUpTo, Ring.HdrGetFramePtr, Ring.GetNextFrameToRead;
    var f := Unread(z)[0];
    HeadIsReadable(z.ring, Written(z));
    SliceInTwo(z.ring.mem, f.pvFrame, ctx, payload);
  }

  lemma SliceInTwo(m: seq<byte>, f: nat, ctx: seq<byte>, payload: seq<byte>)
    requires f + |ctx| + |payload| <= |m| && m[f..f + |ctx| + |payload|] == ctx + payload
    ensures m[f..f + |ctx|] == ctx && m[f + |ctx|..f + |ctx| + |payload|] == payload
  {
    assert m[f..f + |ctx|] == m[f..f + |ctx| + |payload|][..|ctx|];
    assert m[f + |ctx|..f + |ctx| + |payload|] == m[f..f + |ctx| + |payload|][|ctx|..];
  }

  // ---------- from sampling to fetching ----------

  /** What the writer does to put such a frame behind k pending ones. */
  function GsoActs(k: nat, ctx: seq<byte>, payload: seq<byte>): seq<Act> {
    [Sample(GSO + |payload|, TYPE_GSO), CompareExchange, StoreHdr, Fill(k, 0, ctx), Fill(k, GSO, payload)]
  }

  /** How far the writer has come with it, after i of these acts; ahead are the frames pending before. */
  predicate Stage(y: System, i: nat, ahead: seq<Frame>, ctx: seq<byte>, payload: seq<byte>)
    requires |ctx| == GSO
  {
    if i == 0 then y.writer.Idle? && y.pending == ahead
    else if i == 1 then
      y.writer.Sampled? && y.writer.cbFrame == GSO + |payload| && y.writer.u8Type == TYPE_GSO && y.pending == ahead
    else if i == 2 then
      && y.pending == ahead
      && (y.writer.Reserved? ==> y.writer.hdr.cbFrame == GSO + |payload| && y.writer.hdr.u8Type == TYPE_GSO)
    else
      && y.writer.Idle? && |y.pending| == |ahead| + 1 && y.pending[..|ahead|] == ahead
      && var f := y.pending[|ahead|];
      && f.u8Type == TYPE_GSO && |f.data| == GSO + |payload|
      && (i >= 4 ==> f.data[..GSO] == ctx) && (i >= 5 ==> f.data[GSO..] == payload)
  }

  lemma NextStage(y: System, i: nat, ahead: seq<Frame>, ctx: seq<byte>, payload: seq<byte>, z: System)
    requires Good(y) && i < 5 && |ctx| == GSO && Stage(y, i, ahead, ctx, payload)
    requires Step(y, GsoActs(|ahead|, ctx, payload)[i]) == Some(z)
    ensures Stage(z, i + 1, ahead, ctx, payload)
  {
    hide Good, Aligned, AlignU32, Align8, HdrAt, FrameAt, Splice, Encode, Bounds.Place;
    if i == 2 { StoredSize(y); }
    if i == 3 { SpliceIndex(y.pending[|ahead|].data, 0, ctx); }
    if i == 4 { SpliceIndex(y.pending[|ahead|].data, GSO, payload); }
  }

  lemma StageWhileReading(y: System, i: nat, ahead: seq<Frame>, ctx: seq<byte>, payload: seq<byte>, act: Act, z: System)
    requires |ctx| == GSO && Stage(y, i, ahead, ctx, payload) && Reads(act) && Step(y, act) == Some(z)
    ensures Stage(z, i, ahead, ctx, payload)
  {
  }

  /** However the reader's steps fall in between, the writer ends up with context and payload behind the frames that
      were pending. */
  lemma {:induction false} GsoPut(y: System, acts: seq<Act>, i: nat, ahead: seq<Frame>, ctx: seq<byte>,
                                  payload: seq<byte>, z: System)
    requires Good(y) && i <= 5 && |ctx| == GSO && Stage(y, i, ahead, ctx, payload)
    requires Run(y, acts) == Some(z) && CornerFree(y, acts) && Writes(acts) == GsoActs(|ahead|, ctx, payload)[i..]
    ensures Good(z) && Stage(z, 5, ahead, ctx, payload)
    decreases |acts|
  {
    hide Step, Good, InCorner, Stage;
    var rest := GsoActs(|ahead|, ctx, payload)[i..];
    if acts != [] {
      var x := Step(y, acts[0]).value;
      StepKeeps(y, acts[0], x);
      if Reads(acts[0]) {
        assert Writes(acts) == [] + Writes(acts[1..]) == Writes(acts[1..]);
        StageWhileReading(y, i, ahead, ctx, payload, acts[0], x);
        GsoPut(x, acts[1..], i, ahead, ctx, payload, z);
      } else {
        assert rest[0] == acts[0] && rest[1..] == Writes(acts[1..]);
        NextStage(y, i, ahead, ctx, payload, x);
        GsoPut(x, acts[1..], i + 1, ahead, ctx, payload, z);
      }
    }
  }

  /** The frames an act takes off the pending ones: a commit of either kind one, any other act none. */
  function Commits(acts: seq<Act>): nat {
    if acts == [] then 0 else (if acts[0].Commit? || acts[0].PublishPadded? then 1 else 0) + Commits(acts[1..])
  }

  /** No act writes into the frame that is the k-th pending one to begin with. */
  predicate Undisturbed(acts: seq<Act>, k: nat)
    decreases |acts|
  {
    acts == [] ||
    if acts[0].Commit? || acts[0].PublishPadded? then k == 0 || Undisturbed(acts[1..], k - 1)
    else !(acts[0].Fill? && acts[0].k == k) && Undisturbed(acts[1..], k)
  }

  /** A pending frame moves up with each commit and is otherwise as it was, whatever else is allocated and filled. */
  lemma {:induction false} PendingMovesUp(y: System, acts: seq<Act>, k: nat, z: System)
    requires Run(y, acts) == Some(z) && k < |y.pending| && Undisturbed(acts, k) && Commits(acts) <= k
    ensures k - Commits(acts) < |z.pending| && z.pending[k - Commits(acts)] == y.pending[k]
    decreases |acts|
  {
    hide Step;
    if acts != [] {
      var x := Step(y, acts[0]).value;
      PendingStep(y, acts[0], k, x);
      PendingMovesUp(x, acts[1..], if acts[0].Commit? || acts[0].PublishPadded? then k - 1 else k, z);
    }
  }

  lemma PendingStep(y: System, act: Act, k: nat, x: System)
    requires Step(y, act) == Some(x) && k < |y.pending| && !(act.Fill? && act.k == k)
    ensures if act.Commit? || act.PublishPadded? then k > 0 ==> k - 1 < |x.pending| && x.pending[k - 1] == y.pending[k]
            else k < |x.pending| && x.pending[k] == y.pending[k]
  {
    hide Aligned, AlignU32, Align8, HdrAt, FrameAt, Splice, Encode, Bounds.Place, Bounds.CommitTarget;
  }

  lemma GsoReachesFront(y: System, put: seq<Act>, w: System, more: seq<Act>, x: System, ctx: seq<byte>,
                        payload: seq<byte>)
    requires Good(y) && y.writer.Idle? && |ctx| == GSO && Writes(put) == GsoActs(|y.pending|, ctx, payload)
    requires Run(y, put) == Some(w) && CornerFree(y, put)
    requires Run(w, more) == Some(x) && CornerFree(w, more)
    requires Undisturbed(more, |y.pending|) && Commits(more) == |y.pending|
    ensures Good(x) && x.pending != [] && x.pending[0].u8Type == TYPE_GSO && x.pending[0].data == ctx + payload
  {
    hide Good, Run, CornerFree, Undisturbed, Commits, Writes;
    assert GsoActs(|y.pending|, ctx, payload)[0..] == GsoActs(|y.pending|, ctx, payload);
    GsoPut(y, put, 0, y.pending, ctx, payload, w);
    RunKeeps(w, more, x);
    PendingMovesUp(w, more, |y.pending|, x);
    var f := w.pending[|y.pending|];
    assert f.data == f.data[..GSO] + f.data[GSO..];
  }

  /** End to end. The writer puts a segment-offload frame behind any number of pending frames; then the frames before
      it are committed, whole or shortened, while others may be allocated and filled, then it is; and then the reader
      skips what is unread before it. With the reader's steps anywhere in between and no allocation in the corner,
      the reader's next frame is this one, and its context pointer leads to the context and payload put in. */
  lemma GsoEndToEnd(y: System, put: seq<Act>, w: System, more: seq<Act>, x: System, ahead: seq<Frame>,
                    rest: seq<Act>, z: System, ctx: seq<byte>, payload: seq<byte>)
    requires Good(y) && y.writer.Idle? && |ctx| == GSO && Writes(put) == GsoActs(|y.pending|, ctx, payload)
    requires Run(y, put) == Some(w) && CornerFree(y, put)
    requires Run(w, more) == Some(x) && CornerFree(w, more)
    requires Undisturbed(more, |y.pending|) && Commits(more) == |y.pending|
    requires Run(x, [Commit] + rest) == Some(z) && CornerFree(x, [Commit] + rest)
    requires x.ring.Between(x.ring.offReadX, x.ring.offWriteCom) == Some(ahead) && Skips(rest) == |ahead|
    ensures GsoNext(z.ring, ctx, payload)
  {
    hide Step, Run, CornerFree, GsoNext, Messages, Aligned, HdrAt, FrameAt, Ring.HeldUpTo;
    GsoReachesFront(y, put, w, more, x, ctx, payload);
    HeldFacts(x.ring, Written(x));
    RunFirst(x, Commit, rest, z);
    GsoRoundTrip(x, Step(x, Commit).value, rest, z, ctx, payload);
  }

  lemma RunFirst(x: System, act: Act, rest: seq<Act>, z: System)
    requires Run(x, [act] + rest) == Some(z) && CornerFree(x, [act] + rest)
    ensures Step(x, act).Some? && Run(Step(x, act).value, rest) == Some(z) && CornerFree(Step(x, act).value, rest)
  {
    hide Step, InCorner;
    assert ([act] + rest)[1..] == rest;
  }

  /** A short commit of the frame at the front shows the context and the used payload, or all of it where the sizes
      with the context round to the same. */
  lemma GsoShortCommit(x: System, cbUsed: nat, u: System, v: System, ctx: seq<byte>, payload: seq<byte>)
    requires Good(x) && x.pending != [] && |ctx| == GSO && cbUsed <= |payload|
    requires x.pending[0].u8Type == TYPE_GSO && x.pending[0].data == ctx + payload
    requires Step(x, PadUnused(cbUsed)) == Some(u) && Step(u, PublishPadded) == Some(v)
    ensures Good(v) && |Unread(v)| > |Unread(x)|
    ensures var f := Unread(v)[|Unread(x)|];
      f.u8Type == TYPE_GSO && f.data == ctx + Shown8(payload, cbUsed)
  {
    hide Step, Aligned, Align8, HdrAt, FrameAt, Walk, Ring.HeldUpTo, Ring.CommitEx, Ring.CanCommitEx, Cut, Messages;
    StepKeeps(x, PadUnused(cbUsed), u);
    StepKeeps(u, PublishPadded, v);
    CommitExInSteps(x, cbUsed, u, v);
    PaddedThenIdle(x, cbUsed, u, v);
    OldestAtCommitCursor(x.ring, x.ring.offWriteInt);
    VisibleLength(x.ring, cbUsed);
    assert (ctx + payload)[..GSO + cbUsed] == ctx + payload[..cbUsed];
  }

  /** What is left of a payload behind eight bytes of context. */
  function Shown8(payload: seq<byte>, cbUsed: nat): seq<byte>
    requires cbUsed <= |payload|
  {
    if Align8(8 + cbUsed) != Align8(8 + |payload|) then payload[..cbUsed] else payload
  }

  lemma PaddedThenIdle(x: System, cbUsed: nat, u: System, v: System)
    requires Step(x, PadUnused(cbUsed)) == Some(u) && Step(u, PublishPadded) == Some(v)
    ensures x.writer.Idle? && v.writer.Idle?
  {
    hide HdrAt, Ring.Pad, Ring.CanPad, Cut, Bounds.CommitTarget;
  }

  /** End to end with a short commit: the reader gets to the context and the payload that was used. */
  lemma GsoShortEndToEnd(y: System, put: seq<Act>, w: System, more: seq<Act>, x: System, ahead: seq<Frame>, cbUsed: nat,
                         rest: seq<Act>, z: System, ctx: seq<byte>, payload: seq<byte>)
    requires Good(y) && y.writer.Idle? && |ctx| == GSO && Writes(put) == GsoActs(|y.pending|, ctx, payload)
    requires Run(y, put) == Some(w) && CornerFree(y, put)
    requires Run(w, more) == Some(x) && CornerFree(w, more)
    requires Undisturbed(more, |y.pending|) && Commits(more) == |y.pending| && cbUsed <= |payload|
    requires Run(x, [PadUnused(cbUsed)] + ([PublishPadded] + rest)) == Some(z)
    requires CornerFree(x, [PadUnused(cbUsed)] + ([PublishPadded] + rest))
    requires x.ring.Between(x.ring.offReadX, x.ring.offWriteCom) == Some(ahead) && Skips(rest) == |ahead|
    ensures GsoNext(z.ring, ctx, Shown8(payload, cbUsed))
  {
    hide Step, Run, CornerFree, GsoNext, Shown8, Messages, Aligned, HdrAt, FrameAt, Ring.HeldUpTo;
    GsoReachesFront(y, put, w, more, x, ctx, payload);
    HeldFacts(x.ring, Written(x));
    RunFirst(x, PadUnused(cbUsed), [PublishPadded] + rest, z);
    var u := Step(x, PadUnused(cbUsed)).value;
    RunFirst(u, PublishPadded, rest, z);
    var v := Step(u, PublishPadded).value;
    GsoShortCommit(x, cbUsed, u, v, ctx, payload);
    RunKeeps(v, rest, z);
    assert Unread(v)[|ahead|..][0] == Unread(v)[|ahead|];
    GsoAtHead(z, ctx, Shown8(payload, cbUsed));
  }
}
