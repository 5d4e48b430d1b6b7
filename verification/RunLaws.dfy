/** What holds over whole runs of the writer and the reader. */
module RunLaws {
  import opened Words
  import opened Slots
  import opened Rings
  import opened RingLaws
  import opened CommitLaws
  import opened ShortCommit
  import opened Runs

  // ---------- steps ----------

  /** A compare-exchange keeps the system in order exactly outside the exact-fit corner, however stale the read
      cursor it was based on; and with one writer it never fails. */
  lemma CornerIsExact(y: System, z: System)
    requires Good(y) && Step(y, CompareExchange) == Some(z)
    ensures !z.writer.Reserved? ==>
      z == y.(writer := Idle, ring := y.ring.(cOverflows := Wrap64(y.ring.cOverflows + 1)))
    ensures z.writer.Reserved? ==> (z.ring.offWriteInt == z.ring.offReadX <==> InCorner(y, CompareExchange))
    ensures z.writer.Reserved? ==> (Good(z) <==> !InCorner(y, CompareExchange))
  {
    hide Aligned, AlignU32, Align8, HdrAt, FrameAt, Walk;
    var s, w := y.ring, y.writer;
    HeldFacts(s, s.offWriteInt);
    if z.writer.Reserved? {
      PlacementFits(s.area, w.offRead, s.offReadX, s.offWriteInt, w.cbFrame, w.u8Type);
      if InCorner(y, CompareExchange) {
        assert !z.ring.Ordered(s.offWriteInt) || s.offWriteInt == z.ring.offWriteInt;
      } else {
        CompareExchangeKeeps(y, z);
      }
    }
  }

  /** The writer's header and payload stores always lie inside the memory, at the places its pointers give. */
  lemma WriterIsNeverStuck(y: System)
    requires Good(y)
    ensures y.writer.Reserved? ==> Step(y, StoreHdr).Some?
    ensures y.writer.Padded? ==> Step(y, PublishPadded).Some?
    ensures !y.writer.Padded? && y.pending != [] ==> y.pending[0].pHdr == y.ring.offWriteCom
    ensures y.writer.Idle? && y.pending != [] ==> Step(y, Commit).Some?
    ensures forall k: nat, at: nat, b: seq<byte> |
      (y.writer.Padded? ==> k > 0) && k < |y.pending| && at + |b| <= |y.pending[k].data| ::
        Step(y, Fill(k, at, b)).Some?
    ensures forall cbUsed: nat | y.writer.Idle? && y.pending != [] ::
      Step(y, PadUnused(cbUsed)).Some? <==> WithCtx(y.pending[0].u8Type, cbUsed) <= |y.pending[0].data|
  {
    hide Aligned, AlignU32, Align8, HdrAt, FrameAt, Walk, Splice, Messages, Cut, Ring.HeldUpTo, Bounds.After,
         Bounds.Span, Bounds.Dist;
    HeldFacts(y.ring, Written(y));
    var held := y.ring.HeldUpTo(Written(y)).value.pending;
    forall k: nat, at: nat, b: seq<byte> |
      (y.writer.Padded? ==> k > 0) && k < |y.pending| && at + |b| <= |y.pending[k].data|
      ensures Step(y, Fill(k, at, b)).Some?
    {
      var j := if y.writer.Padded? then |held| - |y.pending| + k else k;
      assert held[j] == y.pending[k];
      FillLaw(y.ring, Written(y), j, at, b);
    }
    if !y.writer.Padded? && y.pending != [] {
      PendingSlot(y.ring, Written(y), 0);
      OldestAtCommitCursor(y.ring, Written(y));
      forall cbUsed: nat | y.writer.Idle? && WithCtx(y.pending[0].u8Type, cbUsed) <= |y.pending[0].data|
        ensures Step(y, PadUnused(cbUsed)).Some?
      {
        PendingCanPad(y.ring, cbUsed);
      }
    }
  }

  /** Compare-exchange and header store taken together are the allocation, and the writer keeps the pointers that
      the allocation returns. */
  lemma AllocateInSteps(y: System, x: System, z: System)
    requires y.writer.Sampled? && y.writer.cbFrame < TWO_24
    requires y.ring.area.offEnd <= |y.ring.mem| && y.ring.area.Cursor(y.writer.offWrite)
    requires Good(y) && Step(y, CompareExchange) == Some(x) && Step(x, StoreHdr) == Some(z)
    ensures var (t, o) :=
        y.ring.AllocateFrom(y.writer.offRead, y.writer.offWrite, y.writer.cbFrame, y.writer.u8Type);
      && t == z.ring && o.Allocated? && z.pending != []
      && var f := z.pending[|z.pending| - 1]; o.pHdr == f.pHdr && o.pvFrame == f.pvFrame
  {
    hide Aligned, AlignU32, Align8, Walk, Splice, Encode, Decode, Ring.HeldUpTo, Bounds.SlotOk, Bounds.After;
    HeldFacts(y.ring, y.ring.offWriteInt);
    var s, w := y.ring, y.writer;
    PlacementFits(s.area, w.offRead, s.offReadX, s.offWriteInt, w.cbFrame, w.u8Type);
    HdrStored(y.ring.mem, x.writer.at, x.writer.hdr);
  }

  /** Padding and publishing taken together are IntNetRingCommitFrameEx. */
  lemma CommitExInSteps(y: System, cbUsed: nat, x: System, z: System)
    requires Good(y) && Step(y, PadUnused(cbUsed)) == Some(x) && Step(x, PublishPadded) == Some(z)
    ensures y.ring.CanCommitEx(y.pending[0].pHdr, cbUsed)
    ensures z.ring == y.ring.CommitEx(y.pending[0].pHdr, cbUsed)
  {
    hide Aligned, AlignU32, Align8, Walk, HdrAt, Ring.Pad, Ring.HeldUpTo, Bounds.SlotOk, Bounds.After,
         Bounds.CommitTarget;
    PendingSlot(y.ring, y.ring.offWriteInt, 0);
  }

  /** A stored header leads to a frame of the size and type reserved. */
  lemma StoredSize(y: System)
    requires Good(y) && y.writer.Reserved? && y.writer.at + HDR <= |y.ring.mem|
    ensures y.writer.hdr.Fits()
    ensures var f := FrameAt(y.ring.PutHdr(y.writer.at, y.writer.hdr).mem, y.writer.at);
      f.u8Type == y.writer.hdr.u8Type && |f.data| == y.writer.hdr.cbFrame
  {
    hide Aligned, AlignU32, Align8, HdrAt, FrameAt, Walk, Splice, Encode, Ring.HeldUpTo, Bounds.After;
    var s, at, h := y.ring, y.writer.at, y.writer.hdr;
    HeldFacts(s, at);
    HdrStored(s.mem, at, h);
    SlotEnd(s.area, at, h);
    FrameOfHdr(s.PutHdr(at, h).mem, at, h, at + h.offFrame);
  }

  // ---------- runs ----------

  /** The state after all the steps, or None where one cannot be taken. */
  function Run(y: System, acts: seq<Act>): Option<System>
    decreases |acts|
  {
    if acts == [] then Some(y)
    else
      match Step(y, acts[0])
      case None => None
      case Some(z) => Run(z, acts[1..])
  }

  /** No step of the run is a compare-exchange in the exact-fit corner. */
  predicate CornerFree(y: System, acts: seq<Act>)
    decreases |acts|
  {
    acts == [] ||
    (!InCorner(y, acts[0]) && match Step(y, acts[0]) case None => true case Some(z) => CornerFree(z, acts[1..]))
  }

  lemma {:induction false} RunConcat(y: System, first: seq<Act>, second: seq<Act>, x: System)
    requires Run(y, first) == Some(x)
    ensures Run(y, first + second) == Run(x, second)
    ensures CornerFree(y, first) && CornerFree(x, second) ==> CornerFree(y, first + second)
    decreases |first|
  {
    hide Step, InCorner;
    if first == [] {
      assert first + second == second;
    } else {
      assert (first + second)[1..] == first[1..] + second;
      RunConcat(Step(y, first[0]).value, first[1..], second, x);
    }
  }

  predicate Reads(act: Act) {
    act.Look? || act.Skip?
  }

  /** The writer's part of a run. */
  function Writes(acts: seq<Act>): seq<Act> {
    if acts == [] then [] else (if Reads(acts[0]) then [] else [acts[0]]) + Writes(acts[1..])
  }

  function Skips(acts: seq<Act>): nat {
    if acts == [] then 0 else (if acts[0].Skip? then 1 else 0) + Skips(acts[1..])
  }

  /** Over any run, an unread frame stays where it is with all its bytes until the reader has skipped the ones
      before it and then itself. */
  lemma {:induction false} RunKeeps(y: System, acts: seq<Act>, z: System)
    requires Good(y) && Run(y, acts) == Some(z) && CornerFree(y, acts)
    ensures Good(z)
    ensures Skips(acts) <= |Unread(y)| ==> Unread(y)[Skips(acts)..] <= Unread(z)
    decreases |acts|
  {
    hide Step, Good, InCorner, Unread, Aligned, HdrAt, FrameAt, Walk;
    if acts != [] {
      var x := Step(y, acts[0]).value;
      StepKeeps(y, acts[0], x);
      RunKeeps(x, acts[1..], z);
    }
  }

  /** A ring as initialised, before anybody has touched it. */
  function Start(s: Ring): System {
    System(s, Idle, false, [], [], [])
  }

  lemma EmptyCursors(s: Ring)
    requires s.Held() == Some(Queues([], []))
    ensures s.offReadX == s.offWriteCom == s.offWriteInt && s.area.Cursor(s.offReadX)
  {
    hide Aligned, Align8, HdrAt, FrameAt, Bounds.SlotOk, Bounds.After, Bounds.Span;
    HeldFacts(s, s.offWriteInt);
    if s.offReadX != s.offWriteCom { WalkStep(s.area, LookIn(s.mem), s.offReadX, s.offWriteCom); }
    if s.offWriteCom != s.offWriteInt { WalkStep(s.area, LookIn(s.mem), s.offWriteCom, s.offWriteInt); }
  }

  lemma StartIsGood(s: Ring)
    requires s.Held() == Some(Queues([], []))
    ensures Good(Start(s))
  {
    hide Aligned, HdrAt, FrameAt, Ring.HeldUpTo;
  }

  lemma GoodIsFifo(z: System)
    requires Good(z)
    ensures z.ring.Between(z.ring.offReadX, z.ring.offWriteCom).Some?
    ensures z.sent == z.received + Messages(z.ring.Between(z.ring.offReadX, z.ring.offWriteCom).value)
    ensures !z.ring.HasMoreToRead() ==> z.sent == z.received
  {
    hide Aligned, HdrAt, FrameAt, Ring.HeldUpTo;
    HeldFacts(z.ring, Written(z));
  }

  /** End to end: after any corner-free run, parsing the headers from the read cursor to the commit cursor gives
      frames that carry exactly the messages sent and not yet received, in order; an exhausted ring has delivered
      everything. */
  lemma FifoOverRuns(s: Ring, acts: seq<Act>, z: System)
    requires s.Held() == Some(Queues([], []))
    requires Run(Start(s), acts) == Some(z) && CornerFree(Start(s), acts)
    ensures Good(z) && z.ring.Between(z.ring.offReadX, z.ring.offWriteCom).Some?
    ensures z.sent == z.received + Messages(z.ring.Between(z.ring.offReadX, z.ring.offWriteCom).value)
    ensures !z.ring.HasMoreToRead() ==> z.sent == z.received
  {
    hide Step, Run, CornerFree, Good, Ring.Between;
    StartIsGood(s);
    RunKeeps(Start(s), acts, z);
    GoodIsFifo(z);
  }

  /** The frame counter goes up by one for each message sent, modulo its 64 bits. */
  lemma {:induction false} FramesAreCounted(y: System, acts: seq<Act>, z: System)
    requires Run(y, acts) == Some(z)
    ensures |z.sent| >= |y.sent|
    ensures y.ring.cStatFrames < TWO_64 ==>
      z.ring.cStatFrames == (y.ring.cStatFrames + |z.sent| - |y.sent|) % 0x1_0000_0000_0000_0000
    decreases |acts|
  {
    hide Step;
    if acts != [] {
      var x := Step(y, acts[0]).value;
      FrameCounted(y, acts[0], x);
      FramesAreCounted(x, acts[1..], z);
      Wrap64Sum(y.ring.cStatFrames + |x.sent| - |y.sent|, |z.sent| - |x.sent|);
    }
  }

  lemma FrameCounted(y: System, act: Act, z: System)
    requires Step(y, act) == Some(z)
    ensures |z.sent| >= |y.sent|
    ensures y.ring.cStatFrames < TWO_64 ==>
      z.ring.cStatFrames == Wrap64(y.ring.cStatFrames + |z.sent| - |y.sent|) < TWO_64
  {
    hide Aligned, AlignU32, Align8, HdrAt, FrameAt, Walk, Splice, Encode, Bounds.SlotOk, Bounds.Place,
         Bounds.CommitTarget, Bounds.SkipTarget;
  }

  lemma Wrap64Sum(a: nat, b: nat)
    ensures Wrap64(Wrap64(a) + b) == Wrap64(a + b)
  {
  }

  // ---------- the reader's end ----------

  /** The reader's queries lead to the oldest unread frame and its bytes. */
  lemma HeadIsReadable(s: Ring, wh: nat)
    requires s.HeldUpTo(wh).Some? && s.HeldUpTo(wh).value.committed != []
    ensures var f := s.HeldUpTo(wh).value.committed[0];
      && s.GetNextFrameToRead() == Some(f.pHdr) && s.HdrGetFramePtr(f.pHdr) == f.pvFrame
      && HdrAt(s.mem, f.pHdr).u8Type == f.u8Type && HdrAt(s.mem, f.pHdr).cbFrame == |f.data|
      && s.area.offStart <= f.pvFrame && f.pvFrame + |f.data| <= s.area.offEnd <= |s.mem|
      && s.mem[f.pvFrame..f.pvFrame + |f.data|] == f.data
  {
    hide Aligned, Align8, HdrAt, Walk, Ring.HeldUpTo, Bounds.Span, Bounds.After, Bounds.Dist;
    HeldFacts(s, wh);
    assert s.offReadX != s.offWriteCom by { EmptyWalk(s.area, LookIn(s.mem), s.offReadX); }
    WalkStep(s.area, LookIn(s.mem), s.offReadX, s.offWriteCom);
    SlotEnd(s.area, s.offReadX, HdrAt(s.mem, s.offReadX));
  }

  lemma EmptyWalk(a: Area, look: Look, p: nat)
    ensures Walk(a, look, p, p).Some? ==> Walk(a, look, p, p) == Some([])
  {
  }

  /** Bytes that are free may change. */
  lemma GoodOverFreeBytes(y: System, m: seq<byte>)
    requires Good(y) && |m| == |y.ring.mem|
    requires Agree(y.ring.area, y.ring.mem, m, y.ring.offReadX, y.ring.offWriteInt)
    ensures Good(y.(ring := y.ring.(mem := m)))
  {
    hide Aligned, HdrAt, FrameAt, Walk, Nth, Messages, Cut, Agree, Ring.HeldUpTo, Bounds.SlotOk, Bounds.After;
    var s, a := y.ring, y.ring.area;
    HeldFacts(s, Written(y));
    AgreeOnTail(a, s.mem, m, s.offReadX, Written(y), s.offWriteInt);
    KeepsWalks(s, m, Written(y));
    if y.writer.Padded? {
      NthOverFreeBytes(s, m, |s.Held().value.pending| + 1 - |y.pending|);
    }
  }

  lemma NthOverFreeBytes(s: Ring, m: seq<byte>, n: nat)
    requires s.Inv() && n <= |s.Held().value.pending| && |m| == |s.mem|
    requires Agree(s.area, s.mem, m, s.offReadX, s.offWriteInt)
    ensures Nth(s.area, LookIn(m), s.offWriteCom, n) == Nth(s.area, LookIn(s.mem), s.offWriteCom, n)
  {
    hide Aligned, HdrAt, FrameAt, Walk, Nth, Agree, Bounds.SlotOk, Bounds.After;
    var a, c, w := s.area, s.offWriteCom, s.offWriteInt;
    HeldFacts(s, w);
    WalkSplit(a, LookIn(s.mem), c, w, n);
    var q := Nth(a, LookIn(s.mem), c, n);
    AgreeOnTail(a, s.mem, m, s.offReadX, c, w);
    AgreeOnTail(a, s.mem, m, c, q, w);
    WalkAgrees(a, s.mem, m, c, q);
    WalkLength(a, LookIn(m), c, q);
  }
}
