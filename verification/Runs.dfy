/** The ring shared by one writer and one reader: every interleaving of their steps. Each step touches at most one
    cursor that the other side uses; the writer's sampling of the read cursor, its compare-exchange and the store of
    the header are separate steps. */
module Runs {
  import opened Words
  import opened Slots
  import opened Rings
  import opened RingLaws
  import opened CommitLaws
  import opened ShortCommit

  /** Where the writer is inside an operation, with its local variables. */
  datatype Writer =
    | Idle
    | Sampled(cbFrame: nat, u8Type: byte, offRead: nat, offWrite: nat)
    | Reserved(at: nat, hdr: Hdr)
    | Padded(offNew: nat, cbUsed: nat)

  datatype Act =
    | Sample(cbFrame: nat, u8Type: byte)   // allocate: read both cursors
    | CompareExchange                      // allocate: place the frame and move offWriteInt
    | StoreHdr                             // allocate: fill in the header
    | Fill(k: nat, at: nat, b: seq<byte>)  // payload or GSO context bytes of the k-th pending frame
    | Commit                               // IntNetRingCommitFrame on the oldest pending frame
    | PadUnused(cbUsed: nat)               // IntNetRingCommitFrameEx: the padding header
    | PublishPadded                        // IntNetRingCommitFrameEx: the commit cursor
    | Look                                 // reader: IntNetRingHasMoreToRead
    | Skip                                 // reader: use the frame and IntNetRingSkipFrame

  /** The ring, both sides' local state, the frames the writer holds pointers to with the bytes it has put there,
      and the messages sent and received so far. */
  datatype System = System(ring: Ring, writer: Writer, readerSawMore: bool, pending: seq<Frame>,
                           sent: seq<Message>, received: seq<Message>)

  /** The message a frame carries, if it is not padding. */
  function Shown(f: Frame): seq<Message> {
    if f.u8Type == TYPE_PADDING then [] else [f.Msg()]
  }

  /** The messages in a list of frames. */
  function Messages(fs: seq<Frame>): seq<Message> {
    if fs == [] then [] else Shown(fs[0]) + Messages(fs[1..])
  }

  /** What the reader will see of a frame of which used bytes are committed: the allocated size stays when both
      sizes round to the same. */
  function Cut(f: Frame, used: nat): Message {
    if used > |f.data| || Align8(used) == Align8(|f.data|) then f.Msg() else f.(data := f.data[..used]).Msg()
  }

  // ---------- one step ----------

  /** The state after a step, or None where the step cannot be taken. */
  function Step(y: System, act: Act): Option<System> {
    var s := y.ring;
    match act
    case Sample(cbFrame, u8Type) =>
      if y.writer.Idle? && cbFrame < TWO_24 && (u8Type == TYPE_FRAME || u8Type == TYPE_GSO) then
        Some(y.(writer := Sampled(cbFrame, u8Type, s.offReadX, s.offWriteInt)))
      else None
    case CompareExchange =>
      if y.writer.Sampled? then
        var w := y.writer;
        var pl := s.area.Place(w.offRead, w.offWrite, AlignU32(w.cbFrame));
        if pl.NoFit? then Some(y.(ring := s.(cOverflows := Wrap64(s.cOverflows + 1)), writer := Idle))
        else if s.offWriteInt != w.offWrite then Some(y.(writer := Idle))
        else Some(y.(ring := s.(offWriteInt := pl.offNew),
                     writer := Reserved(w.offWrite, s.area.HdrFor(w.offWrite, pl, w.cbFrame, w.u8Type))))
      else None
    case StoreHdr =>
      if y.writer.Reserved? && y.writer.at + HDR <= |s.mem| && y.writer.hdr.Fits() then
        var t := s.PutHdr(y.writer.at, y.writer.hdr);
        Some(y.(ring := t, writer := Idle, pending := y.pending + [FrameAt(t.mem, y.writer.at)]))
      else None
    case Fill(k, at, b) =>
      if (y.writer.Padded? ==> k > 0) && k < |y.pending| && at + |b| <= |y.pending[k].data|
         && 0 <= y.pending[k].pvFrame && y.pending[k].pvFrame + at + |b| <= |s.mem| then
        var f := y.pending[k];
        Some(y.(ring := s.PutBytes(f.pvFrame + at, b),
                pending := y.pending[k := f.(data := Splice(f.data, at, b))]))
      else None
    case Commit =>
      if y.writer.Idle? && y.pending != [] then
        Some(y.(ring := s.Commit(y.pending[0].pHdr), pending := y.pending[1..], sent := y.sent + [y.pending[0].Msg()]))
      else None
    case PadUnused(cbUsed) =>
      if y.writer.Idle? && y.pending != [] && s.CanPad(y.pending[0].pHdr, cbUsed)
         && WithCtx(y.pending[0].u8Type, cbUsed) <= |y.pending[0].data| then
        var p := y.pending[0].pHdr;
        var h := HdrAt(s.mem, p);
        Some(y.(ring := s.Pad(p, cbUsed), writer := Padded(s.area.CommitTarget(p, h), WithCtx(h.u8Type, cbUsed))))
      else None
    case PublishPadded =>
      if y.writer.Padded? && y.pending != [] then
        Some(y.(ring := s.Publish(y.writer.offNew, y.writer.cbUsed), writer := Idle, pending := y.pending[1..],
                sent := y.sent + [Cut(y.pending[0], y.writer.cbUsed)]))
      else None
    case Look =>
      Some(y.(readerSawMore := s.HasMoreToRead()))
    case Skip =>
      if y.readerSawMore then
        Some(y.(ring := s.Skip(), readerSawMore := false, received := y.received + Shown(FrameAt(s.mem, s.offReadX))))
      else None
  }

  /** The compare-exchange that would make a full ring look empty. */
  predicate InCorner(y: System, act: Act) {
    act.CompareExchange? && y.writer.Sampled? &&
    ExactFit(y.ring.area, y.ring.offReadX, y.writer.offWrite, y.writer.cbFrame)
  }

  // ---------- the invariant of runs ----------

  /** How far headers have been written. */
  function Written(y: System): nat {
    if y.writer.Reserved? then y.writer.at else y.ring.offWriteInt
  }

  /** The writer's local variables are in order with the ring. */
  predicate WriterOk(y: System) {
    var s := y.ring;
    match y.writer
    case Idle => true
    case Sampled(cbFrame, u8Type, offRead, offWrite) =>
      && offWrite == s.offWriteInt && Stale(s.area, offRead, s.offReadX, s.offWriteInt)
      && cbFrame < TWO_24 && (u8Type == TYPE_FRAME || u8Type == TYPE_GSO)
    case Reserved(at, h) =>
      && h.Fits() && s.area.SlotOk(at, h) && s.area.After(at, h) == s.offWriteInt != at && h.u8Type != TYPE_PADDING
    case Padded(_, _) => true
  }

  /** The ring holds the writer's pending frames; behind a padding header the oldest is already replaced. */
  predicate HoldsPending(y: System) {
    && y.ring.HeldUpTo(Written(y)).Some?
    && var held := y.ring.HeldUpTo(Written(y)).value.pending;
    if y.writer.Padded? then
      && y.pending != [] && y.writer.cbUsed <= |y.pending[0].data| && |held| >= |y.pending|
      && var n := |held| + 1 - |y.pending|;
      && held[n..] == y.pending[1..] && Messages(held[..n]) == [Cut(y.pending[0], y.writer.cbUsed)]
      && Nth(y.ring.area, LookIn(y.ring.mem), y.ring.offWriteCom, n) == y.writer.offNew
    else held == y.pending
  }

  /** First in, first out: what was sent is what was received and then what the reader has yet to read, with every
      type and byte as written and padding left out. */
  predicate Fifo(y: System) {
    y.ring.HeldUpTo(Written(y)).Some? &&
    y.sent == y.received + Messages(y.ring.HeldUpTo(Written(y)).value.committed)
  }

  predicate Good(y: System) {
    && WriterOk(y) && HoldsPending(y) && Fifo(y)
    && (y.readerSawMore ==> y.ring.HasMoreToRead())
    && (forall f | f in y.pending :: f.u8Type != TYPE_PADDING)
  }

  /** The frames the reader has yet to skip. */
  function Unread(y: System): seq<Frame>
    requires HoldsPending(y)
  {
    y.ring.HeldUpTo(Written(y)).value.committed
  }

  /** A skip drops the oldest unread frame; no other step takes an unread frame away or changes a byte of it. */
  predicate Moves(y: System, act: Act, z: System)
    requires HoldsPending(y) && HoldsPending(z)
  {
    if act.Skip? then Unread(y) != [] && Unread(z) == Unread(y)[1..]
    else if act.Commit? then y.pending != [] && Unread(z) == Unread(y) + [y.pending[0]]
    else if act.PublishPadded? then Unread(y) <= Unread(z)
    else Unread(y) == Unread(z)
  }

  // ---------- every step keeps it ----------

  lemma {:induction false} MessagesConcat(fs: seq<Frame>, gs: seq<Frame>)
    ensures Messages(fs + gs) == Messages(fs) + Messages(gs)
  {
    hide Shown;
    if fs == [] {
      assert fs + gs == gs;
    } else {
      MessagesConcat(fs[1..], gs);
      assert (fs + gs)[1..] == fs[1..] + gs;
      ConcatAssoc(Shown(fs[0]), Messages(fs[1..]), Messages(gs));
    }
  }

  lemma SampleKeeps(y: System, cbFrame: nat, u8Type: byte, z: System)
    requires Good(y) && Step(y, Sample(cbFrame, u8Type)) == Some(z)
    ensures Good(z) && Moves(y, Sample(cbFrame, u8Type), z)
  {
    hide Aligned, HdrAt, FrameAt, Walk;
    HeldFacts(y.ring, y.ring.offWriteInt);
  }

  lemma CompareExchangeKeeps(y: System, z: System)
    requires Good(y) && Step(y, CompareExchange) == Some(z) && !InCorner(y, CompareExchange)
    ensures Good(z) && Moves(y, CompareExchange, z)
  {
    hide Aligned, AlignU32, Align8, HdrAt, FrameAt, Walk;
    var s, w := y.ring, y.writer;
    HeldFacts(s, s.offWriteInt);
    if !s.area.Place(w.offRead, w.offWrite, AlignU32(w.cbFrame)).NoFit? {
      PlacementFits(s.area, w.offRead, s.offReadX, s.offWriteInt, w.cbFrame, w.u8Type);
      assert z.ring.HeldUpTo(s.offWriteInt) == s.Held();
    }
  }

  lemma StoreHdrKeeps(y: System, z: System)
    requires Good(y) && Step(y, StoreHdr) == Some(z)
    ensures Good(z) && Moves(y, StoreHdr, z)
  {
    hide Aligned, AlignU32, Align8, HdrAt, Walk, Splice, Encode, Ring.HeldUpTo, Bounds.SlotOk, Bounds.After;
    PutHdrLaw(y.ring, y.writer.at, y.writer.hdr);
  }

  /** Filling a later frame does not move the end of the first n slots. */
  lemma FillKeepsNth(s: Ring, wh: nat, j: nat, n: nat, at: nat, b: seq<byte>)
    requires s.HeldUpTo(wh).Some? && n <= j < |s.HeldUpTo(wh).value.pending|
    requires at + |b| <= |s.HeldUpTo(wh).value.pending[j].data|
    ensures var f := s.HeldUpTo(wh).value.pending[j];
      && 0 <= f.pvFrame && f.pvFrame + at + |b| <= |s.mem|
      && Nth(s.area, LookIn(s.PutBytes(f.pvFrame + at, b).mem), s.offWriteCom, n)
         == Nth(s.area, LookIn(s.mem), s.offWriteCom, n)
  {
    hide Aligned, AlignU32, Align8, HdrAt, FrameAt, Walk, Nth, Splice, Agree, Bounds.SlotOk, Bounds.After, Bounds.Span;
    FillInPlace(s, wh, j, at, b);
    var a, c, look := s.area, s.offWriteCom, LookIn(s.mem);
    var m := s.PutBytes(s.HeldUpTo(wh).value.pending[j].pvFrame + at, b).mem;
    var q, p := Nth(a, look, c, n), Nth(a, look, c, j);
    HeldFacts(s, wh);
    WalkSplit(a, look, c, wh, j);
    WalkSplit(a, look, c, p, n);
    AgreeOnTail(a, s.mem, m, s.offReadX, c, p);
    AgreeOnTail(a, s.mem, m, c, q, p);
    WalkAgrees(a, s.mem, m, c, q);
    WalkLength(a, LookIn(m), c, q);
  }

  lemma FillKeeps(y: System, k: nat, at: nat, b: seq<byte>, z: System)
    requires Good(y) && Step(y, Fill(k, at, b)) == Some(z)
    ensures Good(z) && Moves(y, Fill(k, at, b), z)
  {
    hide Aligned, AlignU32, Align8, HdrAt, FrameAt, Walk, Nth, Splice, Messages, Cut, Ring.HeldUpTo, Bounds.SlotOk,
         Bounds.After;
    var held := y.ring.HeldUpTo(Written(y)).value.pending;
    var n := |held| + 1 - |y.pending|;
    var j := if y.writer.Padded? then n + k - 1 else k;
    assert held[j] == y.pending[k];
    FillLaw(y.ring, Written(y), j, at, b);
    var g := z.pending[k];
    assert z.ring.HeldUpTo(Written(z)).value.pending == held[j := g];
    if y.writer.Padded? {
      FillKeepsNth(y.ring, Written(y), j, n, at, b);
      assert held[j := g][n..] == held[n..][k - 1 := g] == z.pending[1..];
      assert held[j := g][..n] == held[..n];
    }
  }

  /** The writer's pointer to the oldest pending frame is the commit cursor, as the commits assert. */
  lemma OldestAtCommitCursor(s: Ring, wh: nat)
    requires s.HeldUpTo(wh).Some? && s.HeldUpTo(wh).value.pending != []
    ensures s.HeldUpTo(wh).value.pending[0].pHdr == s.offWriteCom
  {
    hide Aligned, AlignU32, Align8, HdrAt, Walk, Ring.HeldUpTo, Bounds.SlotOk, Bounds.After, Bounds.Span, Bounds.Dist;
    PendingSlot(s, wh, 0);
  }

  lemma CommitKeeps(y: System, z: System)
    requires Good(y) && Step(y, Commit) == Some(z)
    ensures Good(z) && Moves(y, Commit, z)
  {
    hide Aligned, AlignU32, Align8, HdrAt, FrameAt, Walk, Ring.HeldUpTo, Bounds.CommitTarget, Bounds.SlotOk,
         Bounds.After;
    var v := y.ring.Held().value;
    OldestAtCommitCursor(y.ring, y.ring.offWriteInt);
    CommitLaw(y.ring);
    MessagesConcat(v.committed, [v.pending[0]]);
    assert Messages([v.pending[0]]) == [v.pending[0].Msg()];
    CommitShows(y.ring, z.ring);
  }

  /** Publishing never takes away what the reader has seen. */
  lemma CommitShows(s: Ring, t: Ring)
    requires s.Inv() && t.Inv() && t.offReadX == s.offReadX
    requires |s.Held().value.committed| <= |t.Held().value.committed|
    ensures s.HasMoreToRead() ==> t.HasMoreToRead()
  {
    hide Aligned, HdrAt, FrameAt, Bounds.SlotOk, Bounds.After, Bounds.Span, Bounds.Dist;
    if s.HasMoreToRead() {
      WalkStep(s.area, LookIn(s.mem), s.offReadX, s.offWriteCom);
    }
  }

  lemma ShortenedMessages(f: Frame, used: nat, fs: seq<Frame>)
    requires f.u8Type != TYPE_PADDING && used <= |f.data| && Shortened(f, used, fs)
    ensures fs != [] && Messages(fs) == [Cut(f, used)]
  {
    hide Align8;
    if |fs| == 2 {
      assert fs == [fs[0]] + [fs[1]];
      MessagesConcat([fs[0]], [fs[1]]);
      assert Messages([fs[0]]) == [fs[0].Msg()] && Messages([fs[1]]) == [];
    } else {
      assert Messages([f]) == [f.Msg()];
    }
  }

  lemma PadUnusedKeeps(y: System, cbUsed: nat, z: System)
    requires Good(y) && Step(y, PadUnused(cbUsed)) == Some(z)
    ensures Good(z) && Moves(y, PadUnused(cbUsed), z)
  {
    hide Aligned, AlignU32, Align8, HdrAt, FrameAt, Walk, Nth, Messages, Cut, Shortened, Ring.HeldUpTo,
         Ring.CanCommitEx, Ring.CanPad, Ring.Pad, Bounds.SlotOk, Bounds.After, Bounds.CommitTarget;
    var s := y.ring;
    OldestAtCommitCursor(s, s.offWriteInt);
    PendingCanPad(s, cbUsed);
    var fs := PadLaw(s, cbUsed);
    ShortenedMessages(y.pending[0], WithCtx(y.pending[0].u8Type, cbUsed), fs);
    assert (fs + y.pending[1..])[..|fs|] == fs && (fs + y.pending[1..])[|fs|..] == y.pending[1..];
  }

  lemma PublishPaddedKeeps(y: System, z: System)
    requires Good(y) && Step(y, PublishPadded) == Some(z)
    ensures Good(z) && Moves(y, PublishPadded, z)
  {
    hide Aligned, AlignU32, Align8, HdrAt, FrameAt, Walk, Nth, Messages, Cut, Ring.HeldUpTo, Bounds.SlotOk,
         Bounds.After;
    var s, v := y.ring, y.ring.Held().value;
    var n := |v.pending| + 1 - |y.pending|;
    PublishLaw(s, s.offWriteInt, n, y.writer.cbUsed);
    MessagesConcat(v.committed, v.pending[..n]);
    CommitShows(s, z.ring);
  }

  lemma SkipKeeps(y: System, z: System)
    requires Good(y) && Step(y, Skip) == Some(z)
    ensures Good(z) && Moves(y, Skip, z)
  {
    hide Aligned, AlignU32, Align8, HdrAt, FrameAt, Walk, Nth, Ring.HeldUpTo, Bounds.SkipTarget, Cut, Bounds.SlotOk,
         Bounds.After;
    var v := y.ring.HeldUpTo(Written(y)).value;
    HeldFacts(y.ring, Written(y));
    SkipLaw(y.ring, Written(y));
    assert Messages(v.committed) == Shown(v.committed[0]) + Messages(v.committed[1..]);
    assert y.received + Messages(v.committed) == (y.received + Shown(v.committed[0])) + Messages(v.committed[1..]);
  }

  /** Every step outside the exact-fit corner keeps the ring in order, the pending frames as the writer left them,
      and the first-in-first-out correspondence. */
  lemma StepKeeps(y: System, act: Act, z: System)
    requires Good(y) && Step(y, act) == Some(z) && !InCorner(y, act)
    ensures Good(z) && Moves(y, act, z)
  {
    hide Aligned, AlignU32, Align8, HdrAt, FrameAt, Walk, Nth, Ring.HeldUpTo, Splice, Messages, Cut, Shortened;
    match act
    case Sample(cbFrame, u8Type) => SampleKeeps(y, cbFrame, u8Type, z);
    case CompareExchange => CompareExchangeKeeps(y, z);
    case StoreHdr => StoreHdrKeeps(y, z);
    case Fill(k, at, b) => FillKeeps(y, k, at, b, z);
    case Commit => CommitKeeps(y, z);
    case PadUnused(cbUsed) => PadUnusedKeeps(y, cbUsed, z);
    case PublishPadded => PublishPaddedKeeps(y, z);
    case Look =>
    case Skip => SkipKeeps(y, z);
  }
}
