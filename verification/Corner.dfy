/** The ring after an allocation in the exact-fit corner: full, although it looks empty to the writer; and how a skip
    repairs it. */
module Corner {
  import opened Words
  import opened Slots
  import opened Rings
  import opened RingLaws
  import opened CommitLaws
  import opened ShortCommit
  import opened Runs
  import opened RunLaws

  // ---------- the full ring ----------

  /** The system as the reader's skip of the frame at its cursor would leave it. */
  function Ahead(y: System): System {
    var s := y.ring;
    y.(ring := s.(offReadX := s.area.After(s.offReadX, HdrAt(s.mem, s.offReadX))), readerSawMore := false,
       received := y.received + Shown(FrameAt(s.mem, s.offReadX)))
  }

  /** The writer has run into a reader that has something to read: the cursors are equal although the ring is full,
      and once the oldest frame is taken away everything else is in order. */
  predicate Full(y: System) {
    var s := y.ring; var h := HdrAt(s.mem, s.offReadX);
    && s.offWriteInt == s.offReadX == s.area.offStart && s.area.offEnd <= |s.mem| && !y.writer.Sampled?
    && s.area.Cursor(s.offReadX) && s.area.SlotOk(s.offReadX, h) && s.area.After(s.offReadX, h) != s.offReadX
    && Good(Ahead(y))
  }

  /** The compare-exchange in the corner, with something unread, fills the ring. */
  lemma CornerFills(y: System, z: System)
    requires Good(y) && y.ring.HasMoreToRead() && InCorner(y, CompareExchange)
    requires Step(y, CompareExchange) == Some(z) && z.writer.Reserved?
    ensures Full(z)
  {
    hide Aligned, AlignU32, Align8, HdrAt, FrameAt, Walk, Good, Ring.HeldUpTo, Bounds.Place, Bounds.SlotOk,
         Bounds.After, Bounds.SkipTarget;
    var s := y.ring;
    var y1 := y.(readerSawMore := true);
    GoodThatLooked(y);
    var x := Step(y1, Skip).value;
    SkipKeeps(y1, x);
    SkipIsAhead(y);
    CornerIsExact(y, z);
    CompareExchangeKeeps(x, Ahead(z));
  }

  lemma GoodThatLooked(y: System)
    requires Good(y) && y.ring.HasMoreToRead()
    ensures Good(y.(readerSawMore := true))
  {
    hide Aligned, HdrAt, FrameAt, Walk, Ring.HeldUpTo;
  }

  lemma SkipIsAhead(y: System)
    requires Good(y) && y.ring.HasMoreToRead()
    ensures var s := y.ring; var h := HdrAt(s.mem, s.offReadX);
      && s.Skip() == Ahead(y).ring && s.area.Cursor(s.offReadX) && s.area.SlotOk(s.offReadX, h)
      && s.area.After(s.offReadX, h) != s.offReadX && s.area.offEnd <= |s.mem|
  {
    hide Aligned, Align8, HdrAt, FrameAt;
    var s := y.ring;
    HeldFacts(s, Written(y));
    WalkStep(s.area, LookIn(s.mem), s.offReadX, s.offWriteCom);
    CursorArithmeticIsExact(s.area, s.offReadX, HdrAt(s.mem, s.offReadX));
  }

  /** The next skip puts a full ring in order, whenever it comes. */
  lemma SkipRepairs(y: System, z: System)
    requires Full(y) && Step(y, Skip) == Some(z)
    ensures Good(z) && z == Ahead(y)
  {
    hide Aligned, Align8, Good, HdrAt, FrameAt, Bounds.SlotOk, Bounds.After, Bounds.SkipTarget;
    CursorArithmeticIsExact(y.ring.area, y.ring.offReadX, HdrAt(y.ring.mem, y.ring.offReadX));
  }

  // ---------- the writer goes on in a full ring ----------

  /** In the cyclic order r, p, n, w what lies between p and n does not lie between w and r. */
  lemma ArcsApart(a: Area, r: nat, p: nat, n: nat, w: nat, i: nat)
    requires a.Cursor(r) && a.Cursor(p) && a.Cursor(n) && a.Cursor(w)
    requires a.Dist(r, p) + a.Dist(p, n) + a.Dist(n, w) == a.Dist(r, w)
    requires a.InArc(p, n, i)
    ensures !a.InArc(w, r, i)
  {
    hide Aligned;
  }

  lemma SpliceApart(a: Area, m: seq<byte>, at: nat, b: seq<byte>, r: nat, p: nat, n: nat, w: nat)
    requires a.Cursor(r) && a.Cursor(p) && a.Cursor(n) && a.Cursor(w)
    requires a.Dist(r, p) + a.Dist(p, n) + a.Dist(n, w) == a.Dist(r, w)
    requires at + |b| <= |m| && forall i :: at <= i < at + |b| ==> a.InArc(p, n, i)
    ensures Agree(a, m, Splice(m, at, b), w, r)
  {
    hide Splice, Bounds.InArc;
    SpliceIndex(m, at, b);
    forall i | 0 <= i < |m| && a.InArc(w, r, i) ensures m[i] == Splice(m, at, b)[i] {
      if at <= i < at + |b| { ArcsApart(a, r, p, n, w, i); }
    }
  }

  predicate Writing(act: Act) {
    act.StoreHdr? || act.Fill? || act.Commit? || act.PadUnused? || act.PublishPadded?
  }

  /** What the writer does with the frames it has allocated changes no byte that is free. */
  lemma FreeBytesKept(y: System, act: Act, z: System)
    requires Good(y) && Writing(act) && Step(y, act) == Some(z)
    ensures |z.ring.mem| == |y.ring.mem|
    ensures Agree(y.ring.area, y.ring.mem, z.ring.mem, y.ring.offWriteInt, y.ring.offReadX)
  {
    hide Aligned, AlignU32, Align8, HdrAt, FrameAt, Walk, Nth, Splice, Encode, Messages, Cut, Agree, Ring.HeldUpTo,
         Bounds.SlotOk, Bounds.After, Bounds.Span, Bounds.Dist, Bounds.InArc, Bounds.CommitTarget;
    var s, a := y.ring, y.ring.area;
    HeldFacts(s, Written(y));
    match act
    case StoreHdr => StoreKeepsFree(y);
    case Fill(k, at, b) =>
      var held := s.HeldUpTo(Written(y)).value.pending;
      var j := if y.writer.Padded? then |held| - |y.pending| + k else k;
      assert held[j] == y.pending[k];
      FillKeepsFree(s, Written(y), j, at, b);
    case PadUnused(cbUsed) =>
      OldestAtCommitCursor(s, s.offWriteInt);
      PendingCanPad(s, cbUsed);
      PadKeepsFree(s, cbUsed);
    case _ => AgreesWithItself(a, s.mem, s.offWriteInt, s.offReadX);
  }

  lemma AgreesWithItself(a: Area, m: seq<byte>, p: nat, q: nat)
    ensures Agree(a, m, m, p, q)
  {
  }

  lemma StoreKeepsFree(y: System)
    requires Good(y) && y.writer.Reserved? && y.writer.at + HDR <= |y.ring.mem|
    ensures var s := y.ring;
      y.writer.hdr.Fits() && Agree(s.area, s.mem, s.PutHdr(y.writer.at, y.writer.hdr).mem, s.offWriteInt, s.offReadX)
  {
    hide Aligned, Align8, HdrAt, FrameAt, Walk, Splice, Encode, Agree, Ring.HeldUpTo;
    var s, a, at, h := y.ring, y.ring.area, y.writer.at, y.writer.hdr;
    HeldFacts(s, at);
    AfterFacts(a, at, h);
    SlotInArc(a, at, h, s.offWriteInt);
    SpliceApart(a, s.mem, at, Encode(h), s.offReadX, at, s.offWriteInt, s.offWriteInt);
  }

  lemma FillKeepsFree(s: Ring, wh: nat, k: nat, at: nat, b: seq<byte>)
    requires s.HeldUpTo(wh).Some? && k < |s.HeldUpTo(wh).value.pending|
    requires at + |b| <= |s.HeldUpTo(wh).value.pending[k].data|
    ensures var f := s.HeldUpTo(wh).value.pending[k].pvFrame;
      && 0 <= f && f + at + |b| <= |s.mem|
      && Agree(s.area, s.mem, s.PutBytes(f + at, b).mem, s.offWriteInt, s.offReadX)
  {
    hide Aligned, Align8, HdrAt, FrameAt, Walk, Nth, Splice, Agree, Ring.HeldUpTo, Bounds.InArc, Bounds.SlotOk,
         Bounds.After, Bounds.Span;
    var a, p := s.area, Nth(s.area, LookIn(s.mem), s.offWriteCom, k);
    var h := HdrAt(s.mem, p);
    PendingSlot(s, wh, k);
    HeldFacts(s, wh);
    SlotInArc(a, p, h, a.After(p, h));
    SpliceApart(a, s.mem, p + h.offFrame + at, b, s.offReadX, p, a.After(p, h), s.offWriteInt);
  }

  lemma PadKeepsFree(s: Ring, cbUsed: nat)
    requires s.Inv() && s.Held().value.pending != [] && s.CanCommitEx(s.offWriteCom, cbUsed)
    ensures var m := s.Pad(s.offWriteCom, cbUsed).mem;
      |m| == |s.mem| && Agree(s.area, s.mem, m, s.offWriteInt, s.offReadX)
  {
    hide Aligned, Align8, AlignU32, HdrAt, FrameAt, Walk, Splice, Encode, Agree, Ring.HeldUpTo, Ring.Pads,
         Ring.PadAt, Bounds.InArc, Bounds.After, Bounds.Span;
    var a, p := s.area, s.offWriteCom;
    var h := HdrAt(s.mem, p);
    var used := WithCtx(h.u8Type, cbUsed);
    PendingSlot(s, s.offWriteInt, 0);
    HeldFacts(s, s.offWriteInt);
    SlotCanPad(s, p, cbUsed);
    if !s.Pads(p, cbUsed) {
      AgreesWithItself(a, s.mem, s.offWriteInt, s.offReadX);
    } else {
      PadIsTwoHeaders(s, p, cbUsed);
      PaddingFills(a, p, h, used);
      SlotInArc(a, p, h, a.After(p, h));
      var hp := PaddingHdr(h, used);
      var pp: nat := p + h.offFrame + Align8(used);
      var m1 := Splice(s.mem, pp, Encode(hp));
      SpliceApart(a, s.mem, pp, Encode(hp), s.offReadX, p, a.After(p, h), s.offWriteInt);
      SpliceApart(a, m1, p, Encode(h.(cbFrame := used)), s.offReadX, p, a.After(p, h), s.offWriteInt);
      AgreeTrans(a, s.mem, m1, Splice(m1, p, Encode(h.(cbFrame := used))), s.offWriteInt, s.offReadX);
    }
  }

  /** The read cursor plays no part in what the writer does here. */
  lemma StepIgnoresReader(y: System, act: Act, z: System)
    requires Writing(act) && Step(y, act) == Some(z)
    ensures Step(Ahead(y), act) == Some(z.(ring := z.ring.(offReadX := Ahead(y).ring.offReadX), readerSawMore := false,
                                           received := Ahead(y).received))
    ensures z.ring.offReadX == y.ring.offReadX && z.ring.offWriteInt == y.ring.offWriteInt
    ensures z.ring.area == y.ring.area && z.received == y.received
    ensures z.writer.Sampled? ==> y.writer.Sampled?
  {
    hide Aligned, AlignU32, Align8, HdrAt, FrameAt, Splice, Encode, Shown, Cut, Bounds.SlotOk, Bounds.After,
         Bounds.CommitTarget;
  }

  /** The first slot of a full ring is read from the free bytes of the system ahead. */
  lemma FirstSlotKept(y: System, m: seq<byte>)
    requires Full(y) && |m| == |y.ring.mem|
    requires Agree(y.ring.area, y.ring.mem, m, y.ring.offReadX, Ahead(y).ring.offReadX)
    ensures LookIn(m)(y.ring.offReadX) == LookIn(y.ring.mem)(y.ring.offReadX)
  {
    hide Aligned, Align8, HdrAt, FrameAt, Walk, Agree, Bounds.SlotOk, Bounds.After, Bounds.Span, Bounds.Dist;
    var s := y.ring;
    HeldFacts(Ahead(y).ring, Written(y));
    SingleSlot(s.area, LookIn(s.mem), s.offReadX);
    SlotAgrees(s.area, s.mem, m, s.offReadX, Ahead(y).ring.offReadX);
  }

  /** The frame at the read cursor of a full ring is not touched, and everything behind it stays in order. */
  lemma FullWrites(y: System, act: Act, z: System)
    requires Full(y) && Writing(act) && Step(y, act) == Some(z)
    ensures Full(z) && FrameAt(z.ring.mem, z.ring.offReadX) == FrameAt(y.ring.mem, y.ring.offReadX)
    ensures z.received == y.received
  {
    hide Step, Good, Agree, Aligned, HdrAt, FrameAt, Shown, Bounds.SlotOk, Bounds.After;
    StepIgnoresReader(y, act, z);
    var u := Step(Ahead(y), act).value;
    StepKeeps(Ahead(y), act, u);
    FreeBytesKept(Ahead(y), act, u);
    FirstSlotKept(y, z.ring.mem);
    assert Ahead(z) == u;
  }

  /** In the corner the frame goes straight to the end of the ring. */
  lemma CornerSlot(y: System, z: System)
    requires Good(y) && InCorner(y, CompareExchange) && Step(y, CompareExchange) == Some(z) && z.writer.Reserved?
    ensures var s := y.ring; var h := z.writer.hdr; var at := s.offWriteInt;
      && y.writer.Sampled? && z == y.(writer := Reserved(at, h), ring := s.(offWriteInt := s.offReadX))
      && s.offReadX == s.area.offStart <= s.offWriteCom <= at && s.area.offEnd <= |s.mem| && s.area.Cursor(at)
      && h.Fits() && h.cbFrame == y.writer.cbFrame && h.offFrame == HDR && at + HDR + h.cbFrame <= s.area.offEnd
      && s.area.SlotOk(at, h) && s.area.After(at, h) == s.offReadX
      && s.Between(s.offWriteCom, at) == Some(y.pending)
  {
    hide Aligned, AlignU32, Align8, HdrAt, FrameAt, Walk, Bounds.SlotOk, Bounds.After;
    var s, w := y.ring, y.writer;
    HeldFacts(s, s.offWriteInt);
    AlignU32IsAlign8(w.cbFrame);
    PlacementFits(s.area, w.offRead, s.offReadX, s.offWriteInt, w.cbFrame, w.u8Type);
    SlotEnd(s.area, s.offWriteInt, z.writer.hdr);
  }

  // ---------- the full ring with nothing committed ----------

  /** The system without the last frame, which reaches from at round to the read cursor. */
  function Without(y: System, at: nat): System {
    y.(ring := y.ring.(offWriteInt := at), writer := if y.writer.Reserved? then Idle else y.writer,
       pending := if y.writer.Reserved? || y.pending == [] then y.pending else y.pending[..|y.pending| - 1])
  }

  /** The last slot of a full ring. */
  predicate LastSlot(s: Ring, at: nat, h: Hdr) {
    && s.offWriteInt == s.offReadX == s.offWriteCom == s.area.offStart && s.area.offEnd <= |s.mem|
    && s.area.Cursor(at) && h.Fits() && s.area.SlotOk(at, h) && s.area.After(at, h) == s.offReadX != at
    && h.u8Type != TYPE_PADDING && h.offFrame == HDR
  }

  /** The writer has run into a reader that has nothing to read: nothing is committed, several frames are allocated,
      and without the last of them everything is in order. */
  predicate Brim(y: System, at: nat) {
    && Good(Without(y, at)) && !y.readerSawMore && !y.writer.Sampled?
    && (if y.writer.Reserved? then
          y.writer.at == at && LastSlot(y.ring, at, y.writer.hdr) && y.pending != []
        else
          && LastSlot(y.ring, at, HdrAt(y.ring.mem, at)) && |y.pending| >= 2
          && y.pending[|y.pending| - 1] == FrameAt(y.ring.mem, at))
  }

  /** The compare-exchange in the corner, with nothing unread but something pending. */
  lemma CornerBrims(y: System, z: System)
    requires Good(y) && !y.ring.HasMoreToRead() && y.pending != [] && InCorner(y, CompareExchange)
    requires Step(y, CompareExchange) == Some(z) && z.writer.Reserved?
    ensures Brim(z, z.writer.at)
  {
    hide Aligned, HdrAt, FrameAt, Walk, Ring.HeldUpTo, Bounds.SlotOk, Bounds.After, Bounds.Dist, Bounds.Place,
         InCorner, Step;
    CornerSlot(y, z);
    if y.ring.offWriteInt == y.ring.offReadX { EmptyWalk(y.ring.area, LookIn(y.ring.mem), y.ring.offReadX); }
    assert Without(z, z.writer.at) == y.(writer := Idle);
    PlacedType(y, z);
  }

  lemma PlacedType(y: System, z: System)
    requires Good(y) && Step(y, CompareExchange) == Some(z) && z.writer.Reserved?
    ensures z.writer.hdr.u8Type != TYPE_PADDING
  {
    hide Aligned, AlignU32, Bounds.Place, Walk, Ring.HeldUpTo;
  }

  /** What lies behind at is not part of the arc from the ring start to at. */
  lemma SpliceAfter(a: Area, m: seq<byte>, at: nat, pos: nat, b: seq<byte>)
    requires at <= pos && pos + |b| <= |m| && a.Cursor(at)
    ensures Agree(a, m, Splice(m, pos, b), a.offStart, at)
  {
    hide Splice;
    SpliceIndex(m, pos, b);
  }

  /** In the brimming ring the last frame plays no part in what the writer does with the others. */
  lemma FillIgnoresLast(y: System, at: nat, act: Act, z: System)
    requires Brim(y, at) && act.Fill? && Step(y, act) == Some(z)
    requires !y.writer.Reserved? ==> act.k < |y.pending| - 1
    ensures Step(Without(y, at), act) == Some(Without(z, at))
    ensures z == y.(ring := y.ring.(mem := z.ring.mem), pending := z.pending) && |z.ring.mem| == |y.ring.mem|
    ensures |z.pending| == |y.pending|
    ensures !y.writer.Reserved? ==> z.pending[|z.pending| - 1] == y.pending[|y.pending| - 1]
  {
    hide Aligned, AlignU32, Align8, HdrAt, FrameAt, Splice, Good, LastSlot;
    var n, k, f := |y.pending|, act.k, z.pending[act.k];
    assert !y.writer.Reserved? ==> y.pending[k := f][..n - 1] == y.pending[..n - 1][k := f];
  }

  lemma PadIgnoresLast(y: System, at: nat, cbUsed: nat, z: System)
    requires Brim(y, at) && Step(y, PadUnused(cbUsed)) == Some(z)
    ensures Step(Without(y, at), PadUnused(cbUsed)) == Some(Without(z, at))
    ensures z == y.(ring := y.ring.(mem := z.ring.mem), writer := z.writer) && |z.ring.mem| == |y.ring.mem|
    ensures z.writer.Padded? && !y.writer.Reserved?
  {
    hide Aligned, AlignU32, Align8, HdrAt, FrameAt, Splice, Encode, Good, LastSlot, Bounds.CommitTarget, Bounds.SlotOk;
  }

  lemma CommitIgnoresLast(y: System, at: nat, act: Act, z: System)
    requires Brim(y, at) && (act.Commit? || act.PublishPadded?) && Step(y, act) == Some(z)
    ensures Step(Without(y, at), act) == Some(Without(z, at))
    ensures !y.writer.Reserved? && z.writer.Idle? && z.pending == y.pending[1..] && z.ring.mem == y.ring.mem
    ensures z.ring.area == y.ring.area && z.ring.offReadX == y.ring.offReadX && z.ring.offWriteInt == y.ring.offWriteInt
  {
    hide Aligned, HdrAt, FrameAt, Good, LastSlot, Cut, Bounds.CommitTarget;
    WithoutEnds(y.pending);
  }

  lemma WithoutEnds<T>(s: seq<T>)
    requires |s| >= 2
    ensures s[1..][..|s| - 2] == s[..|s| - 1][1..]
  {
  }

  /** The slot at the end is read from bytes that are free without it. */
  lemma LastSlotKept(s: Ring, at: nat, m: seq<byte>)
    requires LastSlot(s, at, HdrAt(s.mem, at)) && |m| == |s.mem| && Agree(s.area, s.mem, m, at, s.offReadX)
    ensures LookIn(m)(at) == LookIn(s.mem)(at)
  {
    hide Aligned, Align8, HdrAt, FrameAt, Agree, Bounds.SlotOk, Bounds.After, Bounds.Span, Bounds.Dist;
    SingleSlot(s.area, LookIn(s.mem), at);
    SlotAgrees(s.area, s.mem, m, at, s.offReadX);
  }

  lemma BrimStores(y: System, at: nat, z: System)
    requires Brim(y, at) && y.writer.Reserved? && Step(y, StoreHdr) == Some(z)
    ensures Brim(z, at)
  {
    hide Aligned, HdrAt, FrameAt, Splice, Encode, Good, Bounds.SlotOk, Bounds.After;
    HdrStored(y.ring.mem, at, y.writer.hdr);
    SpliceAfter(y.ring.area, y.ring.mem, at, at, Encode(y.writer.hdr));
    GoodOverFreeBytes(Without(y, at), z.ring.mem);
    assert z.pending[..|z.pending| - 1] == y.pending;
  }

  lemma BrimFillsLast(y: System, at: nat, k: nat, pos: nat, b: seq<byte>, z: System)
    requires Brim(y, at) && !y.writer.Reserved? && k == |y.pending| - 1 && Step(y, Fill(k, pos, b)) == Some(z)
    ensures Brim(z, at)
  {
    hide Aligned, Align8, HdrAt, Splice, Good, Bounds.SlotOk, Bounds.After;
    var h, f := HdrAt(y.ring.mem, at), y.pending[k];
    SlotEnd(y.ring.area, at, h);
    LastIsStraight(y, at);
    FillSlot(y.ring.mem, at, h, at + HDR, pos, b);
    SpliceAfter(y.ring.area, y.ring.mem, at, at + HDR + pos, b);
    GoodOverFreeBytes(Without(y, at), z.ring.mem);
    assert z.pending[..k] == y.pending[..k];
  }

  lemma LastIsStraight(y: System, at: nat)
    requires !y.writer.Reserved? && LastSlot(y.ring, at, HdrAt(y.ring.mem, at))
    ensures HdrAt(y.ring.mem, at).offFrame == HDR && at + HDR + HdrAt(y.ring.mem, at).cbFrame <= y.ring.area.offEnd
  {
    hide Aligned, HdrAt;
  }

  /** The first commit of either kind gives the reader something to skip. */
  lemma BrimBecomesFull(z: System, at: nat)
    requires var u := Without(z, at); var s := z.ring; var h := HdrAt(s.mem, at);
      && Good(u) && u.ring.HasMoreToRead() && z.writer.Idle? && s.offWriteInt == s.offReadX == s.area.offStart
      && s.area.SlotOk(at, h) && s.area.After(at, h) == s.offReadX != at && h.u8Type != TYPE_PADDING
      && z.pending != [] && z.pending[|z.pending| - 1] == FrameAt(s.mem, at)
    ensures Full(z)
  {
    hide Aligned, Align8, HdrAt, FrameAt, Walk, Good, Shown, Ring.HeldUpTo, Bounds.SlotOk, Bounds.After, Bounds.Dist,
         Bounds.SkipTarget;
    var u, f := Without(z, at), FrameAt(z.ring.mem, at);
    GoodThatLooked(u);
    var u1 := u.(readerSawMore := true);
    var x := Step(u1, Skip).value;
    SkipKeeps(u1, x);
    SkipIsAhead(u);
    AheadOrder(u);
    LastFrameJoins(x, z.ring.offReadX);
    assert z.pending == x.pending + [f];
    assert Ahead(z) == x.(ring := x.ring.(offWriteInt := z.ring.offReadX), pending := x.pending + [f]);
  }

  lemma AheadOrder(u: System)
    requires Good(u) && u.ring.HasMoreToRead() && u.ring.offReadX == u.ring.area.offStart && u.writer.Idle?
    ensures var a := u.ring.area; var n := Ahead(u).ring.offReadX; var at := u.ring.offWriteInt; var r := a.offStart;
      a.Cursor(r) && a.Cursor(at) && (at != r ==> a.Dist(n, at) + a.Dist(at, r) == a.Dist(n, r))
  {
    hide Aligned, Align8, HdrAt, FrameAt, Walk, Ring.HeldUpTo, Bounds.SlotOk, Bounds.After;
    HeldFacts(u.ring, u.ring.offWriteInt);
    SkipIsAhead(u);
    SkipLaw(u.ring, u.ring.offWriteInt);
    HeldFacts(u.ring.Skip(), u.ring.offWriteInt);
  }

  /** A slot that is stored behind the write cursor already joins the pending frames when the cursor moves over it. */
  lemma LastFrameJoins(x: System, e: nat)
    requires Good(x) && x.writer.Idle?
    requires var s := x.ring; var a := s.area; var w := s.offWriteInt; var h := HdrAt(s.mem, w);
      && a.Cursor(e) && a.SlotOk(w, h) && a.After(w, h) == e != w && h.u8Type != TYPE_PADDING
      && a.Dist(s.offReadX, w) + a.Dist(w, e) == a.Dist(s.offReadX, e)
    ensures var s := x.ring;
      Good(x.(ring := s.(offWriteInt := e), pending := x.pending + [FrameAt(s.mem, s.offWriteInt)]))
  {
    hide Aligned, HdrAt, Walk, Splice, Encode, Ring.HeldUpTo, Bounds.SlotOk, Bounds.After;
    var s, w := x.ring, x.ring.offWriteInt;
    HeldFacts(s, w);
    var s1 := s.(offWriteInt := e);
    StoredAlready(s.mem, w);
    BetweenIsHeld(s1, s, w);
    PutHdrLaw(s1, w, HdrAt(s.mem, w));
  }

  lemma BetweenIsHeld(s1: Ring, s: Ring, w: nat)
    requires s.HeldUpTo(w).Some? && s1 == s.(offWriteInt := s1.offWriteInt) && s1.Ordered(w)
    ensures s1.HeldUpTo(w) == s.HeldUpTo(w)
  {
    hide Aligned, Walk;
  }

  lemma StoredAlready(m: seq<byte>, p: nat)
    requires p + HDR <= |m|
    ensures HdrAt(m, p).Fits() && Splice(m, p, Encode(HdrAt(m, p))) == m
  {
    hide Encode, Decode;
    EncodeDecode(m[p..p + HDR]);
    assert m == m[..p] + m[p..p + HDR] + m[p + HDR..];
  }

  lemma BrimFillsOther(y: System, at: nat, act: Act, z: System)
    requires Brim(y, at) && act.Fill? && Step(y, act) == Some(z)
    requires !y.writer.Reserved? ==> act.k < |y.pending| - 1
    ensures Brim(z, at)
  {
    hide Step, Good, Aligned, HdrAt, FrameAt, Agree, Bounds.SlotOk, Bounds.After;
    var u := Without(y, at);
    FillIgnoresLast(y, at, act, z);
    StepKeeps(u, act, Without(z, at));
    FreeBytesKept(u, act, Without(z, at));
    if !y.writer.Reserved? { LastSlotKept(y.ring, at, z.ring.mem); }
  }

  lemma BrimPads(y: System, at: nat, cbUsed: nat, z: System)
    requires Brim(y, at) && Step(y, PadUnused(cbUsed)) == Some(z)
    ensures Brim(z, at)
  {
    hide Step, Good, Aligned, HdrAt, FrameAt, Agree, Bounds.SlotOk, Bounds.After;
    var u := Without(y, at);
    PadIgnoresLast(y, at, cbUsed, z);
    StepKeeps(u, PadUnused(cbUsed), Without(z, at));
    FreeBytesKept(u, PadUnused(cbUsed), Without(z, at));
    LastSlotKept(y.ring, at, z.ring.mem);
  }

  lemma BrimCommits(y: System, at: nat, act: Act, z: System)
    requires Brim(y, at) && (act.Commit? || act.PublishPadded?) && Step(y, act) == Some(z)
    ensures Full(z)
  {
    hide Step, Good, Moves, Full, Aligned, HdrAt, FrameAt, Bounds.SlotOk, Bounds.After;
    CommitIgnoresLast(y, at, act, z);
    StepKeeps(Without(y, at), act, Without(z, at));
    CommitGives(Without(y, at), act, Without(z, at));
    BrimBecomesFull(z, at);
  }

  /** Whatever the writer does in a brimming ring keeps it so, or is the commit that makes it a full ring. */
  lemma BrimWrites(y: System, at: nat, act: Act, z: System)
    requires Brim(y, at) && Writing(act) && Step(y, act) == Some(z)
    ensures if act.Commit? || act.PublishPadded? then Full(z) else Brim(z, at)
  {
    hide Brim, Full;
    match act
    case StoreHdr =>
      OnlyReservedStores(y, z);
      BrimStores(y, at, z);
    case Fill(k, pos, b) =>
      if !y.writer.Reserved? && k >= |y.pending| - 1 {
        FillsPending(y, act, z);
        BrimFillsLast(y, at, k, pos, b, z);
      } else {
        BrimFillsOther(y, at, act, z);
      }
    case PadUnused(cbUsed) => BrimPads(y, at, cbUsed, z);
    case _ => BrimCommits(y, at, act, z);
  }

  lemma OnlyReservedStores(y: System, z: System)
    requires Step(y, StoreHdr) == Some(z)
    ensures y.writer.Reserved?
  {
    hide Splice, Encode, FrameAt;
  }

  lemma FillsPending(y: System, act: Act, z: System)
    requires act.Fill? && Step(y, act) == Some(z)
    ensures act.k < |y.pending|
  {
    hide Splice, Encode, FrameAt, HdrAt;
  }

  lemma CommitGives(u: System, act: Act, v: System)
    requires Good(u) && Good(v) && Step(u, act) == Some(v) && (act.Commit? || act.PublishPadded?) && Moves(u, act, v)
    requires u.ring.offReadX == v.ring.offReadX
    ensures v.ring.HasMoreToRead()
  {
  }

  /** Once all its frames are committed a full ring looks empty. */
  lemma FullLooksEmpty(y: System)
    requires Full(y) && y.pending == [] && y.writer.Idle?
    ensures !y.ring.HasMoreToRead()
  {
    hide Aligned, Align8, HdrAt, FrameAt, Bounds.SlotOk, Bounds.After, Bounds.Span, Bounds.Dist;
    var s := Ahead(y).ring;
    HeldFacts(s, s.offWriteInt);
    if s.offWriteCom != s.offWriteInt { WalkStep(s.area, LookIn(s.mem), s.offWriteCom, s.offWriteInt); }
  }

  /** If the writer does not wait, a further allocation lands on the oldest frame, unread or pending. */
  lemma FullOverwrites(y: System, cbFrame: nat, u8Type: byte) returns (z: System)
    requires (Full(y) || exists at: nat :: Brim(y, at)) && y.writer.Idle?
    requires cbFrame < TWO_24 && (u8Type == TYPE_FRAME || u8Type == TYPE_GSO)
    requires Align8(cbFrame) + HDR <= y.ring.area.Size()
    ensures Run(y, [Sample(cbFrame, u8Type), CompareExchange, StoreHdr]) == Some(z)
    ensures z.ring.offReadX == y.ring.offReadX && HdrAt(z.ring.mem, z.ring.offReadX) == Hdr(cbFrame, u8Type, HDR)
  {
    hide Aligned, Align8, AlignU32, HdrAt, FrameAt, Splice, Encode, Good;
    AlignU32IsAlign8(cbFrame);
    var w := Step(y, Sample(cbFrame, u8Type)).value;
    var x := Step(w, CompareExchange).value;
    HdrStored(x.ring.mem, x.writer.at, x.writer.hdr);
    z := Step(x, StoreHdr).value;
    ThreeActs(y, Sample(cbFrame, u8Type), CompareExchange, StoreHdr);
  }

  lemma ThreeActs(y: System, a: Act, b: Act, c: Act)
    ensures Run(y, [a, b, c]) ==
      match Step(y, a) case None => None
      case Some(w) => match Step(w, b) case None => None case Some(x) => Step(x, c)
  {
    hide Step;
    assert [a, b, c][1..] == [b, c];
    if Step(y, a).Some? {
      var w := Step(y, a).value;
      assert [b, c][1..] == [c];
      if Step(w, b).Some? {
        var x := Step(w, b).value;
        assert [c][1..] == [];
        if Step(x, c).Some? { assert Run(Step(x, c).value, []) == Step(x, c); }
        assert Run(x, [c]) == Step(x, c);
      }
    }
  }
}
