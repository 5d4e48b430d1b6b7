/** The ring area, slots (a header and its payload) and walks from header to header.
    All offsets count from the ring structure, as the cursors of the program do. */
module Slots {
  import opened Words

  const HDR: nat := 8   // sizeof(INTNETHDR), also the alignment of everything in the ring
  const GSO: nat := 8   // sizeof(PDMNETWORKGSO)

  const TYPE_FRAME: byte := 0x42
  const TYPE_PADDING: byte := 0x53
  const TYPE_GSO: byte := 0x64

  predicate IsValidFrameType(u8Type: byte) {
    u8Type == TYPE_FRAME || u8Type == TYPE_GSO || u8Type == TYPE_PADDING
  }

  /** cbUsed, plus the context when the frame carries one. */
  function WithCtx(u8Type: byte, cbUsed: nat): nat {
    if u8Type == TYPE_GSO then cbUsed + GSO else cbUsed
  }

  /** What is handed from the writer to the reader: a frame type and payload bytes. */
  datatype Message = Message(u8Type: byte, data: seq<byte>)

  /** A frame in the ring, with the two pointers an allocation returns for it: to its header and to its payload. */
  datatype Frame = Frame(pHdr: nat, pvFrame: int, u8Type: byte, data: seq<byte>)
  {
    function Msg(): Message {
      Message(u8Type, data)
    }
  }

  /** Where an allocation goes: behind its header, or at the ring start with the header left behind. */
  datatype Placement = NoFit | Straight(offNew: nat) | Wrapped(offNew: nat)

  datatype Bounds = Bounds(offStart: nat, offEnd: nat)
  {
    function Size(): int {
      offEnd - offStart
    }

    predicate Ok() {
      Aligned(offStart) && Aligned(offEnd) && offStart < offEnd < TWO_32 && Size() < TWO_31
    }

    /** An aligned offset inside the ring, so that a whole header fits there. */
    predicate Cursor(p: int) {
      offStart <= p && p + HDR <= offEnd && Aligned(p)
    }

    /** How far a cursor at p travels, going round the ring, to reach q. */
    function Dist(p: int, q: int): int {
      if p <= q then q - p else q - p + Size()
    }

    /** Byte i lies in the arc that a cursor sweeps when it goes from p to q. */
    predicate InArc(p: int, q: int, i: int) {
      offStart <= i < offEnd && Dist(p, i) < Dist(p, q)
    }

    /** The payload follows the header. */
    predicate IsStraight(p: nat, h: Hdr) {
      h.offFrame == HDR && p + HDR + Align8(h.cbFrame) <= offEnd
    }

    /** The payload sits at the ring start, the header stays behind near the end. */
    predicate IsWrapped(p: nat, h: Hdr) {
      h.offFrame == offStart - p && offStart + Align8(h.cbFrame) < p
    }

    /** h is the header of a slot that starts at p. */
    predicate SlotOk(p: nat, h: Hdr) {
      IsValidFrameType(h.u8Type) && (IsStraight(p, h) || IsWrapped(p, h))
    }

    /** Ring bytes the slot uses up; a wrapped payload also gives up the tail of the ring. */
    function Span(p: nat, h: Hdr): int {
      if h.offFrame == HDR then HDR + Align8(h.cbFrame) else offEnd - p + Align8(h.cbFrame)
    }

    /** The cursor behind the slot. */
    function After(p: nat, h: Hdr): nat {
      if h.offFrame != HDR then offStart + Align8(h.cbFrame)
      else if p + HDR + Align8(h.cbFrame) == offEnd then offStart
      else p + HDR + Align8(h.cbFrame)
    }

    // ---------- what the program computes ----------

    /** The 32-bit computation of the next read cursor, with the signed frame offset taken modulo 2^32. */
    function SkipTarget(p: nat, h: Hdr): nat {
      var off := AlignU32(Wrap32(Wrap32(p + Wrap32(h.offFrame)) + h.cbFrame));
      if off >= offEnd then offStart else off
    }

    /** The three placement tests, on the sampled cursors and the aligned frame size. */
    function Place(offRead: nat, offWrite: nat, cb: nat): Placement {
      if offRead <= offWrite then
        if offEnd - offWrite >= cb + HDR then
          var offNew := Wrap32(offWrite + cb + HDR);
          Straight(if offNew >= offEnd then offStart else offNew)
        else if Wrap32(offRead - offStart) > cb then
          Wrapped(Wrap32(offStart + cb))
        else
          NoFit
      else if offRead - offWrite > cb + HDR then
        Straight(Wrap32(offWrite + cb + HDR))
      else
        NoFit
    }

    /** The header an allocation at p stores; a wrapped one holds offStart - p as a signed word. */
    function HdrFor(p: nat, pl: Placement, cbFrame: nat, u8Type: byte): Hdr {
      Hdr(cbFrame, u8Type, if pl.Wrapped? then ToI32(Wrap32(offStart - p)) else HDR)
    }

    /** The cursor both commits publish for the frame whose header is at p. */
    function CommitTarget(p: nat, h: Hdr): nat {
      var off := Wrap32(p + h.offFrame + AlignU32(h.cbFrame));
      if off >= offEnd then offStart else off
    }
  }

  /** offStart and offEnd are aligned and the ring is shorter than 2^31 bytes. */
  type Area = b: Bounds | b.Ok() witness Bounds(0, 8)

  // ---------- walking from header to header ----------

  /** What the reader finds through the header at one offset. */
  datatype Slot = Slot(hdr: Hdr, frame: Frame)

  /** The memory seen as a table of slots; only offsets where a header was written mean anything. */
  type Look = nat -> Slot

  /** The frames met when walking from header to header from p, if that walk leads exactly to q. */
  function Walk(a: Area, look: Look, p: nat, q: nat): Option<seq<Frame>>
    decreases a.Dist(p, q)
  {
    if !a.Cursor(p) || !a.Cursor(q) then None
    else if p == q then Some([])
    else
      var h := look(p).hdr;
      if a.SlotOk(p, h) && a.Span(p, h) <= a.Dist(p, q) then
        match Walk(a, look, a.After(p, h), q)
        case None => None
        case Some(fs) => Some([look(p).frame] + fs)
      else None
  }

  /** Where a slot's payload starts and ends, and the cursor behind it. */
  lemma SlotEnd(a: Area, p: nat, h: Hdr)
    requires a.Cursor(p) && a.SlotOk(p, h)
    ensures var f := p + h.offFrame; var n := f + Align8(h.cbFrame);
      && a.offStart <= f && Aligned(f) && Aligned(n) && n <= a.offEnd
      && a.After(p, h) == if n == a.offEnd then a.offStart else n
    ensures a.Cursor(a.After(p, h)) && HDR <= a.Span(p, h) <= a.Size()
  {
    hide Aligned, Align8;
    var f := p + h.offFrame;
    assert Aligned(f) by { if h.offFrame == HDR { AlignedSum(p, HDR); } }
    AlignedSum(f, Align8(h.cbFrame));
    if f + Align8(h.cbFrame) < a.offEnd {
      AlignedGap(f + Align8(h.cbFrame), a.offEnd);
    }
  }

  lemma AfterFacts(a: Area, p: nat, h: Hdr)
    requires a.Cursor(p) && a.SlotOk(p, h)
    ensures a.Cursor(a.After(p, h)) && HDR <= a.Span(p, h) <= a.Size()
    ensures forall q :: a.Cursor(q) && a.Span(p, h) <= a.Dist(p, q) ==>
              a.Dist(a.After(p, h), q) == a.Dist(p, q) - a.Span(p, h)
  {
    hide Aligned, Align8;
    SlotEnd(a, p, h);
  }

  /** The 32-bit sums of the skip and of the commits compute the mathematical next cursor. */
  lemma CursorArithmeticIsExact(a: Area, p: nat, h: Hdr)
    requires a.Cursor(p) && a.SlotOk(p, h)
    ensures a.SkipTarget(p, h) == a.CommitTarget(p, h) == a.After(p, h) && a.Cursor(a.After(p, h))
    ensures var n := p + h.offFrame + Align8(h.cbFrame);
      a.After(p, h) == (if n == a.offEnd then a.offStart else n)
  {
    hide Aligned, Align8, AlignU32;
    SlotEnd(a, p, h);
    AlignU32IsAlign8(h.cbFrame);
    SumsAreExact(p, h.offFrame, h.cbFrame);
  }

  /** The header and payload of a slot lie in the arc the slot spans. */
  lemma SlotInArc(a: Area, p: nat, h: Hdr, q: nat)
    requires a.Cursor(p) && a.SlotOk(p, h) && a.Cursor(q) && a.Span(p, h) <= a.Dist(p, q)
    ensures forall i :: p <= i < p + HDR ==> a.InArc(p, q, i)
    ensures forall i :: p + h.offFrame <= i < p + h.offFrame + Align8(h.cbFrame) ==> a.InArc(p, q, i)
  {
    hide Aligned, Align8;
  }

  /** A walk starts with a slot and goes on behind it. */
  lemma WalkStep(a: Area, look: Look, p: nat, q: nat)
    requires Walk(a, look, p, q).Some? && p != q
    ensures var h := look(p).hdr; var n := a.After(p, h);
      && a.Cursor(p) && a.Cursor(n) && a.Cursor(q) && a.SlotOk(p, h) && HDR <= a.Span(p, h) <= a.Dist(p, q)
      && a.Dist(p, n) + a.Dist(n, q) == a.Dist(p, q) && a.Dist(p, n) == a.Span(p, h)
      && Walk(a, look, n, q).Some?
      && Walk(a, look, p, q).value == [look(p).frame] + Walk(a, look, n, q).value
  {
    AfterFacts(a, p, look(p).hdr);
  }

  /** A slot in front of a walk. */
  lemma WalkCons(a: Area, look: Look, p: nat, q: nat)
    requires a.Cursor(p) && a.SlotOk(p, look(p).hdr)
    requires Walk(a, look, a.After(p, look(p).hdr), q).Some?
    requires a.Span(p, look(p).hdr) + a.Dist(a.After(p, look(p).hdr), q) < a.Size()
    ensures Walk(a, look, p, q) == Some([look(p).frame] + Walk(a, look, a.After(p, look(p).hdr), q).value)
    ensures a.Dist(p, q) == a.Span(p, look(p).hdr) + a.Dist(a.After(p, look(p).hdr), q)
  {
    AfterFacts(a, p, look(p).hdr);
  }

  /** One well-formed slot is a walk. */
  lemma SingleSlot(a: Area, look: Look, p: nat)
    requires a.Cursor(p) && a.SlotOk(p, look(p).hdr) && a.After(p, look(p).hdr) != p
    ensures var n := a.After(p, look(p).hdr);
      Walk(a, look, p, n) == Some([look(p).frame]) && a.Dist(p, n) == a.Span(p, look(p).hdr)
  {
    AfterFacts(a, p, look(p).hdr);
    var n := a.After(p, look(p).hdr);
    assert Walk(a, look, n, n) == Some([]);
    assert [look(p).frame] + [] == [look(p).frame];
  }

  lemma {:induction false} WalkConcat(a: Area, look: Look, p: nat, q: nat, w: nat)
    requires Walk(a, look, p, q).Some? && Walk(a, look, q, w).Some?
    requires a.Dist(p, q) + a.Dist(q, w) == a.Dist(p, w)
    ensures Walk(a, look, p, w) == Some(Walk(a, look, p, q).value + Walk(a, look, q, w).value)
    decreases a.Dist(p, q)
  {
    hide Aligned, Align8;
    if p == q {
      assert [] + Walk(a, look, q, w).value == Walk(a, look, q, w).value;
    } else {
      var n := a.After(p, look(p).hdr);
      WalkStep(a, look, p, q);
      WalkConcat(a, look, n, q, w);
      WalkCons(a, look, p, w);
      ConcatAssoc([look(p).frame], Walk(a, look, n, q).value, Walk(a, look, q, w).value);
    }
  }

  lemma SplitBehindFirst<T>(x: T, rest: seq<T>, k: nat)
    requires 0 < k <= |rest| + 1
    ensures [x] + rest[..k - 1] == ([x] + rest)[..k] && rest[k - 1..] == ([x] + rest)[k..]
  {
  }

  /** The cursor behind the first k slots of a walk. */
  function Nth(a: Area, look: Look, p: nat, k: nat): nat
    decreases k
  {
    if k == 0 then p else Nth(a, look, a.After(p, look(p).hdr), k - 1)
  }

  /** A walk splits behind any of its slots. */
  lemma {:induction false} WalkSplit(a: Area, look: Look, p: nat, q: nat, k: nat)
    requires Walk(a, look, p, q).Some? && k <= |Walk(a, look, p, q).value|
    ensures var n := Nth(a, look, p, k); var fs := Walk(a, look, p, q).value;
      && a.Cursor(n) && Walk(a, look, p, n) == Some(fs[..k]) && Walk(a, look, n, q) == Some(fs[k..])
      && a.Dist(p, n) + a.Dist(n, q) == a.Dist(p, q)
    decreases k
  {
    hide Aligned, Align8, Bounds.SlotOk, Bounds.Span, Bounds.After;
    if k != 0 {
      var s := a.After(p, look(p).hdr);
      WalkStep(a, look, p, q);
      WalkSplit(a, look, s, q, k - 1);
      WalkCons(a, look, p, Nth(a, look, s, k - 1));
      SplitBehindFirst(look(p).frame, Walk(a, look, s, q).value, k);
    }
  }

  /** A walk ends behind its last slot. */
  lemma WalkLength(a: Area, look: Look, p: nat, q: nat)
    requires Walk(a, look, p, q).Some?
    ensures Nth(a, look, p, |Walk(a, look, p, q).value|) == q
  {
    hide Aligned, Align8, Bounds.SlotOk, Bounds.After, Bounds.Span, Bounds.Dist;
    var k := |Walk(a, look, p, q).value|;
    var n := Nth(a, look, p, k);
    WalkSplit(a, look, p, q, k);
    if n != q { WalkStep(a, look, n, q); }
  }

  // ---------- the bytes behind the table ----------

  /** The header whose bytes start at p. */
  function HdrAt(m: seq<byte>, p: nat): (h: Hdr)
    ensures h.Fits()
  {
    if p + HDR <= |m| then Decode(m[p..p + HDR]) else Hdr(0, 0, 0)
  }

  /** The frame the reader finds through the header at p; f is what IntNetHdrGetFramePtr computes. */
  function FrameAt(m: seq<byte>, p: nat): Frame {
    var h := HdrAt(m, p);
    var f := p + h.offFrame;
    Frame(p, f, h.u8Type, if 0 <= f && f + h.cbFrame <= |m| then m[f..f + h.cbFrame] else [])
  }

  function LookIn(m: seq<byte>): Look {
    (p: nat) => Slot(HdrAt(m, p), FrameAt(m, p))
  }

  /** m and n hold the same bytes on the arc from p to q. */
  ghost predicate Agree(a: Area, m: seq<byte>, n: seq<byte>, p: nat, q: nat)
    requires |m| == |n|
  {
    forall i :: 0 <= i < |m| && a.InArc(p, q, i) ==> m[i] == n[i]
  }

  lemma AgreeOnTail(a: Area, m: seq<byte>, n: seq<byte>, p: nat, s: nat, q: nat)
    requires |m| == |n| && Agree(a, m, n, p, q)
    requires a.Cursor(p) && a.Cursor(s) && a.Cursor(q) && a.Dist(p, s) + a.Dist(s, q) == a.Dist(p, q)
    ensures Agree(a, m, n, p, s) && Agree(a, m, n, s, q)
  {
  }

  /** A slot is read from its header and payload bytes alone. */
  lemma SameSlot(m: seq<byte>, n: seq<byte>, p: nat, f: nat)
    requires |m| == |n| && p + HDR <= |m| && f == p + HdrAt(m, p).offFrame && f + HdrAt(m, p).cbFrame <= |m|
    requires SameBytes(m, n, p, p + HDR) && SameBytes(m, n, f, f + HdrAt(m, p).cbFrame)
    ensures LookIn(n)(p) == LookIn(m)(p)
  {
    SameSlice(m, n, p, p + HDR);
    SameSlice(m, n, f, f + HdrAt(m, p).cbFrame);
  }

  lemma SlotAgrees(a: Area, m: seq<byte>, n: seq<byte>, p: nat, q: nat)
    requires |m| == |n| && a.offEnd <= |m| && Agree(a, m, n, p, q)
    requires a.Cursor(p) && a.Cursor(q) && a.SlotOk(p, HdrAt(m, p)) && a.Span(p, HdrAt(m, p)) <= a.Dist(p, q)
    ensures LookIn(n)(p) == LookIn(m)(p)
  {
    SlotInArc(a, p, HdrAt(m, p), q);
    SlotEnd(a, p, HdrAt(m, p));
    SameSlot(m, n, p, p + HdrAt(m, p).offFrame);
  }

  /** A walk only depends on the bytes of the arc it covers. */
  lemma {:induction false} WalkAgrees(a: Area, m: seq<byte>, n: seq<byte>, p: nat, q: nat)
    requires |m| == |n| && a.offEnd <= |m| && Agree(a, m, n, p, q) && Walk(a, LookIn(m), p, q).Some?
    ensures Walk(a, LookIn(n), p, q) == Walk(a, LookIn(m), p, q)
    decreases a.Dist(p, q)
  {
    if p != q {
      WalkStep(a, LookIn(m), p, q);
      SlotAgrees(a, m, n, p, q);
      AgreeOnTail(a, m, n, p, a.After(p, HdrAt(m, p)), q);
      WalkAgrees(a, m, n, a.After(p, HdrAt(m, p)), q);
    }
  }
}
