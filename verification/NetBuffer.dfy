/** INTNETBUF: one memory with a receive and a send ring. */
module NetBuffer {
  import opened Words
  import opened Slots
  import opened Rings
  import opened RingLaws
  import opened RingBuffer

  const SIZE: nat := 320     // sizeof(INTNETBUF)
  const RECV_AT: nat := 16   // RT_OFFSETOF(INTNETBUF, Recv)
  const SEND_AT: nat := 64   // RT_OFFSETOF(INTNETBUF, Send)
  const MAGIC: nat := 0x19110919

  class NetBuf {
    const mem: array<byte>
    const u32Magic: nat
    const cbBuf: nat
    const cbSend: nat
    const cbRecv: nat
    const recv: RingBuf
    const send: RingBuf

    /** Both rings lie in the one memory; their areas follow the structure one after the other, inside the buffer. */
    predicate LaidOut() {
      && mem == recv.mem == send.mem && recv.base == 16 && send.base == 64
      && recv.base + recv.offStart == 320
      && recv.base + recv.offEnd == send.base + send.offStart == 320 + cbRecv
      && send.base + send.offEnd == 320 + cbRecv + cbSend <= cbBuf == mem.Length
    }

    /** IntNetBufInit on cleared memory. The two areas follow the structure one after the other; a ring of positive
        size (below 2^31) is in order and empty. */
    constructor (mem: array<byte>, cbBuf: nat, cbRecv: nat, cbSend: nat)
      requires cbBuf == mem.Length < TWO_32 && SIZE + cbRecv + cbSend <= cbBuf
      requires AlignU32(cbRecv) == cbRecv && AlignU32(cbSend) == cbSend
      ensures u32Magic == 0x1911_0919 && this.cbBuf == cbBuf && this.cbRecv == cbRecv && this.cbSend == cbSend
      ensures this.mem == mem && LaidOut()
      ensures 0 < cbRecv < TWO_31 <==> recv.Valid()
      ensures 0 < cbSend < TWO_31 <==> send.Valid()
      ensures recv.Valid() ==> recv.State().Held() == Some(Queues([], []))
      ensures send.Valid() ==> send.State().Held() == Some(Queues([], []))
    {
      hide Aligned, AlignU32, Walk, HdrAt, Ring.HeldUpTo;
      HeaderAlignment();
      this.mem, u32Magic, this.cbBuf, this.cbRecv, this.cbSend := mem, MAGIC, cbBuf, cbRecv, cbSend;
      var offBuf := AlignU32(SIZE) - RECV_AT;
      AlignedIffFixed(cbRecv);
      AlignedIffFixed(cbSend);
      AlignedSum(SIZE - RECV_AT, cbRecv);
      AlignedSum(SIZE - SEND_AT, cbRecv);
      AlignedSum(SIZE - SEND_AT + cbRecv, cbSend);
      recv := new RingBuf(mem, RECV_AT, offBuf, offBuf + cbRecv);
      offBuf := Wrap32(offBuf + cbRecv + RECV_AT - SEND_AT);
      send := new RingBuf(mem, SEND_AT, offBuf, offBuf + cbSend);
      new;
      if recv.Shaped() { FreshRingIsEmpty(recv.State()); }
      if send.Shaped() { FreshRingIsEmpty(send.State()); }
    }
  }

  lemma HeaderAlignment()
    ensures AlignU32(SIZE) == SIZE && Aligned(SIZE - RECV_AT) && Aligned(SIZE - SEND_AT)
  {
  }

  lemma FreshRingIsEmpty(s: Ring)
    requires s.area.offEnd <= |s.mem| && s.offReadX == s.offWriteCom == s.offWriteInt == s.area.offStart
    ensures s.Held() == Some(Queues([], []))
  {
    hide Aligned;
    AlignedGap(s.area.offStart, s.area.offEnd);
  }

  // ---------- one ring does not see the other ----------

  /** What a ring holds depends on the bytes of its own area only. */
  lemma OwnAreaOnly(s: Ring, m: seq<byte>, wh: nat)
    requires s.HeldUpTo(wh).Some? && |m| == |s.mem| && SameBytes(s.mem, m, s.area.offStart, s.area.offEnd)
    ensures s.(mem := m).HeldUpTo(wh) == s.HeldUpTo(wh)
  {
    hide Aligned, HdrAt, FrameAt, Walk;
    KeepsWalks(s, m, wh);
  }

  /** An operation on one ring of a buffer leaves what the other ring holds, and every byte of it, alone. */
  twostate lemma OtherRingKept(one: RingBuf, other: RingBuf)
    requires one.mem == other.mem && one.Confined() && unchanged(other) && old(other.Valid())
    requires one.base + one.offEnd <= other.base + other.offStart
          || other.base + other.offEnd <= one.base + one.offStart
    ensures other.Valid() && other.State().Held() == old(other.State().Held())
    ensures other.mem[other.base + other.offStart..other.base + other.offEnd]
         == old(other.mem[other.base + other.offStart..other.base + other.offEnd])
  {
    hide Aligned, HdrAt, FrameAt, Walk, Ring.HeldUpTo;
    OwnAreaOnly(old(other.State()), other.mem[other.base..], other.offWriteInt);
    assert forall i | other.base + other.offStart <= i < other.base + other.offEnd :: other.mem[i] == old(other.mem[i]);
  }
}
