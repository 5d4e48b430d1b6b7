/** Machine words, byte memory and the 8-byte frame header as it lies in memory. */
module Words {

  datatype Option<+T> = None | Some(value: T)

  type byte = x: int | 0 <= x < 256

  const TWO_24: int := 0x100_0000
  const TWO_31: int := 0x8000_0000
  const TWO_32: int := 0x1_0000_0000
  const TWO_64: int := 0x1_0000_0000_0000_0000

  /** The result of unsigned 32-bit arithmetic. */
  function Wrap32(x: int): (r: nat)
    ensures r < TWO_32
    ensures 0 <= x < TWO_32 ==> r == x
    ensures -TWO_32 <= x < 0 ==> r == x + TWO_32
  {
    x % TWO_32
  }

  /** What a bit field of 24 bits keeps. */
  function Low24(x: int): nat {
    x % TWO_24
  }

  /** A 64-bit statistics counter. */
  function Wrap64(x: int): nat {
    x % TWO_64
  }

  /** Reinterprets an unsigned 32-bit word as a signed one. */
  function ToI32(u: nat): int {
    if u < TWO_31 then u else u - TWO_32
  }

  predicate Aligned(x: int) {
    x % 8 == 0
  }

  lemma AlignedSum(x: int, y: int)
    requires Aligned(x) && Aligned(y)
    ensures Aligned(x + y) && Aligned(x - y)
  {
  }

  lemma AlignedGap(x: int, y: int)
    requires Aligned(x) && Aligned(y) && x < y
    ensures x + 8 <= y
  {
  }

  /** The least multiple of eight that is not below x. */
  function Align8(x: nat): (r: nat)
    ensures Aligned(r) && x <= r < x + 8
  {
    (x + 7) / 8 * 8
  }

  /** RT_ALIGN_32(u, 8): the addition wraps, then the low three bits are cleared. */
  function AlignU32(u: int): nat {
    Wrap32(u + 7) / 8 * 8
  }

  lemma AlignU32IsAlign8(u: nat)
    ensures u + 7 < TWO_32 ==> AlignU32(u) == Align8(u)
  {
  }

  /** Alignment respects the order, and aligned sizes that differ leave room for a header between them. */
  lemma AlignMonotone(a: nat, b: nat)
    requires a <= b < TWO_31
    ensures AlignU32(a) == Align8(a) && AlignU32(b) == Align8(b)
    ensures Align8(a) <= Align8(b)
    ensures Align8(a) != Align8(b) ==> Align8(a) + 8 <= Align8(b)
  {
  }

  lemma AlignedIffFixed(x: nat)
    requires x + 7 < TWO_32
    ensures AlignU32(x) == x <==> Aligned(x)
  {
  }

  lemma AlignedFixed(x: nat)
    requires Aligned(x)
    ensures Align8(x) == x
  {
  }

  lemma AlignShift(f: nat, x: nat)
    requires Aligned(f)
    ensures Align8(f + x) == f + Align8(x)
  {
    var k := f / 8;
    assert f == 8 * k;
    assert (8 * k + (x + 7)) / 8 == k + (x + 7) / 8;
  }

  /** Adding a signed offset and a size modulo 2^32, then aligning, is exact when nothing overflows. */
  lemma SumsAreExact(p: nat, off: int, cb: nat)
    requires p < TWO_32 && -TWO_31 <= off < TWO_31 && 0 <= p + off && Aligned(p + off)
    requires p + off + Align8(cb) < TWO_32
    ensures AlignU32(Wrap32(Wrap32(p + Wrap32(off)) + cb)) == p + off + Align8(cb)
  {
    var f: nat := p + off;
    assert Wrap32(p + Wrap32(off)) == f;
    AlignShift(f, cb);
    AlignU32IsAlign8(f + cb);
    assert f + cb + 7 < TWO_32;
  }

  lemma ConcatAssoc<T>(x: seq<T>, y: seq<T>, z: seq<T>)
    ensures x + (y + z) == (x + y) + z
  {
  }

  // ---------- byte memory ----------

  /** memcpy(m + at, b, |b|). */
  function Splice(m: seq<byte>, at: nat, b: seq<byte>): (r: seq<byte>)
    requires at + |b| <= |m|
    ensures |r| == |m|
  {
    m[..at] + b + m[at + |b|..]
  }

  lemma SpliceIndex(m: seq<byte>, at: nat, b: seq<byte>)
    requires at + |b| <= |m|
    ensures forall i :: at <= i < at + |b| ==> Splice(m, at, b)[i] == b[i - at]
    ensures forall i :: 0 <= i < |m| && !(at <= i < at + |b|) ==> Splice(m, at, b)[i] == m[i]
  {
  }

  lemma SpliceAll(m: seq<byte>, b: seq<byte>)
    requires |m| == |b|
    ensures Splice(m, 0, b) == b
  {
  }

  /** The two memories agree on [lo, hi). */
  predicate SameBytes(m: seq<byte>, n: seq<byte>, lo: nat, hi: nat)
    requires hi <= |m| && hi <= |n|
  {
    forall i :: lo <= i < hi ==> m[i] == n[i]
  }

  lemma SameSlice(m: seq<byte>, n: seq<byte>, lo: nat, hi: nat)
    requires lo <= hi <= |m| && hi <= |n|
    requires SameBytes(m, n, lo, hi)
    ensures m[lo..hi] == n[lo..hi]
  {
  }

  lemma SpliceSlice(m: seq<byte>, at: nat, b: seq<byte>)
    requires at + |b| <= |m|
    ensures Splice(m, at, b)[at..at + |b|] == b
  {
    SpliceIndex(m, at, b);
  }

  // ---------- the frame header ----------

  /** cbFrame is a 24-bit field, u8Type an 8-bit one, offFrame a signed word. */
  datatype Hdr = Hdr(cbFrame: nat, u8Type: byte, offFrame: int)
  {
    predicate Fits() {
      cbFrame < TWO_24 && -TWO_31 <= offFrame < TWO_31
    }
  }

  /** The value of little-endian bytes. */
  function Le(b: seq<byte>): (w: nat)
    ensures |b| == 1 ==> w < 0x100
    ensures |b| == 2 ==> w < 0x1_0000
    ensures |b| == 3 ==> w < TWO_24
    ensures |b| == 4 ==> w < TWO_32
  {
    if b == [] then 0 else b[0] + 0x100 * Le(b[1..])
  }

  /** The low n bytes of w, lowest first. */
  function LeBytes(w: nat, n: nat): (b: seq<byte>)
    ensures |b| == n
  {
    if n == 0 then [] else [w % 0x100] + LeBytes(w / 0x100, n - 1)
  }

  lemma DigitAndRest(d: byte, q: nat)
    ensures (d + 0x100 * q) % 0x100 == d && (d + 0x100 * q) / 0x100 == q
  {
  }

  lemma {:induction false} LeBytesLe(b: seq<byte>)
    ensures LeBytes(Le(b), |b|) == b
  {
    if b != [] {
      LeBytesLe(b[1..]);
      DigitAndRest(b[0], Le(b[1..]));
      assert b == [b[0]] + b[1..];
    }
  }

  function Pow256(n: nat): (p: nat)
    ensures n == 1 ==> p == 0x100
    ensures n == 2 ==> p == 0x1_0000
    ensures n == 3 ==> p == TWO_24
    ensures n == 4 ==> p == TWO_32
  {
    if n == 0 then 1 else 0x100 * Pow256(n - 1)
  }

  lemma {:induction false} LeLeBytes(w: nat, n: nat)
    requires w < Pow256(n)
    ensures Le(LeBytes(w, n)) == w
  {
    if n != 0 {
      LeLeBytes(w / 0x100, n - 1);
      assert LeBytes(w, n)[1..] == LeBytes(w / 0x100, n - 1);
    }
  }

  /** The eight bytes of a header, little endian: 24 bits of cbFrame, the type, then the signed offset. */
  function Encode(h: Hdr): (b: seq<byte>)
    requires h.Fits()
    ensures |b| == 8
  {
    LeBytes(h.cbFrame, 3) + [h.u8Type] + LeBytes(Wrap32(h.offFrame), 4)
  }

  function Decode(b: seq<byte>): (h: Hdr)
    requires |b| == 8
    ensures h.Fits()
  {
    Hdr(Le(b[..3]), b[3], ToI32(Le(b[4..])))
  }

  lemma DecodeEncode(h: Hdr)
    requires h.Fits()
    ensures Decode(Encode(h)) == h
  {
    LeLeBytes(h.cbFrame, 3);
    LeLeBytes(Wrap32(h.offFrame), 4);
    assert Encode(h)[..3] == LeBytes(h.cbFrame, 3);
    assert Encode(h)[4..] == LeBytes(Wrap32(h.offFrame), 4);
  }

  lemma EncodeDecode(b: seq<byte>)
    requires |b| == 8
    ensures Encode(Decode(b)) == b
  {
    LeBytesLe(b[..3]);
    LeBytesLe(b[4..]);
    assert Wrap32(ToI32(Le(b[4..]))) == Le(b[4..]);
    assert b == b[..3] + [b[3]] + b[4..];
  }

  /** The word of four bytes, the lowest first. */
  function Word(b0: int, b1: int, b2: int, b3: int): int {
    b0 + 0x100 * b1 + 0x1_0000 * b2 + 0x100_0000 * b3
  }

  lemma LeOfThree(b: seq<byte>)
    requires |b| == 3
    ensures Le(b) == Word(b[0], b[1], b[2], 0)
  {
    assert Le(b[1..][1..]) == b[2] by { assert b[1..][1..] == [b[2]] && Le([]) == 0; }
    assert Le(b[1..]) == b[1] + 0x100 * Le(b[1..][1..]);
  }

  lemma LeOfFour(b: seq<byte>)
    requires |b| == 4
    ensures Le(b) == Word(b[0], b[1], b[2], b[3])
  {
    assert Le(b) == b[0] + 0x100 * Le(b[1..]);
    LeOfThree(b[1..]);
  }

  /** The layout: two words, the first with the size in its low 24 bits and the type above, the second with the offset
      in two's complement. */
  lemma HeaderLayout(h: Hdr)
    requires h.Fits()
    ensures var b := Encode(h);
      && Word(b[0], b[1], b[2], b[3]) == h.cbFrame + 0x100_0000 * h.u8Type
      && Word(b[4], b[5], b[6], b[7]) == if h.offFrame >= 0 then h.offFrame else h.offFrame + 0x1_0000_0000
  {
    hide Le, LeBytes;
    var b := Encode(h);
    LeLeBytes(h.cbFrame, 3);
    LeLeBytes(Wrap32(h.offFrame), 4);
    assert b[..3] == LeBytes(h.cbFrame, 3) && b[4..] == LeBytes(Wrap32(h.offFrame), 4);
    LeOfThree(b[..3]);
    LeOfFour(b[4..]);
  }
}
