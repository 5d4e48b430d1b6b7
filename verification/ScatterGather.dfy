/** Reading scatter / gather lists: INTNETSG as the list of its used segments' bytes. */
module ScatterGather {
  import opened Words

  type Segs = seq<seq<byte>>

  /** The bytes a list describes; its length is cbTotal. */
  function Flatten(segs: Segs): seq<byte> {
    if segs == [] then [] else segs[0] + Flatten(segs[1..])
  }

  lemma {:induction false} FlattenSnoc(segs: Segs, b: seq<byte>)
    ensures Flatten(segs + [b]) == Flatten(segs) + b
  {
    if segs == [] {
      assert segs + [b] == [b] && Flatten([b]) == b + [] == [] + b;
    } else {
      FlattenSnoc(segs[1..], b);
      assert (segs + [b])[1..] == segs[1..] + [b];
    }
  }

  /** memcpy into a buffer. */
  method CopyTo(buf: array<byte>, at: nat, b: seq<byte>)
    requires at + |b| <= buf.Length
    modifies buf
    ensures buf[..] == Splice(old(buf[..]), at, b)
  {
    ghost var was := buf[..];
    for i := 0 to |b|
      invariant forall k | 0 <= k < i :: buf[at + k] == b[k]
      invariant forall k | 0 <= k < buf.Length && !(at <= k < at + i) :: buf[k] == was[k]
    {
      buf[at + i] := b[i];
    }
    SpliceIndex(was, at, b);
    assert buf[..] == Splice(was, at, b);
  }

  /** IntNetSgRead: the whole list, and nothing behind it. */
  method SgRead(segs: Segs, buf: array<byte>)
    requires segs != [] && |Flatten(segs)| <= buf.Length
    modifies buf
    ensures buf[..] == Splice(old(buf[..]), 0, Flatten(segs))
  {
    hide Splice, Flatten;
    ghost var was := buf[..];
    PrefixStep(segs, 0);
    CopyTo(buf, 0, segs[0]);
    if |segs| != 1 {
      var dst, iSeg := |segs[0]|, 0;
      iSeg := iSeg + 1;
      while iSeg < |segs|
        invariant 1 <= iSeg <= |segs| && dst == |Flatten(segs[..iSeg])| <= buf.Length
        invariant buf[..] == Splice(was, 0, Flatten(segs[..iSeg]))
      {
        PrefixStep(segs, iSeg);
        CopyTo(buf, dst, segs[iSeg]);
        SpliceTwice(was, 0, Flatten(segs[..iSeg]), segs[iSeg]);
        dst := dst + |segs[iSeg]|;
        iSeg := iSeg + 1;
      }
    }
    assert segs[..|segs|] == segs;
  }

  lemma PrefixStep(segs: Segs, k: nat)
    requires k < |segs|
    ensures Flatten(segs[..k + 1]) == Flatten(segs[..k]) + segs[k]
    ensures |Flatten(segs[..k + 1])| <= |Flatten(segs)|
    ensures k == 0 ==> Flatten(segs[..1]) == segs[0]
  {
    assert segs[..k + 1] == segs[..k] + [segs[k]];
    FlattenSnoc(segs[..k], segs[k]);
    PrefixFits(segs, k + 1);
    if k == 0 { assert segs[..0] == [] && [] + segs[0] == segs[0]; }
  }

  lemma SpliceTwice(m: seq<byte>, at: nat, b: seq<byte>, c: seq<byte>)
    requires at + |b| + |c| <= |m|
    ensures Splice(Splice(m, at, b), at + |b|, c) == Splice(m, at, b + c)
  {
  }

  lemma {:induction false} PrefixFits(segs: Segs, k: nat)
    requires k <= |segs|
    ensures Flatten(segs) == Flatten(segs[..k]) + Flatten(segs[k..])
  {
    if k == 0 {
      assert segs[..0] == [] && segs[0..] == segs;
    } else {
      PrefixFits(segs[1..], k - 1);
      assert segs[..k][1..] == segs[1..][..k - 1] && segs[1..][k - 1..] == segs[k..];
      ConcatAssoc(segs[0], Flatten(segs[1..][..k - 1]), Flatten(segs[k..]));
    }
  }

  // ---------- reading a portion ----------

  function Prepend(h: seq<byte>, r: Option<seq<byte>>): Option<seq<byte>> {
    match r
    case None => None
    case Some(b) => Some(h + b)
  }

  /** The copying loop from a segment start on; None where it looks at a segment past the used ones. */
  function ReadFrom(segs: Segs, n: nat): (r: Option<seq<byte>>)
    ensures r.Some? ==> |r.value| == n
  {
    if segs == [] then None
    else if |segs[0]| >= n then Some(segs[0][..n])
    else Prepend(segs[0], ReadFrom(segs[1..], n - |segs[0]|))
  }

  /** What IntNetSgReadEx copies. The program leaves iSeg at the segment it has read the end of (advance false);
      stepping behind it is what the comment at the second loop calls for. */
  function ReadEx(segs: Segs, off: nat, n: nat, advance: bool): (r: Option<seq<byte>>)
    ensures r.Some? ==> |r.value| == n
  {
    if off == 0 then ReadFrom(segs, n)
    else if segs == [] then None
    else if off < |segs[0]| then
      if |segs[0]| - off >= n then Some(segs[0][off..off + n])
      else Prepend(segs[0][off..], ReadFrom(if advance then segs[1..] else segs, n - (|segs[0]| - off)))
    else ReadEx(segs[1..], off - |segs[0]|, n, advance)
  }

  /** The segment an offset falls into, and how far into it. */
  function Locate(segs: Segs, off: nat): (nat, nat) {
    if off == 0 || segs == [] || off < |segs[0]| then (0, off)
    else var (k, rest) := Locate(segs[1..], off - |segs[0]|); (k + 1, rest)
  }

  lemma {:induction false} LocateMeaning(segs: Segs, off: nat)
    requires off <= |Flatten(segs)|
    ensures var (k, rest) := Locate(segs, off);
      && k <= |segs| && off == |Flatten(segs[..k])| + rest && (rest > 0 ==> k < |segs| && rest < |segs[k]|)
  {
    if !(off == 0 || segs == [] || off < |segs[0]|) {
      LocateMeaning(segs[1..], off - |segs[0]|);
      var (k, rest) := Locate(segs[1..], off - |segs[0]|);
      assert segs[..k + 1][1..] == segs[1..][..k];
    } else {
      assert segs[..0] == [];
    }
  }

  lemma ConcatSlice(a: seq<byte>, b: seq<byte>, lo: nat, hi: nat)
    requires lo <= hi <= |a| + |b|
    ensures (a + b)[lo..hi] ==
      if hi <= |a| then a[lo..hi]
      else if |a| <= lo then b[lo - |a|..hi - |a|]
      else a[lo..] + b[..hi - |a|]
  {
  }

  lemma {:induction false} ReadFromIsPrefix(segs: Segs, n: nat)
    requires n <= |Flatten(segs)| && segs != []
    ensures ReadFrom(segs, n) == Some(Flatten(segs)[..n])
  {
    if |segs[0]| < n {
      ReadFromIsPrefix(segs[1..], n - |segs[0]|);
      assert Flatten(segs)[..n] == segs[0] + Flatten(segs[1..])[..n - |segs[0]|];
    } else {
      assert Flatten(segs)[..n] == segs[0][..n];
    }
  }

  /** With the segment advanced at the break, every non-empty read in range copies the bytes asked for. */
  lemma {:induction false} AdvancedReadIsRight(segs: Segs, off: nat, n: nat)
    requires 0 < n && off + n <= |Flatten(segs)|
    ensures ReadEx(segs, off, n, true) == Some(Flatten(segs)[off..off + n])
  {
    ConcatSlice(segs[0], Flatten(segs[1..]), off, off + n);
    if off == 0 {
      ReadFromIsPrefix(segs, n);
    } else if off < |segs[0]| {
      if |segs[0]| - off < n {
        ReadFromIsPrefix(segs[1..], n - (|segs[0]| - off));
      }
    } else {
      AdvancedReadIsRight(segs[1..], off - |segs[0]|, n);
    }
  }

  /** The read starts at a segment start, or ends in the segment it starts in. */
  predicate StaysSimple(segs: Segs, off: nat, n: nat)
    requires off <= |Flatten(segs)|
  {
    LocateMeaning(segs, off);
    var (k, rest) := Locate(segs, off);
    rest == 0 || rest + n <= |segs[k]|
  }

  /** The read copies the tail of its starting segment and then the list over again from that segment. */
  predicate Restarts(segs: Segs, off: nat, n: nat) {
    var (k, rest) := Locate(segs, off);
    && k < |segs| && rest < |segs[k]|
    && var cbChunk := |segs[k]| - rest;
    && cbChunk < n && n - cbChunk <= |Flatten(segs[k..])|
    && ReadEx(segs, off, n, false) == Some(segs[k][rest..] + Flatten(segs[k..])[..n - cbChunk])
  }

  lemma SliceBehindFirst(segs: Segs, lo: nat, hi: nat)
    requires segs != [] && |segs[0]| <= lo <= hi <= |Flatten(segs)|
    ensures hi - |segs[0]| <= |Flatten(segs[1..])|
    ensures Flatten(segs)[lo..hi] == Flatten(segs[1..])[lo - |segs[0]|..hi - |segs[0]|]
  {
    ConcatSlice(segs[0], Flatten(segs[1..]), lo, hi);
  }

  /** Locating an offset behind the first segment comes to locating it in the rest. */
  lemma SimpleBehindFirst(segs: Segs, off: nat, n: nat)
    requires segs != [] && 0 < off && |segs[0]| <= off <= |Flatten(segs)|
    ensures off - |segs[0]| <= |Flatten(segs[1..])|
    ensures StaysSimple(segs, off, n) == StaysSimple(segs[1..], off - |segs[0]|, n)
  {
    LocateMeaning(segs[1..], off - |segs[0]|);
  }

  /** A read that starts behind the first segment is a read of the rest. */
  lemma BehindFirst(segs: Segs, off: nat, n: nat)
    requires segs != [] && 0 < off && |segs[0]| <= off && off + n <= |Flatten(segs)|
    ensures off - |segs[0]| + n <= |Flatten(segs[1..])|
    ensures ReadEx(segs, off, n, false) == ReadEx(segs[1..], off - |segs[0]|, n, false)
    ensures Flatten(segs)[off..off + n] == Flatten(segs[1..])[off - |segs[0]|..off - |segs[0]| + n]
    ensures StaysSimple(segs, off, n) == StaysSimple(segs[1..], off - |segs[0]|, n)
  {
    hide ReadFrom, Prepend, Flatten, StaysSimple;
    SliceBehindFirst(segs, off, off + n);
    SimpleBehindFirst(segs, off, n);
  }

  lemma RestartsInFirst(segs: Segs, off: nat, n: nat)
    requires segs != [] && 0 < off < |segs[0]| && |segs[0]| - off < n && off + n <= |Flatten(segs)|
    ensures !StaysSimple(segs, off, n) && Restarts(segs, off, n)
  {
    hide ReadFrom;
    ReadFromIsPrefix(segs, n - (|segs[0]| - off));
    assert segs[0..] == segs;
  }

  lemma RestartsBehindFirst(segs: Segs, off: nat, n: nat)
    requires segs != [] && 0 < off && |segs[0]| <= off && off + n <= |Flatten(segs)|
    requires Restarts(segs[1..], off - |segs[0]|, n)
    ensures Restarts(segs, off, n)
  {
    hide ReadFrom, ReadEx, Flatten;
    BehindFirst(segs, off, n);
    var (k, rest) := Locate(segs[1..], off - |segs[0]|);
    assert segs[1..][k..] == segs[k + 1..];
  }

  /** What a non-empty read in range copies as the program is written: the bytes asked for if the read stays
      simple, and otherwise the tail of the starting segment followed by the list over again from that segment. */
  lemma {:induction false} ReadAsWritten(segs: Segs, off: nat, n: nat)
    requires 0 < n && off + n <= |Flatten(segs)|
    ensures StaysSimple(segs, off, n) ==> ReadEx(segs, off, n, false) == Some(Flatten(segs)[off..off + n])
    ensures !StaysSimple(segs, off, n) ==> Restarts(segs, off, n)
  {
    hide ReadFrom, Restarts;
    ConcatSlice(segs[0], Flatten(segs[1..]), off, off + n);
    if off == 0 {
      ReadFromIsPrefix(segs, n);
    } else if off < |segs[0]| {
      if |segs[0]| - off < n { RestartsInFirst(segs, off, n); }
    } else {
      BehindFirst(segs, off, n);
      ReadAsWritten(segs[1..], off - |segs[0]|, n);
      if !StaysSimple(segs, off, n) { RestartsBehindFirst(segs, off, n); }
    }
  }

  // ---------- exactly when the program is right ----------

  /** The two lists differ in content only. */
  predicate SameSizes(s: Segs, t: Segs) {
    |s| == |t| && forall i | 0 <= i < |s| :: |s[i]| == |t[i]|
  }

  function Zeros(segs: Segs): (t: Segs)
    ensures SameSizes(segs, t)
  {
    seq(|segs|, i requires 0 <= i < |segs| => seq(|segs[i]|, _ => 0))
  }

  lemma {:induction false} FlattenZeros(segs: Segs, i: nat)
    requires i < |Flatten(Zeros(segs))|
    ensures Flatten(Zeros(segs))[i] == 0
  {
    assert Zeros(segs)[1..] == Zeros(segs[1..]);
    if i >= |segs[0]| {
      FlattenZeros(segs[1..], i - |segs[0]|);
    }
  }

  /** All zeros, but ones in the segment that off falls into. */
  function Marked(segs: Segs, off: nat): (t: Segs)
    ensures SameSizes(segs, t)
  {
    if segs == [] then []
    else if off < |segs[0]| then [seq(|segs[0]|, _ => 1)] + Zeros(segs[1..])
    else [seq(|segs[0]|, _ => 0)] + Marked(segs[1..], off - |segs[0]|)
  }

  lemma {:induction false} FlattenSize(s: Segs, t: Segs)
    requires SameSizes(s, t)
    ensures |Flatten(s)| == |Flatten(t)|
  {
    if s != [] {
      FlattenSize(s[1..], t[1..]);
    }
  }

  lemma MarkedHeadIsWrong(segs: Segs, off: nat, n: nat)
    requires segs != [] && 0 < off < |segs[0]| < off + n <= |Flatten(segs)|
    ensures var t := Marked(segs, off);
      off + n <= |Flatten(t)| && ReadEx(t, off, n, false) != Some(Flatten(t)[off..off + n])
  {
    var t, c := Marked(segs, off), |segs[0]| - off;
    FlattenSize(segs, t);
    assert t[1..] == Zeros(segs[1..]);
    FlattenSize(segs[1..], t[1..]);
    ReadFromIsPrefix(t, n - c);
    FlattenZeros(segs[1..], 0);
    assert ReadEx(t, off, n, false).value[c] == t[0][0] == 1;
    assert Flatten(t)[off..off + n][c] == Flatten(t[1..])[0] == 0;
  }

  /** A read that does not stay simple goes wrong on the marked content. */
  lemma {:induction false} MarkedReadIsWrong(segs: Segs, off: nat, n: nat)
    requires 0 < off && off + n <= |Flatten(segs)| && !StaysSimple(segs, off, n)
    ensures var t := Marked(segs, off);
      off + n <= |Flatten(t)| && ReadEx(t, off, n, false) != Some(Flatten(t)[off..off + n])
  {
    var t := Marked(segs, off);
    FlattenSize(segs, t);
    if off < |segs[0]| {
      MarkedHeadIsWrong(segs, off, n);
    } else {
      assert t[1..] == Marked(segs[1..], off - |segs[0]|);
      BehindFirst(segs, off, n);
      MarkedReadIsWrong(segs[1..], off - |segs[0]|, n);
      BehindFirst(t, off, n);
    }
  }

  lemma {:induction false} SameSizesLocate(s: Segs, t: Segs, off: nat)
    requires SameSizes(s, t)
    ensures Locate(s, off) == Locate(t, off)
  {
    if !(off == 0 || s == [] || off < |s[0]|) {
      SameSizesLocate(s[1..], t[1..], off - |s[0]|);
    }
  }

  /** For a given list of segment sizes, IntNetSgReadEx copies the bytes asked for whatever the segments hold
      exactly when the read starts at a segment start or ends in the segment it starts in. */
  lemma ReadExIsRightExactlyWhenSimple(segs: Segs, off: nat, n: nat)
    requires 0 < n && off + n <= |Flatten(segs)|
    ensures StaysSimple(segs, off, n) <==>
      forall t | SameSizes(segs, t) && off + n <= |Flatten(t)| ::
        ReadEx(t, off, n, false) == Some(Flatten(t)[off..off + n])
  {
    if StaysSimple(segs, off, n) {
      forall t | SameSizes(segs, t) && off + n <= |Flatten(t)|
        ensures ReadEx(t, off, n, false) == Some(Flatten(t)[off..off + n])
      {
        SameSizesLocate(segs, t, off);
        LocateMeaning(t, off);
        LocateMeaning(segs, off);
        ReadAsWritten(t, off, n);
      }
    } else {
      MarkedReadIsWrong(segs, off, n);
      assert SameSizes(segs, Marked(segs, off));
    }
  }

  /** A read of nothing looks past the used segments exactly when no segment is left at the offset; a non-empty
      one in range never does. */
  lemma {:induction false} StaysInList(segs: Segs, off: nat, n: nat)
    requires off + n <= |Flatten(segs)|
    ensures ReadEx(segs, off, n, false).None? <==> n == 0 && Locate(segs, off).0 == |segs|
  {
    if off == 0 {
      if segs != [] { ReadFromIsPrefix(segs, n); }
    } else if off < |segs[0]| {
      if |segs[0]| - off < n { ReadFromIsPrefix(segs, n - (|segs[0]| - off)); }
    } else {
      StaysInList(segs[1..], off - |segs[0]|, n);
    }
  }

  /** IntNetSgReadEx; false means that it looks at a segment past the used ones and nothing is copied. */
  method SgReadEx(segs: Segs, offSrc: nat, cbToRead: nat, buf: array<byte>) returns (inList: bool)
    requires offSrc + cbToRead <= |Flatten(segs)| && cbToRead <= buf.Length
    modifies buf
    ensures inList <==> ReadEx(segs, offSrc, cbToRead, false).Some?
    ensures buf[..] == if inList then Splice(old(buf[..]), 0, ReadEx(segs, offSrc, cbToRead, false).value)
                       else old(buf[..])
  {
    hide Splice;
    ghost var was := buf[..];
    var dst: nat, iSeg: nat, off: nat, cb: nat := 0, 0, offSrc, cbToRead;
    ghost var head: seq<byte> := [];
    StaysInList(segs, offSrc, cbToRead);
    assert segs[0..] == segs;
    while off != 0
      invariant iSeg <= |segs| && off + cb <= |Flatten(segs[iSeg..])| && cb == cbToRead
      invariant ReadEx(segs[iSeg..], off, cb, false) == ReadEx(segs, offSrc, cbToRead, false)
      invariant buf[..] == was
      decreases |segs| - iSeg
    {
      assert segs[iSeg..][1..] == segs[iSeg + 1..];
      var cbSeg := |segs[iSeg]|;
      if off < cbSeg {
        var cbChunk := cbSeg - off;
        if cbChunk >= cb {
          CopyTo(buf, 0, segs[iSeg][off..off + cb]);
          return true;
        }
        head := segs[iSeg][off..];
        CopyTo(buf, 0, segs[iSeg][off..]);
        dst := cbChunk;
        cb := cb - cbChunk;
        break;
      }
      off := off - cbSeg;
      iSeg := iSeg + 1;
    }
    SpliceEmpty(was);
    if head == [] { PrependNothing(ReadFrom(segs[iSeg..], cb)); }
    while true
      invariant iSeg <= |segs| && dst == |head| && dst + cb == cbToRead <= buf.Length
      invariant buf[..] == Splice(was, 0, head) && (head == [] ==> buf[..] == was)
      invariant ReadEx(segs, offSrc, cbToRead, false) == Prepend(head, ReadFrom(segs[iSeg..], cb))
      invariant ReadEx(segs, offSrc, cbToRead, false).None? ==> head == []
      decreases |segs| - iSeg
    {
      if iSeg == |segs| {
        return false;
      }
      assert segs[iSeg..][1..] == segs[iSeg + 1..];
      var cbSeg := |segs[iSeg]|;
      if cbSeg >= cb {
        CopyTo(buf, dst, segs[iSeg][..cb]);
        SpliceTwice(was, 0, head, segs[iSeg][..cb]);
        return true;
      }
      PrependStep(segs[iSeg..], head, cb);
      CopyTo(buf, dst, segs[iSeg]);
      SpliceTwice(was, 0, head, segs[iSeg]);
      head := head + segs[iSeg];
      dst := dst + cbSeg;
      cb := cb - cbSeg;
      iSeg := iSeg + 1;
    }
  }

  lemma PrependNothing(r: Option<seq<byte>>)
    ensures Prepend([], r) == r
  {
    if r.Some? {
      assert [] + r.value == r.value;
    }
  }

  lemma PrependStep(segs: Segs, h: seq<byte>, n: nat)
    requires segs != [] && |segs[0]| < n
    ensures Prepend(h, ReadFrom(segs, n)) == Prepend(h + segs[0], ReadFrom(segs[1..], n - |segs[0]|))
  {
    var r := ReadFrom(segs[1..], n - |segs[0]|);
    if r.Some? {
      assert h + (segs[0] + r.value) == h + segs[0] + r.value;
    }
  }

  lemma SpliceEmpty(m: seq<byte>)
    ensures Splice(m, 0, []) == m
  {
  }
}
