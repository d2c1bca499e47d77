/** `encode_frame_str` from the transformed coefficients on: shed, code, end
    the frame and write its header. */
module FrameEncoder {
  import opened Arithmetic
  import opened Wrappers
  import opened Bits
  import opened BitStrings
  import opened BitWriter
  import opened HuffmanCodes
  import opened FrameBudget
  import opened MdecBlock
  import opened FrameLayout
  import opened FrameShedder
  import opened FrameCoder

  // ----- shedding keeps coefficients above their thresholds

  lemma {:induction false} AcsIndex(coefs: seq<int>, d: Size, o: Order, n: nat, k: nat, j: nat)
    requires IsFrame(coefs, d) && k < n <= Blocks(d) && j < 63
    ensures |AcAt(coefs, d, o, k)| == 63 && |Acs(coefs, d, o, n)| == 63 * n
    ensures Acs(coefs, d, o, n)[63 * k + j] == AcAt(coefs, d, o, k)[j]
    decreases n
  {
    hide AcAt, Blocks;
    AcsSize(coefs, d, o, n - 1);
    AcSize(coefs, d, o, n - 1);
    AcSize(coefs, d, o, k);
    if k < n - 1 { AcsIndex(coefs, d, o, n - 1, k, j); }
  }

  /** The order in which coefficients are shed: macroblocks column by column, in
      each the lists from the last to the first, in a block the places behind
      the first. */
  lemma ShedOrder(coefs: seq<int>, d: Size, k: nat, j: nat)
    requires IsFrame(coefs, d) && k < 6 * (d.w * d.h) && j < 63
    ensures d.h > 0 && |FrameAcs(coefs, d)| == 378 * (d.w * d.h)
    ensures var at := 64 * (((5 - k % 6) * d.h + k / 6 % d.h) * d.w + k / 6 / d.h);
      0 <= at + 1 + j < |coefs| && FrameAcs(coefs, d)[63 * k + j] == coefs[at + 1 + j]
  {
    hide Acs, AcAt, BlockAt, At;
    NotEmpty(d, k);
    ShedPlace(d, k);
    AcsIndex(coefs, d, Shedding, Blocks(d), k, j);
    AcsSize(coefs, d, Shedding, Blocks(d));
    BlockParts(coefs, d, Shedding, k);
  }

  lemma ShedPlace(d: Size, k: nat)
    requires k < Blocks(d) && d.h > 0
    ensures At(d, Shedding, k) == 64 * (((5 - k % 6) * d.h + k / 6 % d.h) * d.w + k / 6 / d.h)
  {}

  lemma AcSize(coefs: seq<int>, d: Size, o: Order, k: nat)
    requires IsFrame(coefs, d) && k < Blocks(d)
    ensures |AcAt(coefs, d, o, k)| == 63
  {}

  lemma {:induction false} AcsSize(coefs: seq<int>, d: Size, o: Order, n: nat)
    requires IsFrame(coefs, d) && n <= Blocks(d)
    ensures |Acs(coefs, d, o, n)| == 63 * n
  {
    hide AcAt, Blocks;
    if n > 0 {
      AcSize(coefs, d, o, n - 1);
      AcsSize(coefs, d, o, n - 1);
    }
  }

  function Mirror(k: nat): nat {
    6 * (k / 6) + 5 - k % 6
  }

  lemma MirrorBlock(coefs: seq<int>, d: Size, k: nat)
    requires IsFrame(coefs, d) && k < Blocks(d)
    ensures Mirror(k) < Blocks(d)
    ensures BlockAt(coefs, d, Coding, k) == BlockAt(coefs, d, Shedding, Mirror(k))
  {
    assert Mirror(k) / 6 == k / 6 && Mirror(k) % 6 == 5 - k % 6;
  }

  /** A block after shedding: its first coefficient is kept, every other one is
      kept or gone. */
  predicate Thinned(b: seq<int>, c: seq<int>, limit: int) {
    && |b| == |c| == 64 && b[0] == c[0]
    && forall i :: 1 <= i < 64 ==> c[i] == b[i] || (c[i] == 0 && Abs(b[i]) <= limit)
  }

  lemma BlockThinned(s: seq<int>, t: seq<int>, d: Size, threshold: nat, m: nat, accum: int, k: nat)
    requires IsRound(s, t, d, threshold, m, accum) && accum <= threshold && k < Blocks(d)
    ensures IsFrame(s, d) && IsFrame(t, d)
    ensures Thinned(BlockAt(s, d, Coding, k), BlockAt(t, d, Coding, k), 8 * m)
  {
    hide BlockAt, AcAt, Blocks, Acs, NonZeroes, RoundAt, StillOver, Overhead, Mirror;
    RoundFrames(s, t, d, threshold, m, accum);
    MirrorBlock(s, d, k);
    MirrorBlock(t, d, k);
    var l := Mirror(k);
    BlockParts(s, d, Shedding, l);
    BlockParts(t, d, Shedding, l);
    assert SameFirst(s, t, d, l);
    ShedOnBudget(s, t, d, threshold, m, accum);
    forall i | 1 <= i < 64
      ensures var b, c := BlockAt(s, d, Shedding, l), BlockAt(t, d, Shedding, l);
        c[i] == b[i] || (c[i] == 0 && Abs(b[i]) <= 8 * m)
    {
      AcsIndex(s, d, Shedding, Blocks(d), l, i - 1);
      AcsIndex(t, d, Shedding, Blocks(d), l, i - 1);
      assert AcAt(s, d, Shedding, l)[i - 1] == BlockAt(s, d, Shedding, l)[i];
      assert AcAt(t, d, Shedding, l)[i - 1] == BlockAt(t, d, Shedding, l)[i];
    }
  }

  lemma RoundFrames(s: seq<int>, t: seq<int>, d: Size, threshold: nat, m: nat, accum: int)
    requires IsRound(s, t, d, threshold, m, accum)
    ensures IsFrame(s, d) && IsFrame(t, d) && FirstsKept(s, t, d)
  {
    hide RoundAt, StillOver, FirstsKept;
  }

  lemma ShedKeepsThreshold(s: seq<int>, t: seq<int>, d: Size, threshold: nat, m: nat, accum: int)
    requires IsRound(s, t, d, threshold, m, accum) && accum <= threshold
    requires IsFrame(s, d) && FrameThresholded(s, d)
    ensures IsFrame(t, d) && FrameThresholded(t, d)
  {
    hide IsRound, BlockAt, Blocks, QuantDec;
    RoundFrames(s, t, d, threshold, m, accum);
    forall k | 0 <= k < Blocks(d)
      ensures ThresholdedVisit(t, d, k)
    {
      assert ThresholdedVisit(s, d, k);
      BlockThinned(s, t, d, threshold, m, accum, k);
      ThinnedThreshold(BlockAt(s, d, Coding, k), BlockAt(t, d, Coding, k), 8 * m);
    }
  }

  lemma ThinnedThreshold(b: seq<int>, c: seq<int>, limit: int)
    requires Thinned(b, c, limit) && Thresholded(b)
    ensures Thresholded(c)
  {
    hide QuantDec;
    forall i | 0 <= i < 64
      ensures ThresholdedAt(c[i], i)
    {
      assert ThresholdedAt(b[i], i);
    }
  }

  /** The size promise for a frame that has been thresholded and shed: it
      depends on the threshold alone. */
  lemma ShedFrameBits(s: seq<int>, t: seq<int>, d: Size, threshold: nat, m: nat, accum: int)
    requires IsRound(s, t, d, threshold, m, accum) && accum <= threshold
    requires IsFrame(s, d) && FrameThresholded(s, d)
    ensures IsFrame(t, d)
    ensures var n := d.w * d.h;
      |FrameBits(t, d)| <= 72 * n + 22 * (threshold - 12 * n) + 12
  {
    hide IsRound, Blocks, FrameThresholded, NonZeroes, Overhead, FrameAcs;
    ShedKeepsThreshold(s, t, d, threshold, m, accum);
    ShedOnBudget(s, t, d, threshold, m, accum);
    BudgetBits(t, d, threshold);
  }

  // ----- coding the blocks

  /** The first `n` visits have been coded, the other blocks are as before. */
  ghost predicate CodedUpTo(s: seq<int>, t: seq<int>, d: Size, n: nat, a: State, b: State, hwords: nat) {
    && IsFrame(s, d) && IsFrame(t, d) && n <= Blocks(d)
    && Extends(a, b, CodedBits(s, d, n)) && hwords == Hwords(s, d, n)
    && forall k :: 0 <= k < Blocks(d) ==> CodedVisit(s, t, d, n, k)
  }

  predicate CodedVisit(s: seq<int>, t: seq<int>, d: Size, n: nat, k: nat)
    requires IsFrame(s, d) && IsFrame(t, d) && k < Blocks(d)
  {
    BlockAt(t, d, Coding, k) == if k < n then QuantisedAtVisit(s, d, k) else BlockAt(s, d, Coding, k)
  }

  lemma CodingStarts(s: seq<int>, d: Size, w: Writer)
    requires IsFrame(s, d) && w.Valid()
    ensures CodedUpTo(s, s, d, 0, w.Now(), w.Now(), 0)
  {
    hide BlockAt, Blocks, QuantisedAtVisit;
    ExtendsNone(w.Now());
  }

  lemma CodingStep(s: seq<int>, t: seq<int>, u: seq<int>, d: Size, n: nat, a: State, b: State, c: State, hwords: nat)
    requires CodedUpTo(s, t, d, n, a, b, hwords) && n < Blocks(d)
    requires IsFrame(u, d) && OnlyBlock(t, u, At(d, Coding, n))
    requires BlockAt(u, d, Coding, n) == Quantised(BlockAt(t, d, Coding, n))
    requires Extends(b, c, BlockBits(BlockAt(u, d, Coding, n)))
    ensures CodedUpTo(s, u, d, n + 1, a, c, RoundUp16(hwords + |Runs(Scan(BlockAt(u, d, Coding, n)), 0)| + 2))
  {
    hide BlockAt, Blocks, Quantised, OnlyBlock, At, Extends, BlockBits, RoundUp16, Runs, Scan;
    assert CodedVisit(s, t, d, n, n);
    ExtendsTwice(a, b, c, CodedBits(s, d, n), BlockBits(BlockAt(u, d, Coding, n)));
    var m := n + 1;
    forall k | 0 <= k < Blocks(d)
      ensures CodedVisit(s, u, d, m, k)
    {
      assert CodedVisit(s, t, d, n, k);
      if k != n { OthersSame(t, u, d, Coding, n, k); }
    }
  }

  /** Where a block does not fit, the frame does not. */
  lemma NoRoomForNext(s: seq<int>, t: seq<int>, d: Size, n: nat, a: State, b: State, hwords: nat)
    requires CodedUpTo(s, t, d, n, a, b, hwords) && n < Blocks(d)
    requires !Fits(b, |BlockBits(Quantised(BlockAt(t, d, Coding, n)))|)
    ensures !Fits(a, |CodedBits(s, d, Blocks(d))|)
  {
    hide BlockAt, Blocks, Quantised, Extends, BlockBits, Fits, Hwords;
    assert CodedVisit(s, t, d, n, n);
    CodedGrows(s, d, n + 1, Blocks(d));
    TooMuchLater(a, b, CodedBits(s, d, n), |BlockBits(QuantisedAtVisit(s, d, n))|, |CodedBits(s, d, Blocks(d))|);
  }

  lemma {:induction false} CodedGrows(s: seq<int>, d: Size, m: nat, n: nat)
    requires IsFrame(s, d) && m <= n <= Blocks(d)
    ensures |CodedBits(s, d, m)| <= |CodedBits(s, d, n)|
    decreases n
  {
    hide BlockBits, Blocks, QuantisedAtVisit;
    if m < n { CodedGrows(s, d, m, n - 1); }
  }

  method CodeNextBlock(w: Writer, encodingMap: array<word32>, coefs: array<int>, d: Size, fx: nat, fy: nat, i: nat,
                       hwords: nat, ghost s: seq<int>, ghost a: State) returns (ok: bool, more: nat)
    requires w.Valid() && MapReady(encodingMap[..]) && encodingMap as object != w.unmuxed
    requires coefs as object != w.unmuxed && coefs as object != encodingMap
    requires IsFrame(coefs[..], d) && IsVisit(d, fx, fy, i)
    requires CodedUpTo(s, coefs[..], d, Visit(d, fx, fy, i), a, w.Now(), hwords)
    modifies w, w.unmuxed, coefs
    ensures ok ==> w.Valid() && IsFrame(coefs[..], d)
    ensures ok ==> CodedUpTo(s, coefs[..], d, Visit(d, fx, fy, i + 1), a, w.Now(), more)
    ensures IsFrame(s, d) && (!ok ==> !Fits(a, |CodedBits(s, d, Blocks(d))|))
  {
    hide CodedUpTo, Blocks, At, BlockAt, Visit, Extends, Fits, BlockBits, Quantised, Runs, Scan, RoundUp16, Low,
      CodedBits, MapReady, OnlyBlock, Slot, Writer.Now, Writer.Contents;
    ghost var k, t, before := Visit(d, fx, fy, i), coefs[..], w.Now();
    CodedFrames(s, t, d, k, a, before, hwords);
    VisitPlace(t, d, fx, fy, i);
    var at := 64 * Slot(d, fx, fy, i);
    ok, more := EncodeDctBlock(w, encodingMap, coefs, at, hwords);
    if ok {
      VisitPlace(coefs[..], d, fx, fy, i);
      CodingStep(s, t, coefs[..], d, k, a, before, w.Now(), hwords);
    } else {
      NoRoomForNext(s, t, d, k, a, before, hwords);
    }
  }

  lemma CodedFrames(s: seq<int>, t: seq<int>, d: Size, n: nat, a: State, b: State, hwords: nat)
    requires CodedUpTo(s, t, d, n, a, b, hwords)
    ensures IsFrame(s, d) && IsFrame(t, d) && n <= Blocks(d)
  {
    hide CodedBits, Hwords, Extends, Blocks;
  }

  /** All blocks: macroblocks column by column, in each the lists from the
      first to the last. */
  method CodeBlocks(w: Writer, encodingMap: array<word32>, coefs: array<int>, d: Size) returns (ok: bool, hwords: nat)
    requires w.Valid() && MapReady(encodingMap[..]) && encodingMap as object != w.unmuxed
    requires coefs as object != w.unmuxed && coefs as object != encodingMap && IsFrame(coefs[..], d)
    modifies w, w.unmuxed, coefs
    ensures ok ==> w.Valid()
    ensures ok ==> CodedUpTo(old(coefs[..]), coefs[..], d, Blocks(d), old(w.Now()), w.Now(), hwords)
    ensures !ok ==> !old(Fits(w.Now(), |CodedBits(coefs[..], d, Blocks(d))|))
  {
    hide CodedUpTo, IsFrame, Blocks, Visit, Extends, Fits, Low, CodedBits, MapReady, Writer.Now, Writer.Contents;
    ghost var s, a := coefs[..], w.Now();
    hwords := 0;
    CodingStarts(s, d, w);
    Columns(d, 0);
    for fx := 0 to d.w
      invariant w.Valid() && IsFrame(coefs[..], d) && MapReady(encodingMap[..])
      invariant CodedUpTo(s, coefs[..], d, Visit(d, fx, 0, 0), a, w.Now(), hwords)
    {
      for fy := 0 to d.h
        invariant w.Valid() && IsFrame(coefs[..], d) && MapReady(encodingMap[..])
        invariant CodedUpTo(s, coefs[..], d, Visit(d, fx, fy, 0), a, w.Now(), hwords)
      {
        ok, hwords := CodeMacroblock(w, encodingMap, coefs, d, fx, fy, hwords, s, a);
        if !ok {
          return;
        }
      }
      Columns(d, fx);
    }
    ok := true;
  }

  method CodeMacroblock(w: Writer, encodingMap: array<word32>, coefs: array<int>, d: Size, fx: nat, fy: nat,
                        hwords: nat, ghost s: seq<int>, ghost a: State) returns (ok: bool, more: nat)
    requires w.Valid() && MapReady(encodingMap[..]) && encodingMap as object != w.unmuxed
    requires coefs as object != w.unmuxed && coefs as object != encodingMap
    requires IsFrame(coefs[..], d) && IsVisit(d, fx, fy, 0)
    requires CodedUpTo(s, coefs[..], d, Visit(d, fx, fy, 0), a, w.Now(), hwords)
    modifies w, w.unmuxed, coefs
    ensures ok ==> w.Valid() && IsFrame(coefs[..], d)
    ensures ok ==> CodedUpTo(s, coefs[..], d, Visit(d, fx, fy + 1, 0), a, w.Now(), more)
    ensures IsFrame(s, d) && (!ok ==> !Fits(a, |CodedBits(s, d, Blocks(d))|))
  {
    hide CodedUpTo, IsFrame, Blocks, Extends, Fits, Low, CodedBits, MapReady, Writer.Now, Writer.Contents;
    more := hwords;
    CodedFrames(s, coefs[..], d, Visit(d, fx, fy, 0), a, w.Now(), hwords);
    for i := 0 to 6
      invariant w.Valid() && IsFrame(coefs[..], d) && MapReady(encodingMap[..])
      invariant CodedUpTo(s, coefs[..], d, Visit(d, fx, fy, i), a, w.Now(), more)
    {
      ok, more := CodeNextBlock(w, encodingMap, coefs, d, fx, fy, i, more, s, a);
      if !ok {
        return;
      }
    }
    ok := true;
  }

  // ----- the end of a frame

  /** Every byte from `at` on is zero. */
  predicate ZeroFrom(bs: seq<byte>, at: nat) {
    at <= |bs| && forall k :: at <= k < |bs| ==> bs[k] == 0
  }

  lemma ZeroKept(s: seq<byte>, t: seq<byte>, a: nat, b: nat)
    requires ZeroFrom(s, a) && Around(s, t, b) && a <= b
    ensures ZeroFrom(t, b)
  {
    forall k | b <= k < |t|
      ensures t[k] == 0
    {
      assert t[k] == t[b..][k - b] == s[b..][k - b] == s[k];
    }
  }

  lemma ZeroWord(bs: seq<byte>)
    ensures Words(bs + [0, 0]) == Words(bs) + Zeros(16)
  {
    hide BitsOf, Words;
    ZeroBits(16);
    MoreWords(bs, 0, bs + [0, 0]);
  }

  lemma ZerosJoin(a: seq<bool>, m: nat, n: nat)
    ensures a + Zeros(m) + Zeros(n) == a + Zeros(m + n)
  {}

  /** The frame's bits as the player gets them: everything behind the header. */
  ghost predicate Holds(bytes: seq<byte>, used: nat, bits: seq<bool>, padding: nat) {
    8 <= used <= |bytes| && Words(bytes[8..used]) == bits + Zeros(padding)
  }

  /** `(bytes_used + 3) & ~3` */
  function RoundUp4(n: nat): nat {
    (n + 3) / 4 * 4
  }

  /** The end marker, the last word, and the size in bytes rounded up to a
      multiple of four. */
  method EndFrame(w: Writer) returns (ok: bool, ghost padding: nat)
    requires w.Valid() && ZeroFrom(w.unmuxed[..], w.bytesUsed)
    modifies w, w.unmuxed
    ensures ok <==> old(Fits(w.Now(), 12))
    ensures ok ==>
      && w.Shape() && w.bitsLeft == 16 && w.bitsValue == 0 && w.frameBlockCount == old(w.frameBlockCount)
      && w.bytesUsed % 4 == 0 && w.bytesUsed <= 2016 * w.frameBlockCount && padding < 32
      && Holds(w.unmuxed[..], w.bytesUsed, old(w.Contents()) + TRAILER, padding)
  {
    hide BitsOf, Low, Words, Zeros, Extends, Around, Pow2, ZeroFrom, Holds, Fits, RoundUp4,
      Writer.Contents, Writer.Stored;
    padding := 0;
    ghost var a := w.Now();
    ok := EncodeTrailer(w);
    if !ok {
      return;
    }
    ghost var c, left := w.Now(), if w.bitsLeft < 16 then w.bitsLeft else 0;
    ExtendsMeans(a, c, TRAILER);
    ZeroKept(a.bytes, c.bytes, a.used, c.used);
    TrailerBits();
    FitsShift(a, c, TRAILER);
    ok := w.FinalFlush();
    if !ok {
      return;
    }
    ghost var e, used := w.unmuxed[..], w.bytesUsed;
    ZeroKept(c.bytes, e, c.used, used);
    StoredIs(w);
    StoredWithin(w, c.contents, left);
    RoundedHolds(e, used, c.contents, left);
    RoundUp4Within(used, 504 * w.frameBlockCount);
    padding := left + 8 * (RoundUp4(used) - used);
    w.bytesUsed := RoundUp4(w.bytesUsed);
  }

  /** What fits now is what fitted before, counting the bits in between. */
  lemma FitsShift(a: State, b: State, x: seq<bool>)
    requires Extends(a, b, x)
    ensures Fits(b, 0) <==> Fits(a, |x|)
    ensures x != [] ==> b.contents != []
  {}

  /** Something has been stored, so the share of blocks bounds it. */
  lemma StoredWithin(w: Writer, contents: seq<bool>, left: nat)
    requires w.Valid() && w.Stored() == contents + Zeros(left) && contents != []
    ensures w.bytesUsed <= 2016 * w.frameBlockCount
  {}

  lemma RoundUp4Within(n: nat, k: nat)
    requires n <= 4 * k
    ensures RoundUp4(n) <= 4 * k
  {
    hide RoundUp4;
    var q := QuartersUp(n);
  }

  /** Making the size a multiple of four only adds zeros. */
  lemma RoundedHolds(bytes: seq<byte>, used: nat, bits: seq<bool>, left: nat)
    requires |bytes| == UNMUXED_SIZE && 8 <= used <= |bytes| && used % 2 == 0 && ZeroFrom(bytes, used) && left < 16
    requires Words(bytes[8..used]) == bits + Zeros(left)
    ensures RoundUp4(used) % 4 == 0 && RoundUp4(used) % 2 == 0 && used <= RoundUp4(used) <= UNMUXED_SIZE
    ensures 0 <= left + 8 * (RoundUp4(used) - used) < 32
    ensures Holds(bytes, RoundUp4(used), bits, left + 8 * (RoundUp4(used) - used))
  {
    hide Words, Zeros, ZeroFrom, Holds, RoundUp4;
    RoundUp4Means(used);
    PaddedOut(bytes, used, RoundUp4(used), bits, left);
  }

  lemma RoundUp4Means(n: nat)
    requires n % 2 == 0 && n <= UNMUXED_SIZE
    ensures n <= RoundUp4(n) <= UNMUXED_SIZE && RoundUp4(n) % 4 == 0 && RoundUp4(n) % 2 == 0
    ensures RoundUp4(n) == n || RoundUp4(n) == n + 2
  {
    hide RoundUp4;
    var h, q := n / 2, QuartersUp(n);
    TwiceHalf(n, h);
    NextMultiple(n, h, q);
    MultipleOf4(q);
  }

  function QuartersUp(n: nat): (q: nat)
    ensures 4 * q <= n + 3 < 4 * q + 4 && RoundUp4(n) == 4 * q
  {
    (n + 3) / 4
  }

  lemma TwiceHalf(n: nat, h: nat)
    requires n % 2 == 0 && h == n / 2
    ensures n == 2 * h
  {}

  lemma NextMultiple(n: nat, h: nat, q: nat)
    requires n == 2 * h && 4 * q <= n + 3 < 4 * q + 4 && n <= UNMUXED_SIZE
    ensures 4 * q == n || 4 * q == n + 2
    ensures 4 * q <= UNMUXED_SIZE
  {}

  lemma MultipleOf4(q: nat)
    ensures 4 * q % 4 == 0 && 4 * q % 2 == 0
  {
    hide *;
    QuotientIs(4 * q, q, 0, 4);
    QuotientIs(4 * q, 2 * q, 0, 2);
  }

  /** The end marker: 0x1FF in place of a first coefficient, and an end code. */
  method EncodeTrailer(w: Writer) returns (ok: bool)
    requires w.Valid()
    modifies w, w.unmuxed
    ensures ok ==> w.Valid() && Extends(old(w.Now()), w.Now(), TRAILER)
    ensures !ok ==> !old(Fits(w.Now(), 12))
  {
    hide BitsOf, Low, Extends, Pow2, Fits, Writer.Contents, Writer.Now;
    ghost var a := w.Now();
    TrailerBits();
    ok := w.EncodeBits(10, 0x1FF);
    if !ok {
      TooMuch(a, 10, 12);
      return;
    }
    ghost var b := w.Now();
    ok := w.EncodeBits(2, 2);
    if !ok {
      TooMuchLater(a, b, BitsOf(0x1FF, 10), 2, 12);
      return;
    }
    ExtendsTwice(a, b, w.Now(), BitsOf(0x1FF, 10), BitsOf(2, 2));
  }

  lemma TrailerBits()
    ensures 0x1FF < Pow2(10) && |BitsOf(0x1FF, 10)| == 10 && 2 < Pow2(2)
    ensures TRAILER == BitsOf(0x1FF, 10) + BitsOf(2, 2) && BitsOf(2, 2) == END_BITS && |TRAILER| == 12
  {
    EndIsTwo();
    TenBits(0x1FF);
    TrailerLength();
    hide Pow2, BitsOf;
  }

  lemma ExtendsMeans(a: State, b: State, bits: seq<bool>)
    requires Extends(a, b, bits)
    ensures b.contents == a.contents + bits && b.blocks == a.blocks && a.used <= b.used
      && Around(a.bytes, b.bytes, b.used)
  {}

  lemma StoredIs(w: Writer)
    requires w.Shape()
    ensures w.Stored() == Words(w.unmuxed[8..w.bytesUsed])
  {}

  lemma PaddedOut(bytes: seq<byte>, used: nat, rounded: nat, bits: seq<bool>, left: nat)
    requires 8 <= used <= rounded <= |bytes| && used % 2 == 0 && ZeroFrom(bytes, used)
    requires rounded == used || rounded == used + 2
    requires Words(bytes[8..used]) == bits + Zeros(left)
    ensures Holds(bytes, rounded, bits, left + 8 * (rounded - used))
  {
    hide Words, Zeros, ZeroFrom;
    if rounded > used {
      NextAreZero(bytes, used);
      ZeroWord(bytes[8..used]);
      ZerosJoin(bits, left, 16);
    }
  }

  lemma NextAreZero(bytes: seq<byte>, used: nat)
    requires 8 <= used && used + 2 <= |bytes| && ZeroFrom(bytes, used)
    ensures bytes[8..used + 2] == bytes[8..used] + [0, 0]
  {}

  // ----- the whole frame

  /** Size in 32-byte units, an unknown constant, scale and version. */
  function Header(blocksUsed: nat, quantScale: nat): (h: seq<byte>)
    ensures |h| == 8
  {
    [blocksUsed % 0x100, blocksUsed / 0x100 % 0x100, 0x00, 0x38]
    + [quantScale % 0x100, quantScale / 0x100 % 0x100, 0x02, 0x00]
  }

  method WriteHeader(w: Writer, blocksUsed: nat, quantScale: nat, ghost bits: seq<bool>, ghost padding: nat)
    requires w.Shape() && Holds(w.unmuxed[..], w.bytesUsed, bits, padding)
    modifies w.unmuxed
    ensures Holds(w.unmuxed[..], w.bytesUsed, bits, padding)
    ensures w.unmuxed[..8] == Header(blocksUsed, quantScale)
  {
    hide Words, Zeros;
    ghost var before := w.unmuxed[8..w.bytesUsed];
    w.unmuxed[0x000] := blocksUsed % 0x100;
    w.unmuxed[0x001] := blocksUsed / 0x100 % 0x100;
    w.unmuxed[0x002] := 0x00;
    w.unmuxed[0x003] := 0x38;
    w.unmuxed[0x004] := quantScale % 0x100;
    w.unmuxed[0x005] := quantScale / 0x100 % 0x100;
    w.unmuxed[0x006] := 0x02;
    w.unmuxed[0x007] := 0x00;
    assert w.unmuxed[8..w.bytesUsed] == before;
  }

  /** A frame whose bits fit the frame's share of blocks. */
  ghost predicate FrameFits(t: seq<int>, d: Size, blocks: nat) {
    IsFrame(t, d) && 8 + WordBytes(|FrameBits(t, d)|) <= UNMUXED_SIZE
      && 8 + WordBytes(|FrameBits(t, d)|) <= 2016 * blocks
  }

  /** Whatever shedding leaves fits. */
  ghost predicate Affordable(s: seq<int>, d: Size, threshold: nat, blocks: nat) {
    forall t, m, accum :: IsRound(s, t, d, threshold, m, accum) && accum <= threshold ==> FrameFits(t, d, blocks)
  }

  /** `encode_frame_str` behind the transform.  `left` are the coefficients
      after shedding, `m` the number of its last pass.  The program aborts
      just when the bits of what is left do not fit. */
  method EncodeFrame(w: Writer, encodingMap: array<word32>, coefs: array<int>, d: Size)
    returns (ok: bool, blocksUsed: nat, ghost left: seq<int>, ghost m: nat, ghost accum: nat, ghost padding: nat)
    requires w.Shape() && w.bitsLeft == 16 && w.bitsValue == 0
    requires MapReady(encodingMap[..]) && encodingMap as object != w.unmuxed
    requires coefs as object != w.unmuxed && coefs as object != encodingMap
    requires IsFrame(coefs[..], d) && Overhead(d) <= COUNTS_PER_BLOCK * w.frameBlockCount
    modifies w, w.unmuxed, coefs
    ensures IsRound(old(coefs[..]), left, d, COUNTS_PER_BLOCK * old(w.frameBlockCount), m, accum)
    ensures accum <= COUNTS_PER_BLOCK * old(w.frameBlockCount) && IsFrame(left, d)
    ensures ok <==> FrameFits(left, d, old(w.frameBlockCount))
    ensures ok ==>
      && w.Shape() && w.bitsLeft == 16 && w.bitsValue == 0 && w.frameBlockCount == old(w.frameBlockCount)
      && w.bytesUsed % 4 == 0 && w.bytesUsed <= 2016 * w.frameBlockCount && padding < 32
      && Holds(w.unmuxed[..], w.bytesUsed, FrameBits(left, d), padding)
      && blocksUsed == RoundUp16(Hwords(left, d, Blocks(d)) + 2) / 16
      && w.unmuxed[..8] == Header(blocksUsed, 1)
  {
    hide IsRound, Overhead, FrameFits, FrameBits, Holds, Hwords, Blocks, IsFrame, Fits, CodedUpTo, MapReady,
      Header, Writer.Contents, Low, RoundUp16, ZeroFrom, CodedBits, Extends, Words;
    blocksUsed, padding := 0, 0;
    w.BeginFrame();
    accum, m := ShedValues(coefs, d, w.frameBlockCount);
    left := coefs[..];
    RoundFrames(old(coefs[..]), left, d, COUNTS_PER_BLOCK * w.frameBlockCount, m, accum);
    ghost var a := w.Now();
    EmptyFits(w, left, d);
    var hwords;
    ok, hwords := CodeBlocks(w, encodingMap, coefs, d);
    if !ok {
      TooMuch(a, |CodedBits(left, d, Blocks(d))|, |CodedBits(left, d, Blocks(d))| + 12);
      return;
    }
    AfterBlocks(left, coefs[..], d, a, w.Now(), hwords);
    ok, padding := EndFrame(w);
    if !ok {
      return;
    }
    blocksUsed := RoundUp16(RoundUp16(hwords + 2)) / 16;
    RoundedTwice(hwords + 2);
    WriteHeader(w, blocksUsed, 1, FrameBits(left, d), padding);
  }

  lemma RoundedTwice(n: nat)
    ensures RoundUp16(RoundUp16(n)) == RoundUp16(n)
  {}

  /** With nothing written yet, it is the frame's own bits that fit or not. */
  lemma EmptyFits(w: Writer, t: seq<int>, d: Size)
    requires w.Valid() && w.Contents() == [] && IsFrame(t, d)
    requires w.unmuxed.Length == UNMUXED_SIZE && forall k :: 0 <= k < UNMUXED_SIZE ==> w.unmuxed[k] == 0
    ensures Fits(w.Now(), |CodedBits(t, d, Blocks(d))| + 12) <==> FrameFits(t, d, w.frameBlockCount)
    ensures w.Now().contents == [] && ZeroFrom(w.Now().bytes, w.Now().used) && w.Now().blocks == w.frameBlockCount
  {
    hide CodedBits, Blocks, IsFrame, Low;
    TrailerLength();
  }

  lemma AfterBlocks(s: seq<int>, t: seq<int>, d: Size, a: State, b: State, hwords: nat)
    requires IsFrame(s, d) && CodedUpTo(s, t, d, Blocks(d), a, b, hwords)
    requires a.contents == [] && ZeroFrom(a.bytes, a.used)
    ensures Fits(b, 12) <==> Fits(a, |CodedBits(s, d, Blocks(d))| + 12)
    ensures b.contents + TRAILER == FrameBits(s, d) && ZeroFrom(b.bytes, b.used)
    ensures b.blocks == a.blocks && hwords == Hwords(s, d, Blocks(d))
  {
    hide CodedBits, Blocks, IsFrame, ZeroFrom, Hwords, Around, BitsOf;
    ZeroKept(a.bytes, b.bytes, a.used, b.used);
    assert [] + CodedBits(s, d, Blocks(d)) == CodedBits(s, d, Blocks(d));
  }

  /** A player that reads the words of the finished frame recovers every
      quantised block. */
  lemma FrameDecodes(bytes: seq<byte>, used: nat, t: seq<int>, d: Size, padding: nat)
    requires IsFrame(t, d) && Holds(bytes, used, FrameBits(t, d), padding)
    ensures ReadBlocks(Words(bytes[8..used]), Blocks(d))
         == Some((QuantisedBlocks(t, d, Blocks(d)), TRAILER + Zeros(padding)))
  {
    hide FrameBits, Blocks, Words, ReadBlocks, QuantisedBlocks;
    FrameReads(t, d, Zeros(padding));
  }
}
