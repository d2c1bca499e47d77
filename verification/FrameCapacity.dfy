/** When a frame fits its share of sectors: the size of the worst frame there
    is, and that it is reached. */
module FrameCapacity {
  import opened Arithmetic
  import opened BitStrings
  import opened BitWriter
  import opened HuffmanCodes
  import opened FrameBudget
  import opened MdecBlock
  import opened FrameLayout
  import opened FrameShedder
  import opened FrameCoder
  import opened FrameEncoder

  // ----- the condition

  function Least(a: int, b: int): int {
    if a < b then a else b
  }

  /** The most bits that a frame of `n` macroblocks takes in `b` sectors: all of
      its coefficients escaped, as many as the budget leaves. */
  function WorstBits(n: nat, b: nat): int {
    72 * n + 22 * Least(378 * n, COUNTS_PER_BLOCK * b - 12 * n) + 12
  }

  /** What a caller can check before the first frame. */
  predicate ShareFits(d: Size, b: nat)
    requires Overhead(d) <= COUNTS_PER_BLOCK * b
  {
    var bytes := 8 + WordBytes(WorstBits(d.w * d.h, b));
    bytes <= UNMUXED_SIZE && bytes <= 2016 * b
  }

  // ----- it is enough

  lemma {:induction false} NonZeroesBound(cs: seq<int>)
    ensures NonZeroes(cs) <= |cs|
  {
    if cs != [] { NonZeroesBound(cs[..|cs| - 1]); }
  }

  /** How many coefficients a frame is left with. */
  lemma KeptCount(s: seq<int>, t: seq<int>, d: Size, b: nat, m: nat, accum: int)
    requires IsRound(s, t, d, COUNTS_PER_BLOCK * b, m, accum) && accum <= COUNTS_PER_BLOCK * b
    ensures IsFrame(s, d) && IsFrame(t, d)
    ensures NonZeroes(FrameAcs(t, d)) == Least(NonZeroes(FrameAcs(s, d)), COUNTS_PER_BLOCK * b - 12 * (d.w * d.h))
    ensures NonZeroes(FrameAcs(s, d)) <= 378 * (d.w * d.h)
  {
    hide IsRound, NonZeroes, Acs;
    RoundFrames(s, t, d, COUNTS_PER_BLOCK * b, m, accum);
    ShedOnBudget(s, t, d, COUNTS_PER_BLOCK * b, m, accum);
    NonZeroesBound(FrameAcs(s, d));
    AcsSize(s, d, Shedding, Blocks(d));
  }

  lemma OutcomeWithin(s: seq<int>, t: seq<int>, d: Size, b: nat, m: nat, accum: int)
    requires IsRound(s, t, d, COUNTS_PER_BLOCK * b, m, accum) && accum <= COUNTS_PER_BLOCK * b
    requires IsFrame(s, d) && FrameThresholded(s, d)
    ensures IsFrame(t, d) && |FrameBits(t, d)| <= WorstBits(d.w * d.h, b)
  {
    hide IsRound, FrameThresholded, NonZeroes, FrameAcs, FrameBits;
    KeptCount(s, t, d, b, m, accum);
    ShedKeepsThreshold(s, t, d, COUNTS_PER_BLOCK * b, m, accum);
    FrameLength(t, d);
  }

  /** Every thresholded frame fits where the worst one does. */
  lemma FitsForSure(s: seq<int>, t: seq<int>, d: Size, b: nat, m: nat, accum: int)
    requires IsRound(s, t, d, COUNTS_PER_BLOCK * b, m, accum) && accum <= COUNTS_PER_BLOCK * b
    requires IsFrame(s, d) && FrameThresholded(s, d)
    requires Overhead(d) <= COUNTS_PER_BLOCK * b && ShareFits(d, b)
    ensures FrameFits(t, d, b)
  {
    hide IsRound, FrameThresholded, FrameBits, WorstBits;
    OutcomeWithin(s, t, d, b, m, accum);
    WordBytesGrow(|FrameBits(t, d)|, WorstBits(d.w * d.h, b));
  }

  lemma WordBytesGrow(m: nat, n: nat)
    requires m <= n
    ensures WordBytes(m) <= WordBytes(n)
  {}

  // ----- shedding always has an outcome

  /** A frame with the first coefficients of `s` and the others from `cs`. */
  function Rebuilt(s: seq<int>, d: Size, cs: seq<int>): (t: seq<int>)
    requires IsFrame(s, d) && |cs| == 63 * Blocks(d)
    ensures IsFrame(t, d)
  {
    seq(64 * Blocks(d), p requires 0 <= p < 64 * Blocks(d) => RebuiltAt(s, d, cs, p))
  }

  function RebuiltAt(s: seq<int>, d: Size, cs: seq<int>, p: nat): int
    requires IsFrame(s, d) && |cs| == 63 * Blocks(d) && p < 64 * Blocks(d)
  {
    SlotVisited(d, Shedding, p / 64);
    if p % 64 == 0 then s[p] else cs[63 * VisitOfSlot(d, Shedding, p / 64) + p % 64 - 1]
  }

  lemma RebuiltBlock(s: seq<int>, d: Size, cs: seq<int>, k: nat)
    requires IsFrame(s, d) && |cs| == 63 * Blocks(d) && k < Blocks(d)
    ensures var t := Rebuilt(s, d, cs);
      && BlockAt(t, d, Shedding, k)[0] == BlockAt(s, d, Shedding, k)[0]
      && |AcAt(t, d, Shedding, k)| == 63
      && forall j :: 0 <= j < 63 ==> AcAt(t, d, Shedding, k)[j] == cs[63 * k + j]
  {
    hide VisitOfSlot, At, Blocks;
    var t, at := Rebuilt(s, d, cs), At(d, Shedding, k);
    BlockParts(s, d, Shedding, k);
    BlockParts(t, d, Shedding, k);
    VisitOfPlace(d, Shedding, k);
    forall j | 0 <= j < 63
      ensures AcAt(t, d, Shedding, k)[j] == cs[63 * k + j]
    {
      assert (at + 1 + j) / 64 == at / 64 && (at + 1 + j) % 64 == j + 1;
      assert AcAt(t, d, Shedding, k)[j] == t[at + 1 + j];
    }
  }

  lemma RebuiltAcs(s: seq<int>, d: Size, cs: seq<int>)
    requires IsFrame(s, d) && |cs| == 63 * Blocks(d)
    ensures FrameAcs(Rebuilt(s, d, cs), d) == cs && FirstsKept(s, Rebuilt(s, d, cs), d)
  {
    hide Rebuilt, AcAt, BlockAt, Blocks, Acs;
    var t := Rebuilt(s, d, cs);
    AcsSize(t, d, Shedding, Blocks(d));
    forall p | 0 <= p < |cs|
      ensures FrameAcs(t, d)[p] == cs[p]
    {
      RebuiltBlock(s, d, cs, p / 63);
      AcsIndex(t, d, Shedding, Blocks(d), p / 63, p % 63);
      assert p == 63 * (p / 63) + p % 63;
    }
    forall k | 0 <= k < Blocks(d)
      ensures SameFirst(s, t, d, k)
    {
      RebuiltBlock(s, d, cs, k);
    }
  }

  /** Where the blocks' own share fits, shedding ends in some frame. */
  lemma OutcomeExists(s: seq<int>, d: Size, threshold: nat) returns (t: seq<int>, m: nat, accum: nat)
    requires IsFrame(s, d) && Overhead(d) <= threshold
    ensures IsRound(s, t, d, threshold, m, accum) && accum <= threshold
  {
    hide RoundAt, Rebuilt, Acs, FirstsKept, Blocks;
    var cs := FrameAcs(s, d);
    m := FirstEnd(cs, Overhead(d), threshold, 0);
    var r := RoundAt(cs, Overhead(d), threshold, m);
    AcsSize(s, d, Shedding, Blocks(d));
    RoundSize(cs, Overhead(d), threshold, m);
    t, accum := Rebuilt(s, d, r.cs), r.accum;
    RebuiltFrame(s, d, r.cs);
    RebuiltAcs(s, d, r.cs);
  }

  lemma RoundSize(cs: seq<int>, overhead: nat, threshold: nat, m: nat)
    ensures |RoundAt(cs, overhead, threshold, m).cs| == |cs|
  {}

  lemma RebuiltFrame(s: seq<int>, d: Size, cs: seq<int>)
    requires IsFrame(s, d) && |cs| == 63 * Blocks(d)
    ensures IsFrame(Rebuilt(s, d, cs), d)
  {}

  // ----- it is needed

  /** A value beyond the table's levels is escaped. */
  lemma EscapeLength(run: nat, v: int)
    requires run < 64 && 40 < v <= 0x1FF
    ensures RunWord(run, v) < 0x1_0000 && |Emitted(RunWord(run, v))| == 22
  {
    hide RowAt, RowOf, Emitted, RowBits, Grouped, BitsOf;
    var w := RunWord(run, v);
    assert w % 0x400 == v;
    var i, sign := EmittedForms(w);
    if i < ROWS {
      RowFacts(i);
      WordParts(RowAt(i), sign, w);
      assert false;
    }
    EscapeBitsLength(w);
  }

  lemma EscapeBitsLength(w: nat)
    ensures |EscapeBits(w)| == 22
  {}

  predicate AllEscaped(zs: seq<int>) {
    forall i :: 0 <= i < |zs| ==> zs[i] == 0 || 40 < zs[i] <= 0x1FF
  }

  lemma {:induction false} EscapedRuns(zs: seq<int>, zeroes: nat)
    requires zeroes + |zs| <= 63 && AllEscaped(zs)
    ensures |CodeWords(Runs(zs, zeroes))| == 22 * |Runs(zs, zeroes)|
    decreases |zs|
  {
    hide Emitted, RunWord;
    if zs != [] {
      if zs[0] == 0 {
        EscapedRuns(zs[1..], zeroes + 1);
      } else {
        EscapeLength(zeroes, zs[0]);
        EscapedRuns(zs[1..], 0);
        assert Runs(zs, zeroes)[1..] == Runs(zs[1..], 0);
      }
    }
  }

  const COARSE := 8300

  /** Large enough to be escaped at every quantisation step. */
  lemma CoarseIsEscaped(i: nat)
    requires 0 < i < 64
    ensures 40 < QuantisedAt(COARSE, i) <= 0x1FF && QuantDec(i) <= COARSE
  {
    StepsBounded(i);
    hide QuantDec;
    QuotientAtLeast(COARSE, 41, QuantDec(i));
  }

  lemma StepsBounded(i: nat)
    requires 0 < i < 64
    ensures 16 <= QuantDec(i) <= 83
  {}

  /** A block of coefficients that are all escaped or zero, the first zero. */
  predicate Coarse(b: seq<int>)
    requires IsBlock(b)
  {
    forall i :: 0 <= i < 64 ==> CoarseAt(b[i], i)
  }

  predicate CoarseAt(v: int, i: nat) {
    v == 0 || (i > 0 && v == COARSE)
  }

  lemma CoarseBlock(b: seq<int>)
    requires IsBlock(b) && Coarse(b)
    ensures Thresholded(b) && |BlockBits(Quantised(b))| == 12 + 22 * NonZeroes(b[1..])
  {
    hide QuantDec, QuantisedAt, CodeWords, Runs, NonZeroes, ZagZig, BitsOf;
    forall i | 0 <= i < 64
      ensures ThresholdedAt(b[i], i)
    {
      assert CoarseAt(b[i], i);
      if i > 0 { CoarseIsEscaped(i); }
    }
    CoarseScan(b);
    WordsPerBlock(b);
    EscapedRuns(Scan(Quantised(b)), 0);
  }

  lemma CoarseScan(b: seq<int>)
    requires IsBlock(b) && Coarse(b)
    ensures AllEscaped(Scan(Quantised(b)))
  {
    hide QuantDec, QuantisedAt, ZagZig;
    var q := Quantised(b);
    forall k | 0 <= k < 63
      ensures Scan(q)[k] == 0 || 40 < Scan(q)[k] <= 0x1FF
    {
      InScan(k + 1);
      var i := ZagZig(k + 1);
      assert CoarseAt(b[i], i);
      CoarseIsEscaped(i);
      ZeroStays(i);
    }
  }

  lemma ZeroStays(i: nat)
    ensures QuantisedAt(0, i) == 0
  {}

  predicate FrameCoarse(coefs: seq<int>, d: Size)
    requires IsFrame(coefs, d)
  {
    forall k :: 0 <= k < Blocks(d) ==> CoarseVisit(coefs, d, k)
  }

  predicate CoarseVisit(coefs: seq<int>, d: Size, k: nat)
    requires IsFrame(coefs, d) && k < Blocks(d)
  {
    Coarse(BlockAt(coefs, d, Coding, k))
  }

  lemma ShedKeepsCoarse(s: seq<int>, t: seq<int>, d: Size, threshold: nat, m: nat, accum: int)
    requires IsRound(s, t, d, threshold, m, accum) && accum <= threshold
    requires IsFrame(s, d) && FrameCoarse(s, d)
    ensures IsFrame(t, d) && FrameCoarse(t, d)
  {
    hide IsRound, BlockAt, Blocks;
    RoundFrames(s, t, d, threshold, m, accum);
    forall k | 0 <= k < Blocks(d)
      ensures CoarseVisit(t, d, k)
    {
      assert CoarseVisit(s, d, k);
      BlockThinned(s, t, d, threshold, m, accum, k);
      ThinnedCoarse(BlockAt(s, d, Coding, k), BlockAt(t, d, Coding, k), 8 * m);
    }
  }

  lemma ThinnedCoarse(b: seq<int>, c: seq<int>, limit: int)
    requires Thinned(b, c, limit) && Coarse(b)
    ensures Coarse(c)
  {
    forall i | 0 <= i < 64
      ensures CoarseAt(c[i], i)
    {
      assert CoarseAt(b[i], i);
    }
  }

  /** No bit of the bound can be spared for such a frame. */
  lemma {:induction false} CoarseCoded(coefs: seq<int>, d: Size, n: nat)
    requires IsFrame(coefs, d) && n <= Blocks(d) && FrameCoarse(coefs, d)
    ensures |CodedBits(coefs, d, n)| == 12 * n + 22 * Count(coefs, d, Coding, n)
    decreases n
  {
    hide BlockBits, Coarse, BlockAt, Blocks, NonZeroes, Quantised, AcAt;
    if n > 0 {
      CoarseCoded(coefs, d, n - 1);
      assert CoarseVisit(coefs, d, n - 1);
      CoarseBlock(BlockAt(coefs, d, Coding, n - 1));
      BlockParts(coefs, d, Coding, n - 1);
    }
  }

  lemma CoarseLength(t: seq<int>, d: Size)
    requires IsFrame(t, d) && FrameCoarse(t, d)
    ensures |FrameBits(t, d)| == 72 * (d.w * d.h) + 22 * NonZeroes(FrameAcs(t, d)) + 12
  {
    hide CodedBits, NonZeroes, Acs, Count, FrameCoarse;
    CoarseCoded(t, d, Blocks(d));
    CountsAgree(t, d, d.w * d.h);
    CountIs(t, d, Shedding, Blocks(d));
    TrailerLength();
  }

  lemma CoarseThresholded(s: seq<int>, d: Size)
    requires IsFrame(s, d) && FrameCoarse(s, d)
    ensures FrameThresholded(s, d)
  {
    hide Coarse, Thresholded, BlockAt, Blocks;
    forall k | 0 <= k < Blocks(d)
      ensures ThresholdedVisit(s, d, k)
    {
      assert CoarseVisit(s, d, k);
      CoarseBlock(BlockAt(s, d, Coding, k));
    }
  }

  /** Every coefficient but the blocks' first. */
  function FullFrame(d: Size): (s: seq<int>)
    ensures IsFrame(s, d)
  {
    seq(64 * Blocks(d), p requires 0 <= p < 64 * Blocks(d) => if p % 64 == 0 then 0 else COARSE)
  }

  lemma FullBlock(d: Size, o: Order, k: nat)
    requires k < Blocks(d)
    ensures var b := BlockAt(FullFrame(d), d, o, k);
      b[0] == 0 && forall i :: 1 <= i < 64 ==> b[i] == COARSE
  {
    hide Blocks, Slot;
    PlacesApart(d, o, k, k);
    var b, at := BlockAt(FullFrame(d), d, o, k), At(d, o, k);
    forall i | 0 <= i < 64
      ensures b[i] == if i == 0 then 0 else COARSE
    {
      assert (at + i) % 64 == i;
    }
  }

  lemma FullIsCoarse(d: Size)
    ensures FrameCoarse(FullFrame(d), d)
  {
    hide Blocks, BlockAt, FullFrame;
    forall k | 0 <= k < Blocks(d)
      ensures CoarseVisit(FullFrame(d), d, k)
    {
      FullBlock(d, Coding, k);
    }
  }

  lemma FullCount(d: Size)
    ensures NonZeroes(FrameAcs(FullFrame(d), d)) == 378 * (d.w * d.h)
  {
    hide NonZeroes, BlockAt, FullFrame, Acs, AcAt;
    var s := FullFrame(d);
    var cs := FrameAcs(s, d);
    AcsSize(s, d, Shedding, Blocks(d));
    forall p | 0 <= p < |cs|
      ensures cs[p] != 0
    {
      FullBlock(d, Shedding, p / 63);
      BlockParts(s, d, Shedding, p / 63);
      AcsIndex(s, d, Shedding, Blocks(d), p / 63, p % 63);
      assert p == 63 * (p / 63) + p % 63;
    }
    AllNonZero(cs);
  }

  lemma {:induction false} AllNonZero(cs: seq<int>)
    requires forall i :: 0 <= i < |cs| ==> cs[i] != 0
    ensures NonZeroes(cs) == |cs|
  {
    if cs != [] { AllNonZero(cs[..|cs| - 1]); }
  }

  /** A frame that takes the most bits there are. */
  lemma WorstReached(d: Size, b: nat) returns (s: seq<int>, t: seq<int>, m: nat, accum: nat)
    requires Overhead(d) <= COUNTS_PER_BLOCK * b
    ensures IsFrame(s, d) && FrameThresholded(s, d)
    ensures IsRound(s, t, d, COUNTS_PER_BLOCK * b, m, accum) && accum <= COUNTS_PER_BLOCK * b
    ensures IsFrame(t, d) && |FrameBits(t, d)| == WorstBits(d.w * d.h, b)
  {
    hide IsRound, FrameCoarse, FrameThresholded, NonZeroes, FrameAcs, FrameBits, FullFrame, Overhead;
    s := FullFrame(d);
    FullIsCoarse(d);
    FullCount(d);
    CoarseThresholded(s, d);
    t, m, accum := OutcomeExists(s, d, COUNTS_PER_BLOCK * b);
    KeptCount(s, t, d, b, m, accum);
    ShedKeepsCoarse(s, t, d, COUNTS_PER_BLOCK * b, m, accum);
    CoarseLength(t, d);
  }

  /** All thresholded frames of a size fit their share of blocks just when the
      worst one does. */
  lemma CapacityExactly(d: Size, b: nat, threshold: nat)
    requires Overhead(d) <= threshold && threshold == COUNTS_PER_BLOCK * b
    ensures (forall s :: IsFrame(s, d) && FrameThresholded(s, d) ==> Affordable(s, d, threshold, b))
       <==> ShareFits(d, b)
  {
    hide IsRound, FrameThresholded, FrameBits, Overhead, WorstBits, IsFrame;
    if ShareFits(d, b) {
      forall s | IsFrame(s, d) && FrameThresholded(s, d)
        ensures Affordable(s, d, threshold, b)
      {
        forall t, m: nat, accum | IsRound(s, t, d, threshold, m, accum) && accum <= threshold
          ensures FrameFits(t, d, b)
        {
          FitsForSure(s, t, d, b, m, accum);
        }
      }
    } else {
      var s, t, m, accum := WorstReached(d, b);
      assert !FrameFits(t, d, b);
      assert !Affordable(s, d, threshold, b);
    }
  }

  // ----- the encoder's own settings

  /** At 320x240 some frame of nine sectors does not fit: shedding meets the
      budget and leaves 36 bytes too many. */
  lemma NineSectorsMayNot() returns (s: seq<int>, t: seq<int>, m: nat, accum: nat)
    ensures var d := Size(20, 15);
      && IsFrame(s, d) && FrameThresholded(s, d)
      && IsRound(s, t, d, COUNTS_PER_BLOCK * 9, m, accum) && accum <= COUNTS_PER_BLOCK * 9
      && !FrameFits(t, d, 9) && IsFrame(t, d) && 8 + WordBytes(|FrameBits(t, d)|) == 2016 * 9 + 36
  {
    hide IsRound, FrameThresholded, FrameBits, IsFrame;
    s, t, m, accum := WorstReached(Size(20, 15), 9);
  }
}
