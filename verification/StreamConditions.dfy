/** What must hold of the frame size and the rate for a whole stream to be
    coded: shedding has to end and its outcome has to fit, for every frame. */
module StreamConditions {
  import opened Arithmetic
  import opened FrameBudget
  import opened MdecBlock
  import opened FrameLayout
  import opened FrameShedder
  import opened FrameCoder
  import opened FrameTransform
  import opened FrameEncoder
  import opened FrameCapacity
  import opened FrameScheduler

  // ----- what becomes of a frame

  /** Shedding a frame of coefficients `x` meets the budget of its sectors
      after some pass. */
  ghost predicate SheddingEnds(x: seq<int>, d: Size, blocks: nat)
    requires IsFrame(x, d)
  {
    EndsWithin(FrameAcs(FrameFinished(x), d), Overhead(d), COUNTS_PER_BLOCK * blocks)
  }

  /** `left` is what the passes leave of it. */
  ghost predicate Leaves(x: seq<int>, d: Size, blocks: nat, left: seq<int>) {
    IsFrame(x, d) && exists m: nat, accum: nat :: IsOutcome(x, d, blocks, left, m, accum)
  }

  ghost predicate IsOutcome(x: seq<int>, d: Size, blocks: nat, left: seq<int>, m: nat, accum: int) {
    IsRound(FrameFinished(x), left, d, COUNTS_PER_BLOCK * blocks, m, accum) && accum <= COUNTS_PER_BLOCK * blocks
  }

  /** The frame can be coded within its sectors. */
  ghost predicate Fitting(x: seq<int>, d: Size, blocks: nat) {
    forall left :: Leaves(x, d, blocks, left) ==> FrameFits(left, d, blocks)
  }

  /** The passes leave one frame and no other. */
  lemma LeavesOne(x: seq<int>, d: Size, blocks: nat, a: seq<int>, b: seq<int>)
    requires Leaves(x, d, blocks, a) && Leaves(x, d, blocks, b)
    ensures a == b
  {
    hide IsRound, FrameFinished;
    var s := FrameFinished(x);
    var m: nat, i: nat :| IsOutcome(x, d, blocks, a, m, i);
    var n: nat, j: nat :| IsOutcome(x, d, blocks, b, n, j);
    SamePass(s, a, b, d, COUNTS_PER_BLOCK * blocks, m, i, n, j);
    RoundFrames(s, a, d, COUNTS_PER_BLOCK * blocks, m, i);
    RoundFrames(s, b, d, COUNTS_PER_BLOCK * blocks, n, j);
    SameParts(s, a, b, d);
  }

  lemma SamePass(s: seq<int>, a: seq<int>, b: seq<int>, d: Size, threshold: nat, m: nat, i: int, n: nat, j: int)
    requires IsRound(s, a, d, threshold, m, i) && i <= threshold
    requires IsRound(s, b, d, threshold, n, j) && j <= threshold
    ensures m == n && FrameAcs(a, d) == FrameAcs(b, d)
  {
    hide RoundAt, FrameAcs, FirstsKept;
  }

  lemma SameParts(s: seq<int>, a: seq<int>, b: seq<int>, d: Size)
    requires IsFrame(s, d) && IsFrame(a, d) && IsFrame(b, d) && FrameAcs(a, d) == FrameAcs(b, d)
    requires FirstsKept(s, a, d) && FirstsKept(s, b, d)
    ensures a == b
  {
    hide At, AcAt, BlockAt, Blocks, Acs, VisitOfSlot;
    forall p | 0 <= p < |a|
      ensures a[p] == b[p]
    {
      var k := VisitOfSlot(d, Shedding, p / 64);
      SlotVisited(d, Shedding, p / 64);
      BlockParts(a, d, Shedding, k);
      BlockParts(b, d, Shedding, k);
      assert p == At(d, Shedding, k) + p % 64;
      if p % 64 == 0 {
        assert SameFirst(s, a, d, k) && SameFirst(s, b, d, k);
      } else {
        AcsIndex(a, d, Shedding, Blocks(d), k, p % 64 - 1);
        AcsIndex(b, d, Shedding, Blocks(d), k, p % 64 - 1);
        assert a[p] == AcAt(a, d, Shedding, k)[p % 64 - 1];
        assert b[p] == AcAt(b, d, Shedding, k)[p % 64 - 1];
      }
    }
  }

  // ----- shedding ends

  lemma SheddingEndsWhen(x: seq<int>, d: Size, blocks: nat)
    requires IsFrame(x, d)
    ensures SheddingEnds(x, d, blocks) <==> Overhead(d) <= COUNTS_PER_BLOCK * blocks
  {
    hide RoundAt, FrameAcs, Overhead, FrameFinished;
    FinishedFrame(x, d);
    EndsExactlyWhen(FrameAcs(FrameFinished(x), d), Overhead(d), COUNTS_PER_BLOCK * blocks);
  }

  lemma FinishedFrame(x: seq<int>, d: Size)
    requires IsFrame(x, d)
    ensures IsFrame(FrameFinished(x), d)
  {}

  /** The blocks' own share has to fit the sectors of every frame, and it does
      if it fits the rate rounded down. */
  lemma ShareOfEveryFrame(d: Size, base: nat, den: nat)
    requires den > 0
    ensures (forall f: nat :: f > 0 ==> Overhead(d) <= COUNTS_PER_BLOCK * SectorsOf(base, den, f))
       <==> Overhead(d) <= COUNTS_PER_BLOCK * (base / den)
  {
    hide Overhead, SectorsOf;
    FirstIsFloor(base, den);
    forall f: nat | f > 0
      ensures SectorsOf(base, den, f) >= base / den
    {
      FloorOrCeiling(base, den, f);
    }
  }

  /** Shedding ends for every frame of every stream just when the blocks' share
      fits the rate rounded down. */
  lemma StreamEndsExactlyWhen(d: Size, base: nat, den: nat)
    requires den > 0
    ensures (forall f: nat, x :: f > 0 && IsFrame(x, d) ==> FrameEnds(base, den, f, x, d))
       <==> Overhead(d) <= COUNTS_PER_BLOCK * (base / den)
  {
    hide Overhead, SectorsOf, SheddingEnds, IsFrame;
    ShareOfEveryFrame(d, base, den);
    forall f: nat, x | f > 0 && IsFrame(x, d)
      ensures FrameEnds(base, den, f, x, d) <==> Overhead(d) <= COUNTS_PER_BLOCK * SectorsOf(base, den, f)
    {
      SomeSectors(base, den, f);
      SheddingEndsWhen(x, d, SectorsOf(base, den, f));
    }
    var x := SomeFrameOf(d);
  }

  ghost predicate FrameEnds(base: nat, den: nat, f: nat, x: seq<int>, d: Size)
    requires den > 0 && f > 0 && IsFrame(x, d)
  {
    SomeSectors(base, den, f);
    SheddingEnds(x, d, SectorsOf(base, den, f))
  }

  lemma SomeSectors(base: nat, den: nat, f: nat)
    requires den > 0 && f > 0
    ensures SectorsOf(base, den, f) >= 0
  {
    FloorOrCeiling(base, den, f);
  }

  lemma SomeFrameOf(d: Size) returns (x: seq<int>)
    ensures IsFrame(x, d)
  {
    x := FullFrame(d);
  }

  /** Below one sector a frame the first frame gets none, and its shedding
      does not end. */
  lemma StarvedFrame(d: Size, base: nat, den: nat, x: seq<int>)
    requires base < den && d.w > 0 && d.h > 0 && IsFrame(x, d)
    ensures SectorsOf(base, den, 1) == 0 && !SheddingEnds(x, d, 0)
  {
    hide SheddingEnds, SectorsOf;
    FirstIsFloor(base, den);
    QuotientIs(base, 0, base, den);
    SheddingEndsWhen(x, d, 0);
    MulMonotone(1, d.w, d.h);
  }

  /** So it is at 320x240 and 132 frames a second. */
  lemma StarvedAt132(x: seq<int>)
    requires IsFrame(x, Size(20, 15))
    ensures SectorsOf(150 * 7, 8 * 132, 1) == 0 && !SheddingEnds(x, Size(20, 15), 0)
  {
    StarvedFrame(Size(20, 15), 150 * 7, 8 * 132, x);
    hide *;
  }

  /** At 320x240, with seven in eight of 150 sectors a second for video,
      shedding ends at up to 32 frames a second. */
  lemma UpTo32Frames(fps: nat)
    requires fps > 0
    ensures Overhead(Size(20, 15)) <= COUNTS_PER_BLOCK * (150 * 7 / (8 * fps)) <==> fps <= 32
  {
    QuotientAtLeast(150 * 7, 4, 8 * fps);
  }

  // ----- what is left fits

  /** Every frame's coefficients, scaled up again. */
  function Unfinished(s: seq<int>): (x: seq<int>)
    ensures |x| == |s|
  {
    seq(|s|, p requires 0 <= p < |s| => if p % 64 == 0 then 32 * s[p] else 4 * s[p])
  }

  /** Every thresholded frame comes out of some transform. */
  lemma ThresholdedReached(s: seq<int>, d: Size)
    requires IsFrame(s, d) && FrameThresholded(s, d)
    ensures IsFrame(Unfinished(s), d) && FrameFinished(Unfinished(s)) == s
  {
    hide Finished, At, Blocks, BlockAt, QuantDec, VisitOfSlot;
    forall p | 0 <= p < |s|
      ensures FrameFinished(Unfinished(s))[p] == s[p]
    {
      var k := VisitOfSlot(d, Coding, p / 64);
      SlotVisited(d, Coding, p / 64);
      BlockParts(s, d, Coding, k);
      assert ThresholdedVisit(s, d, k);
      assert ThresholdedAt(BlockAt(s, d, Coding, k)[p % 64], p % 64);
      assert s[p] == BlockAt(s, d, Coding, k)[p % 64];
      FinishedReaches(s[p], p % 64);
    }
  }

  /** All frames of a size can be coded in `blocks` sectors just when the worst
      one can. */
  lemma FitsExactly(d: Size, blocks: nat)
    requires Overhead(d) <= COUNTS_PER_BLOCK * blocks
    ensures (forall x :: IsFrame(x, d) ==> Fitting(x, d, blocks)) <==> ShareFits(d, blocks)
  {
    hide Overhead, FrameFinished, IsFrame, ShareFits, FrameFits, FrameThresholded, IsRound, Unfinished;
    if ShareFits(d, blocks) {
      forall x, left | IsFrame(x, d) && Leaves(x, d, blocks, left)
        ensures FrameFits(left, d, blocks)
      {
        FinishedIsThresholded(x, d);
        var m: nat, accum: nat :| IsOutcome(x, d, blocks, left, m, accum);
        FitsForSure(FrameFinished(x), left, d, blocks, m, accum);
      }
    } else {
      var s, t, m, accum := WorstReached(d, blocks);
      WorstDoesNotFit(t, d, blocks);
      ThresholdedReached(s, d);
      assert IsOutcome(Unfinished(s), d, blocks, t, m, accum);
      assert Leaves(Unfinished(s), d, blocks, t);
    }
  }

  lemma WorstDoesNotFit(t: seq<int>, d: Size, b: nat)
    requires Overhead(d) <= COUNTS_PER_BLOCK * b && !ShareFits(d, b)
    requires IsFrame(t, d) && |FrameBits(t, d)| == WorstBits(d.w * d.h, b)
    ensures !FrameFits(t, d, b)
  {
    hide FrameBits, WorstBits, Overhead;
  }

  /** Every frame of every stream can be coded just when the worst frame fits
      the rate rounded down and, unless the rate is whole, rounded up. */
  lemma StreamFitsExactlyWhen(d: Size, base: nat, den: nat)
    requires den > 0 && Overhead(d) <= COUNTS_PER_BLOCK * (base / den)
    ensures (forall f: nat, x :: f > 0 && IsFrame(x, d) ==> FrameFitting(base, den, f, x, d))
       <==> RateFits(d, base, den)
  {
    hide Overhead, SectorsOf, Fitting, IsFrame, ShareFits;
    FirstIsFloor(base, den);
    FitsExactly(d, base / den);
    FitsExactly(d, base / den + 1);
    forall f: nat | f > 0
      ensures SectorsOf(base, den, f) == base / den || (SectorsOf(base, den, f) == base / den + 1 && base % den != 0)
    {
      FloorOrCeiling(base, den, f);
    }
    if base % den != 0 {
      var f := SomeCeiling(base, den);
      if !ShareFits(d, base / den + 1) {
        var x :| IsFrame(x, d) && !Fitting(x, d, base / den + 1);
        assert !FrameFitting(base, den, f, x, d);
      }
    }
    if !ShareFits(d, base / den) {
      var x :| IsFrame(x, d) && !Fitting(x, d, base / den);
      assert !FrameFitting(base, den, 1, x, d);
    }
  }

  ghost predicate FrameFitting(base: nat, den: nat, f: nat, x: seq<int>, d: Size)
    requires den > 0 && f > 0
  {
    SomeSectors(base, den, f);
    Fitting(x, d, SectorsOf(base, den, f))
  }

  predicate RateFits(d: Size, base: nat, den: nat)
    requires den > 0 && Overhead(d) <= COUNTS_PER_BLOCK * (base / den)
  {
    ShareFits(d, base / den) && (base % den != 0 ==> ShareFits(d, base / den + 1))
  }

  /** At 320x240, every frame of eight sectors fits and some frame of nine does
      not. */
  lemma ShareAt320(b: nat)
    requires 4 <= b
    ensures Overhead(Size(20, 15)) <= COUNTS_PER_BLOCK * b && (ShareFits(Size(20, 15), b) <==> b <= 8)
  {}

  /** So at 320x240, among the rates at which shedding ends, it is from 17
      frames a second on that no stream aborts. */
  lemma From17Frames(fps: nat)
    requires 0 < fps <= 32
    ensures Overhead(Size(20, 15)) <= COUNTS_PER_BLOCK * (150 * 7 / (8 * fps))
    ensures RateFits(Size(20, 15), 150 * 7, 8 * fps) <==> fps >= 17
  {
    hide ShareFits, Overhead;
    UpTo32Frames(fps);
    var den := 8 * fps;
    var q, r := 150 * 7 / den, 150 * 7 % den;
    assert 150 * 7 == q * den + r;
    QuotientAtLeast(150 * 7, 4, den);
    QuotientAtLeast(150 * 7, 8, den);
    QuotientAtLeast(150 * 7, 9, den);
    ShareAt320(q);
    ShareAt320(q + 1);
  }
}
