/** The end of the transform, over a whole frame: every coefficient is scaled
    down, and goes if it is below its quantisation step. */
module FrameTransform {
  import opened Arithmetic
  import opened MdecBlock
  import opened FrameLayout
  import opened FrameShedder
  import opened FrameCoder

  /** The frame behind it; each coefficient has its place in a block. */
  function FrameFinished(s: seq<int>): (t: seq<int>)
    ensures |t| == |s|
  {
    seq(|s|, p requires 0 <= p < |s| => Finished(s[p], p % 64))
  }

  /** The blocks of the first `n` visits have been finished, the others are as
      before. */
  ghost predicate FinishedUpTo(s: seq<int>, t: seq<int>, d: Size, n: nat) {
    IsFrame(s, d) && IsFrame(t, d) && forall p :: 0 <= p < |s| ==> FinishedPlace(s, t, d, n, p)
  }

  predicate FinishedPlace(s: seq<int>, t: seq<int>, d: Size, n: nat, p: nat)
    requires IsFrame(s, d) && IsFrame(t, d) && p < |s|
  {
    t[p] == if VisitOfSlot(d, Coding, p / 64) < n then Finished(s[p], p % 64) else s[p]
  }

  lemma FinishStarts(s: seq<int>, d: Size)
    requires IsFrame(s, d)
    ensures FinishedUpTo(s, s, d, 0)
  {
    hide VisitOfSlot, Finished, Blocks;
  }

  lemma FinishEnds(s: seq<int>, t: seq<int>, d: Size)
    requires FinishedUpTo(s, t, d, Blocks(d))
    ensures t == FrameFinished(s)
  {
    hide VisitOfSlot, Finished, Blocks, At;
    forall p | 0 <= p < |s|
      ensures t[p] == Finished(s[p], p % 64)
    {
      assert FinishedPlace(s, t, d, Blocks(d), p);
      SlotVisited(d, Coding, p / 64);
    }
  }

  lemma FinishStep(s: seq<int>, t: seq<int>, u: seq<int>, d: Size, n: nat)
    requires FinishedUpTo(s, t, d, n) && n < Blocks(d) && IsFrame(u, d)
    requires OnlyBlock(t, u, At(d, Coding, n))
    requires MappedUpTo(BlockIn(t, At(d, Coding, n)), BlockIn(u, At(d, Coding, n)), 64, Finished)
    ensures FinishedUpTo(s, u, d, n + 1)
  {
    hide VisitOfSlot, Finished, Blocks, At;
    var at, m := At(d, Coding, n), n + 1;
    VisitOfPlace(d, Coding, n);
    forall p | 0 <= p < |s|
      ensures FinishedPlace(s, u, d, m, p)
    {
      assert FinishedPlace(s, t, d, n, p);
      SlotVisited(d, Coding, p / 64);
      if at <= p < at + 64 {
        InsideBlock(at, p);
        assert u[p] == BlockIn(u, at)[p - at] == Finished(BlockIn(t, at)[p - at], p - at);
      } else {
        OutsideBlock(t, u, at, p);
      }
    }
  }

  lemma InsideBlock(at: nat, p: nat)
    requires at % 64 == 0 && at <= p < at + 64
    ensures p / 64 == at / 64 && p % 64 == p - at
  {}

  lemma OutsideBlock(t: seq<int>, u: seq<int>, at: nat, p: nat)
    requires OnlyBlock(t, u, at) && at % 64 == 0 && p < |t| && !(at <= p < at + 64)
    ensures p / 64 != at / 64 && u[p] == t[p]
  {
    if p < at {
      assert t[..at][p] == u[..at][p];
    } else {
      assert t[at + 64..][p - at - 64] == u[at + 64..][p - at - 64];
    }
  }

  /** The thresholding part of the transform loop of `encode_frame_str`. */
  method FinishFrame(coefs: array<int>, d: Size)
    requires IsFrame(coefs[..], d)
    modifies coefs
    ensures coefs[..] == FrameFinished(old(coefs[..]))
  {
    hide FinishedUpTo, FrameFinished, IsFrame, Blocks, Visit;
    ghost var s := coefs[..];
    FinishStarts(s, d);
    Columns(d, 0);
    for fx := 0 to d.w
      invariant IsFrame(coefs[..], d) && FinishedUpTo(s, coefs[..], d, Visit(d, fx, 0, 0))
    {
      for fy := 0 to d.h
        invariant IsFrame(coefs[..], d) && FinishedUpTo(s, coefs[..], d, Visit(d, fx, fy, 0))
      {
        FinishMacroblock(coefs, d, fx, fy, s);
      }
      Columns(d, fx);
    }
    FinishEnds(s, coefs[..], d);
  }

  method FinishMacroblock(coefs: array<int>, d: Size, fx: nat, fy: nat, ghost s: seq<int>)
    requires IsFrame(coefs[..], d) && IsVisit(d, fx, fy, 0) && FinishedUpTo(s, coefs[..], d, Visit(d, fx, fy, 0))
    modifies coefs
    ensures IsFrame(coefs[..], d) && FinishedUpTo(s, coefs[..], d, Visit(d, fx, fy + 1, 0))
  {
    hide FinishedUpTo, IsFrame, Blocks, At, BlockAt, Slot, MappedUpTo, OnlyBlock;
    for i := 0 to 6
      invariant IsFrame(coefs[..], d) && FinishedUpTo(s, coefs[..], d, Visit(d, fx, fy, i))
    {
      ghost var t, k := coefs[..], Visit(d, fx, fy, i);
      VisitPlace(t, d, fx, fy, i);
      FinishTransform(coefs, 64 * Slot(d, fx, fy, i));
      FrameStays(t, coefs[..], d);
      FinishStep(s, t, coefs[..], d, k);
    }
  }

  lemma FrameStays(s: seq<int>, t: seq<int>, d: Size)
    requires IsFrame(s, d) && |t| == |s|
    ensures IsFrame(t, d)
  {}

  /** What the shedding and coding that follow rely on. */
  lemma FinishedIsThresholded(s: seq<int>, d: Size)
    requires IsFrame(s, d)
    ensures IsFrame(FrameFinished(s), d) && FrameThresholded(FrameFinished(s), d)
  {
    hide Finished, QuantDec, At, Blocks;
    var t := FrameFinished(s);
    forall k | 0 <= k < Blocks(d)
      ensures ThresholdedVisit(t, d, k)
    {
      BlockParts(t, d, Coding, k);
      VisitOfPlace(d, Coding, k);
      var at, b := At(d, Coding, k), BlockAt(t, d, Coding, k);
      forall i | 0 <= i < 64
        ensures ThresholdedAt(b[i], i)
      {
        InsideBlock(at, at + i);
        assert b[i] == t[at + i] == Finished(s[at + i], i);
        FinishedAtLeast(s[at + i], i);
      }
    }
  }

  lemma FinishedAtLeast(v: int, i: nat)
    ensures ThresholdedAt(Finished(v, i), i)
  {
    hide QuantDec;
  }

  /** Every value that is zero or at least its step comes out of it. */
  lemma FinishedReaches(v: int, i: nat)
    requires ThresholdedAt(v, i)
    ensures Finished(if i == 0 then 32 * v else 4 * v, i) == v
  {
    hide QuantDec;
    DividedBack(4 * v, v, 4);
    DividedBack(32 * v, 4 * v, 8);
  }

  lemma DividedBack(z: int, v: int, n: int)
    requires n > 0 && z == n * v && (n == 4 || n == 8)
    ensures CDiv(z, n) == v
  {}
}
