/** The shedding loop of the frame encoder, on the frame's coefficients in
    place. */
module FrameShedder {
  import opened FrameBudget
  import opened FrameLayout

  /** `reduce_dct_block` */
  method ReduceDctBlock(coefs: array<int>, at: nat, minVal: int, valuesToShed: nat) returns (count: nat, left: nat)
    requires at + 64 <= coefs.Length
    modifies coefs
    ensures OnlyBlock(old(coefs[..]), coefs[..], at) && coefs[at] == old(coefs[at])
    ensures count >= 2
    ensures Reduce(old(AcIn(coefs[..], at)), minVal, valuesToShed) == Pass(AcIn(coefs[..], at), left, count - 2)
  {
    ghost var s := coefs[..];
    var nonzeroes := 0;
    left := valuesToShed;
    ScanStarts(s, at, minVal, left);
    hide ScanUpTo;
    for i := 1 to 64
      invariant ScanUpTo(s, coefs[..], at, i, minVal, valuesToShed, left, nonzeroes)
    {
      ScanNext(s, coefs[..], at, i, minVal, valuesToShed, left, nonzeroes);
      if coefs[at + i] != 0 {
        if left > 0 && Abs(coefs[at + i]) < minVal {
          coefs[at + i] := 0;
          left := left - 1;
        } else {
          nonzeroes := nonzeroes + 1;
        }
      }
    }
    count := nonzeroes + 2;
    ScanEnds(s, coefs[..], at, minVal, valuesToShed, left, nonzeroes);
  }

  /** The coefficients of a block before number `i` have been looked at. */
  ghost predicate ScanUpTo(s: seq<int>, t: seq<int>, at: nat, i: nat, minVal: int, shed: nat, left: nat, kept: nat) {
    && |s| == |t| && at + 64 <= |s| && 1 <= i <= 64
    && t[..at + 1] == s[..at + 1] && t[at + i..] == s[at + i..]
    && Reduce(s[at + 1..at + i], minVal, shed) == Pass(t[at + 1..at + i], left, kept)
  }

  lemma ScanStarts(s: seq<int>, at: nat, minVal: int, shed: nat)
    requires at + 64 <= |s|
    ensures ScanUpTo(s, s, at, 1, minVal, shed, shed, 0)
  {
    assert s[at + 1..at + 1] == [];
    NothingReduced(minVal, shed);
  }

  lemma ScanNext(s: seq<int>, t: seq<int>, at: nat, i: nat, minVal: int, shed: nat, left: nat, kept: nat)
    requires ScanUpTo(s, t, at, i, minVal, shed, left, kept) && i < 64
    ensures at + i < |t| && Abs(t[at + i]) >= 0
    ensures t[at + i] == 0 ==> ScanUpTo(s, t, at, i + 1, minVal, shed, left, kept)
    ensures t[at + i] != 0 && left > 0 && Abs(t[at + i]) < minVal
      ==> ScanUpTo(s, t[at + i := 0], at, i + 1, minVal, shed, left - 1, kept)
    ensures t[at + i] != 0 && !(left > 0 && Abs(t[at + i]) < minVal)
      ==> ScanUpTo(s, t, at, i + 1, minVal, shed, left, kept + 1)
  {
    hide Reduce;
    var c := t[at + i];
    assert c == t[at + i..][0] == s[at + i];
    ReduceNext(s[at + 1..at + i], c, minVal, shed);
    assert s[at + 1..at + i + 1] == s[at + 1..at + i] + [c];
    assert t[at + 1..at + i + 1] == t[at + 1..at + i] + [c];
    assert t[at + i := 0][at + 1..at + i + 1] == t[at + 1..at + i] + [0];
    assert t[at + i + 1..] == t[at + i..][1..] == s[at + i..][1..] == s[at + i + 1..];
    assert t[at + i := 0][at + i + 1..] == t[at + i + 1..];
    assert t[at + i := 0][..at + 1] == t[..at + 1];
  }

  lemma ScanEnds(s: seq<int>, t: seq<int>, at: nat, minVal: int, shed: nat, left: nat, kept: nat)
    requires ScanUpTo(s, t, at, 64, minVal, shed, left, kept)
    ensures OnlyBlock(s, t, at) && s[at] == t[at]
    ensures Reduce(AcIn(s, at), minVal, shed) == Pass(AcIn(t, at), left, kept)
  {
    hide Reduce;
    assert t[..at] == t[..at + 1][..at] && s[..at] == s[..at + 1][..at];
    assert t[at] == t[..at + 1][at] == s[..at + 1][at] == s[at];
  }

  lemma NothingReduced(minVal: int, shed: nat)
    ensures Reduce([], minVal, shed) == Pass([], shed, 0)
  {}

  lemma ReduceNext(cs: seq<int>, c: int, minVal: int, shed: nat)
    ensures var p := Reduce(cs, minVal, shed);
      Reduce(cs + [c], minVal, shed) ==
        if c == 0 then Pass(p.cs + [0], p.shed, p.kept)
        else if p.shed > 0 && Abs(c) < minVal then Pass(p.cs + [0], p.shed - 1, p.kept)
        else Pass(p.cs + [c], p.shed, p.kept + 1)
  {
    assert (cs + [c])[..|cs|] == cs;
  }

  /** One pass over the frame: macroblocks column by column, in each the lists
      from the last to the first. */
  method ReducePass(coefs: array<int>, d: Size, minVal: int, valuesToShed: nat) returns (accum: nat, left: nat)
    requires IsFrame(coefs[..], d)
    modifies coefs
    ensures IsFrame(coefs[..], d)
    ensures PassUpTo(old(coefs[..]), coefs[..], d, Blocks(d), minVal, valuesToShed, left, accum)
  {
    ghost var s := coefs[..];
    accum, left := 0, valuesToShed;
    PassStarts(s, d, minVal, left);
    Columns(d, 0);
    hide PassUpTo, IsFrame, Blocks, Visit;
    for fx := 0 to d.w
      invariant IsFrame(coefs[..], d)
      invariant PassUpTo(s, coefs[..], d, Visit(d, fx, 0, 0), minVal, valuesToShed, left, accum)
    {
      for fy := 0 to d.h
        invariant IsFrame(coefs[..], d)
        invariant PassUpTo(s, coefs[..], d, Visit(d, fx, fy, 0), minVal, valuesToShed, left, accum)
      {
        accum, left := ReduceMacroblock(coefs, d, fx, fy, minVal, left, accum, s, valuesToShed);
      }
      Columns(d, fx);
    }
  }

  /** The visits of one column follow those of the column before. */
  lemma Columns(d: Size, x: nat)
    ensures Visit(d, x, d.h, 0) == Visit(d, x + 1, 0, 0)
    ensures Visit(d, 0, 0, 0) == 0 && Visit(d, d.w, 0, 0) == Blocks(d)
  {}

  method ReduceMacroblock(coefs: array<int>, d: Size, fx: nat, fy: nat, minVal: int, shed: nat, accum: nat,
                          ghost s: seq<int>, ghost valuesToShed: nat) returns (total: nat, left: nat)
    requires IsFrame(coefs[..], d) && IsVisit(d, fx, fy, 0)
    requires PassUpTo(s, coefs[..], d, Visit(d, fx, fy, 0), minVal, valuesToShed, shed, accum)
    modifies coefs
    ensures IsFrame(coefs[..], d)
    ensures PassUpTo(s, coefs[..], d, Visit(d, fx, fy + 1, 0), minVal, valuesToShed, left, total)
  {
    hide PassUpTo, IsFrame, Blocks;
    total, left := accum, shed;
    for i := 6 downto 0
      invariant IsFrame(coefs[..], d)
      invariant PassUpTo(s, coefs[..], d, Visit(d, fx, fy, 6 - i), minVal, valuesToShed, left, total)
    {
      total, left := ReduceNextBlock(coefs, d, fx, fy, i, minVal, left, total, s, valuesToShed);
    }
  }

  method ReduceNextBlock(coefs: array<int>, d: Size, fx: nat, fy: nat, i: nat, minVal: int, shed: nat, accum: nat,
                         ghost s: seq<int>, ghost valuesToShed: nat) returns (total: nat, left: nat)
    requires IsFrame(coefs[..], d) && IsVisit(d, fx, fy, i)
    requires PassUpTo(s, coefs[..], d, Visit(d, fx, fy, 5 - i), minVal, valuesToShed, shed, accum)
    modifies coefs
    ensures IsFrame(coefs[..], d)
    ensures PassUpTo(s, coefs[..], d, Visit(d, fx, fy, 6 - i), minVal, valuesToShed, left, total)
  {
    ghost var k, t := Visit(d, fx, fy, 5 - i), coefs[..];
    VisitParts(d, fx, fy, 5 - i);
    BlockParts(t, d, Shedding, k);
    assert At(d, Shedding, k) == 64 * Slot(d, fx, fy, i);
    hide PassUpTo, Reduce, Blocks, At, AcAt, BlockAt, Visit;
    var at := 64 * Slot(d, fx, fy, i);
    var count;
    count, left := ReduceDctBlock(coefs, at, minVal, shed);
    total := accum + count;
    BlockParts(coefs[..], d, Shedding, k);
    PassStep(s, t, coefs[..], d, k, minVal, valuesToShed, shed, accum);
  }

  // ----- the loop of passes

  const COUNTS_PER_BLOCK := 1025

  /** What the blocks take whatever is shed: two counts each. */
  function Overhead(d: Size): nat {
    2 * Blocks(d)
  }

  function FrameAcs(coefs: seq<int>, d: Size): seq<int>
    requires IsFrame(coefs, d)
  {
    Acs(coefs, d, Shedding, Blocks(d))
  }

  /** `t` and its count are what pass `m` over `s` leaves. */
  ghost predicate IsRound(s: seq<int>, t: seq<int>, d: Size, threshold: nat, m: nat, accum: int) {
    && IsFrame(s, d) && IsFrame(t, d) && FirstsKept(s, t, d) && accum >= 0
    && StillOver(FrameAcs(s, d), Overhead(d), threshold, m)
    && RoundAt(FrameAcs(s, d), Overhead(d), threshold, m) == Round(FrameAcs(t, d), accum)
  }

  lemma FirstRound(s: seq<int>, t: seq<int>, d: Size, threshold: nat, left: nat, accum: nat)
    requires PassUpTo(s, t, d, Blocks(d), 1, 0, left, accum)
    ensures IsRound(s, t, d, threshold, 0, accum)
  {
    hide Acs, Blocks, Reduce, FirstsKept;
  }

  lemma NextRound(s: seq<int>, t: seq<int>, u: seq<int>, d: Size, threshold: nat, m: nat, before: nat, left: nat,
                  accum: nat)
    requires IsRound(s, t, d, threshold, m, before) && before > threshold
    requires PassUpTo(t, u, d, Blocks(d), 8 * (m + 1) + 1, before - threshold, left, accum)
    ensures IsRound(s, u, d, threshold, m + 1, accum)
  {
    FirstsKeptTwice(s, t, u, d);
    hide Acs, Blocks, Reduce, FirstsKept;
    assert ToShed(before, threshold) == before - threshold;
  }

  lemma FirstsKeptTwice(s: seq<int>, t: seq<int>, u: seq<int>, d: Size)
    requires IsFrame(s, d) && IsFrame(t, d) && IsFrame(u, d)
    requires FirstsKept(s, t, d) && FirstsKept(t, u, d)
    ensures FirstsKept(s, u, d)
  {
    hide BlockAt, Blocks;
    forall k | 0 <= k < Blocks(d)
      ensures SameFirst(s, u, d, k)
    {
      assert SameFirst(s, t, d, k) && SameFirst(t, u, d, k);
    }
  }

  /** The shedding loop of `encode_frame_str`. */
  method ShedValues(coefs: array<int>, d: Size, frameBlockCount: nat) returns (accum: nat, ghost m: nat)
    requires IsFrame(coefs[..], d) && Overhead(d) <= COUNTS_PER_BLOCK * frameBlockCount
    modifies coefs
    ensures IsRound(old(coefs[..]), coefs[..], d, COUNTS_PER_BLOCK * frameBlockCount, m, accum)
    ensures accum <= COUNTS_PER_BLOCK * frameBlockCount
  {
    hide IsRound, PassUpTo, IsFrame, Peak, FrameAcs, Overhead, Blocks;
    ghost var s := coefs[..];
    var threshold := COUNTS_PER_BLOCK * frameBlockCount;
    var minVal, valuesToShed := 0, 0;
    accum := 0;
    while true
      invariant IsFrame(coefs[..], d)
      invariant minVal == 0 ==> coefs[..] == s && valuesToShed == 0
      invariant minVal > 0 ==> accum > threshold && valuesToShed == accum - threshold
      invariant minVal > 0 ==> IsRound(s, coefs[..], d, threshold, minVal - 1, accum)
      invariant minVal <= Peak(FrameAcs(s, d)) + 1
      decreases Peak(FrameAcs(s, d)) + 1 - minVal
    {
      ghost var t, before := coefs[..], accum;
      var left;
      accum, left := ReducePass(coefs, d, minVal * 8 + 1, valuesToShed);
      if minVal == 0 {
        FirstRound(s, coefs[..], d, threshold, left, accum);
      } else {
        NextRound(s, t, coefs[..], d, threshold, minVal - 1, before, left, accum);
      }
      m := minVal;
      if accum <= threshold {
        break;
      }
      RoundBounded(s, coefs[..], d, threshold, minVal, accum);
      valuesToShed := accum - threshold;
      minVal := minVal + 1;
    }
  }

  lemma RoundBounded(s: seq<int>, t: seq<int>, d: Size, threshold: nat, m: nat, accum: int)
    requires IsRound(s, t, d, threshold, m, accum) && accum > threshold && Overhead(d) <= threshold
    ensures m < Peak(FrameAcs(s, d))
  {
    hide Peak, FrameAcs, Overhead, RoundAt, StillOver, FirstsKept;
    PassesBounded(FrameAcs(s, d), Overhead(d), threshold, m);
  }

  /** What the loop leaves: the count is the threshold, or less only if it was
      so from the start; dropped values are at most 8 m, survivors more than
      8 (m - 1), and a survivor is what it was. */
  lemma ShedOnBudget(s: seq<int>, t: seq<int>, d: Size, threshold: nat, m: nat, accum: int)
    requires IsRound(s, t, d, threshold, m, accum) && accum <= threshold
    ensures var cs, left := FrameAcs(s, d), FrameAcs(t, d);
      var initial := NonZeroes(cs) + Overhead(d);
      && accum == NonZeroes(left) + Overhead(d) == (if initial < threshold then initial else threshold)
      && |left| == |cs|
      && forall i :: 0 <= i < |cs| ==>
           && (left[i] == cs[i] || (left[i] == 0 && Abs(cs[i]) <= 8 * m))
           && (left[i] != 0 ==> Abs(left[i]) > 8 * (m - 1))
  {
    hide FrameAcs, Overhead, RoundAt, StillOver, FirstsKept, NonZeroes;
    EndsOnBudget(FrameAcs(s, d), Overhead(d), threshold, m);
  }
}
