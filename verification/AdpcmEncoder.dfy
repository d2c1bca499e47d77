/** The encoder as it runs: predictor state and output nibbles change in
    place, first on trial and then for good. */
module AdpcmEncoder {
  import opened Bits
  import opened Adpcm
  import opened AdpcmSearch

  // ----- samples in memory

  predicate Readable(samples: seq<int16>, at: int, pitch: nat) {
    0 <= at && at + 27 * pitch < |samples|
  }

  /** The unit's samples whatever the limit says. */
  function Raws(samples: seq<int16>, at: int, pitch: nat): (r: seq<int16>)
    requires (pitch == 1 || pitch == 2) && Readable(samples, at, pitch)
    ensures |r| == SAMPLES_PER_UNIT
  {
    seq(28, k requires 0 <= k < 28 => samples[at + k * pitch])
  }

  /** The unit's samples, silent from the limit on. */
  function Padded(samples: seq<int16>, at: int, pitch: nat, limit: int): (r: seq<int16>)
    requires (pitch == 1 || pitch == 2) && Readable(samples, at, pitch)
    ensures |r| == SAMPLES_PER_UNIT
  {
    seq(28, k requires 0 <= k < 28 => if k * pitch >= limit then 0 else samples[at + k * pitch])
  }

  // ----- nibbles in memory

  function GetNibble(b: byte, shift: nat): nat {
    if shift == 0 then b % 16 else b / 16
  }

  function SetNibble(b: byte, shift: nat, n: nat): byte
    requires n < 16
  {
    if shift == 0 then b / 16 * 16 + n else b % 16 + 16 * n
  }

  lemma NibbleSet(b: byte, shift: nat, n: nat)
    requires n < 16 && (shift == 0 || shift == 4)
    ensures GetNibble(SetNibble(b, shift, n), shift) == n
    ensures GetNibble(SetNibble(b, shift, n), 4 - shift) == GetNibble(b, 4 - shift)
  {}

  /** A lane: one nibble of every `pitch`-th byte. */
  predicate LaneInside(length: int, at: int, shift: nat, pitch: nat) {
    && (shift == 0 || shift == 4) && (pitch == 1 || pitch == 4)
    && 0 <= at && at + 27 * pitch < length
  }

  function Lane(s: seq<byte>, at: int, shift: nat, pitch: nat): (ns: seq<nat>)
    requires LaneInside(|s|, at, shift, pitch)
    ensures |ns| == SAMPLES_PER_UNIT && forall k :: 0 <= k < |ns| ==> ns[k] < 16
  {
    seq(28, k requires 0 <= k < 28 => GetNibble(s[at + k * pitch], shift))
  }

  predicate OnLane(k: int, at: int, pitch: nat)
    requires pitch == 1 || pitch == 4
  {
    at <= k <= at + 27 * pitch && (k - at) % pitch == 0
  }

  /** Nothing but the lane differs: not even the other nibble of its bytes. */
  predicate OnlyLane(s: seq<byte>, t: seq<byte>, at: int, shift: nat, pitch: nat) {
    && (shift == 0 || shift == 4) && (pitch == 1 || pitch == 4)
    && |s| == |t|
    && forall k :: 0 <= k < |s| ==>
         if OnLane(k, at, pitch) then GetNibble(t[k], 4 - shift) == GetNibble(s[k], 4 - shift) else t[k] == s[k]
  }

  // ----- the predictor state of one channel

  class ChannelState {
    var qerr: int
    var mse: nat
    var prev1: int16
    var prev2: int16

    constructor (qerr: int, prev1: int16, prev2: int16)
      ensures Value() == Channel(qerr, 0, Predictor(prev1, prev2))
    {
      this.qerr, this.mse, this.prev1, this.prev2 := qerr, 0, prev1, prev2;
    }

    function Value(): Channel
      reads this
    {
      Channel(qerr, mse, Predictor(prev1, prev2))
    }
  }

  function Min(a: int, b: int): int {
    if a < b then a else b
  }

  function Max(a: int, b: int): int {
    if a > b then a else b
  }

  /** After `i` samples of the scan for the extremes. */
  ghost predicate Scanned(p: Predictor, f: int, raws: seq<int16>, i: nat, now: Predictor, lo: int, hi: int)
    requires i <= |raws|
  {
    var es := Residuals(p, f, raws);
    && lo <= 0 <= hi
    && Residuals(now, f, raws[i..]) == es[i..]
    && Min(lo, Lowest(es[i..])) == Lowest(es)
    && Max(hi, Highest(es[i..])) == Highest(es)
  }

  lemma ScanStep(p: Predictor, f: int, raws: seq<int16>, i: nat, now: Predictor, lo: int, hi: int, e: int)
    requires i < |raws| && Scanned(p, f, raws, i, now, lo, hi)
    requires e == raws[i] - Predict(now, f)
    ensures Scanned(p, f, raws, i + 1, Push(now, raws[i]), Min(e, lo), Max(e, hi))
  {
    var es := Residuals(p, f, raws);
    var r, t := raws[i..], es[i..];
    ResidualStep(now, f, r, e);
    assert r[1..] == raws[i + 1..] && t[1..] == es[i + 1..];
    ExtremesStep(t, lo, hi);
    hide Predict, Residuals, Lowest, Highest;
  }

  lemma ResidualStep(now: Predictor, f: int, r: seq<int16>, e: int)
    requires r != [] && e == r[0] - Predict(now, f)
    ensures Residuals(now, f, r) == [e] + Residuals(Push(now, r[0]), f, r[1..])
  {
    hide *;
    ResidualsOpen(now, f, r);
  }

  lemma ResidualsOpen(now: Predictor, f: int, r: seq<int16>)
    requires r != []
    ensures Residuals(now, f, r) == [r[0] - Predict(now, f)] + Residuals(Push(now, r[0]), f, r[1..])
  {
    hide Predict, Push, Pow2;
    var next := Push(now, r[0]);
    var e: int := r[0] - Predict(now, f);
    var es := Residuals(next, f, r[1..]);
    assert Residuals(now, f, r) == [e] + es;
  }

  lemma ExtremesStep(t: seq<int>, lo: int, hi: int)
    requires t != []
    ensures Min(lo, Lowest(t)) == Min(Min(t[0], lo), Lowest(t[1..]))
    ensures Max(hi, Highest(t)) == Max(Max(t[0], hi), Highest(t[1..]))
  {}

  lemma ScanEnds(p: Predictor, f: int, raws: seq<int16>, now: Predictor, lo: int, hi: int)
    ensures Scanned(p, f, raws, 0, p, 0, 0)
    ensures Scanned(p, f, raws, |raws|, now, lo, hi)
        ==> lo == Lowest(Residuals(p, f, raws)) && hi == Highest(Residuals(p, f, raws))
  {
    var es := Residuals(p, f, raws);
    assert raws[0..] == raws && es[0..] == es && es[|raws|..] == [];
  }

  method ScanSample(prev1: int16, prev2: int16, k1: int, k2: int, ghost filter: int, rawSample: int16)
    returns (sample: int)
    requires k1 == K1(filter) && k2 == K2(filter)
    ensures sample == rawSample - Predict(Predictor(prev1, prev2), filter)
  {
    var previousValues: int := (k1 * prev1 + k2 * prev2 + 32) / 64;
    sample := rawSample - previousValues;
  }

  method FindMinShift(state: ChannelState, samples: array<int16>, at: int, pitch: nat, filter: int)
    returns (minShift: nat)
    requires IsFilter(filter) && (pitch == 1 || pitch == 2) && Readable(samples[..], at, pitch)
    ensures minShift == 12 - RightShift(state.Value().pred, filter, Raws(samples[..], at, pitch))
  {
    hide Scanned, K1, K2, Predict, Residuals, Lowest, Highest;
    ghost var p, raws := state.Value().pred, Raws(samples[..], at, pitch);
    var prev1: int16, prev2: int16 := state.prev1, state.prev2;
    var k1, k2 := K1(filter), K2(filter);
    var sMin: int, sMax: int := 0, 0;
    ScanEnds(p, filter, raws, p, 0, 0);
    for i := 0 to 28
      invariant sMin <= 0 <= sMax
      invariant Scanned(p, filter, raws, i, Predictor(prev1, prev2), sMin, sMax)
    {
      var rawSample := samples[at + i * pitch];
      var sample: int := ScanSample(prev1, prev2, k1, k2, filter, rawSample);
      ScanStep(p, filter, raws, i, Predictor(prev1, prev2), sMin, sMax, sample);
      if sample < sMin { sMin := sample; }
      if sample > sMax { sMax := sample; }
      prev2 := prev1;
      prev1 := rawSample;
    }
    ScanEnds(p, filter, raws, Predictor(prev1, prev2), sMin, sMax);
    var rightShift := ShiftForExtremes(sMin, sMax);
    minShift := 12 - rightShift;
  }

  method ShiftForExtremes(sMin: int, sMax: int) returns (rightShift: nat)
    requires sMin <= 0 <= sMax
    ensures rightShift == LeastShift(sMin, sMax, 0)
  {
    rightShift := 0;
    while rightShift < 12 && sMax / Pow2(rightShift) > 7
      invariant rightShift <= 12
      invariant forall q :: 0 <= q < rightShift ==> !Fits(sMin, sMax, q)
    {
      rightShift := rightShift + 1;
    }
    while rightShift < 12 && sMin / Pow2(rightShift) < -8
      invariant rightShift <= 12
      invariant rightShift == 12 || sMax / Pow2(rightShift) <= 7
      invariant forall q :: 0 <= q < rightShift ==> !Fits(sMin, sMax, q)
    {
      HalvingKeepsFit(sMax, Pow2(rightShift), rightShift);
      rightShift := rightShift + 1;
    }
    LeastShiftIs(sMin, sMax, rightShift);
  }

  /** The arithmetic of one sample: the nibble and what it decodes to. */
  method CodeSample(prev1: int16, prev2: int16, filter: int, shift: nat, sample: int)
    returns (enc: nat, dec: int16)
    ensures enc == EncodeOne(Predictor(prev1, prev2), filter, shift, sample)
    ensures enc < 16 && dec == DecodeOne(Predictor(prev1, prev2), filter, shift, enc)
  {
    var previousValues := (K1(filter) * prev1 + K2(filter) * prev2 + 32) / 64;
    var e := sample - previousValues;
    e := e * Pow2(shift);
    e := e + 0x800;
    e := e / 0x1000;
    if e < -8 { e := -8; }
    if e > 7 { e := 7; }
    enc := e % 16;
    var d := enc * 0x1000;
    if d >= 0x8000 { d := d - 0x1_0000; }
    d := d / Pow2(shift);
    d := d + previousValues;
    if d > 0x7FFF { d := 0x7FFF; }
    if d < -0x8000 { d := -0x8000; }
    dec := d;
  }

  lemma LaneWritten(s: seq<byte>, t: seq<byte>, at: int, shift: nat, pitch: nat, i: nat, n: nat)
    requires LaneInside(|s|, at, shift, pitch) && i < 28 && n < 16
    requires t == s[at + i * pitch := SetNibble(s[at + i * pitch], shift, n)]
    ensures Lane(t, at, shift, pitch) == Lane(s, at, shift, pitch)[i := n]
    ensures OnlyLane(s, t, at, shift, pitch)
  {
    var a := at + i * pitch;
    NibbleSet(s[a], shift, n);
    hide GetNibble, SetNibble;
    forall k | 0 <= k < 28
      ensures Lane(t, at, shift, pitch)[k] == Lane(s, at, shift, pitch)[i := n][k]
    {
      SamePlace(i, k, pitch);
    }
    PlaceOnLane(i, at, pitch);
  }

  lemma SamePlace(i: nat, k: nat, pitch: nat)
    requires pitch == 1 || pitch == 4
    ensures i * pitch == k * pitch <==> i == k
  {}

  lemma PlaceOnLane(i: nat, at: int, pitch: nat)
    requires i < 28 && (pitch == 1 || pitch == 4)
    ensures OnLane(at + i * pitch, at, pitch)
  {}

  lemma OnlyLaneTrans(s: seq<byte>, t: seq<byte>, u: seq<byte>, at: int, shift: nat, pitch: nat)
    requires OnlyLane(s, t, at, shift, pitch) && OnlyLane(t, u, at, shift, pitch)
    ensures OnlyLane(s, u, at, shift, pitch)
  {}

  /** After `i` samples of an attempt: the state so far and the nibbles so
      far, and what the rest will add. */
  ghost predicate Progress(c: Channel, f: int, s: nat, xs: seq<int>, i: nat, now: Channel, lane: seq<nat>)
    requires i <= |xs| == |lane|
  {
    var ns := EncodeRun(c.pred, f, s, xs);
    && now.qerr == c.qerr
    && lane[..i] == ns[..i]
    && ns[i..] == EncodeRun(now.pred, f, s, xs[i..])
    && RunAfter(now.pred, f, s, xs[i..]) == RunAfter(c.pred, f, s, xs)
    && now.mse + RunError(now.pred, f, s, xs[i..]) == RunError(c.pred, f, s, xs)
  }

  lemma ProgressStart(c: Channel, f: int, s: nat, xs: seq<int>, lane: seq<nat>)
    requires |xs| == |lane|
    ensures Progress(c, f, s, xs, 0, c.(mse := 0), lane)
  {
    hide EncodeRun, RunAfter, RunError;
    assert xs[0..] == xs;
  }

  lemma ProgressStep(c: Channel, f: int, s: nat, xs: seq<int>, i: nat, now: Channel, lane: seq<nat>, y: int16)
    requires i < |xs| == |lane| && Progress(c, f, s, xs, i, now, lane)
    requires y == DecodeOne(now.pred, f, s, EncodeOne(now.pred, f, s, xs[i]))
    ensures var e := y - xs[i];
      e * e >= 0 &&
      Progress(c, f, s, xs, i + 1, Channel(now.qerr, now.mse + e * e, Push(now.pred, y)),
               lane[i := EncodeOne(now.pred, f, s, xs[i])])
  {
    hide EncodeOne, DecodeOne, EncodeRun, RunAfter, RunError;
    var r := xs[i..];
    assert r[0] == xs[i] && r[1..] == xs[i + 1..];
    RunStep(now.pred, f, s, r);
    SquareIsNat(y - xs[i]);
    var ns := EncodeRun(c.pred, f, s, xs);
    var n := EncodeOne(now.pred, f, s, xs[i]);
    assert ns[i] == ns[i..][0] == n;
    assert ns[i + 1..] == ns[i..][1..];
    assert lane[i := n][..i + 1] == lane[..i] + [n];
    assert ns[..i + 1] == ns[..i] + [n];
  }

  lemma ProgressEnd(c: Channel, f: int, s: nat, xs: seq<int>, now: Channel, lane: seq<nat>)
    requires |xs| == |lane| && Progress(c, f, s, xs, |xs|, now, lane)
    ensures now == Channel(c.qerr, RunError(c.pred, f, s, xs), RunAfter(c.pred, f, s, xs))
    ensures lane == EncodeRun(c.pred, f, s, xs)
  {
    RunEmpty(now.pred, f, s);
    assert xs[|xs|..] == [];
    hide EncodeRun, RunAfter, RunError;
    var ns := EncodeRun(c.pred, f, s, xs);
    assert lane == lane[..|xs|] && ns == ns[..|xs|];
  }

  /** Codes one sample into one nibble. */
  method EncodeSample(outstate: ChannelState, sample: int, data: array<byte>, place: int, dataShift: nat,
                      filter: int, sampleShift: nat)
    requires 0 <= place < data.Length && (dataShift == 0 || dataShift == 4)
    modifies outstate, data
    ensures var c := old(outstate.Value());
      var n := EncodeOne(c.pred, filter, sampleShift, sample);
      var y := DecodeOne(c.pred, filter, sampleShift, n);
      && (y - sample) * (y - sample) >= 0
      && outstate.Value() == Channel(c.qerr, c.mse + (y - sample) * (y - sample), Push(c.pred, y))
      && data[..] == old(data[..])[place := SetNibble(old(data[place]), dataShift, n)]
  {
    hide EncodeOne, DecodeOne;
    var enc, dec := CodeSample(outstate.prev1, outstate.prev2, filter, sampleShift, sample);
    var sampleError: int := dec - sample;
    data[place] := SetNibble(data[place], dataShift, enc);
    SquareIsNat(sampleError);
    outstate.mse := outstate.mse + sampleError * sampleError;
    outstate.prev2 := outstate.prev1;
    outstate.prev1 := dec;
  }

  method AttemptToEncodeNibbles(outstate: ChannelState, instate: ChannelState,
                                samples: array<int16>, at: int, limit: int, pitch: nat,
                                data: array<byte>, dataAt: int, dataShift: nat, dataPitch: nat,
                                filter: int, sampleShift: nat) returns (hdr: byte)
    requires IsFilter(filter) && IsShift(sampleShift)
    requires (pitch == 1 || pitch == 2) && Readable(samples[..], at, pitch)
    requires LaneInside(data.Length, dataAt, dataShift, dataPitch)
    modifies outstate, data
    ensures hdr == sampleShift + 16 * filter
    ensures outstate.Value() == Attempt(old(instate.Value()), filter, sampleShift,
      Padded(samples[..], at, pitch, limit))
    ensures OnlyLane(old(data[..]), data[..], dataAt, dataShift, dataPitch)
    ensures Lane(data[..], dataAt, dataShift, dataPitch)
         == AttemptNibbles(old(instate.Value()), filter, sampleShift, Padded(samples[..], at, pitch, limit))
  {
    hide EncodeOne, DecodeOne, SetNibble, OnlyLane, Lane, Progress, EncodeRun, RunAfter, RunError;
    hdr := sampleShift % 16 + 16 * filter;
    ghost var c := instate.Value();
    ghost var xs := Inputs(c, Padded(samples[..], at, pitch, limit));
    outstate.qerr, outstate.prev1, outstate.prev2 := instate.qerr, instate.prev1, instate.prev2;
    outstate.mse := 0;
    OnlyLaneSelf(data[..], dataAt, dataShift, dataPitch);
    ProgressStart(c, filter, sampleShift, xs, Lane(data[..], dataAt, dataShift, dataPitch));
    for i := 0 to 28
      invariant OnlyLane(old(data[..]), data[..], dataAt, dataShift, dataPitch)
      invariant outstate.qerr == c.qerr
      invariant Progress(c, filter, sampleShift, xs, i, outstate.Value(), Lane(data[..], dataAt, dataShift, dataPitch))
    {
      var sample: int := (if i * pitch >= limit then 0 else samples[at + i * pitch]) + outstate.qerr;
      assert xs[i] == sample;
      ghost var now, before := outstate.Value(), data[..];
      EncodeSample(outstate, sample, data, dataAt + i * dataPitch, dataShift, filter, sampleShift);
      ghost var n := EncodeOne(now.pred, filter, sampleShift, sample);
      LaneWritten(before, data[..], dataAt, dataShift, dataPitch, i, n);
      OnlyLaneTrans(old(data[..]), before, data[..], dataAt, dataShift, dataPitch);
      ProgressStep(c, filter, sampleShift, xs, i, now, Lane(before, dataAt, dataShift, dataPitch),
                   DecodeOne(now.pred, filter, sampleShift, n));
    }
    ProgressEnd(c, filter, sampleShift, xs, outstate.Value(), Lane(data[..], dataAt, dataShift, dataPitch));
  }

  lemma OnlyLaneSelf(s: seq<byte>, at: int, shift: nat, pitch: nat)
    requires (shift == 0 || shift == 4) && (pitch == 1 || pitch == 4)
    ensures OnlyLane(s, s, at, shift, pitch)
  {}

  // ----- the search

  /** Of the pairs before (f, s), the best so far; the start value stands for
      none. */
  ghost predicate BestSoFar(c: Channel, raws: seq<int16>, xs: seq<int16>, count: int,
                            bestMse: int, bf: int, bs: int, f: int, s: int) {
    && (bestMse == 0x4_0000_0000_0000
        || (Searched(c, raws, count, bf, bs) && Before(bf, bs, f, s) && bestMse == Attempt(c, bf, bs, xs).mse))
    && forall g, t :: Searched(c, raws, count, g, t) && Before(g, t, f, s) ==>
         && bestMse <= Attempt(c, g, t, xs).mse
         && (Before(g, t, bf, bs) && bestMse < 0x4_0000_0000_0000 ==> bestMse < Attempt(c, g, t, xs).mse)
         && bestMse < 0x4_0000_0000_0000
  }

  lemma BestStep(c: Channel, raws: seq<int16>, xs: seq<int16>, count: int,
                 bestMse: int, bf: int, bs: int, f: int, s: int, m: int)
    requires BestSoFar(c, raws, xs, count, bestMse, bf, bs, f, s)
    requires Searched(c, raws, count, f, s) && m == Attempt(c, f, s, xs).mse < 0x4_0000_0000_0000
    ensures if bestMse > m then BestSoFar(c, raws, xs, count, m, f, s, f, s + 1)
            else BestSoFar(c, raws, xs, count, bestMse, bf, bs, f, s + 1)
  {
    hide Attempt, RightShift;
    assert forall g, t :: Before(g, t, f, s + 1) ==> Before(g, t, f, s) || (g == f && t == s);
  }

  /** The position may move past pairs that are not searched. */
  lemma BestSkip(c: Channel, raws: seq<int16>, xs: seq<int16>, count: int,
                 bestMse: int, bf: int, bs: int, f: int, s: int, f': int, s': int)
    requires BestSoFar(c, raws, xs, count, bestMse, bf, bs, f, s)
    requires Before(f, s, f', s')
    requires forall g, t :: Searched(c, raws, count, g, t) && Before(g, t, f', s') ==> Before(g, t, f, s)
    ensures BestSoFar(c, raws, xs, count, bestMse, bf, bs, f', s')
  {}

  lemma BestEnd(c: Channel, raws: seq<int16>, xs: seq<int16>, count: int, bestMse: int, bf: int, bs: int)
    requires BestSoFar(c, raws, xs, count, bestMse, bf, bs, count, 0) && bestMse < 0x4_0000_0000_0000
    ensures IsBest(c, raws, xs, count, bf, bs)
  {
    hide Attempt, RightShift;
  }

  /** The trial encodings of one filter. */
  method TryShifts(proposed: ChannelState, state: ChannelState, samples: array<int16>, at: int, limit: int, pitch: nat,
                   data: array<byte>, dataAt: int, dataShift: nat, dataPitch: nat,
                   filter: int, ghost count: int, mse0: int, filter0: int, shift0: int)
    returns (bestMse: int, bestFilter: int, bestSampleShift: int)
    requires proposed != state && InRange(state.Value()) && 0 <= filter < count <= 5
    requires (pitch == 1 || pitch == 2) && Readable(samples[..], at, pitch)
    requires LaneInside(data.Length, dataAt, dataShift, dataPitch)
    requires BestSoFar(state.Value(), Raws(samples[..], at, pitch), Padded(samples[..], at, pitch, limit), count,
                       mse0, filter0, shift0, filter, 0)
    modifies proposed, data
    ensures BestSoFar(state.Value(), Raws(samples[..], at, pitch), Padded(samples[..], at, pitch, limit), count,
                      bestMse, bestFilter, bestSampleShift, filter + 1, 0)
    ensures bestMse < 0x4_0000_0000_0000
    ensures OnlyLane(old(data[..]), data[..], dataAt, dataShift, dataPitch)
  {
    hide OnlyLane, Lane, Attempt, AttemptNibbles, RightShift, BestSoFar;
    ghost var c := state.Value();
    ghost var raws, xs := Raws(samples[..], at, pitch), Padded(samples[..], at, pitch, limit);
    bestMse, bestFilter, bestSampleShift := mse0, filter0, shift0;
    OnlyLaneSelf(data[..], dataAt, dataShift, dataPitch);
    var trueMinShift: int := FindMinShift(state, samples, at, pitch, filter);
    var minShift: int := trueMinShift - 1;
    var maxShift: int := trueMinShift + 1;
    if minShift < 0 { minShift := 0; }
    if maxShift > 12 { maxShift := 12; }
    if minShift > 0 {
      BestSkip(c, raws, xs, count, bestMse, bestFilter, bestSampleShift, filter, 0, filter, minShift);
    }
    var sampleShift: int := minShift;
    while sampleShift <= maxShift
      invariant minShift <= sampleShift <= maxShift + 1
      invariant state.Value() == c
      invariant OnlyLane(old(data[..]), data[..], dataAt, dataShift, dataPitch)
      invariant sampleShift > minShift ==> bestMse < 0x4_0000_0000_0000
      invariant BestSoFar(c, raws, xs, count, bestMse, bestFilter, bestSampleShift, filter, sampleShift)
    {
      ghost var before := data[..];
      var _ := AttemptToEncodeNibbles(proposed, state, samples, at, limit, pitch,
                                      data, dataAt, dataShift, dataPitch, filter, sampleShift);
      OnlyLaneTrans(old(data[..]), before, data[..], dataAt, dataShift, dataPitch);
      AttemptBeatsStart(c, filter, sampleShift, xs);
      BestStep(c, raws, xs, count, bestMse, bestFilter, bestSampleShift, filter, sampleShift, proposed.mse);
      if bestMse > proposed.mse {
        bestMse := proposed.mse;
        bestFilter := filter;
        bestSampleShift := sampleShift;
      }
      sampleShift := sampleShift + 1;
    }
    BestSkip(c, raws, xs, count, bestMse, bestFilter, bestSampleShift, filter, sampleShift, filter + 1, 0);
  }

  lemma BestStart(c: Channel, raws: seq<int16>, xs: seq<int16>, count: int)
    ensures BestSoFar(c, raws, xs, count, 0x4_0000_0000_0000, 0, 0, 0, 0)
  {}

  method EncodeNibbles(state: ChannelState, samples: array<int16>, at: int, limit: int, pitch: nat,
                       data: array<byte>, dataAt: int, dataShift: nat, dataPitch: nat, filterCount: int)
    returns (hdr: byte)
    requires InRange(state.Value()) && 1 <= filterCount <= 5
    requires (pitch == 1 || pitch == 2) && Readable(samples[..], at, pitch)
    requires LaneInside(data.Length, dataAt, dataShift, dataPitch)
    modifies state, data
    ensures IsBest(old(state.Value()), Raws(samples[..], at, pitch), Padded(samples[..], at, pitch, limit),
                   filterCount, hdr / 16, hdr % 16)
    ensures state.Value() == Attempt(old(state.Value()), hdr / 16, hdr % 16, Padded(samples[..], at, pitch, limit))
    ensures OnlyLane(old(data[..]), data[..], dataAt, dataShift, dataPitch)
    ensures Lane(data[..], dataAt, dataShift, dataPitch)
         == AttemptNibbles(old(state.Value()), hdr / 16, hdr % 16, Padded(samples[..], at, pitch, limit))
  {
    hide OnlyLane, Lane, Attempt, AttemptNibbles, RightShift, BestSoFar;
    ghost var c := state.Value();
    ghost var raws, xs := Raws(samples[..], at, pitch), Padded(samples[..], at, pitch, limit);
    var proposed := new ChannelState(0, 0, 0);
    var bestMse: int := 0x4_0000_0000_0000;
    var bestFilter: int, bestSampleShift: int := 0, 0;
    OnlyLaneSelf(data[..], dataAt, dataShift, dataPitch);
    BestStart(c, raws, xs, filterCount);
    for filter := 0 to filterCount
      invariant state.Value() == c
      invariant OnlyLane(old(data[..]), data[..], dataAt, dataShift, dataPitch)
      invariant filter > 0 ==> bestMse < 0x4_0000_0000_0000
      invariant BestSoFar(c, raws, xs, filterCount, bestMse, bestFilter, bestSampleShift, filter, 0)
    {
      ghost var before := data[..];
      bestMse, bestFilter, bestSampleShift :=
        TryShifts(proposed, state, samples, at, limit, pitch, data, dataAt, dataShift, dataPitch,
                  filter, filterCount, bestMse, bestFilter, bestSampleShift);
      OnlyLaneTrans(old(data[..]), before, data[..], dataAt, dataShift, dataPitch);
    }
    BestEnd(c, raws, xs, filterCount, bestMse, bestFilter, bestSampleShift);
    ghost var before := data[..];
    hdr := AttemptToEncodeNibbles(state, state, samples, at, limit, pitch,
                                  data, dataAt, dataShift, dataPitch, bestFilter, bestSampleShift);
    OnlyLaneTrans(old(data[..]), before, data[..], dataAt, dataShift, dataPitch);
  }
}
