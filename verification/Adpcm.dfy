/** SPU/XA-ADPCM: predictive coding of 16-bit samples in 4-bit steps.

    The encoder runs the decoder's predictor on the samples that the decoder
    will see.  Here are both sides on values, one sample and then one run of
    samples at a time. */
module Adpcm {
  import opened Bits
  import opened Arithmetic

  type int16 = x: int | -0x8000 <= x <= 0x7FFF

  const SAMPLES_PER_UNIT := 28

  predicate IsFilter(f: int) {
    0 <= f < 5
  }

  predicate IsShift(s: int) {
    0 <= s <= 12
  }

  function K1(f: int): int {
    if f == 1 then 60 else if f == 2 then 115 else if f == 3 then 98 else if f == 4 then 122 else 0
  }

  function K2(f: int): int {
    if f == 2 then -52 else if f == 3 then -55 else if f == 4 then -60 else 0
  }

  /** The last two samples, newest first. */
  datatype Predictor = Predictor(prev1: int16, prev2: int16)

  function Push(p: Predictor, y: int16): Predictor {
    Predictor(y, p.prev1)
  }

  function Predict(p: Predictor, f: int): int {
    (K1(f) * p.prev1 + K2(f) * p.prev2 + 32) / 64
  }

  /** The step nearest to a prediction error, as a signed nibble. */
  function Quantise(e: int, s: nat): (q: int)
    ensures -8 <= q <= 7
  {
    Clamp((e * Pow2(s) + 0x800) / 0x1000, -8, 7)
  }

  function ToNibble(q: int): nat
    requires -8 <= q <= 7
  {
    if q < 0 then q + 16 else q
  }

  function FromNibble(n: nat): int
    requires n < 16
  {
    if n >= 8 then n - 16 else n
  }

  // ----- one sample

  function DecodeOne(p: Predictor, f: int, s: nat, n: nat): int16
    requires n < 16
  {
    Clamp(FromNibble(n) * 0x1000 / Pow2(s) + Predict(p, f), -0x8000, 0x7FFF)
  }

  function EncodeOne(p: Predictor, f: int, s: nat, x: int): (n: nat)
    ensures n < 16
  {
    ToNibble(Quantise(x - Predict(p, f), s))
  }

  // ----- a run of samples

  function DecodeRun(p: Predictor, f: int, s: nat, ns: seq<nat>): (ys: seq<int16>)
    requires forall k :: 0 <= k < |ns| ==> ns[k] < 16
    ensures |ys| == |ns|
    decreases |ns|
  {
    if ns == [] then []
    else
      var y := DecodeOne(p, f, s, ns[0]);
      [y] + DecodeRun(Push(p, y), f, s, ns[1..])
  }

  function EncodeRun(p: Predictor, f: int, s: nat, xs: seq<int>): (ns: seq<nat>)
    ensures |ns| == |xs|
    ensures forall k :: 0 <= k < |ns| ==> ns[k] < 16
    decreases |xs|
  {
    if xs == [] then []
    else
      var n := EncodeOne(p, f, s, xs[0]);
      [n] + EncodeRun(Push(p, DecodeOne(p, f, s, n)), f, s, xs[1..])
  }

  /** The predictor state that the encoder tracks over a run. */
  function RunAfter(p: Predictor, f: int, s: nat, xs: seq<int>): Predictor
    decreases |xs|
  {
    if xs == [] then p
    else RunAfter(Push(p, DecodeOne(p, f, s, EncodeOne(p, f, s, xs[0]))), f, s, xs[1..])
  }

  /** The squared error that the encoder accumulates over a run. */
  function RunError(p: Predictor, f: int, s: nat, xs: seq<int>): nat
    decreases |xs|
  {
    if xs == [] then 0
    else
      var y := DecodeOne(p, f, s, EncodeOne(p, f, s, xs[0]));
      SquareIsNat(y - xs[0]);
      (y - xs[0]) * (y - xs[0]) + RunError(Push(p, y), f, s, xs[1..])
  }

  lemma SquareIsNat(e: int)
    ensures e * e >= 0
  {}

  function PushAll(p: Predictor, ys: seq<int16>): Predictor
    decreases |ys|
  {
    if ys == [] then p else PushAll(Push(p, ys[0]), ys[1..])
  }

  function SquaredDistance(ys: seq<int>, xs: seq<int>): int
    requires |ys| == |xs|
    decreases |ys|
  {
    if ys == [] then 0 else (ys[0] - xs[0]) * (ys[0] - xs[0]) + SquaredDistance(ys[1..], xs[1..])
  }

  /** The closed loop: what the encoder tracked is what the decoder
      reconstructs from the nibbles alone. */
  lemma {:induction false} ClosedLoop(p: Predictor, f: int, s: nat, xs: seq<int>)
    ensures var ys := DecodeRun(p, f, s, EncodeRun(p, f, s, xs));
      && PushAll(p, ys) == RunAfter(p, f, s, xs)
      && SquaredDistance(ys, xs) == RunError(p, f, s, xs)
    decreases |xs|
  {
    if xs != [] {
      var n := EncodeOne(p, f, s, xs[0]);
      var y := DecodeOne(p, f, s, n);
      var ns := EncodeRun(p, f, s, xs);
      var ys := DecodeRun(p, f, s, ns);
      assert ns[1..] == EncodeRun(Push(p, y), f, s, xs[1..]);
      assert ys[1..] == DecodeRun(Push(p, y), f, s, ns[1..]);
      ClosedLoop(Push(p, y), f, s, xs[1..]);
    }
  }

  /** The newest reconstructed samples are the predictor state. */
  lemma {:induction false} LastTwo(p: Predictor, ys: seq<int16>)
    ensures |ys| >= 1 ==> PushAll(p, ys).prev1 == ys[|ys| - 1]
    ensures |ys| >= 2 ==> PushAll(p, ys).prev2 == ys[|ys| - 2]
    ensures |ys| == 1 ==> PushAll(p, ys).prev2 == p.prev1
    decreases |ys|
  {
    if ys != [] { LastTwo(Push(p, ys[0]), ys[1..]); }
  }

  lemma {:induction false} PushAllConcat(p: Predictor, ys: seq<int16>, zs: seq<int16>)
    ensures PushAll(p, ys + zs) == PushAll(PushAll(p, ys), zs)
    decreases |ys|
  {
    if ys == [] {
      assert ys + zs == zs;
    } else {
      assert (ys + zs)[1..] == ys[1..] + zs;
      PushAllConcat(Push(p, ys[0]), ys[1..], zs);
    }
  }

  /** One sample of a run. */
  lemma RunStep(p: Predictor, f: int, s: nat, xs: seq<int>)
    requires xs != []
    ensures var n := EncodeOne(p, f, s, xs[0]);
      var y := DecodeOne(p, f, s, n);
      && EncodeRun(p, f, s, xs) == [n] + EncodeRun(Push(p, y), f, s, xs[1..])
      && RunAfter(p, f, s, xs) == RunAfter(Push(p, y), f, s, xs[1..])
      && RunError(p, f, s, xs) == (y - xs[0]) * (y - xs[0]) + RunError(Push(p, y), f, s, xs[1..])
  {}

  lemma RunEmpty(p: Predictor, f: int, s: nat)
    ensures EncodeRun(p, f, s, []) == [] && RunAfter(p, f, s, []) == p && RunError(p, f, s, []) == 0
  {}
}
