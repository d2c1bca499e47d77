/** How the encoder picks a filter and a shift for one unit of 28 samples, and
    how good its pick is. */
module AdpcmSearch {
  import opened Arithmetic
  import opened Bits
  import opened Adpcm

  // ----- the smallest useful right shift

  /** Prediction errors against the raw samples themselves. */
  function Residuals(p: Predictor, f: int, raws: seq<int16>): (es: seq<int>)
    ensures |es| == |raws|
    decreases |raws|
  {
    if raws == [] then [] else [raws[0] - Predict(p, f)] + Residuals(Push(p, raws[0]), f, raws[1..])
  }

  /** The least of the sequence and zero. */
  function Lowest(es: seq<int>): (lo: int)
    ensures lo <= 0 && (forall k :: 0 <= k < |es| ==> lo <= es[k])
    ensures lo == 0 || lo in es
    decreases |es|
  {
    if es == [] then 0
    else
      var m := Lowest(es[1..]);
      if es[0] < m then es[0] else m
  }

  /** The greatest of the sequence and zero. */
  function Highest(es: seq<int>): (hi: int)
    ensures hi >= 0 && (forall k :: 0 <= k < |es| ==> es[k] <= hi)
    ensures hi == 0 || hi in es
    decreases |es|
  {
    if es == [] then 0
    else
      var m := Highest(es[1..]);
      if es[0] > m then es[0] else m
  }

  predicate Fits(lo: int, hi: int, r: nat) {
    hi / Pow2(r) <= 7 && lo / Pow2(r) >= -8
  }

  /** The least right shift, up to 12, that brings both extremes into a signed
      nibble. */
  function LeastShift(lo: int, hi: int, from: nat): (r: nat)
    requires from <= 12
    ensures from <= r <= 12
    ensures r < 12 ==> Fits(lo, hi, r)
    ensures forall q :: from <= q < r ==> !Fits(lo, hi, q)
    decreases 12 - from
  {
    if from == 12 || Fits(lo, hi, from) then from else LeastShift(lo, hi, from + 1)
  }

  function RightShift(p: Predictor, f: int, raws: seq<int16>): (r: nat)
    ensures r <= 12
  {
    var es := Residuals(p, f, raws);
    LeastShift(Lowest(es), Highest(es), 0)
  }

  lemma LeastShiftIs(lo: int, hi: int, r: nat)
    requires r <= 12 && (r < 12 ==> Fits(lo, hi, r))
    requires forall q :: 0 <= q < r ==> !Fits(lo, hi, q)
    ensures LeastShift(lo, hi, 0) == r
  {
    var l := LeastShift(lo, hi, 0);
    if l < 12 && l < r { assert false; }
  }

  lemma HalvingKeepsFit(e: int, d: int, r: nat)
    requires d == Pow2(r)
    ensures e / d <= 7 ==> e / (2 * d) <= 7
    ensures e / d >= -8 ==> e / (2 * d) >= -8
  {
    DivisionBound(e, d);
    DivisionBound(e, 2 * d);
  }

  lemma DivisionBound(e: int, d: int)
    requires d >= 1
    ensures e / d <= 7 <==> e < 8 * d
    ensures e / d >= -8 <==> e >= -8 * d
  {
    var q := e / d;
    Quotient(e, d);
    if q >= 8 { MulMonotone(8, q, d); } else { MulMonotone(q, 7, d); }
    if q >= -8 { MulMonotone(-8, q, d); } else { MulMonotone(q, -9, d); }
  }

  lemma Quotient(e: int, d: int)
    requires d >= 1
    ensures e / d * d <= e < e / d * d + d
  {}

  lemma FitsBound(lo: int, hi: int, r: nat)
    ensures Fits(lo, hi, r) <==> hi < 8 * Pow2(r) && lo >= -8 * Pow2(r)
  {
    DivisionBound(hi, Pow2(r));
    DivisionBound(lo, Pow2(r));
  }

  // ----- one attempt and the best of all

  datatype Channel = Channel(qerr: int, mse: nat, pred: Predictor)

  predicate InRange(c: Channel) {
    -0x8000 <= c.qerr <= 0x7FFF
  }

  /** The samples that are coded: the error carried over is added to each. */
  function Inputs(c: Channel, xs: seq<int16>): (r: seq<int>)
    ensures |r| == |xs|
  {
    seq(|xs|, k requires 0 <= k < |xs| => xs[k] + c.qerr)
  }

  function Attempt(c: Channel, f: int, s: nat, xs: seq<int16>): Channel {
    Channel(c.qerr, RunError(c.pred, f, s, Inputs(c, xs)), RunAfter(c.pred, f, s, Inputs(c, xs)))
  }

  function AttemptNibbles(c: Channel, f: int, s: nat, xs: seq<int16>): (ns: seq<nat>)
    ensures |ns| == |xs| && forall k :: 0 <= k < |ns| ==> ns[k] < 16
  {
    EncodeRun(c.pred, f, s, Inputs(c, xs))
  }

  /** Shift `s` is tried for filter `f`: it is within one of 12 minus the
      least right shift. */
  predicate Searched(c: Channel, raws: seq<int16>, count: int, f: int, s: int) {
    && 0 <= f < count && IsShift(s)
    && 11 - RightShift(c.pred, f, raws) <= s <= 13 - RightShift(c.pred, f, raws)
  }

  predicate Before(f: int, s: int, g: int, t: int) {
    f < g || (f == g && s < t)
  }

  /** The first of the searched pairs with the least squared error. */
  ghost predicate IsBest(c: Channel, raws: seq<int16>, xs: seq<int16>, count: int, f: int, s: int) {
    && Searched(c, raws, count, f, s)
    && forall g, t :: Searched(c, raws, count, g, t) ==>
         && Attempt(c, f, s, xs).mse <= Attempt(c, g, t, xs).mse
         && (Before(g, t, f, s) ==> Attempt(c, f, s, xs).mse < Attempt(c, g, t, xs).mse)
  }

  lemma BestUnique(c: Channel, raws: seq<int16>, xs: seq<int16>, count: int, f: int, s: int, g: int, t: int)
    requires IsBest(c, raws, xs, count, f, s) && IsBest(c, raws, xs, count, g, t)
    ensures f == g && s == t
  {
    assert Before(f, s, g, t) || Before(g, t, f, s) || (f == g && s == t);
  }

  // ----- no attempt can fail the range checks

  /** Every intermediate value of one sample's coding stays within 32 bits,
      and its error within the asserted 30. */
  lemma NoOverflow(p: Predictor, f: int, s: nat, x: int)
    requires IsFilter(f) && IsShift(s) && -0x1_0000 <= x <= 0xFFFE
    ensures var v := Predict(p, f);
      && -0x8000_0000 <= K1(f) * p.prev1 < 0x8000_0000
      && -0x8000_0000 <= K2(f) * p.prev2 < 0x8000_0000
      && -0x8000_0000 <= K1(f) * p.prev1 + K2(f) * p.prev2 + 32 < 0x8000_0000
      && -0x8000_0000 <= (x - v) * Pow2(s) && (x - v) * Pow2(s) + 0x800 < 0x8000_0000
      && var e := DecodeOne(p, f, s, EncodeOne(p, f, s, x)) - x;
         -0x1_8000 < e < 0x1_8000
  {
    var v := Predict(p, f);
    PredictBound(p, f);
    Pow2Bound(s);
    ProductBound(x - v, Pow2(s));
  }

  lemma PredictBound(p: Predictor, f: int)
    requires IsFilter(f)
    ensures -0x1_8000 <= Predict(p, f) <= 0x1_8000
    ensures -122 * 0x8000 <= K1(f) * p.prev1 <= 122 * 0x8000
    ensures -60 * 0x8000 <= K2(f) * p.prev2 <= 60 * 0x8000
  {
    if f == 0 {} else if f == 1 {} else if f == 2 {} else if f == 3 {} else {}
  }

  lemma {:induction false} Pow2Bound(s: nat)
    requires s <= 12
    ensures Pow2(s) <= 0x1000
  {
    Pow2Shifts();
    if s < 12 { Pow2Monotone(s, 12); }
  }

  lemma ProductBound(a: int, b: int)
    requires -0x3_0000 <= a <= 0x3_0000 && 0 <= b <= 0x1000
    ensures -0x3000_0000 <= a * b <= 0x3000_0000
  {
    MulMonotone(-0x3_0000, a, b);
    MulMonotone(a, 0x3_0000, b);
  }

  lemma Pow2Shifts()
    ensures Pow2(12) == 0x1000
  {
    assert Pow2(6) == 64;
    Pow2Add(6, 6);
  }

  lemma SquareBound(e: int, b: nat)
    requires 0 <= e + b && e <= b
    ensures e * e <= b * b
  {
    var d: nat := if e >= 0 then e else 0 - e;
    assert e * e == d * d;
    MulMonotone(d, b, d);
    MulMonotone(d, b, b);
  }

  lemma {:induction false} RunErrorBound(p: Predictor, f: int, s: nat, xs: seq<int>)
    requires IsFilter(f) && IsShift(s)
    requires forall k :: 0 <= k < |xs| ==> -0x1_0000 <= xs[k] <= 0xFFFE
    ensures RunError(p, f, s, xs) <= |xs| * (0x1_8000 * 0x1_8000)
    decreases |xs|
  {
    if xs != [] {
      NoOverflow(p, f, s, xs[0]);
      var y := DecodeOne(p, f, s, EncodeOne(p, f, s, xs[0]));
      SquareBound(y - xs[0], 0x1_8000);
      RunErrorBound(Push(p, y), f, s, xs[1..]);
    }
  }

  /** Any attempt on a unit beats the value that the search starts from. */
  lemma AttemptBeatsStart(c: Channel, f: int, s: nat, xs: seq<int16>)
    requires InRange(c) && IsFilter(f) && IsShift(s) && |xs| == SAMPLES_PER_UNIT
    ensures Attempt(c, f, s, xs).mse < 0x4_0000_0000_0000
  {
    RunErrorBound(c.pred, f, s, Inputs(c, xs));
  }

  // ----- how good the best is

  lemma NoPrediction(p: Predictor)
    ensures Predict(p, 0) == 0
  {}

  lemma LessByFactor(a: int, b: int, m: nat)
    requires a * m < b * m
    ensures a < b
  {
    if a >= b { MulMonotone(b, a, m); }
  }

  lemma ExactQuotient(q: int, m: int, z: int)
    requires m >= 1 && z == q * m
    ensures z / m == q
  {
    LessByFactor(z / m, q + 1, m);
    LessByFactor(q - 1, z / m, m);
  }

  /** Quantising in steps of 2h and expanding again moves a fitting value by at
      most 2h - 1. */
  lemma EvenStepError(x: int, h: nat, m: nat)
    requires h >= 1 && m >= 1 && h * m == 0x800
    requires 0 <= x + 16 * h && x < 16 * h
    ensures var y := Clamp((x * m + 0x800) / 0x1000, -8, 7) * 0x1000 / m;
      0 < y - x + 2 * h && y - x < 2 * h && y == Clamp((x * m + 0x800) / 0x1000, -8, 7) * (2 * h)
  {
    hide Clamp;
    var q := (x * m + 0x800) / 0x1000;
    var c := Clamp(q, -8, 7);
    NearestStep(x, h, m, q);
    StepTimes(c, h, m);
    ExactQuotient(c * (2 * h), m, c * 0x1000);
    StepOfClamp(x, h, q);
  }

  lemma StepTimes(c: int, h: nat, m: nat)
    requires h * m == 0x800
    ensures c * 0x1000 == c * (2 * h) * m
  {
    assert c * (2 * h) * m == c * (2 * (h * m));
  }

  /** The rounded quotient is within half a step. */
  lemma NearestStep(x: int, h: nat, m: nat, q: int)
    requires h >= 1 && m >= 1 && h * m == 0x800 && 0x1000 * q <= x * m + 0x800 < 0x1000 * q + 0x1000
    ensures 0 <= 2 * h * q - x + h && 2 * h * q - x <= h
  {
    StepTimes(q, h, m);
    var e := q * (2 * h) - x;
    assert e * m == q * (2 * h) * m - x * m;
    assert (h + 1) * m == h * m + m;
    assert (-e) * m == -(e * m);
    LessByFactor(e, h + 1, m);
    LessByFactor(-e, h + 1, m);
    assert 2 * h * q == q * (2 * h);
  }

  lemma StepOfClamp(x: int, h: nat, q: int)
    requires h >= 1 && 0 <= x + 16 * h && x < 16 * h
    requires 0 <= 2 * h * q - x + h && 2 * h * q - x <= h
    ensures 0 < Clamp(q, -8, 7) * (2 * h) - x + 2 * h && Clamp(q, -8, 7) * (2 * h) - x < 2 * h
  {
    assert 2 * h * q == q * (2 * h);
    LessByFactor(q, 9, 2 * h);
    LessByFactor(-9, q, 2 * h);
  }

  lemma HalfStep(r: nat)
    requires 1 <= r <= 12
    ensures Pow2(r - 1) * Pow2(12 - r) == 0x800 && Pow2(r) == 2 * Pow2(r - 1)
  {
    Pow2Add(r - 1, 12 - r);
    Pow2Shifts();
    assert Pow2(12) == 2 * Pow2(11);
  }

  lemma UnshiftedSample(p: Predictor, s: nat, x: int16)
    requires s == 12 && -8 <= x <= 7
    ensures DecodeOne(p, 0, s, EncodeOne(p, 0, s, x)) == x
  {
    NoPrediction(p);
    Pow2Shifts();
    assert (x * 0x1000 + 0x800) / 0x1000 == x;
  }

  lemma ShiftedSample(p: Predictor, s: nat, x: int16, h: nat)
    requires 1 <= h <= 0x800 && h * Pow2(s) == 0x800
    requires 0 <= x + 16 * h && x < 16 * h
    ensures var e := DecodeOne(p, 0, s, EncodeOne(p, 0, s, x)) - x; 0 < e + 2 * h && e < 2 * h
  {
    NoPrediction(p);
    var q := Quantise(x, s);
    assert FromNibble(ToNibble(q)) == q;
    EvenStepError(x, h, Pow2(s));
    MulMonotone(-8, q, 2 * h);
    MulMonotone(q, 7, 2 * h);
  }

  /** Without prediction, a sample that fits after a right shift by `r` comes
      back within 2^r - 1. */
  lemma PlainSampleError(p: Predictor, r: nat, x: int16)
    requires r <= 12 && 0 <= x + 8 * Pow2(r) && x < 8 * Pow2(r)
    ensures var e := DecodeOne(p, 0, 12 - r, EncodeOne(p, 0, 12 - r, x)) - x;
      0 < e + Pow2(r) && e < Pow2(r)
  {
    hide EncodeOne, DecodeOne;
    if r == 0 {
      UnshiftedSample(p, 12, x);
    } else {
      HalfStep(r);
      Pow2Bound(r);
      hide Pow2;
      ShiftedSample(p, 12 - r, x, Pow2(r - 1));
    }
  }

  lemma NoTimes(q: nat)
    ensures 0 * q == 0
  {}

  lemma OneTimeMore(n: nat, q: nat)
    ensures (n + 1) * q == q + n * q
  {}

  lemma {:induction false} PlainRunError(p: Predictor, r: nat, xs: seq<int>, d: nat)
    requires r <= 12 && d + 1 == Pow2(r)
    requires forall k :: 0 <= k < |xs| ==> -0x8000 <= xs[k] <= 0x7FFF && 0 <= xs[k] + 8 * Pow2(r) && xs[k] < 8 * Pow2(r)
    ensures RunError(p, 0, 12 - r, xs) <= |xs| * (d * d)
    decreases |xs|
  {
    hide *;
    if xs == [] {
      RunEmpty(p, 0, 12 - r);
      assert |xs| * (d * d) == 0 by { NoTimes(d * d); }
    } else {
      PlainSampleError(p, r, xs[0]);
      var y := DecodeOne(p, 0, 12 - r, EncodeOne(p, 0, 12 - r, xs[0]));
      SquareBound(y - xs[0], d);
      PlainRunError(Push(p, y), r, xs[1..], d);
      RunStep(p, 0, 12 - r, xs);
      OneTimeMore(|xs[1..]|, d * d);
    }
  }

  lemma AttemptError(c: Channel, f: int, s: nat, xs: seq<int16>)
    ensures Attempt(c, f, s, xs).mse == RunError(c.pred, f, s, Inputs(c, xs))
  {}

  /** With no error carried over, filter 0 at the least right shift of the raw
      samples is one of the searched pairs; so the best pair is at least as
      good as what that one is known to reach. */
  lemma BestIsGood(c: Channel, raws: seq<int16>, xs: seq<int16>, count: int, f: int, s: int, d: nat)
    requires c.qerr == 0 && count >= 1 && |raws| == |xs|
    requires forall k :: 0 <= k < |xs| ==> xs[k] == raws[k] || xs[k] == 0
    requires IsBest(c, raws, xs, count, f, s)
    requires d + 1 == Pow2(RightShift(c.pred, 0, raws))
    ensures Attempt(c, f, s, xs).mse <= |xs| * (d * d)
  {
    hide Attempt, RunError, Pow2, LeastShift, Residuals, Lowest, Highest;
    var r := RightShift(c.pred, 0, raws);
    ResidualsOfPlain(c.pred, raws);
    FitsBound(Lowest(raws), Highest(raws), r);
    Pow2Shifts();
    assert Searched(c, raws, count, 0, 12 - r);
    assert Attempt(c, 0, 12 - r, xs).mse == RunError(c.pred, 0, 12 - r, Inputs(c, xs)) by {
      AttemptError(c, 0, 12 - r, xs);
    }
    PlainRunError(c.pred, r, Inputs(c, xs), d);
  }

  lemma {:induction false} ResidualsOfPlain(p: Predictor, raws: seq<int16>)
    ensures Residuals(p, 0, raws) == raws
    decreases |raws|
  {
    if raws != [] {
      NoPrediction(p);
      ResidualsOfPlain(Push(p, raws[0]), raws[1..]);
    }
  }

  /** That shift is the least that brings every raw sample into a nibble. */
  lemma PlainShiftMeaning(p: Predictor, raws: seq<int16>, q: nat)
    requires q < 12
    ensures RightShift(p, 0, raws) <= q
      <==> forall k :: 0 <= k < |raws| ==> -8 <= raws[k] / Pow2(q) <= 7
  {
    var r := RightShift(p, 0, raws);
    var lo, hi := Lowest(raws), Highest(raws);
    ResidualsOfPlain(p, raws);
    FitsBound(lo, hi, q);
    FitsBound(lo, hi, r);
    forall k | 0 <= k < |raws|
      ensures -8 <= raws[k] / Pow2(q) <= 7 <==> -8 * Pow2(q) <= raws[k] < 8 * Pow2(q)
    {
      DivisionBound(raws[k], Pow2(q));
    }
    if r <= q {
      Pow2Monotone(r, q);
    } else {
      assert !Fits(lo, hi, q);
    }
  }
}
