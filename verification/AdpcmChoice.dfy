/** What the encoder's choices are worth: the nearest nibble, the least shift,
    and the best of the filters and shifts it tries. */
module AdpcmChoice {
  import opened Arithmetic
  import opened Bits
  import opened Adpcm
  import opened AdpcmSearch
  import opened AdpcmFormat

  /** The prediction error that a filter leaves of sample `t`, behind the two
      samples before it. */
  function Left(f: int, p: Predictor, raws: seq<int16>, t: nat): int
    requires 0 <= f < 5 && t < |raws|
  {
    raws[t] - (FILTERS[f].0 * Earlier(p, raws, t, 1) + FILTERS[f].1 * Earlier(p, raws, t, 2) + 32) / 64
  }

  lemma {:induction false} ResidualAt(p: Predictor, f: int, raws: seq<int16>, t: nat)
    requires 0 <= f < 5 && t < |raws|
    ensures Residuals(p, f, raws)[t] == Left(f, p, raws, t)
    decreases t
  {
    if t > 0 {
      var q := Push(p, raws[0]);
      ResidualAt(q, f, raws[1..], t - 1);
      assert Earlier(q, raws[1..], t - 1, 1) == Earlier(p, raws, t, 1);
      assert Earlier(q, raws[1..], t - 1, 2) == Earlier(p, raws, t, 2);
    }
  }

  /** All prediction errors of a filter fit a signed nibble after a right shift
      by `q`. */
  predicate AllFit(f: int, p: Predictor, raws: seq<int16>, q: nat)
    requires 0 <= f < 5
  {
    forall t :: 0 <= t < |raws| ==> -8 <= Left(f, p, raws, t) / Pow2(q) <= 7
  }

  /** The search's shift is the least that does it, or 12. */
  lemma ShiftMeaning(p: Predictor, f: int, raws: seq<int16>, q: nat)
    requires 0 <= f < 5 && q < 12
    ensures RightShift(p, f, raws) <= q <==> AllFit(f, p, raws, q)
  {
    hide Left, Residuals, Pow2, Lowest, Highest, Fits, LeastShift, RightShift;
    var es := Residuals(p, f, raws);
    ExtremesFit(es, q);
    LeastIs(Lowest(es), Highest(es), q);
    ShiftIs(p, f, raws);
    forall t | 0 <= t < |raws|
      ensures es[t] == Left(f, p, raws, t)
    {
      ResidualAt(p, f, raws, t);
    }
  }

  lemma ShiftIs(p: Predictor, f: int, raws: seq<int16>)
    ensures RightShift(p, f, raws) == LeastShift(Lowest(Residuals(p, f, raws)), Highest(Residuals(p, f, raws)), 0)
  {}

  lemma ExtremesFit(es: seq<int>, q: nat)
    ensures Fits(Lowest(es), Highest(es), q) <==> forall t :: 0 <= t < |es| ==> -8 <= es[t] / Pow2(q) <= 7
  {
    var lo, hi := Lowest(es), Highest(es);
    FitsBound(lo, hi, q);
    forall t | 0 <= t < |es|
      ensures -8 <= es[t] / Pow2(q) <= 7 <==> -8 * Pow2(q) <= es[t] < 8 * Pow2(q)
    {
      DivisionBound(es[t], Pow2(q));
    }
  }

  lemma LeastIs(lo: int, hi: int, q: nat)
    requires q < 12
    ensures LeastShift(lo, hi, 0) <= q <==> Fits(lo, hi, q)
  {
    var r := LeastShift(lo, hi, 0);
    FitsBound(lo, hi, q);
    FitsBound(lo, hi, r);
    if r <= q { Pow2Monotone(r, q); }
    hide Fits, Pow2;
  }

  // ----- the nearest nibble

  /** How far a nibble's step is from the prediction error of `x`, in 4096ths
      of the shifted unit. */
  function Miss(e: int, s: nat, n: nat): nat {
    var z := (if n < 8 then n else n - 16) * 0x1000 - e * Pow2(s);
    if z < 0 then -z else z
  }

  /** No other nibble is nearer to a sample's prediction error. */
  lemma NearestNibble(p: Predictor, f: int, s: nat, x: int, n: nat)
    requires n < 16
    ensures var e := x - Predict(p, f);
      Miss(e, s, EncodeOne(p, f, s, x)) <= Miss(e, s, n)
  {
    hide Pow2, Predict;
    var e := x - Predict(p, f);
    NearestStepOf(e * Pow2(s), Clamp((e * Pow2(s) + 0x800) / 0x1000, -8, 7), if n < 8 then n else n - 16);
  }

  lemma NearestStepOf(z: int, q: int, c: int)
    requires q == Clamp((z + 0x800) / 0x1000, -8, 7) && -8 <= c <= 7
    ensures (q * 0x1000 - z <= c * 0x1000 - z || q * 0x1000 - z <= z - c * 0x1000)
    ensures (z - q * 0x1000 <= c * 0x1000 - z || z - q * 0x1000 <= z - c * 0x1000)
  {}

  // ----- the best of what is tried

  /** What a player of the attempt hears is off by this much, squared. */
  function ErrorOf(c: Channel, f: int, s: nat, xs: seq<int16>): int {
    SquaredDistance(DecodeRun(c.pred, f, s, AttemptNibbles(c, f, s, xs)), Wanted(c, xs))
  }

  /** The samples, each with the error carried over. */
  function Wanted(c: Channel, xs: seq<int16>): (zs: seq<int>)
    ensures |zs| == |xs|
  {
    seq(|xs|, k requires 0 <= k < |xs| => xs[k] + c.qerr)
  }

  /** The chosen pair is heard as well as any filter with its least shift or
      one more or less, in the range of shifts there is; `r` is that least
      shift. */
  lemma BestOfTried(c: Channel, raws: seq<int16>, xs: seq<int16>, count: int, f: int, s: int, g: int, t: int, r: nat)
    requires IsBest(c, raws, xs, count, f, s) && count <= 5
    requires 0 <= g < count && 0 <= t <= 12 && 11 - r <= t <= 13 - r && r <= 12
    requires r < 12 ==> AllFit(g, c.pred, raws, r)
    requires forall q :: 0 <= q < r ==> !AllFit(g, c.pred, raws, q)
    ensures 0 <= f < count && 0 <= s <= 12
    ensures ErrorOf(c, f, s, xs) <= ErrorOf(c, g, t, xs)
  {
    hide AllFit, RightShift, Attempt, DecodeRun, SquaredDistance, RunError, AttemptNibbles;
    LeastIsShift(c.pred, g, raws, r);
    assert Searched(c, raws, count, g, t);
    AttemptHeard(c, f, s, xs);
    AttemptHeard(c, g, t, xs);
  }

  lemma AttemptHeard(c: Channel, f: int, s: nat, xs: seq<int16>)
    ensures Attempt(c, f, s, xs).mse == ErrorOf(c, f, s, xs)
  {
    ClosedLoop(c.pred, f, s, Inputs(c, xs));
    assert Inputs(c, xs) == Wanted(c, xs);
  }

  lemma LeastIsShift(p: Predictor, f: int, raws: seq<int16>, r: nat)
    requires 0 <= f < 5 && r <= 12 && (r < 12 ==> AllFit(f, p, raws, r))
    requires forall q :: 0 <= q < r ==> !AllFit(f, p, raws, q)
    ensures RightShift(p, f, raws) == r
  {
    hide AllFit, RightShift;
    var l := RightShift(p, f, raws);
    if l < 12 { ShiftMeaning(p, f, raws, l); }
    if r < 12 { ShiftMeaning(p, f, raws, r); }
  }
}
