/** What an SPU-ADPCM player hears of a stream's bytes, and how far that is
    from the samples that went in. */
module SpuPlayer {
  import opened Arithmetic
  import opened Bits
  import opened Adpcm
  import opened AdpcmSearch
  import opened AdpcmFormat
  import opened SpuStream

  /** The header of sample `t`: one for every 16 bytes. */
  function HeaderOf(bytes: seq<byte>, t: nat): byte
    requires 16 * (t / 28) + 16 <= |bytes|
  {
    bytes[16 * (t / 28)]
  }

  /** The nibble of sample `t`: two to a byte, the first in the low digit. */
  function NibbleOf(bytes: seq<byte>, t: nat): nat
    requires 16 * (t / 28) + 16 <= |bytes|
  {
    var b := bytes[16 * (t / 28) + 2 + t % 28 / 2];
    if t % 2 == 0 then b % 0x10 else b / 0x10
  }

  /** `ys` is heard: 28 samples for every 16 bytes. */
  predicate Hears(p: Predictor, bytes: seq<byte>, ys: seq<int16>) {
    |ys| % 28 == 0 && 16 * (|ys| / 28) <= |bytes| && forall t :: 0 <= t < |ys| ==> HearsAt(p, bytes, ys, t)
  }

  predicate HearsAt(p: Predictor, bytes: seq<byte>, ys: seq<int16>, t: nat)
    requires t < |ys| && |ys| % 28 == 0 && 16 * (|ys| / 28) <= |bytes|
  {
    IsNext(p, ys, t, HeaderOf(bytes, t), NibbleOf(bytes, t))
  }

  // ----- that is the decoder of the model

  lemma DecodesAsHeard(p: Predictor, bytes: seq<byte>, n: nat, t: nat)
    requires 16 * n <= |bytes| && t < 28 * n
    ensures HearsAt(p, bytes, Decode(p, bytes, n), t)
  {
    hide Decode, HearsAt;
    BlockHeardAt(p, bytes, n, t, t / 28, t % 28);
  }

  lemma BlockHeardAt(p: Predictor, bytes: seq<byte>, n: nat, t: nat, b: nat, k: nat)
    requires 16 * n <= |bytes| && b < n && k < 28 && t == 28 * b + k
    ensures HearsAt(p, bytes, Decode(p, bytes, n), t)
  {
    hide Decode, DecodeRun, PushAll, Sounded, Earlier, IsNext, NibbleOf, HeaderOf, BlockNibbles;
    QuotientIs(t, b, k, 28);
    QuotientIs(28 * n, n, 0, 28);
    var ys, front := Decode(p, bytes, n), Decode(p, bytes, b);
    DecodePrefix(p, bytes, b + 1, n);
    OneBlockMore(p, bytes, b);
    RunIsNext(p, front, bytes[16 * b], BlockNibbles(bytes, b), ys, k);
    NibbleIs(bytes, t, b, k);
  }

  lemma NibbleIs(bytes: seq<byte>, t: nat, b: nat, k: nat)
    requires 16 * b + 16 <= |bytes| && k < 28 && t == 28 * b + k && t / 28 == b && t % 28 == k
    ensures HeaderOf(bytes, t) == bytes[16 * b] && NibbleOf(bytes, t) == BlockNibbles(bytes, b)[k]
  {
    QuotientIs(t, 14 * b + k / 2, k % 2, 2);
  }

  lemma OneBlockMore(p: Predictor, bytes: seq<byte>, b: nat)
    requires 16 * b + 16 <= |bytes|
    ensures Decode(p, bytes, b + 1) == Decode(p, bytes, b)
      + DecodeRun(PushAll(p, Decode(p, bytes, b)), bytes[16 * b] / 0x10, bytes[16 * b] % 0x10, BlockNibbles(bytes, b))
  {
    hide DecodeRun, PushAll, BlockNibbles;
  }

  lemma DecodeIsHeard(p: Predictor, bytes: seq<byte>, n: nat)
    requires 16 * n <= |bytes|
    ensures Hears(p, bytes, Decode(p, bytes, n))
  {
    hide Decode, HearsAt;
    forall t | 0 <= t < 28 * n
      ensures HearsAt(p, bytes, Decode(p, bytes, n), t)
    {
      DecodesAsHeard(p, bytes, n, t);
    }
  }

  lemma {:induction false} SameSoFar(p: Predictor, bytes: seq<byte>, ys: seq<int16>, zs: seq<int16>, t: nat)
    requires Hears(p, bytes, ys) && Hears(p, bytes, zs) && |ys| == |zs| && t <= |ys|
    ensures ys[..t] == zs[..t]
    decreases t
  {
    hide IsNext, NibbleOf, HeaderOf;
    if t > 0 {
      SameSoFar(p, bytes, ys, zs, t - 1);
      assert HearsAt(p, bytes, ys, t - 1) && HearsAt(p, bytes, zs, t - 1);
      SameNext(p, ys, zs, t - 1, HeaderOf(bytes, t - 1), NibbleOf(bytes, t - 1));
    }
  }

  /** There is one thing to hear. */
  lemma HeardIsDecode(p: Predictor, bytes: seq<byte>, n: nat, ys: seq<int16>)
    requires 16 * n <= |bytes| && |ys| == 28 * n && Hears(p, bytes, ys)
    ensures ys == Decode(p, bytes, n)
  {
    hide Decode, Hears;
    DecodeIsHeard(p, bytes, n);
    var zs := Decode(p, bytes, n);
    SameSoFar(p, bytes, ys, zs, |ys|);
    assert ys[..|ys|] == ys && zs[..|ys|] == zs;
  }

  /** No block asks the player to loop or to stop. */
  lemma FlagsClear(c: Channel, samples: seq<int16>, count: int, bytes: seq<byte>, n: nat, now: Channel, b: nat)
    requires 16 * n <= |bytes| && 28 * n <= |samples| && b < n && StreamWith(c, samples, count, bytes, n, now)
    ensures bytes[16 * b + 1] == 0
  {
    assert BlockHolds(c, samples, count, bytes, b);
  }

  // ----- what went in

  /** Block `b` codes the 28 samples from 28 b on, silence from the end on. */
  lemma BlockInput(samples: seq<int16>, count: int, b: nat, k: nat)
    requires 28 * b + 28 <= |samples| && k < 28
    ensures PaddedBlock(samples, count, b)[k] == if 28 * b + k < count then samples[28 * b + k] else 0
    ensures |RawBlock(samples, b)| == 28 && RawBlock(samples, b)[k] == samples[28 * b + k]
  {}

  /** All 28 samples fit a signed nibble after a right shift by `r`. */
  predicate FitsShift(samples: seq<int16>, b: nat, r: nat)
    requires 28 * b + 28 <= |samples|
  {
    forall k :: 28 * b <= k < 28 * b + 28 ==> 0 <= samples[k] + 8 * Pow2(r) && samples[k] < 8 * Pow2(r)
  }

  /** The input as the format counts it: sample `t` of the stream. */
  predicate IsInput(xs: seq<int16>, samples: seq<int16>, count: int, b: nat)
    requires 28 * b + 28 <= |samples|
  {
    |xs| == 28 && forall k :: 0 <= k < 28 ==> xs[k] == if 28 * b + k < count then samples[28 * b + k] else 0
  }

  /** Whoever plays the encoder's bytes by the format hears, in every block
      whose samples fit a nibble after a right shift by `r`, samples that are
      together within 28 (2^r - 1)^2 of those that went in, and so each. */
  lemma HeardClose(c: Channel, samples: seq<int16>, count: int, bytes: seq<byte>, n: nat, now: Channel,
                   ys: seq<int16>, b: nat, r: nat, d: nat, xs: seq<int16>)
    requires 16 * n <= |bytes| && 28 * n <= |samples| && b < n && c.qerr == 0
    requires StreamWith(c, samples, count, bytes, n, now)
    requires |ys| == 28 * n && Hears(c.pred, bytes, ys)
    requires r <= 12 && d + 1 == Pow2(r) && FitsShift(samples, b, r) && IsInput(xs, samples, count, b)
    ensures SquaredDistance(ys[28 * b..28 * b + 28], xs) <= 28 * (d * d)
    ensures AllWithin(ys[28 * b..28 * b + 28], xs, 28 * (d * d))
  {
    hide Decode, Hears, IsStream, PaddedBlock, RawBlock, SquaredDistance, RightShift, FitsShift, IsInput, AllWithin,
      Pow2;
    HeardIsDecode(c.pred, bytes, n, ys);
    InputIs(samples, count, b, xs);
    var least := RightShift(c.pred, 0, RawBlock(samples, b));
    var e: nat := Pow2(least) - 1;
    LeastNoLarger(c.pred, samples, b, r);
    SmallerBound(least, r, e, d);
    DecodedClose(c, samples, count, bytes, n, b, e);
    EachWithin(ys[28 * b..28 * b + 28], xs, 28 * (d * d));
  }

  lemma InputIs(samples: seq<int16>, count: int, b: nat, xs: seq<int16>)
    requires 28 * b + 28 <= |samples| && IsInput(xs, samples, count, b)
    ensures xs == PaddedBlock(samples, count, b)
  {
    hide PaddedBlock;
    forall k | 0 <= k < 28
      ensures xs[k] == PaddedBlock(samples, count, b)[k]
    {
      BlockInput(samples, count, b, k);
    }
  }

  lemma LeastNoLarger(p: Predictor, samples: seq<int16>, b: nat, r: nat)
    requires 28 * b + 28 <= |samples| && r <= 12 && FitsShift(samples, b, r)
    ensures RightShift(p, 0, RawBlock(samples, b)) <= r
  {
    hide RightShift, RawBlock, Pow2;
    var raws := RawBlock(samples, b);
    RawSize(samples, b);
    if r < 12 {
      forall k | 0 <= k < |raws|
        ensures -8 <= raws[k] / Pow2(r) <= 7
      {
        BlockInput(samples, 0, b, k);
        DivisionBound(samples[28 * b + k], Pow2(r));
      }
      PlainShiftMeaning(p, raws, r);
    }
  }

  lemma RawSize(samples: seq<int16>, b: nat)
    requires 28 * b + 28 <= |samples|
    ensures |RawBlock(samples, b)| == 28
  {}
}
