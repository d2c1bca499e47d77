/** ADPCM as a player has it from the format alone: a header, a nibble and the
    two samples heard before give the next one. */
module AdpcmFormat {
  import opened Arithmetic
  import opened Bits
  import opened Adpcm

  /** What a filter takes of the last sample and of the one before it, in
      64ths. */
  const FILTERS: seq<(int, int)> := [(0, 0), (60, 0), (115, -52), (98, -55), (122, -60)]

  /** The header has the filter in its high digit and the right shift in its
      low one. */
  function Sounded(header: nat, nibble: nat, prev1: int, prev2: int): int {
    var k := if header / 0x10 < 5 then FILTERS[header / 0x10] else (0, 0);
    var step := (if nibble < 8 then nibble else nibble - 16) * 0x1000 / Pow2(header % 0x10);
    var y := step + (k.0 * prev1 + k.1 * prev2 + 32) / 64;
    if y < -0x8000 then -0x8000 else if y > 0x7FFF then 0x7FFF else y
  }

  /** The sample heard `d` before sample `t`; `p` has those before the start. */
  function Earlier(p: Predictor, ys: seq<int16>, t: nat, d: nat): int16
    requires t <= |ys| && 1 <= d <= 2
  {
    if t >= d then ys[t - d] else if d == 2 && t == 0 then p.prev2 else p.prev1
  }

  /** Sample `t` is what the format makes of a header and a nibble. */
  predicate IsNext(p: Predictor, ys: seq<int16>, t: nat, header: nat, nibble: nat)
    requires t < |ys|
  {
    ys[t] == Sounded(header, nibble, Earlier(p, ys, t, 1), Earlier(p, ys, t, 2))
  }

  // ----- the decoder of the model does that

  lemma SoundedIs(p: Predictor, header: byte, nibble: nat)
    requires nibble < 16
    ensures DecodeOne(p, header / 0x10, header % 0x10, nibble) == Sounded(header, nibble, p.prev1, p.prev2)
  {
    hide Pow2;
  }

  lemma EarlierIs(p: Predictor, ys: seq<int16>, t: nat)
    requires t <= |ys|
    ensures PushAll(p, ys[..t]) == Predictor(Earlier(p, ys, t, 1), Earlier(p, ys, t, 2))
  {
    LastTwo(p, ys[..t]);
    if t == 0 { assert ys[..t] == []; }
  }

  /** Each sample of a run is decoded from those before it. */
  lemma {:induction false} DecodeRunAt(p: Predictor, f: int, s: nat, ns: seq<nat>, k: nat)
    requires (forall i :: 0 <= i < |ns| ==> ns[i] < 16) && k < |ns|
    ensures DecodeRun(p, f, s, ns)[k] == DecodeOne(PushAll(p, DecodeRun(p, f, s, ns)[..k]), f, s, ns[k])
    decreases |ns|
  {
    hide DecodeOne;
    var ys := DecodeRun(p, f, s, ns);
    if k == 0 {
      assert ys[..k] == [];
    } else {
      var y := DecodeOne(p, f, s, ns[0]);
      DecodeRunAt(Push(p, y), f, s, ns[1..], k - 1);
      assert ys[1..][..k - 1] == ys[..k][1..];
    }
  }

  /** So behind `front`, which leads from `p` to where the run starts. */
  lemma RunIsNext(p: Predictor, front: seq<int16>, header: byte, ns: seq<nat>, ys: seq<int16>, k: nat)
    requires (forall i :: 0 <= i < |ns| ==> ns[i] < 16) && k < |ns|
    requires var run := DecodeRun(PushAll(p, front), header / 0x10, header % 0x10, ns);
      |front| + |ns| <= |ys| && ys[..|front| + |ns|] == front + run
    ensures IsNext(p, ys, |front| + k, header, ns[k])
  {
    hide DecodeRun, DecodeOne, PushAll, Sounded, Earlier;
    var q, t := PushAll(p, front), |front| + k;
    var run := DecodeRun(q, header / 0x10, header % 0x10, ns);
    DecodeRunAt(q, header / 0x10, header % 0x10, ns, k);
    assert ys[t] == ys[..|front| + |ns|][t] == run[k];
    assert ys[..t] == ys[..|front| + |ns|][..t] == front + run[..k];
    PushAllConcat(p, front, run[..k]);
    EarlierIs(p, ys, t);
    SoundedIs(PushAll(p, ys[..t]), header, ns[k]);
  }

  /** Where two players have agreed so far, they agree on the next sample. */
  lemma SameNext(p: Predictor, ys: seq<int16>, zs: seq<int16>, t: nat, header: nat, nibble: nat)
    requires t < |ys| && t < |zs| && ys[..t] == zs[..t]
    requires IsNext(p, ys, t, header, nibble) && IsNext(p, zs, t, header, nibble)
    ensures ys[..t + 1] == zs[..t + 1]
  {
    hide Sounded;
    assert forall i :: 0 <= i < t ==> ys[i] == ys[..t][i] && zs[i] == zs[..t][i];
    assert ys[..t + 1] == ys[..t] + [ys[t]] && zs[..t + 1] == zs[..t] + [zs[t]];
  }

  // ----- how far off

  /** No sample is further off than all of them together. */
  lemma {:induction false} OneOfDistance(ys: seq<int>, xs: seq<int>, k: nat)
    requires |ys| == |xs| && k < |ys|
    ensures (ys[k] - xs[k]) * (ys[k] - xs[k]) <= SquaredDistance(ys, xs) && SquaredDistance(ys, xs) >= 0
    decreases |ys|
  {
    SquareIsNat(ys[0] - xs[0]);
    if k > 0 {
      OneOfDistance(ys[1..], xs[1..], k - 1);
    } else if |ys| > 1 {
      OneOfDistance(ys[1..], xs[1..], 0);
    }
  }

  predicate AllWithin(ys: seq<int16>, xs: seq<int16>, bound: int) {
    |ys| == |xs| && forall k :: 0 <= k < |ys| ==> ErrorWithin(ys[k], xs[k], bound)
  }

  predicate ErrorWithin(y: int, x: int, bound: int) {
    (y - x) * (y - x) <= bound
  }

  lemma EachWithin(ys: seq<int16>, xs: seq<int16>, bound: int)
    requires |ys| == |xs| && SquaredDistance(ys, xs) <= bound
    ensures AllWithin(ys, xs, bound)
  {
    forall k | 0 <= k < |ys|
      ensures ErrorWithin(ys[k], xs[k], bound)
    {
      OneOfDistance(ys, xs, k);
    }
  }

  lemma SmallerBound(q: nat, r: nat, c: nat, d: nat)
    requires q <= r && c + 1 == Pow2(q) && d + 1 == Pow2(r)
    ensures 28 * (c * c) <= 28 * (d * d)
  {
    Pow2Monotone(q, r);
    MulMonotone(c, d, c);
    MulMonotone(c, d, d);
  }
}
