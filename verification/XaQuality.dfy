/** How close the samples that an XA player hears are to those that were
    encoded. */
module XaQuality {
  import opened Bits
  import opened Adpcm
  import opened AdpcmSearch
  import opened XaBlock
  import opened XaGuarantees
  import Xa = XaEncoder

  // ----- no error is carried over

  lemma {:induction false} UnitsKeepQerr(cs: Pair, samples: seq<int16>, at: nat, limit: int, stereo: bool,
                                         blk: seq<byte>, n: nat, side: nat)
    requires at + 224 <= |samples| && |blk| == BLOCK_SIZE && n <= 8
    ensures Side(UnitsAfter(cs, samples, at, limit, stereo, blk, n), side).qerr == Side(cs, side).qerr
    decreases n
  {
    hide UnitInputs, UnitHeader, RunError, RunAfter;
    if n > 0 { UnitsKeepQerr(cs, samples, at, limit, stereo, blk, n - 1, side); }
  }

  lemma {:induction false} BlocksKeepQerr(cs: Pair, samples: seq<int16>, total: int, stereo: bool,
                                          blks: seq<Xa.Block>, side: nat)
    requires 224 * |blks| <= |samples|
    ensures Side(Xa.BlocksAfter(cs, samples, total, stereo, blks), side).qerr == Side(cs, side).qerr
    decreases |blks|
  {
    hide UnitsAfter;
    if blks != [] {
      var n := |blks| - 1;
      BlocksKeepQerr(cs, samples, total, stereo, blks[..n], side);
      UnitsKeepQerr(Xa.BlocksAfter(cs, samples, total, stereo, blks[..n]), samples, 224 * n, total - 224 * n, stereo,
                    blks[n], 8, side);
    }
  }

  // ----- one unit

  /** A unit decoded from the state before it is within the promised distance
      of its zero-padded input, where 2^r - 1 = d and r is the least right shift
      that brings its raw samples into signed nibbles. */
  lemma UnitClose(cs: Pair, samples: seq<int16>, at: nat, limit: int, stereo: bool, blk: seq<byte>, u: nat,
                  p: Predictor, d: nat)
    requires at + 224 <= |samples| && |blk| == BLOCK_SIZE && u < 8
    requires UnitHolds(cs, samples, at, limit, stereo, blk, u) && Side(cs, u).qerr == 0
    requires d + 1 == Pow2(RightShift(p, 0, UnitRaws(samples, at, stereo, u)))
    ensures var now := Side(UnitsAfter(cs, samples, at, limit, stereo, blk, u), u);
      SquaredDistance(UnitRun(now.pred, blk, u), UnitInputs(samples, at, limit, stereo, u)) <= 28 * (d * d)
  {
    hide UnitsAfter, UnitNibbles, UnitInputs, UnitRaws, UnitHeader, DecodeRun, SquaredDistance, Attempt, RunError,
      IsBest, AttemptNibbles, RightShift;
    var now := Side(UnitsAfter(cs, samples, at, limit, stereo, blk, u), u);
    var h := UnitHeader(blk, u);
    UnitsKeepQerr(cs, samples, at, limit, stereo, blk, u, u);
    UnitPadding(samples, at, limit, stereo, u);
    BestDecodes(now, UnitRaws(samples, at, stereo, u), UnitInputs(samples, at, limit, stereo, u), h / 16, h % 16, p, d);
  }

  lemma UnitPadding(samples: seq<int16>, at: nat, limit: int, stereo: bool, u: nat)
    requires at + 224 <= |samples| && u < 8
    ensures var raws, xs := UnitRaws(samples, at, stereo, u), UnitInputs(samples, at, limit, stereo, u);
      |raws| == |xs| == 28 && forall k :: 0 <= k < |xs| ==> xs[k] == raws[k] || xs[k] == 0
  {}

  lemma BestDecodes(now: Channel, raws: seq<int16>, xs: seq<int16>, f: int, s: int, p: Predictor, d: nat)
    requires |raws| == |xs| == 28 && forall k :: 0 <= k < |xs| ==> xs[k] == raws[k] || xs[k] == 0
    requires IsBest(now, raws, xs, XA_FILTER_COUNT, f, s) && now.qerr == 0
    requires d + 1 == Pow2(RightShift(p, 0, raws))
    ensures IsFilter(f) && IsShift(s)
    ensures SquaredDistance(DecodeRun(now.pred, f, s, AttemptNibbles(now, f, s, xs)), xs) <= 28 * (d * d)
  {
    hide DecodeRun, SquaredDistance, RunError, EncodeRun, Residuals, LeastShift, Lowest, Highest, Pow2, RunAfter;
    ResidualsOfPlain(p, raws);
    ResidualsOfPlain(now.pred, raws);
    BestIsGood(now, raws, xs, XA_FILTER_COUNT, f, s, d);
    ClosedLoop(now.pred, f, s, Inputs(now, xs));
    assert Inputs(now, xs) == xs;
  }

  // ----- a unit's samples in what a side decodes to

  lemma {:induction false} UnitsPrefix(p: Predictor, blk: seq<byte>, side: nat, m: nat, n: nat)
    requires |blk| == BLOCK_SIZE && side < 2 && m <= n <= 4
    ensures DecodeUnits(p, blk, side, n)[..28 * m] == DecodeUnits(p, blk, side, m)
    decreases n
  {
    hide UnitRun, PushAll;
    if m < n {
      UnitsPrefix(p, blk, side, m, n - 1);
      assert DecodeUnits(p, blk, side, n)[..28 * m] == DecodeUnits(p, blk, side, n - 1)[..28 * m];
    }
  }

  lemma {:induction false} BlocksPrefix(p: Predictor, blks: seq<Xa.Block>, side: nat, m: nat)
    requires side < 2 && m <= |blks|
    ensures DecodeBlocks(p, blks, side)[..112 * m] == DecodeBlocks(p, blks[..m], side)
    decreases |blks|
  {
    hide DecodeUnits, PushAll;
    if m < |blks| {
      var init := blks[..|blks| - 1];
      BlocksPrefix(p, init, side, m);
      assert init[..m] == blks[..m];
      assert DecodeBlocks(p, blks, side)[..112 * m] == DecodeBlocks(p, init, side)[..112 * m];
    } else {
      assert blks[..m] == blks;
    }
  }

  /** Unit `m` of one side of block `j`. */
  function UnitHeard(p: Predictor, blks: seq<Xa.Block>, side: nat, j: nat, m: nat): (ys: seq<int16>)
    requires side < 2 && j < |blks| && m < 4
    ensures |ys| == 28
  {
    DecodeBlocks(p, blks, side)[112 * j + 28 * m..112 * j + 28 * m + 28]
  }

  lemma UnitHeardIs(p: Predictor, blks: seq<Xa.Block>, side: nat, j: nat, m: nat)
    requires side < 2 && j < |blks| && m < 4
    ensures var q := PushAll(p, DecodeBlocks(p, blks[..j], side));
      UnitHeard(p, blks, side, j, m)
      == UnitRun(PushAll(q, DecodeUnits(q, blks[j], side, m)), blks[j], side + 2 * m)
  {
    hide UnitRun, PushAll;
    var ys, zs := DecodeBlocks(p, blks, side), DecodeBlocks(p, blks[..j + 1], side);
    var q := PushAll(p, DecodeBlocks(p, blks[..j], side));
    BlocksPrefix(p, blks, side, j + 1);
    assert blks[..j + 1][..j] == blks[..j];
    var us, vs := DecodeUnits(q, blks[j], side, 4), DecodeUnits(q, blks[j], side, m + 1);
    assert zs == DecodeBlocks(p, blks[..j], side) + us;
    UnitsPrefix(q, blks[j], side, m + 1, 4);
    SliceDown(ys, zs, us, vs, 112 * j, 28 * m);
    assert vs[28 * m..] == UnitRun(PushAll(q, DecodeUnits(q, blks[j], side, m)), blks[j], side + 2 * m);
  }

  lemma SliceDown(ys: seq<int16>, zs: seq<int16>, us: seq<int16>, vs: seq<int16>, a: nat, b: nat)
    requires |zs| == a + |us| <= |ys| && ys[..|zs|] == zs && zs[a..] == us
    requires |vs| == b + 28 <= |us| && us[..|vs|] == vs
    ensures ys[a + b..a + b + 28] == vs[b..]
  {
    forall k | 0 <= k < 28
      ensures ys[a + b..a + b + 28][k] == vs[b..][k]
    {
      assert ys[a + b + k] == ys[..|zs|][a + b + k] == zs[a + b + k] == zs[a..][b + k] == us[..|vs|][b + k];
    }
  }

  /** From end to end: with no error carried over on a side, every unit that
      its player hears is within the promised distance of the samples it
      stands for. */
  lemma DecodedClose(cs: Pair, samples: seq<int16>, total: int, stereo: bool, blks: seq<Xa.Block>, side: nat,
                     j: nat, m: nat, p: Predictor, d: nat)
    requires 224 * |blks| <= |samples| && side < 2 && j < |blks| && m < 4
    requires Xa.StreamHolds(cs, samples, total, stereo, blks) && Side(cs, side).qerr == 0
    requires d + 1 == Pow2(RightShift(p, 0, UnitRaws(samples, 224 * j, stereo, side + 2 * m)))
    ensures SquaredDistance(UnitHeard(Side(cs, side).pred, blks, side, j, m),
                            UnitInputs(samples, 224 * j, total - 224 * j, stereo, side + 2 * m)) <= 28 * (d * d)
  {
    hide *;
    UnitHeardIs(Side(cs, side).pred, blks, side, j, m);
    StreamPrefix(cs, samples, total, stereo, blks, j);
    SideOfStream(cs, samples, total, stereo, blks[..j], side);
    var before := Xa.BlocksAfter(cs, samples, total, stereo, blks[..j]);
    BlockOfStream(cs, samples, total, stereo, blks, j);
    SideOfBlock(before, samples, 224 * j, total - 224 * j, stereo, blks[j], side, m);
    OtherSideKept(before, samples, 224 * j, total - 224 * j, stereo, blks[j], side, m);
    BlocksKeepQerr(cs, samples, total, stereo, blks[..j], side);
    UnitOfBlock(before, samples, 224 * j, total - 224 * j, stereo, blks[j], side, m);
    UnitClose(before, samples, 224 * j, total - 224 * j, stereo, blks[j], side + 2 * m, p, d);
  }

  lemma BlockOfStream(cs: Pair, samples: seq<int16>, total: int, stereo: bool, blks: seq<Xa.Block>, j: nat)
    requires 224 * |blks| <= |samples| && j < |blks| && Xa.StreamHolds(cs, samples, total, stereo, blks)
    ensures UnitsHold(Xa.BlocksAfter(cs, samples, total, stereo, blks[..j]), samples, 224 * j, total - 224 * j, stereo,
      blks[j], 8)
  {
    hide UnitsHold, Xa.BlocksAfter;
    assert Xa.StreamBlockHolds(cs, samples, total, stereo, blks, j);
  }

  lemma UnitOfBlock(cs: Pair, samples: seq<int16>, at: nat, limit: int, stereo: bool, blk: seq<byte>, side: nat, m: nat)
    requires at + 224 <= |samples| && |blk| == BLOCK_SIZE && side < 2 && m < 4
    requires UnitsHold(cs, samples, at, limit, stereo, blk, 8)
    ensures UnitHolds(cs, samples, at, limit, stereo, blk, side + 2 * m)
    ensures Side(cs, side + 2 * m) == Side(cs, side)
  {
    hide UnitHolds;
  }

  lemma OtherSideKept(cs: Pair, samples: seq<int16>, at: nat, limit: int, stereo: bool, blk: seq<byte>, side: nat,
                      m: nat)
    requires at + 224 <= |samples| && |blk| == BLOCK_SIZE && side < 2 && m < 4
    ensures Side(UnitsAfter(cs, samples, at, limit, stereo, blk, side + 2 * m), side + 2 * m)
         == Side(UnitsAfter(cs, samples, at, limit, stereo, blk, 2 * m), side)
  {
    hide UnitsAfter, UnitInputs, UnitHeader, Attempt;
    if side == 1 { UnitMoves(cs, samples, at, limit, stereo, blk, 2 * m); }
  }
}
