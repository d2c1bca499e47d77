/** What an XA player hears of a file's bytes, and how far that is from the
    samples that went in. */
module XaPlayer {
  import opened Arithmetic
  import opened Bits
  import opened Edc
  import opened Adpcm
  import opened AdpcmSearch
  import opened AdpcmFormat
  import opened XaBlock
  import opened XaGuarantees
  import opened XaQuality
  import Xa = XaEncoder

  // ----- where the format keeps things

  /** Block `j` of a file: 18 to a sector, behind its subheaders. */
  function BlockStart(format: Xa.XaFormat, j: nat): nat {
    if format == Xa.FormatXACD then 2352 * (j / 18) + 0x18 + 0x80 * (j % 18)
    else 2336 * (j / 18) + 0x08 + 0x80 * (j % 18)
  }

  /** A side hears every other one of a block's eight units. */
  function UnitOf(side: nat, t: nat): nat {
    side + 2 * (t % 112 / 28)
  }

  /** The header of a unit, from the copy that a player reads. */
  function HeaderOf(out: seq<byte>, format: Xa.XaFormat, side: nat, t: nat): byte
    requires side < 2 && BlockStart(format, t / 112) + 0x80 <= |out|
  {
    out[BlockStart(format, t / 112) + 4 + UnitOf(side, t)]
  }

  /** The nibble of sample `t` of a side: a byte has those of both sides, the
      first side's in the low digit. */
  function NibbleOf(out: seq<byte>, format: Xa.XaFormat, side: nat, t: nat): nat
    requires side < 2 && BlockStart(format, t / 112) + 0x80 <= |out|
  {
    var b := out[BlockStart(format, t / 112) + 0x10 + 4 * (t % 28) + t % 112 / 28];
    if side == 0 then b % 0x10 else b / 0x10
  }

  /** `ys` is heard on a side: 112 samples for every block. */
  predicate Hears(p: Predictor, out: seq<byte>, format: Xa.XaFormat, side: nat, ys: seq<int16>)
    requires side < 2
  {
    forall t :: 0 <= t < |ys| ==> HearsAt(p, out, format, side, ys, t)
  }

  predicate HearsAt(p: Predictor, out: seq<byte>, format: Xa.XaFormat, side: nat, ys: seq<int16>, t: nat)
    requires side < 2 && t < |ys|
  {
    && BlockStart(format, t / 112) + 0x80 <= |out|
    && IsNext(p, ys, t, HeaderOf(out, format, side, t), NibbleOf(out, format, side, t))
  }

  // ----- that is the decoder of the model

  /** The blocks stand in the file, their headers twice. */
  predicate Stand(out: seq<byte>, format: Xa.XaFormat, blks: seq<Xa.Block>) {
    forall j :: 0 <= j < |blks| ==> StandsAt(out, format, blks[j], j)
  }

  predicate StandsAt(out: seq<byte>, format: Xa.XaFormat, blk: Xa.Block, j: nat) {
    && BlockStart(format, j) + 0x80 <= |out|
    && out[BlockStart(format, j)..BlockStart(format, j) + 0x80] == blk
    && HeadersCopied(blk)
  }

  lemma BlockStands(out: seq<byte>, format: Xa.XaFormat, blk: Xa.Block, j: nat, side: nat, t: nat)
    requires StandsAt(out, format, blk, j) && side < 2 && j == t / 112
    ensures HeaderOf(out, format, side, t) == UnitHeader(blk, UnitOf(side, t))
    ensures NibbleOf(out, format, side, t) == UnitNibbles(blk, UnitOf(side, t))[t % 28]
  {
    hide BlockStart;
    var u, k, at := UnitOf(side, t), t % 28, BlockStart(format, j);
    SliceAt(out, at, blk, 4 + u);
    SliceAt(out, at, blk, 0x10 + 4 * k + t % 112 / 28);
    CopyHasHeader(blk, u);
    assert u / 2 == t % 112 / 28 && u % 2 == side;
  }

  lemma SliceAt(out: seq<byte>, at: nat, blk: seq<byte>, i: nat)
    requires at + 0x80 <= |out| && out[at..at + 0x80] == blk && i < 0x80
    ensures out[at + i] == blk[i]
  {}

  lemma CopyHasHeader(blk: seq<byte>, u: nat)
    requires |blk| == BLOCK_SIZE && HeadersCopied(blk) && u < 8
    ensures blk[4 + u] == UnitHeader(blk, u)
  {
    if u < 4 { assert blk[4..8][u] == blk[0..4][u]; }
  }

  /** The samples up to the end of a unit: those before it, and its run. */
  lemma UnitBehind(p: Predictor, blks: seq<Xa.Block>, side: nat, j: nat, m: nat)
    requires side < 2 && j < |blks| && m < 4
    ensures var ys := DecodeBlocks(p, blks, side);
      var front := ys[..112 * j + 28 * m];
      ys[..112 * j + 28 * m + 28] == front + UnitRun(PushAll(p, front), blks[j], side + 2 * m)
  {
    hide UnitRun, PushAll;
    var ys := DecodeBlocks(p, blks, side);
    var ds := DecodeBlocks(p, blks[..j], side);
    var q := PushAll(p, ds);
    var us := DecodeUnits(q, blks[j], side, 4);
    BlocksPrefix(p, blks, side, j + 1);
    assert blks[..j + 1][..j] == blks[..j];
    assert ys[..112 * j + 112] == ds + us;
    UnitsPrefix(q, blks[j], side, m, 4);
    UnitsPrefix(q, blks[j], side, m + 1, 4);
    PushAllConcat(p, ds, us[..28 * m]);
    FrontIs(ys, ds, us, 112 * j, 28 * m);
    FrontIs(ys, ds, us, 112 * j, 28 * m + 28);
  }

  lemma FrontIs(ys: seq<int16>, ds: seq<int16>, us: seq<int16>, a: nat, b: nat)
    requires |ds| == a && |us| == 112 && b <= 112 && a + 112 <= |ys| && ys[..a + 112] == ds + us
    ensures ys[..a + b] == ds + us[..b]
  {
    assert ys[..a + b] == ys[..a + 112][..a + b];
  }

  lemma DecodesAsHeard(p: Predictor, out: seq<byte>, format: Xa.XaFormat, blks: seq<Xa.Block>, side: nat, t: nat)
    requires side < 2 && Stand(out, format, blks) && t < 112 * |blks|
    ensures HearsAt(p, out, format, side, DecodeBlocks(p, blks, side), t)
  {
    hide DecodeBlocks, Stand, HearsAt, UnitOf, IsNext;
    var j, m, k := t / 112, t % 112 / 28, t % 28;
    StandIs(out, format, blks, j);
    Digits(t, j, m, k);
    UnitHeardAt(p, out, format, blks, side, t, j, m, k);
  }

  lemma Digits(t: nat, j: nat, m: nat, k: nat)
    requires j == t / 112 && m == t % 112 / 28 && k == t % 28
    ensures t == 112 * j + 28 * m + k && m < 4
  {
    hide *;
    var w := t % 112;
    assert t == 112 * j + w && w == 28 * m + w % 28;
    QuotientIs(t, 4 * j + m, w % 28, 28);
  }

  lemma FromDigits(t: nat, j: nat, m: nat, k: nat)
    requires t == 112 * j + 28 * m + k && m < 4 && k < 28
    ensures j == t / 112 && m == t % 112 / 28 && k == t % 28
  {
    hide *;
    QuotientIs(t, j, 28 * m + k, 112);
    QuotientIs(28 * m + k, m, k, 28);
    QuotientIs(t, 4 * j + m, k, 28);
  }

  lemma StandIs(out: seq<byte>, format: Xa.XaFormat, blks: seq<Xa.Block>, j: nat)
    requires Stand(out, format, blks) && j < |blks|
    ensures StandsAt(out, format, blks[j], j)
  {
    hide StandsAt;
  }

  lemma UnitHeardAt(p: Predictor, out: seq<byte>, format: Xa.XaFormat, blks: seq<Xa.Block>, side: nat,
                    t: nat, j: nat, m: nat, k: nat)
    requires side < 2 && j < |blks| && StandsAt(out, format, blks[j], j)
    requires j == t / 112 && m == t % 112 / 28 && k == t % 28 && t == 112 * j + 28 * m + k && m < 4
    ensures HearsAt(p, out, format, side, DecodeBlocks(p, blks, side), t)
  {
    hide DecodeBlocks, DecodeRun, PushAll, IsNext, StandsAt, HeaderOf, NibbleOf, UnitHeader, UnitNibbles, BlockStart,
      Earlier, Sounded;
    var ys, u := DecodeBlocks(p, blks, side), side + 2 * m;
    StandsInside(out, format, blks[j], j);
    UnitBehind(p, blks, side, j, m);
    RunIsNext(p, ys[..112 * j + 28 * m], UnitHeader(blks[j], u), UnitNibbles(blks[j], u), ys, k);
    BlockStands(out, format, blks[j], j, side, t);
  }

  lemma StandsInside(out: seq<byte>, format: Xa.XaFormat, blk: Xa.Block, j: nat)
    requires StandsAt(out, format, blk, j)
    ensures BlockStart(format, j) + 0x80 <= |out|
  {}

  lemma {:induction false} SameSoFar(p: Predictor, out: seq<byte>, format: Xa.XaFormat, side: nat,
                                     ys: seq<int16>, zs: seq<int16>, t: nat)
    requires side < 2 && Hears(p, out, format, side, ys) && Hears(p, out, format, side, zs)
    requires |ys| == |zs| && t <= |ys|
    ensures ys[..t] == zs[..t]
    decreases t
  {
    hide IsNext, NibbleOf, HeaderOf, BlockStart;
    if t > 0 {
      SameSoFar(p, out, format, side, ys, zs, t - 1);
      assert HearsAt(p, out, format, side, ys, t - 1) && HearsAt(p, out, format, side, zs, t - 1);
      SameNext(p, ys, zs, t - 1, HeaderOf(out, format, side, t - 1), NibbleOf(out, format, side, t - 1));
    }
  }

  /** There is one thing to hear. */
  lemma HeardIsDecode(p: Predictor, out: seq<byte>, format: Xa.XaFormat, blks: seq<Xa.Block>, side: nat,
                      ys: seq<int16>)
    requires side < 2 && Stand(out, format, blks) && |ys| == 112 * |blks| && Hears(p, out, format, side, ys)
    ensures ys == DecodeBlocks(p, blks, side)
  {
    hide DecodeBlocks, HearsAt, Stand;
    var zs := DecodeBlocks(p, blks, side);
    forall t | 0 <= t < |zs|
      ensures HearsAt(p, out, format, side, zs, t)
    {
      DecodesAsHeard(p, out, format, blks, side, t);
    }
    SameSoFar(p, out, format, side, ys, zs, |ys|);
    assert ys[..|ys|] == ys && zs[..|ys|] == zs;
  }

  /** What the encoder leaves stands where the format has it. */
  lemma EncodedStand(cs: Pair, samples: seq<int16>, total: int, settings: Xa.Settings, out: seq<byte>,
                     blks: seq<Xa.Block>, n: nat, now: Pair)
    requires Xa.Underway(cs, samples, total, settings, out, blks, n, 0, now)
    ensures |blks| == 18 * n && Stand(out, settings.format, blks)
  {
    hide UnitsHold, UnitsAfter, Xa.BlocksAfter, Xa.AllSealed, HeadersCopied;
    forall j | 0 <= j < |blks|
      ensures StandsAt(out, settings.format, blks[j], j)
    {
      assert Xa.StreamBlockHolds(cs, samples, total, settings.stereo, blks, j);
      assert Xa.BlockLies(out, settings.format, blks[j], j);
    }
  }

  // ----- what went in

  /** The sample that the `t`-th one heard on a side stands for: in stereo every
      other sample is a side's, in mono each side has every other unit. */
  function PlaceOf(stereo: bool, side: nat, t: nat): nat {
    if stereo then 2 * t + side else 224 * (t / 112) + 28 * (side + 2 * (t % 112 / 28)) + t % 28
  }

  /** Input `k` of a unit is the sample of its place, silence from the end on. */
  lemma UnitInput(samples: seq<int16>, total: int, stereo: bool, j: nat, side: nat, m: nat, k: nat)
    requires 224 * j + 224 <= |samples| && side < 2 && m < 4 && k < 28
    ensures var p := PlaceOf(stereo, side, 112 * j + 28 * m + k);
      && p < |samples|
      && |UnitInputs(samples, 224 * j, total - 224 * j, stereo, side + 2 * m)| == 28
      && UnitInputs(samples, 224 * j, total - 224 * j, stereo, side + 2 * m)[k] == (if p < total then samples[p] else 0)
      && |UnitRaws(samples, 224 * j, stereo, side + 2 * m)| == 28
      && UnitRaws(samples, 224 * j, stereo, side + 2 * m)[k] == samples[p]
  {
    FromDigits(112 * j + 28 * m + k, j, m, k);
    UnitPlace(samples, total, stereo, j, side, m, k);
  }

  lemma UnitPlace(samples: seq<int16>, total: int, stereo: bool, j: nat, side: nat, m: nat, k: nat)
    requires 224 * j + 224 <= |samples| && side < 2 && m < 4 && k < 28
    ensures var p := if stereo then 224 * j + 56 * m + 2 * k + side else 224 * j + 28 * (side + 2 * m) + k;
      && p < |samples|
      && |UnitInputs(samples, 224 * j, total - 224 * j, stereo, side + 2 * m)| == 28
      && UnitInputs(samples, 224 * j, total - 224 * j, stereo, side + 2 * m)[k] == (if p < total then samples[p] else 0)
      && |UnitRaws(samples, 224 * j, stereo, side + 2 * m)| == 28
      && UnitRaws(samples, 224 * j, stereo, side + 2 * m)[k] == samples[p]
  {
    QuotientIs(side + 2 * m, m, side, 2);
  }

  /** What a unit's 28 samples should be. */
  predicate IsInput(xs: seq<int16>, samples: seq<int16>, total: int, stereo: bool, side: nat, at: nat)
  {
    |xs| == 28 && forall k :: 0 <= k < 28 ==> IsSample(xs[k], samples, total, PlaceOf(stereo, side, at + k))
  }

  predicate IsSample(x: int16, samples: seq<int16>, total: int, p: nat) {
    p < |samples| && x == if p < total then samples[p] else 0
  }

  /** All of them fit a signed nibble after a right shift by `r`. */
  predicate FitsShift(samples: seq<int16>, stereo: bool, side: nat, at: nat, r: nat) {
    forall t :: at <= t < at + 28 ==> FitsAt(samples, PlaceOf(stereo, side, t), r)
  }

  predicate FitsAt(samples: seq<int16>, p: nat, r: nat) {
    p < |samples| && 0 <= samples[p] + 8 * Pow2(r) && samples[p] < 8 * Pow2(r)
  }

  lemma InputIs(samples: seq<int16>, total: int, stereo: bool, j: nat, side: nat, m: nat, xs: seq<int16>)
    requires 224 * j + 224 <= |samples| && side < 2 && m < 4
    requires IsInput(xs, samples, total, stereo, side, 112 * j + 28 * m)
    ensures |xs| == 28 && xs == UnitInputs(samples, 224 * j, total - 224 * j, stereo, side + 2 * m)
  {
    hide UnitInputs, UnitRaws, PlaceOf;
    var zs := UnitInputs(samples, 224 * j, total - 224 * j, stereo, side + 2 * m);
    UnitInput(samples, total, stereo, j, side, m, 0);
    forall k | 0 <= k < 28
      ensures xs[k] == zs[k]
    {
      UnitInput(samples, total, stereo, j, side, m, k);
      assert IsSample(xs[k], samples, total, PlaceOf(stereo, side, 112 * j + 28 * m + k));
    }
  }

  lemma LeastNoLarger(p: Predictor, samples: seq<int16>, stereo: bool, j: nat, side: nat, m: nat, r: nat)
    requires 224 * j + 224 <= |samples| && side < 2 && m < 4 && r <= 12
    requires FitsShift(samples, stereo, side, 112 * j + 28 * m, r)
    ensures RightShift(p, 0, UnitRaws(samples, 224 * j, stereo, side + 2 * m)) <= r
  {
    hide RightShift, UnitInputs, UnitRaws, PlaceOf, Pow2;
    var raws, at := UnitRaws(samples, 224 * j, stereo, side + 2 * m), 112 * j + 28 * m;
    if r < 12 {
      UnitInput(samples, 0, stereo, j, side, m, 0);
      forall k | 0 <= k < |raws|
        ensures -8 <= raws[k] / Pow2(r) <= 7
      {
        UnitInput(samples, 0, stereo, j, side, m, k);
        var t := at + k;
        assert FitsAt(samples, PlaceOf(stereo, side, t), r);
        DivisionBound(raws[k], Pow2(r));
      }
      PlainShiftMeaning(p, raws, r);
    }
  }

  /** Whoever plays a side of the encoder's file by the format hears, in every
      unit whose samples fit a nibble after a right shift by `r`, samples that
      are together within 28 (2^r - 1)^2 of the side's own, and so each. */
  lemma HeardClose(cs: Pair, samples: seq<int16>, total: int, settings: Xa.Settings, out: seq<byte>,
                   blks: seq<Xa.Block>, n: nat, now: Pair, side: nat, ys: seq<int16>, j: nat, m: nat,
                   r: nat, d: nat, xs: seq<int16>)
    requires Xa.Underway(cs, samples, total, settings, out, blks, n, 0, now)
    requires side < 2 && (if side == 0 then cs.left else cs.right).qerr == 0
    requires |ys| == 2016 * n && j < 18 * n && m < 4
    requires Hears((if side == 0 then cs.left else cs.right).pred, out, settings.format, side, ys)
    requires r <= 12 && d + 1 == Pow2(r) && FitsShift(samples, settings.stereo, side, 112 * j + 28 * m, r)
    requires IsInput(xs, samples, total, settings.stereo, side, 112 * j + 28 * m)
    ensures var at := 112 * j + 28 * m;
      && SquaredDistance(ys[at..at + 28], xs) <= 28 * (d * d)
      && AllWithin(ys[at..at + 28], xs, 28 * (d * d))
  {
    hide *;
    UnderwayMeans(cs, samples, total, settings, out, blks, n, now);
    EncodedStand(cs, samples, total, settings, out, blks, n, now);
    SideIs(cs, side);
    var p := Side(cs, side).pred;
    HeardIsDecode(p, out, settings.format, blks, side, ys);
    InputIs(samples, total, settings.stereo, j, side, m, xs);
    var raws := UnitRaws(samples, 224 * j, settings.stereo, side + 2 * m);
    var least := RightShift(p, 0, raws);
    var e: nat := Pow2(least) - 1;
    LeastNoLarger(p, samples, settings.stereo, j, side, m, r);
    SmallerBound(least, r, e, d);
    DecodedClose(cs, samples, total, settings.stereo, blks, side, j, m, p, e);
    HeardSlice(p, blks, side, j, m);
    EachWithin(ys[112 * j + 28 * m..112 * j + 28 * m + 28], xs, 28 * (d * d));
  }

  lemma UnderwayMeans(cs: Pair, samples: seq<int16>, total: int, settings: Xa.Settings, out: seq<byte>,
                      blks: seq<Xa.Block>, n: nat, now: Pair)
    requires Xa.Underway(cs, samples, total, settings, out, blks, n, 0, now)
    ensures |blks| == 18 * n && 224 * |blks| <= |samples|
    ensures Xa.StreamHolds(cs, samples, total, settings.stereo, blks)
  {
    hide Xa.StreamHolds;
  }

  lemma SideIs(cs: Pair, side: nat)
    requires side < 2
    ensures Side(cs, side) == if side == 0 then cs.left else cs.right
  {}

  lemma HeardSlice(p: Predictor, blks: seq<Xa.Block>, side: nat, j: nat, m: nat)
    requires side < 2 && j < |blks| && m < 4
    ensures UnitHeard(p, blks, side, j, m) == DecodeBlocks(p, blks, side)[112 * j + 28 * m..112 * j + 28 * m + 28]
  {}

  // ----- what a sector says of itself

  /** Where the subheaders of sector `q` start. */
  function SubheaderAt(format: Xa.XaFormat, q: nat): nat {
    if format == Xa.FormatXACD then 2352 * q + 0x10 else 2336 * q
  }

  /** Every finished sector tells the stream's settings, twice, and that it is
      real-time audio of Form 2; its tail is empty and its code right; and with
      its front it has the sync pattern and is of mode 2. */
  lemma SectorTells(cs: Pair, samples: seq<int16>, total: int, settings: Xa.Settings, out: seq<byte>,
                    blks: seq<Xa.Block>, n: nat, now: Pair, q: nat, copy: nat)
    requires Xa.Underway(cs, samples, total, settings, out, blks, n, 0, now) && q < n && copy < 2
    ensures SubheaderAt(settings.format, q) + 2336 <= |out|
    ensures var h := SubheaderAt(settings.format, q) + 4 * copy;
      && out[h] == settings.fileNumber % 0x100 && out[h + 1] == settings.channelNumber % 0x20
      && out[h + 2] / 0x04 % 2 == out[h + 2] / 0x20 % 2 == out[h + 2] / 0x40 % 2 == 1
      && out[h + 2] % 0x04 == out[h + 2] / 0x08 % 4 == out[h + 2] / 0x80 == 0
      && out[h + 3] % 4 == (if settings.stereo then 1 else 0)
      && (out[h + 3] / 4 % 4 == 0 <==> settings.frequency >= 37800) && out[h + 3] / 4 % 4 < 2
      && (out[h + 3] / 0x10 == 0 <==> settings.bitsPerSample < 8) && out[h + 3] / 0x10 < 2
    ensures var at := SubheaderAt(settings.format, q);
      && out[at + 0x908..at + 0x91C] == seq(0x14, _ => 0) && EdcOf(out[at..at + 0x920]) == 0
      && (settings.format == Xa.FormatXACD ==>
            out[at - 0x10..at] == [0] + seq(10, _ => 0xFF) + [0, 0, 0, 0, 2])
  {
    hide EdcOf, Bytes, Xa.StreamHolds, Xa.BlocksAfter, Xa.Laid, Xa.Subheader, Xa.Sealed;
    assert Xa.SealedAt(out, settings, q);
    SealedBytes(out, settings, q);
    SubheaderBits(settings);
    var at, h := SubheaderAt(settings.format, q), SubheaderAt(settings.format, q) + 4 * copy;
    assert out[h..h + 4] == Xa.Subheader(settings);
    FourOf(out, h, Xa.Subheader(settings));
    var m := out[at..at + 0x91C];
    Residue(m);
    assert out[at..at + 0x920] == m + out[at + 0x91C..at + 0x920];
  }

  lemma FourOf(out: seq<byte>, h: nat, t: seq<byte>)
    requires h + 4 <= |out| && out[h..h + 4] == t
    ensures out[h] == t[0] && out[h + 1] == t[1] && out[h + 2] == t[2] && out[h + 3] == t[3]
  {}

  lemma SealedBytes(out: seq<byte>, settings: Xa.Settings, q: nat)
    requires Xa.SealedAt(out, settings, q)
    ensures var at := SubheaderAt(settings.format, q);
      && at + 2336 <= |out|
      && out[at..at + 4] == Xa.Subheader(settings) && out[at + 4..at + 8] == Xa.Subheader(settings)
      && out[at + 0x908..at + 0x91C] == seq(0x14, _ => 0)
      && out[at + 0x91C..at + 0x920] == Bytes(EdcOf(out[at..at + 0x91C]))
      && (settings.format == Xa.FormatXACD ==>
            out[at - 0x10..at] == [0] + seq(10, _ => 0xFF) + [0, 0, 0, 0, 2])
  {
    hide EdcOf, Bytes, Xa.Subheader;
    assert Xa.BaseOf(settings.format, q) + 0x010 == SubheaderAt(settings.format, q);
  }

  lemma SubheaderBits(settings: Xa.Settings)
    ensures var t := Xa.Subheader(settings);
      && t[0] == settings.fileNumber % 0x100 && t[1] == settings.channelNumber % 0x20
      && t[2] / 0x04 % 2 == t[2] / 0x20 % 2 == t[2] / 0x40 % 2 == 1
      && t[2] % 0x04 == t[2] / 0x08 % 4 == t[2] / 0x80 == 0
      && t[3] % 4 == (if settings.stereo then 1 else 0)
      && (t[3] / 4 % 4 == 0 <==> settings.frequency >= 37800) && t[3] / 4 % 4 < 2
      && (t[3] / 0x10 == 0 <==> settings.bitsPerSample < 8) && t[3] / 0x10 < 2
  {}
}
