/** What an encoded XA stream gives its player and the disc image builder. */
module XaGuarantees {
  import opened Wrappers
  import opened Bits
  import opened Edc
  import opened SectorLayout
  import opened SectorFormat
  import opened SectorGuarantees
  import opened Adpcm
  import opened AdpcmSearch
  import opened XaBlock
  import Xa = XaEncoder

  // ----- decoding one side of the stream

  function UnitRun(p: Predictor, blk: seq<byte>, u: nat): (ys: seq<int16>)
    requires |blk| == BLOCK_SIZE && u < 8
    ensures |ys| == 28
  {
    DecodeRun(p, UnitHeader(blk, u) / 16, UnitHeader(blk, u) % 16, UnitNibbles(blk, u))
  }

  /** The first `n` units of one side of a block, each with its own header. */
  function DecodeUnits(p: Predictor, blk: seq<byte>, side: nat, n: nat): (ys: seq<int16>)
    requires |blk| == BLOCK_SIZE && side < 2 && n <= 4
    ensures |ys| == 28 * n
  {
    if n == 0 then []
    else
      var ys := DecodeUnits(p, blk, side, n - 1);
      ys + UnitRun(PushAll(p, ys), blk, side + 2 * (n - 1))
  }

  function DecodeBlocks(p: Predictor, blks: seq<Xa.Block>, side: nat): (ys: seq<int16>)
    requires side < 2
    ensures |ys| == 112 * |blks|
    decreases |blks|
  {
    if blks == [] then []
    else
      var ys := DecodeBlocks(p, blks[..|blks| - 1], side);
      ys + DecodeUnits(PushAll(p, ys), blks[|blks| - 1], side, 4)
  }

  /** One unit, decoded from the state before it. */
  lemma UnitDecodes(cs: Pair, samples: seq<int16>, at: nat, limit: int, stereo: bool, blk: seq<byte>, u: nat)
    requires at + 224 <= |samples| && |blk| == BLOCK_SIZE && u < 8
    requires UnitHolds(cs, samples, at, limit, stereo, blk, u)
    ensures var before := UnitsAfter(cs, samples, at, limit, stereo, blk, u);
      var after := UnitsAfter(cs, samples, at, limit, stereo, blk, u + 1);
      && Side(after, u).pred == PushAll(Side(before, u).pred, UnitRun(Side(before, u).pred, blk, u))
      && Side(after, u + 1) == Side(before, u + 1)
  {
    UnitMeans(cs, samples, at, limit, stereo, blk, u);
    UnitMoves(cs, samples, at, limit, stereo, blk, u);
    hide *;
  }

  /** The state after a unit is that of the attempt its header names. */
  lemma UnitMoves(cs: Pair, samples: seq<int16>, at: nat, limit: int, stereo: bool, blk: seq<byte>, u: nat)
    requires at + 224 <= |samples| && |blk| == BLOCK_SIZE && u < 8
    ensures var before := UnitsAfter(cs, samples, at, limit, stereo, blk, u);
      var after := UnitsAfter(cs, samples, at, limit, stereo, blk, u + 1);
      var h := UnitHeader(blk, u);
      && Side(after, u) == Attempt(Side(before, u), h / 16, h % 16, UnitInputs(samples, at, limit, stereo, u))
      && Side(after, u + 1) == Side(before, u + 1)
  {
    hide UnitInputs, Attempt, UnitHeader;
  }

  lemma UnitMeans(cs: Pair, samples: seq<int16>, at: nat, limit: int, stereo: bool, blk: seq<byte>, u: nat)
    requires at + 224 <= |samples| && |blk| == BLOCK_SIZE && u < 8
    requires UnitHolds(cs, samples, at, limit, stereo, blk, u)
    ensures var now := Side(UnitsAfter(cs, samples, at, limit, stereo, blk, u), u);
      var h := UnitHeader(blk, u);
      var xs := UnitInputs(samples, at, limit, stereo, u);
      Attempt(now, h / 16, h % 16, xs).pred == PushAll(now.pred, UnitRun(now.pred, blk, u))
  {
    hide DecodeRun, PushAll, UnitRaws, UnitInputs, Attempt, AttemptNibbles, UnitHeader, UnitsAfter, UnitNibbles;
    var now := Side(UnitsAfter(cs, samples, at, limit, stereo, blk, u), u);
    var h := UnitHeader(blk, u);
    AttemptDecodes(now, h / 16, h % 16, UnitInputs(samples, at, limit, stereo, u));
  }

  lemma AttemptDecodes(now: Channel, f: int, s: nat, xs: seq<int16>)
    requires IsFilter(f) && IsShift(s)
    ensures Attempt(now, f, s, xs).pred == PushAll(now.pred, DecodeRun(now.pred, f, s, AttemptNibbles(now, f, s, xs)))
  {
    ClosedLoop(now.pred, f, s, Inputs(now, xs));
    hide DecodeRun, PushAll, RunAfter, RunError, EncodeRun;
  }

  lemma {:induction false} SideOfBlock(cs: Pair, samples: seq<int16>, at: nat, limit: int, stereo: bool,
                                       blk: seq<byte>, side: nat, n: nat)
    requires at + 224 <= |samples| && |blk| == BLOCK_SIZE && side < 2 && n <= 4
    requires UnitsHold(cs, samples, at, limit, stereo, blk, 8)
    ensures PushAll(Side(cs, side).pred, DecodeUnits(Side(cs, side).pred, blk, side, n))
         == Side(UnitsAfter(cs, samples, at, limit, stereo, blk, 2 * n), side).pred
    decreases n
  {
    hide *;
    if n == 0 {
      NoUnits(cs, samples, at, limit, stereo, blk, side);
    } else {
      SideOfBlock(cs, samples, at, limit, stereo, blk, side, n - 1);
      PairDecodes(cs, samples, at, limit, stereo, blk, side, 2 * (n - 1));
      OneUnitMore(Side(cs, side).pred, blk, side, n);
    }
  }

  lemma NoUnits(cs: Pair, samples: seq<int16>, at: nat, limit: int, stereo: bool, blk: seq<byte>, side: nat)
    requires at + 224 <= |samples| && |blk| == BLOCK_SIZE && side < 2
    ensures PushAll(Side(cs, side).pred, DecodeUnits(Side(cs, side).pred, blk, side, 0)) == Side(cs, side).pred
    ensures UnitsAfter(cs, samples, at, limit, stereo, blk, 0) == cs
  {}

  lemma OneUnitMore(p: Predictor, blk: seq<byte>, side: nat, n: nat)
    requires |blk| == BLOCK_SIZE && side < 2 && 0 < n <= 4
    ensures var q := PushAll(p, DecodeUnits(p, blk, side, n - 1));
      PushAll(p, DecodeUnits(p, blk, side, n)) == PushAll(q, UnitRun(q, blk, side + 2 * (n - 1)))
  {
    var ys := DecodeUnits(p, blk, side, n - 1);
    PushAllConcat(p, ys, UnitRun(PushAll(p, ys), blk, side + 2 * (n - 1)));
    hide PushAll, UnitRun;
  }

  /** Two units of a pair: each side moves by its own. */
  lemma PairDecodes(cs: Pair, samples: seq<int16>, at: nat, limit: int, stereo: bool, blk: seq<byte>, side: nat, u: nat)
    requires at + 224 <= |samples| && |blk| == BLOCK_SIZE && side < 2 && u % 2 == 0 && u < 8
    requires UnitsHold(cs, samples, at, limit, stereo, blk, 8)
    ensures var before := Side(UnitsAfter(cs, samples, at, limit, stereo, blk, u), side).pred;
      Side(UnitsAfter(cs, samples, at, limit, stereo, blk, u + 2), side).pred
      == PushAll(before, UnitRun(before, blk, side + u))
  {
    hide UnitHolds, UnitRun, UnitsAfter, PushAll;
    assert UnitHolds(cs, samples, at, limit, stereo, blk, u);
    assert UnitHolds(cs, samples, at, limit, stereo, blk, u + 1);
    UnitDecodes(cs, samples, at, limit, stereo, blk, u);
    UnitDecodes(cs, samples, at, limit, stereo, blk, u + 1);
  }

  /** Each side decodes from its own headers and nibbles alone, and ends in the
      predictor state that the encoder tracked for it. */
  lemma {:induction false} SideOfStream(cs: Pair, samples: seq<int16>, total: int, stereo: bool, blks: seq<Xa.Block>,
                                        side: nat)
    requires 224 * |blks| <= |samples| && side < 2
    requires Xa.StreamHolds(cs, samples, total, stereo, blks)
    ensures PushAll(Side(cs, side).pred, DecodeBlocks(Side(cs, side).pred, blks, side))
         == Side(Xa.BlocksAfter(cs, samples, total, stereo, blks), side).pred
    decreases |blks|
  {
    hide *;
    if blks == [] {
      NoBlocks(cs, samples, total, stereo, side);
    } else {
      var n := |blks| - 1;
      StreamPrefix(cs, samples, total, stereo, blks, n);
      SideOfStream(cs, samples, total, stereo, blks[..n], side);
      LastBlock(cs, samples, total, stereo, blks);
      SideOfBlock(Xa.BlocksAfter(cs, samples, total, stereo, blks[..n]), samples, 224 * n, total - 224 * n, stereo,
        blks[n], side, 4);
      OneBlockMore(Side(cs, side).pred, blks, side);
    }
  }

  lemma NoBlocks(cs: Pair, samples: seq<int16>, total: int, stereo: bool, side: nat)
    requires side < 2
    ensures PushAll(Side(cs, side).pred, DecodeBlocks(Side(cs, side).pred, [], side)) == Side(cs, side).pred
    ensures Xa.BlocksAfter(cs, samples, total, stereo, []) == cs
  {}

  lemma LastBlock(cs: Pair, samples: seq<int16>, total: int, stereo: bool, blks: seq<Xa.Block>)
    requires blks != [] && 224 * |blks| <= |samples|
    requires Xa.StreamHolds(cs, samples, total, stereo, blks)
    ensures var n := |blks| - 1;
      var before := Xa.BlocksAfter(cs, samples, total, stereo, blks[..n]);
      && UnitsHold(before, samples, 224 * n, total - 224 * n, stereo, blks[n], 8)
      && Xa.BlocksAfter(cs, samples, total, stereo, blks)
        == UnitsAfter(before, samples, 224 * n, total - 224 * n, stereo, blks[n], 8)
  {
    hide UnitsHold, UnitsAfter;
    assert Xa.StreamBlockHolds(cs, samples, total, stereo, blks, |blks| - 1);
  }

  lemma OneBlockMore(p: Predictor, blks: seq<Xa.Block>, side: nat)
    requires blks != [] && side < 2
    ensures var n := |blks| - 1;
      var q := PushAll(p, DecodeBlocks(p, blks[..n], side));
      PushAll(p, DecodeBlocks(p, blks, side)) == PushAll(q, DecodeUnits(q, blks[n], side, 4))
  {
    hide DecodeUnits;
    var ys := DecodeBlocks(p, blks[..|blks| - 1], side);
    PushAllConcat(p, ys, DecodeUnits(PushAll(p, ys), blks[|blks| - 1], side, 4));
    hide PushAll;
  }

  lemma StreamPrefix(cs: Pair, samples: seq<int16>, total: int, stereo: bool, blks: seq<Xa.Block>, n: nat)
    requires 224 * |blks| <= |samples| && n <= |blks|
    requires Xa.StreamHolds(cs, samples, total, stereo, blks)
    ensures Xa.StreamHolds(cs, samples, total, stereo, blks[..n])
  {
    hide BlockHolds;
    forall j | 0 <= j < n
      ensures Xa.StreamBlockHolds(cs, samples, total, stereo, blks[..n], j)
    {
      assert blks[..n][..j] == blks[..j];
      assert Xa.StreamBlockHolds(cs, samples, total, stereo, blks, j);
    }
  }

  // ----- onto a disc

  /** A finished full-size sector, given an address on disc, changes in its
      three address bytes alone: it is taken for Form 2, and its subheaders,
      payload and code stay. */
  lemma SealedRefits(s: seq<byte>, settings: Xa.Settings, q: nat, lba: int, submode: byte)
    requires settings.format == Xa.FormatXACD && Xa.SealedAt(s, settings, q)
    ensures KeepsSector(s, q, lba, submode)
  {
    hide EdcOf, Bytes, Bcd, Xa.Subheader, Xa.SealedAt;
    var b := 2352 * q;
    SealedMeans(s, settings, q, b);
    var src := s[b..b + 2352];
    SubSlices(s, b, src);
    assert src[0x00F] == src[0x000..0x010][0x00F];
    assert src[..0x00C] == src[0x000..0x010][..0x00C] == Front(lba)[..0x00C];
    SubmodeByte(src, settings);
    RefitKeepsForm2(src, lba, submode);
    SealedIsSound(src);
  }

  lemma SealedMeans(s: seq<byte>, settings: Xa.Settings, q: nat, b: nat)
    requires settings.format == Xa.FormatXACD && Xa.SealedAt(s, settings, q) && b == 2352 * q
    ensures b + 2352 <= |s| && s[b..b + 0x010] == Xa.XaFront()
    ensures s[b + 0x010..b + 0x014] == s[b + 0x014..b + 0x018] == Xa.Subheader(settings)
    ensures s[b + 0x92C..b + 0x930] == Bytes(EdcOf(s[b + 0x010..b + 0x92C]))
  {
    hide EdcOf, Bytes, Xa.Subheader, Xa.XaFront;
    assert b == Xa.BaseOf(settings.format, q);
  }

  /** A whole encoded stream put on a disc from `lba` on: each of its sectors
      keeps everything but its address. */
  lemma DiscReady(cs: Pair, samples: seq<int16>, total: int, settings: Xa.Settings, s: seq<byte>, blks: seq<Xa.Block>,
                  n: nat, now: Pair, lba: int, submode: byte)
    requires settings.format == Xa.FormatXACD
    requires Xa.Underway(cs, samples, total, settings, s, blks, n, 0, now)
    ensures 2352 * n <= |s|
    ensures forall q :: 0 <= q < n ==> KeepsSectorFrom(s, q, lba, submode)
  {
    hide Xa.SealedAt, KeepsSector;
    forall q | 0 <= q < n
      ensures KeepsSectorFrom(s, q, lba, submode)
    {
      assert Xa.SealedAt(s, settings, q);
      SealedRefits(s, settings, q, lba + q, submode);
    }
  }

  /** Fitted to a block, sector `q` changes in its address alone and is sound. */
  ghost predicate KeepsSector(s: seq<byte>, q: nat, lba: int, submode: byte) {
    2352 * q + 2352 <= |s| &&
    var src := s[2352 * q..2352 * q + 2352];
    Refitted(src, lba, submode) == Some(Front(lba) + src[0x00F..]) && src[..0x00C] == Front(lba)[..0x00C] && Sound(src)
  }

  ghost predicate KeepsSectorFrom(s: seq<byte>, q: nat, lba: int, submode: byte) {
    KeepsSector(s, q, lba + q, submode)
  }

  /** What is left in the two channel states is what a player of each side
      ends in. */
  lemma StreamEnds(cs: Pair, samples: seq<int16>, total: int, settings: Xa.Settings, s: seq<byte>, blks: seq<Xa.Block>,
                   n: nat, now: Pair, side: nat)
    requires side < 2 && n > 0
    requires Xa.Underway(cs, samples, total, settings, s, blks, n, 0, now)
    ensures var ys := DecodeBlocks(Side(cs, side).pred, blks, side);
      |ys| == 2016 * n && Side(now, side).pred == Predictor(ys[2016 * n - 1], ys[2016 * n - 2])
  {
    LastTwo(Side(cs, side).pred, DecodeBlocks(Side(cs, side).pred, blks, side));
    SideOfStream(cs, samples, total, settings.stereo, blks, side);
    hide DecodeBlocks, PushAll, Xa.StreamHolds, Xa.BlocksAfter, Xa.Laid, Xa.AllSealed;
  }

  lemma SubSlices(s: seq<byte>, b: nat, src: seq<byte>)
    requires b + 2352 <= |s| && src == s[b..b + 2352]
    ensures src[0x000..0x010] == s[b..b + 0x010]
    ensures src[0x010..0x014] == s[b + 0x010..b + 0x014] && src[0x014..0x018] == s[b + 0x014..b + 0x018]
    ensures src[0x010..0x92C] == s[b + 0x010..b + 0x92C] && src[0x92C..] == s[b + 0x92C..b + 0x930]
  {
    SubSlice(s, b, src, 0x000, 0x010);
    SubSlice(s, b, src, 0x010, 0x014);
    SubSlice(s, b, src, 0x014, 0x018);
    SubSlice(s, b, src, 0x010, 0x92C);
    SubSlice(s, b, src, 0x92C, 0x930);
    assert src[0x92C..0x930] == src[0x92C..];
  }

  lemma SubSlice(s: seq<byte>, b: nat, src: seq<byte>, i: nat, j: nat)
    requires b + 2352 <= |s| && src == s[b..b + 2352] && i <= j <= 2352
    ensures src[i..j] == s[b + i..b + j]
  {
    forall k | 0 <= k < j - i
      ensures src[i..j][k] == s[b + i..b + j][k]
    {}
  }

  lemma SubmodeByte(src: seq<byte>, settings: Xa.Settings)
    requires IsSector(src) && src[0x010..0x014] == Xa.Subheader(settings)
    ensures HasForm2Bit(src)
  {
    assert src[0x012] == src[0x010..0x014][2] == 0x64;
  }

  lemma SealedIsSound(src: seq<byte>)
    requires IsSector(src) && src[0x00F] == 2 && HasForm2Bit(src) && src[0x010..0x014] == src[0x014..0x018]
    requires src[0x92C..] == Bytes(EdcOf(src[0x010..0x92C]))
    ensures Sound(src)
  {
    var m := src[0x010..0x92C];
    Residue(m);
    assert src[0x010..SECTOR_SIZE] == m + src[0x92C..];
    hide EdcOf, Bytes;
  }
}
