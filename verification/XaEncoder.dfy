/** A whole XA-ADPCM stream: blocks of 224 samples, 18 to a sector, with
    subheaders and codes, either as bare 2336-byte sectors or as full
    2352-byte ones. */
module XaEncoder {
  import opened Arithmetic
  import opened Bits
  import opened Edc
  import opened SectorFormat
  import opened PsxCdrom
  import opened Adpcm
  import AdpcmSearch
  import opened AdpcmEncoder
  import opened XaBlock

  datatype XaFormat = FormatXA | FormatXACD

  datatype Settings = Settings(format: XaFormat, stereo: bool, frequency: int, bitsPerSample: int,
                               fileNumber: int, channelNumber: int)

  // ----- sizes

  function SizeOf(format: XaFormat): (n: nat)
    ensures n == 2336 || n == 2352
  {
    if format == FormatXA then 2336 else 2352
  }

  /** `psx_audio_xa_get_samples_per_sector` */
  function SamplesPerSector(settings: Settings): (n: nat)
    ensures n > 0
  {
    (if settings.bitsPerSample == 8 then 112 else 224) / (if settings.stereo then 2 else 1) * 18
  }

  /** `psx_audio_xa_get_buffer_size` */
  function BufferSize(settings: Settings, count: nat): nat {
    (count + SamplesPerSector(settings) - 1) / SamplesPerSector(settings) * SizeOf(settings.format)
  }

  /** How many 16-bit words of samples there are. */
  function Total(settings: Settings, count: nat): nat {
    if settings.stereo then 2 * count else count
  }

  /** Samples that one block takes, both channels together. */
  function SampleJump(settings: Settings): (n: nat)
    ensures n > 0
  {
    if settings.bitsPerSample == 8 then 112 else 224
  }

  /** Sectors of 18 blocks, each started sector filled up. */
  function SectorCount(total: nat, jump: nat): nat
    requires jump > 0
  {
    (total + (18 * jump - 1)) / (18 * jump)
  }

  /** What the block loop fills is what the buffer-size function announces. */
  lemma SizesAgree(settings: Settings, count: nat)
    ensures SectorCount(Total(settings, count), SampleJump(settings)) * SizeOf(settings.format)
      == BufferSize(settings, count)
  {
    if settings.stereo {
      if settings.bitsPerSample == 8 {
        assert (2 * count + 2015) / 2016 == (count + 1007) / 1008;
      } else {
        assert (2 * count + 4031) / 4032 == (count + 2015) / 2016;
      }
    }
  }

  // ----- places

  /** Where sector `q` starts in the output. */
  function StartOf(format: XaFormat, q: nat): nat {
    q * SizeOf(format)
  }

  /** Where the sector's byte 0 is, or would be: a bare sector starts at its
      byte 0x010. */
  function BaseOf(format: XaFormat, q: nat): int {
    StartOf(format, q) - (2352 - SizeOf(format))
  }

  function BlockAt(format: XaFormat, q: nat, r: nat): (p: nat)
    ensures p >= StartOf(format, q)
  {
    BaseOf(format, q) + 0x018 + r * 0x80
  }

  lemma SectorEnds(format: XaFormat, q: nat, r: nat)
    requires r < 18
    ensures BlockAt(format, q, r) + BLOCK_SIZE <= BaseOf(format, q) + 0x918
    ensures BaseOf(format, q) + 2352 == StartOf(format, q + 1)
  {}

  // ----- the sector around the blocks

  /** File, channel, submode and coding of the stream. */
  function Subheader(settings: Settings): (h: seq<byte>)
    ensures |h| == 4
  {
    [settings.fileNumber % 0x100, settings.channelNumber % 0x20, 0x64,
     (if settings.stereo then 1 else 0) + (if settings.frequency >= 37800 then 0 else 4)
     + (if settings.bitsPerSample >= 8 then 16 else 0)]
  }

  function XaFront(): (f: seq<byte>)
    ensures |f| == 16
  {
    [0x00] + seq(10, _ => 0xFF) + [0x00, 0x00, 0x00, 0x00, 0x02]
  }

  /** A sector that has been set up: front, both subheaders and the unused
      tail. */
  predicate Opened(s: seq<byte>, settings: Settings, q: nat)
    requires StartOf(settings.format, q + 1) <= |s|
  {
    var b := BaseOf(settings.format, q);
    SectorEnds(settings.format, q, 0);
    && s[b + 0x010..b + 0x014] == Subheader(settings)
    && s[b + 0x014..b + 0x018] == Subheader(settings)
    && s[b + 0x918..b + 0x92C] == seq(0x14, _ => 0)
    && (settings.format == FormatXACD ==> s[b..b + 0x010] == XaFront())
  }

  /** No audio in it: the 18 blocks are zero. */
  predicate Quiet(s: seq<byte>, settings: Settings, q: nat)
    requires StartOf(settings.format, q + 1) <= |s|
  {
    var b := BaseOf(settings.format, q);
    SectorEnds(settings.format, q, 0);
    s[b + 0x018..b + 0x918] == seq(0x900, _ => 0)
  }

  /** A finished sector: its code is that of everything from the subheader
      on. */
  ghost predicate Sealed(s: seq<byte>, settings: Settings, q: nat)
    requires StartOf(settings.format, q + 1) <= |s|
  {
    var b := BaseOf(settings.format, q);
    SectorEnds(settings.format, q, 0);
    && Opened(s, settings, q)
    && s[b + 0x92C..b + 0x930] == Bytes(EdcOf(s[b + 0x010..b + 0x92C]))
  }

  // ----- the audio

  type Block = b: seq<byte> | |b| == BLOCK_SIZE witness seq(BLOCK_SIZE, _ => 0)

  /** Both channel states after a list of blocks. */
  function BlocksAfter(cs: Pair, samples: seq<int16>, total: int, stereo: bool, blks: seq<Block>): Pair
    requires 224 * |blks| <= |samples|
    decreases |blks|
  {
    if blks == [] then cs
    else
      var n := |blks| - 1;
      UnitsAfter(BlocksAfter(cs, samples, total, stereo, blks[..n]), samples, 224 * n, total - 224 * n, stereo,
        blks[n], 8)
  }

  ghost predicate StreamBlockHolds(cs: Pair, samples: seq<int16>, total: int, stereo: bool, blks: seq<Block>, j: nat)
    requires 224 * |blks| <= |samples| && j < |blks|
  {
    BlockHolds(BlocksAfter(cs, samples, total, stereo, blks[..j]), samples, 224 * j, total - 224 * j, stereo, blks[j])
  }

  /** Every block is coded as well as can be from the state before it. */
  ghost predicate StreamHolds(cs: Pair, samples: seq<int16>, total: int, stereo: bool, blks: seq<Block>)
    requires 224 * |blks| <= |samples|
  {
    forall j :: 0 <= j < |blks| ==> StreamBlockHolds(cs, samples, total, stereo, blks, j)
  }

  lemma StreamGrows(cs: Pair, samples: seq<int16>, total: int, stereo: bool, blks: seq<Block>, blk: Block)
    requires 224 * |blks| + 224 <= |samples|
    requires StreamHolds(cs, samples, total, stereo, blks)
    requires var n := |blks|;
      BlockHolds(BlocksAfter(cs, samples, total, stereo, blks), samples, 224 * n, total - 224 * n, stereo, blk)
    ensures StreamHolds(cs, samples, total, stereo, blks + [blk])
    ensures var n := |blks|;
      BlocksAfter(cs, samples, total, stereo, blks + [blk])
      == UnitsAfter(BlocksAfter(cs, samples, total, stereo, blks), samples, 224 * n, total - 224 * n, stereo, blk, 8)
  {
    hide BlockHolds, UnitsAfter;
    var bs := blks + [blk];
    assert bs[..|blks|] == blks;
    forall j | 0 <= j < |bs|
      ensures StreamBlockHolds(cs, samples, total, stereo, bs, j)
    {
      if j < |blks| {
        assert bs[..j] == blks[..j];
        assert StreamBlockHolds(cs, samples, total, stereo, blks, j);
      }
    }
  }

  // ----- blocks in the output

  /** `n` blocks of the output end here. */
  function EndOf(format: XaFormat, n: nat): nat {
    if n == 0 then 0 else BlockAt(format, (n - 1) / 18, (n - 1) % 18) + BLOCK_SIZE
  }

  predicate BlockLies(s: seq<byte>, format: XaFormat, blk: Block, j: nat) {
    var p := BlockAt(format, j / 18, j % 18);
    p + BLOCK_SIZE <= |s| && Slice(s, p) == blk
  }

  predicate Laid(s: seq<byte>, format: XaFormat, blks: seq<Block>) {
    forall j :: 0 <= j < |blks| ==> BlockLies(s, format, blks[j], j)
  }

  lemma BlocksAscend(format: XaFormat, j: nat, k: nat)
    requires j <= k
    ensures BlockAt(format, j / 18, j % 18) <= BlockAt(format, k / 18, k % 18)
    ensures j < k ==> BlockAt(format, j / 18, j % 18) + BLOCK_SIZE <= BlockAt(format, k / 18, k % 18)
  {
    assert j == 18 * (j / 18) + j % 18 && k == 18 * (k / 18) + k % 18;
    if j / 18 < k / 18 {
      MulMonotone(j / 18 + 1, k / 18, SizeOf(format));
    }
  }

  /** Bytes behind the laid blocks may change. */
  lemma LaidKept(s: seq<byte>, t: seq<byte>, format: XaFormat, blks: seq<Block>, p: nat)
    requires Laid(s, format, blks) && |s| == |t| && p <= |s| && s[..p] == t[..p]
    requires blks != [] ==> EndOf(format, |blks|) <= p
    ensures Laid(t, format, blks)
  {
    forall j | 0 <= j < |blks|
      ensures BlockLies(t, format, blks[j], j)
    {
      BlocksAscend(format, j, |blks| - 1);
      assert BlockLies(s, format, blks[j], j);
      var a := BlockAt(format, j / 18, j % 18);
      SlicePrefix(s, t, p, a, a + BLOCK_SIZE);
    }
  }

  lemma SealedKept(s: seq<byte>, t: seq<byte>, settings: Settings, q: nat, p: nat)
    requires StartOf(settings.format, q + 1) <= p <= |s| == |t| && s[..p] == t[..p]
    requires Sealed(s, settings, q)
    ensures Sealed(t, settings, q)
  {
    hide EdcOf, Bytes, XaFront, Subheader;
    var b := BaseOf(settings.format, q);
    SectorEnds(settings.format, q, 0);
    SlicePrefix(s, t, p, b + 0x010, b + 0x014);
    SlicePrefix(s, t, p, b + 0x014, b + 0x018);
    SlicePrefix(s, t, p, b + 0x918, b + 0x92C);
    SlicePrefix(s, t, p, b + 0x92C, b + 0x930);
    SlicePrefix(s, t, p, b + 0x010, b + 0x92C);
    if settings.format == FormatXACD { SlicePrefix(s, t, p, b, b + 0x010); }
  }

  lemma SlicePrefix(s: seq<byte>, t: seq<byte>, p: nat, a: nat, b: nat)
    requires a <= b <= p <= |s| == |t| && s[..p] == t[..p]
    ensures s[a..b] == t[a..b]
  {
    assert s[a..b] == s[..p][a..b] && t[a..b] == t[..p][a..b];
  }

  // ----- the encoder

  /** Clearing a sector and writing its front. */
  method ClearSector(output: array<byte>, settings: Settings, q: nat)
    requires StartOf(settings.format, q + 1) <= output.Length
    modifies output
    ensures SameOutside(old(output[..]), output[..], StartOf(settings.format, q), SizeOf(settings.format))
    ensures var b := BaseOf(settings.format, q);
      && 0 <= b + 0x010 && b + 0x930 <= output.Length
      && output[b + 0x918..b + 0x92C] == seq(0x14, _ => 0)
      && output[b + 0x018..b + 0x918] == seq(0x900, _ => 0)
      && (settings.format == FormatXACD ==> b >= 0 && output[b..b + 0x010] == XaFront())
  {
    var b := BaseOf(settings.format, q);
    SectorEnds(settings.format, q, 0);
    if settings.format == FormatXACD {
      forall k | b <= k < b + 2352 {
        output[k] := 0;
      }
      forall k | b + 0x001 <= k < b + 0x00B {
        output[k] := 0xFF;
      }
      output[b + 0x00F] := 0x02;
      assert output[b..b + 0x010] == XaFront();
    } else {
      forall k | b + 0x010 <= k < b + 0x010 + 2336 {
        output[k] := 0;
      }
    }
    assert output[b + 0x918..b + 0x92C] == seq(0x14, _ => 0);
    assert output[b + 0x018..b + 0x918] == seq(0x900, _ => 0);
  }

  /** `psx_audio_xa_encode_init_sector` */
  method InitSector(output: array<byte>, settings: Settings, q: nat)
    requires StartOf(settings.format, q + 1) <= output.Length
    modifies output
    ensures SameOutside(old(output[..]), output[..], StartOf(settings.format, q), SizeOf(settings.format))
    ensures Opened(output[..], settings, q) && Quiet(output[..], settings, q)
  {
    hide XaFront, Subheader, SameOutside;
    SectorEnds(settings.format, q, 0);
    ghost var r := output[..];
    ClearSector(output, settings, q);
    ghost var s := output[..];
    var b := BaseOf(settings.format, q);
    WriteSubheaders(output, settings, b + 0x010);
    HeaderOnly(s, output[..], settings, q, b);
    QuietKept(s, output[..], settings, q);
    OutsideInner(r, s, output[..], StartOf(settings.format, q), SizeOf(settings.format), b + 0x010, 8);
  }

  /** A change inside a changed stretch. */
  lemma OutsideInner(s: seq<byte>, t: seq<byte>, u: seq<byte>, d: nat, n: nat, e: nat, m: nat)
    requires SameOutside(s, t, d, n) && SameOutside(t, u, e, m)
    requires d <= e && e + m <= d + n
    ensures SameOutside(s, u, d, n)
  {
    assert u[..d] == u[..e][..d] && t[..d] == t[..e][..d];
    assert u[d + n..] == u[e + m..][d + n - e - m..] && t[d + n..] == t[e + m..][d + n - e - m..];
  }

  method WriteSubheaders(output: array<byte>, settings: Settings, p: nat)
    requires p + 8 <= output.Length
    modifies output
    ensures SameOutside(old(output[..]), output[..], p, 8)
    ensures output[p..p + 4] == Subheader(settings) && output[p + 4..p + 8] == Subheader(settings)
  {
    hide Subheader;
    ghost var s, h := output[..], Subheader(settings);
    SubheaderIs(settings);
    output[p + 0] := settings.fileNumber % 0x100;
    output[p + 1] := settings.channelNumber % 0x20;
    output[p + 2] := 0x24 + 0x40;
    output[p + 3] := (if settings.stereo then 1 else 0)
                     + (if settings.frequency >= 37800 then 0 else 4)
                     + (if settings.bitsPerSample >= 8 then 16 else 0);
    ghost var t := output[..];
    assert t[p..p + 4] == h;
    CopySubheader(output, p);
    SubheaderTwice(s, t, output[..], p, h);
  }

  method CopySubheader(output: array<byte>, p: nat)
    requires p + 8 <= output.Length
    modifies output
    ensures output[p + 4..p + 8] == old(output[p..p + 4])
    ensures output[..p + 4] == old(output[..p + 4]) && output[p + 8..] == old(output[p + 8..])
  {
    forall k | 0 <= k < 4 {
      output[p + 4 + k] := output[p + k];
    }
    assert output[p + 4] == old(output[p]) && output[p + 5] == old(output[p + 1]);
    assert output[p + 6] == old(output[p + 2]) && output[p + 7] == old(output[p + 3]);
  }

  lemma SubheaderIs(settings: Settings)
    ensures var h := Subheader(settings);
      && h[0] == settings.fileNumber % 0x100 && h[1] == settings.channelNumber % 0x20 && h[2] == 0x64
      && h[3] == (if settings.stereo then 1 else 0) + (if settings.frequency >= 37800 then 0 else 4)
                 + (if settings.bitsPerSample >= 8 then 16 else 0)
  {}

  lemma SubheaderTwice(s: seq<byte>, t: seq<byte>, u: seq<byte>, p: nat, h: seq<byte>)
    requires |s| == |t| == |u| && p + 8 <= |s| && |h| == 4 && t[p..p + 4] == h
    requires t[..p] == s[..p] && t[p + 4..] == s[p + 4..]
    requires u[..p + 4] == t[..p + 4] && u[p + 4..p + 8] == t[p..p + 4] && u[p + 8..] == t[p + 8..]
    ensures SameOutside(s, u, p, 8) && u[p..p + 4] == h && u[p + 4..p + 8] == h
  {
    assert u[p..p + 4] == u[..p + 4][p..] && t[p..p + 4] == t[..p + 4][p..];
    assert u[..p] == u[..p + 4][..p] && t[..p] == t[..p + 4][..p];
    assert t[p + 8..] == t[p + 4..][4..] && s[p + 8..] == s[p + 4..][4..];
  }

  lemma HeaderOnly(s: seq<byte>, t: seq<byte>, settings: Settings, q: nat, b: int)
    requires b == BaseOf(settings.format, q) && StartOf(settings.format, q + 1) <= |s| == |t|
    requires 0 <= b + 0x010 && b + 0x930 <= |s| && SameOutside(s, t, b + 0x010, 8)
    requires t[b + 0x010..b + 0x014] == Subheader(settings) && t[b + 0x014..b + 0x018] == Subheader(settings)
    requires s[b + 0x918..b + 0x92C] == seq(0x14, _ => 0)
    requires settings.format == FormatXACD ==> b >= 0 && s[b..b + 0x010] == XaFront()
    ensures Opened(t, settings, q)
  {
    hide XaFront, Subheader, BaseOf;
    if settings.format == FormatXACD { SlicePrefix(s, t, b + 0x010, b, b + 0x010); }
    SliceSuffix(s, t, b + 0x018, b + 0x918, b + 0x92C);
  }

  lemma QuietKept(s: seq<byte>, t: seq<byte>, settings: Settings, q: nat)
    requires StartOf(settings.format, q + 1) <= |s| == |t|
    requires Quiet(s, settings, q) && 0 <= BaseOf(settings.format, q) + 0x010
    requires SameOutside(s, t, BaseOf(settings.format, q) + 0x010, 8)
    ensures Quiet(t, settings, q)
  {
    var b := BaseOf(settings.format, q);
    SectorEnds(settings.format, q, 0);
    SliceSuffix(s, t, b + 0x018, b + 0x018, b + 0x918);
  }

  lemma SliceSuffix(s: seq<byte>, t: seq<byte>, p: nat, a: nat, b: nat)
    requires p <= a <= b <= |s| == |t| && s[p..] == t[p..]
    ensures s[a..b] == t[a..b]
  {
    forall k | a <= k < b
      ensures s[k] == t[k]
    {
      assert s[p..][k - p] == t[p..][k - p];
    }
  }

  /** Coding a block leaves its sector's surroundings as they were. */
  lemma OpenedKept(s: seq<byte>, t: seq<byte>, settings: Settings, q: nat, r: nat)
    requires StartOf(settings.format, q + 1) <= |s| == |t| && r < 18
    requires SameOutside(s, t, BlockAt(settings.format, q, r), BLOCK_SIZE) && Opened(s, settings, q)
    ensures Opened(t, settings, q)
  {
    var b := BaseOf(settings.format, q);
    var p := BlockAt(settings.format, q, r);
    SectorEnds(settings.format, q, r);
    assert p >= b + 0x018;
    hide XaFront, Subheader, BaseOf, BlockAt;
    SlicePrefix(s, t, p, b + 0x010, b + 0x014);
    SlicePrefix(s, t, p, b + 0x014, b + 0x018);
    if settings.format == FormatXACD { SlicePrefix(s, t, p, b, b + 0x010); }
    SliceSuffix(s, t, p + BLOCK_SIZE, b + 0x918, b + 0x92C);
  }

  lemma FrontInside(q: nat)
    ensures BaseOf(FormatXACD, q) >= 0
  {}

  lemma CodeSeals(s: seq<byte>, t: seq<byte>, settings: Settings, q: nat)
    requires StartOf(settings.format, q + 1) <= |s| && Opened(s, settings, q)
    requires 0 <= BaseOf(settings.format, q) + 0x010 && BaseOf(settings.format, q) + 0x930 <= |s|
    requires t == WithEdc(s, BaseOf(settings.format, q) + 0x010, 0x91C)
    ensures Sealed(t, settings, q)
    ensures SameOutside(s, t, BaseOf(settings.format, q) + 0x92C, 4)
  {
    hide XaFront, Subheader, EdcOf, Bytes, SizeOf;
    var b := BaseOf(settings.format, q);
    SectorEnds(settings.format, q, 0);
    var p := b + 0x92C;
    assert s[..p] == t[..p] && s[p + 4..] == t[p + 4..];
    SlicePrefix(s, t, p, b + 0x010, b + 0x014);
    SlicePrefix(s, t, p, b + 0x014, b + 0x018);
    SlicePrefix(s, t, p, b + 0x918, b + 0x92C);
    SlicePrefix(s, t, p, b + 0x010, b + 0x92C);
    if settings.format == FormatXACD {
      FrontInside(q);
      SlicePrefix(s, t, p, b, b + 0x010);
    }
    assert t[p..p + 4] == Bytes(EdcOf(s[b + 0x010..b + 0x92C]));
  }

  /** All full sectors before sector `q` are finished. */
  ghost predicate AllSealed(s: seq<byte>, settings: Settings, q: nat) {
    && StartOf(settings.format, q) <= |s|
    && forall p :: 0 <= p < q ==> SealedAt(s, settings, p)
  }

  ghost predicate SealedAt(s: seq<byte>, settings: Settings, q: nat) {
    StartOf(settings.format, q + 1) <= |s| && Sealed(s, settings, q)
  }

  predicate OpenedAt(s: seq<byte>, settings: Settings, q: nat) {
    StartOf(settings.format, q + 1) <= |s| && Opened(s, settings, q)
  }

  lemma AllSealedKept(s: seq<byte>, t: seq<byte>, settings: Settings, q: nat, p: nat)
    requires AllSealed(s, settings, q) && |s| == |t| && p <= |s| && s[..p] == t[..p]
    requires StartOf(settings.format, q) <= p
    ensures AllSealed(t, settings, q)
  {
    forall k | 0 <= k < q
      ensures SealedAt(t, settings, k)
    {
      assert SealedAt(s, settings, k);
      MulMonotone(k + 1, q, SizeOf(settings.format));
      SealedKept(s, t, settings, k, p);
    }
  }

  /** After `blks` have been coded: all of them lie in place, full sectors are
      finished, and a started one is set up. */
  ghost predicate Underway(cs: Pair, samples: seq<int16>, total: int, settings: Settings, s: seq<byte>,
                           blks: seq<Block>, q: nat, r: nat, now: Pair)
  {
    && |blks| == 18 * q + r
    && 224 * |blks| <= |samples|
    && StreamHolds(cs, samples, total, settings.stereo, blks)
    && now == BlocksAfter(cs, samples, total, settings.stereo, blks)
    && Laid(s, settings.format, blks)
    && AllSealed(s, settings, q)
    && (r > 0 ==> OpenedAt(s, settings, q))
  }

  lemma EndsBefore(format: XaFormat, n: nat, q: nat, r: nat)
    requires n == 18 * q + r && r < 18
    ensures n > 0 ==> EndOf(format, n) <= BlockAt(format, q, r)
    ensures n > 0 && r == 0 ==> EndOf(format, n) <= StartOf(format, q)
    ensures n / 18 == q && n % 18 == r
  {
    if r > 0 {
      assert (n - 1) / 18 == q && (n - 1) % 18 == r - 1;
    } else if n > 0 {
      assert (n - 1) / 18 == q - 1 && (n - 1) % 18 == 17;
    }
  }

  /** Setting up the next sector. */
  method OpenIfFirst(output: array<byte>, settings: Settings, initSector: bool, ghost cs: Pair,
                     ghost samples: seq<int16>, ghost total: int, ghost blks: seq<Block>, q: nat, ghost r: nat,
                     ghost now: Pair)
    requires StartOf(settings.format, q + 1) <= output.Length && r < 18 && initSector == (r == 0)
    requires Underway(cs, samples, total, settings, output[..], blks, q, r, now)
    modifies output
    ensures SameOutside(old(output[..]), output[..], StartOf(settings.format, q), SizeOf(settings.format))
    ensures Underway(cs, samples, total, settings, output[..], blks, q, r, now)
    ensures Opened(output[..], settings, q)
  {
    hide StreamHolds, BlocksAfter, Laid, AllSealed, Opened;
    if initSector {
      ghost var s := output[..];
      InitSector(output, settings, q);
      EndsBefore(settings.format, |blks|, q, r);
      LaidKept(s, output[..], settings.format, blks, StartOf(settings.format, q));
      AllSealedKept(s, output[..], settings, q, StartOf(settings.format, q));
    }
  }

  /** Coding one block into its place. */
  method CodeBlock(left: ChannelState, right: ChannelState, samples: array<int16>, i: nat, total: int,
                   output: array<byte>, settings: Settings, q: nat, r: nat, ghost cs: Pair, ghost blks: seq<Block>)
    returns (ghost blk: Block)
    requires left != right && AdpcmSearch.InRange(left.Value()) && AdpcmSearch.InRange(right.Value())
    requires r < 18 && i == 224 * |blks| && i + 224 <= samples.Length
      && StartOf(settings.format, q + 1) <= output.Length
    requires Underway(cs, samples[..], total, settings, output[..], blks, q, r, Pair(left.Value(), right.Value()))
    requires Opened(output[..], settings, q)
    modifies left, right, output
    ensures left.qerr == old(left.qerr) && right.qerr == old(right.qerr)
    ensures SameOutside(old(output[..]), output[..], StartOf(settings.format, q), SizeOf(settings.format))
    ensures Underway(cs, samples[..], total, settings, output[..], blks + [blk], q, r + 1,
      Pair(left.Value(), right.Value()))
  {
    hide StreamHolds, BlocksAfter, Laid, AllSealed, Opened, UnitsHold, UnitsAfter, HeadersCopied, SameUnits;
    SectorEnds(settings.format, q, r);
    var d := BlockAt(settings.format, q, r);
    ghost var s, now := output[..], Pair(left.Value(), right.Value());
    EncodeBlockXa(left, right, samples, i, total - i, settings.stereo, output, d);
    ghost var t := output[..];
    CopyHeaders(output, d);
    ghost var u := output[..];
    blk := Slice(u, d);
    CopyKeepsBlock(now, samples[..], i, total - i, settings.stereo, Slice(t, d), blk);
    StreamGrows(cs, samples[..], total, settings.stereo, blks, blk);
    OutsideTwice(s, t, u, d, BLOCK_SIZE);
    BlockLaid(s, u, settings, blks, blk, q, r);
  }

  lemma CopyKeepsBlock(cs: Pair, samples: seq<int16>, at: nat, limit: int, stereo: bool, t: Block, blk: Block)
    requires at + 224 <= |samples| && UnitsHold(cs, samples, at, limit, stereo, t, 8)
    requires SameUnits(t, blk, 8) && HeadersCopied(blk)
    ensures BlockHolds(cs, samples, at, limit, stereo, blk)
    ensures UnitsAfter(cs, samples, at, limit, stereo, blk, 8) == UnitsAfter(cs, samples, at, limit, stereo, t, 8)
  {
    UnitsHoldSame(cs, samples, at, limit, stereo, t, blk, 8);
    UnitsAfterSame(cs, samples, at, limit, stereo, t, blk, 8);
    hide UnitsHold, UnitsAfter;
  }

  lemma OutsideTwice(s: seq<byte>, t: seq<byte>, u: seq<byte>, d: nat, n: nat)
    requires SameOutside(s, t, d, n) && SameOutside(t, u, d, n)
    ensures SameOutside(s, u, d, n)
  {}

  lemma BlockLaid(s: seq<byte>, u: seq<byte>, settings: Settings, blks: seq<Block>, blk: Block, q: nat, r: nat)
    requires |blks| == 18 * q + r && r < 18 && StartOf(settings.format, q + 1) <= |s|
    requires BlockAt(settings.format, q, r) + BLOCK_SIZE <= |s|
    requires SameOutside(s, u, BlockAt(settings.format, q, r), BLOCK_SIZE)
    requires blk == Slice(u, BlockAt(settings.format, q, r))
    requires Laid(s, settings.format, blks) && AllSealed(s, settings, q) && Opened(s, settings, q)
    ensures Laid(u, settings.format, blks + [blk]) && AllSealed(u, settings, q) && OpenedAt(u, settings, q)
    ensures SameOutside(s, u, StartOf(settings.format, q), SizeOf(settings.format))
  {
    var d := BlockAt(settings.format, q, r);
    SectorEnds(settings.format, q, r);
    EndsBefore(settings.format, |blks|, q, r);
    LaidKept(s, u, settings.format, blks, d);
    assert s[..StartOf(settings.format, q)] == s[..d][..StartOf(settings.format, q)];
    assert u[..StartOf(settings.format, q)] == u[..d][..StartOf(settings.format, q)];
    AllSealedKept(s, u, settings, q, StartOf(settings.format, q));
    OpenedKept(s, u, settings, q, r);
    hide AllSealed, Opened;
    OutsideWider(s, u, d, BLOCK_SIZE, StartOf(settings.format, q), SizeOf(settings.format));
    assert BlockLies(u, settings.format, blk, |blks|);
    forall j | 0 <= j < |blks| + 1
      ensures BlockLies(u, settings.format, (blks + [blk])[j], j)
    {
      if j < |blks| { assert BlockLies(u, settings.format, blks[j], j); }
    }
  }

  /** A change in a smaller stretch is a change in a larger one. */
  lemma OutsideWider(s: seq<byte>, u: seq<byte>, e: nat, m: nat, d: nat, n: nat)
    requires SameOutside(s, u, e, m) && d <= e && e + m <= d + n <= |s|
    ensures SameOutside(s, u, d, n)
  {
    assert s[..d] == s[..e][..d] && u[..d] == u[..e][..d];
    assert s[d + n..] == s[e + m..][d + n - e - m..] && u[d + n..] == u[e + m..][d + n - e - m..];
  }

  /** Finishing a full sector. */
  method SealIfLast(output: array<byte>, settings: Settings, last: bool, ghost cs: Pair, ghost samples: seq<int16>,
                    ghost total: int, ghost blks: seq<Block>, q: nat, ghost r: nat, ghost now: Pair)
    requires StartOf(settings.format, q + 1) <= output.Length && 1 <= r <= 18 && last == (r == 18)
    requires Underway(cs, samples, total, settings, output[..], blks, q, r, now)
    modifies output
    ensures SameOutside(old(output[..]), output[..], StartOf(settings.format, q), SizeOf(settings.format))
    ensures Underway(cs, samples, total, settings, output[..], blks,
      if last then q + 1 else q, if last then 0 else r, now)
  {
    hide Underway, EdcOf, Bytes;
    if last {
      ghost var s := output[..];
      SectorEnds(settings.format, q, 17);
      CalculateChecksums(output, BaseOf(settings.format, q), TypeMode2Form2);
      CodeFinishes(s, output[..], cs, samples, total, settings, blks, q, now);
    }
  }

  /** The code of a full sector finishes it. */
  lemma CodeFinishes(s: seq<byte>, t: seq<byte>, cs: Pair, samples: seq<int16>, total: int, settings: Settings,
                     blks: seq<Block>, q: nat, now: Pair)
    requires Underway(cs, samples, total, settings, s, blks, q, 18, now)
    requires 0 <= BaseOf(settings.format, q) + 0x010 && BaseOf(settings.format, q) + 0x930 <= |s|
    requires t == WithEdc(s, BaseOf(settings.format, q) + 0x010, 0x91C)
    ensures Underway(cs, samples, total, settings, t, blks, q + 1, 0, now)
    ensures SameOutside(s, t, StartOf(settings.format, q), SizeOf(settings.format))
  {
    hide StreamHolds, BlocksAfter, Laid, AllSealed, Opened, Sealed, EdcOf, Bytes;
    SectorEnds(settings.format, q, 17);
    var b := BaseOf(settings.format, q);
    CodeSeals(s, t, settings, q);
    OutsideWider(s, t, b + 0x92C, 4, StartOf(settings.format, q), SizeOf(settings.format));
    LastBlockEnds(settings.format, |blks|, q);
    LaidKept(s, t, settings.format, blks, b + 0x92C);
    AllSealedKept(s, t, settings, q, StartOf(settings.format, q));
    OneMoreSealed(t, settings, q);
  }

  lemma LastBlockEnds(format: XaFormat, n: nat, q: nat)
    requires n == 18 * q + 18
    ensures EndOf(format, n) <= BaseOf(format, q) + 0x918
  {
    assert (n - 1) / 18 == q && (n - 1) % 18 == 17;
  }

  lemma OneMoreSealed(s: seq<byte>, settings: Settings, q: nat)
    requires AllSealed(s, settings, q) && SealedAt(s, settings, q)
    ensures AllSealed(s, settings, q + 1)
  {}

  /** `psx_audio_xa_encode` with 4-bit samples: writes exactly the sectors that
      its buffer-size function announces. */
  method XaEncode(settings: Settings, left: ChannelState, right: ChannelState, samples: array<int16>, count: nat,
                  output: array<byte>) returns (length: nat, ghost blks: seq<Block>)
    requires settings.bitsPerSample == 4 && left != right
    requires AdpcmSearch.InRange(left.Value()) && AdpcmSearch.InRange(right.Value())
    requires samples.Length >= 4032 * SectorCount(Total(settings, count), 224)
    requires output.Length >= BufferSize(settings, count)
    modifies left, right, output
    ensures length == BufferSize(settings, count)
    ensures output[length..] == old(output[length..])
    ensures Underway(old(Pair(left.Value(), right.Value())), samples[..], Total(settings, count), settings, output[..],
                     blks, SectorCount(Total(settings, count), 224), 0, Pair(left.Value(), right.Value()))
  {
    hide Underway, BufferSize, SizeOf;
    var sampleCount: int := if settings.stereo then 2 * count else count;
    ghost var cs, n := Pair(left.Value(), right.Value()), SectorCount(sampleCount, 224);
    SizesAgree(settings, count);
    blks := [];
    StartUnderway(cs, samples[..], sampleCount, settings, output[..]);
    var i, j := 0, 0;
    var initSector := true;
    ghost var q: nat, r: nat := 0, 0;
    while i < sampleCount || j % 18 != 0
      invariant j == 18 * q + r && r < 18 && i == 224 * j && initSector == (r == 0)
      invariant q <= n && (r > 0 ==> q < n) && (r == 0 ==> (i < sampleCount <==> q < n))
      invariant |blks| == j
      invariant left.qerr == old(left.qerr) && right.qerr == old(right.qerr)
      invariant output[StartOf(settings.format, n)..] == old(output[StartOf(settings.format, n)..])
      invariant Underway(cs, samples[..], sampleCount, settings, output[..], blks, q, r,
        Pair(left.Value(), right.Value()))
      decreases 18 * n - j
    {
      assert j / 18 == q && j % 18 == r;
      MulMonotone(q + 1, n, SizeOf(settings.format));
      blks := EncodeOne(settings, left, right, samples, i, sampleCount, output, initSector, (j + 1) % 18 == 0,
                        cs, blks, j / 18, j % 18, n);
      initSector := (j + 1) % 18 == 0;
      if r == 17 { q, r := q + 1, 0; } else { r := r + 1; }
      i, j := i + 224, j + 1;
    }
    assert j % 18 == r;
    assert (j + 17) / 18 == n;
    length := (j + 17) / 18 * SizeOf(settings.format);
  }

  lemma StartUnderway(cs: Pair, samples: seq<int16>, total: int, settings: Settings, s: seq<byte>)
    ensures Underway(cs, samples, total, settings, s, [], 0, 0, cs)
  {}

  /** The body of the block loop. */
  method EncodeOne(settings: Settings, left: ChannelState, right: ChannelState, samples: array<int16>, i: nat,
                   total: int, output: array<byte>, initSector: bool, last: bool,
                   ghost cs: Pair, ghost blks: seq<Block>, q: nat, r: nat, ghost n: nat)
    returns (ghost more: seq<Block>)
    requires left != right && AdpcmSearch.InRange(left.Value()) && AdpcmSearch.InRange(right.Value())
    requires q < n && r < 18 && initSector == (r == 0) && last == (r == 17)
    requires i == 224 * |blks| && i + 224 <= samples.Length
    requires StartOf(settings.format, q + 1) <= StartOf(settings.format, n) <= output.Length
    requires Underway(cs, samples[..], total, settings, output[..], blks, q, r, Pair(left.Value(), right.Value()))
    modifies left, right, output
    ensures left.qerr == old(left.qerr) && right.qerr == old(right.qerr)
    ensures |more| == |blks| + 1
    ensures output[StartOf(settings.format, n)..] == old(output[StartOf(settings.format, n)..])
    ensures Underway(cs, samples[..], total, settings, output[..], more,
      if last then q + 1 else q, if last then 0 else r + 1,
      Pair(left.Value(), right.Value()))
  {
    hide Underway, Opened;
    ghost var s := output[..];
    OpenIfFirst(output, settings, initSector, cs, samples[..], total, blks, q, r, Pair(left.Value(), right.Value()));
    ghost var t := output[..];
    ghost var blk := CodeBlock(left, right, samples, i, total, output, settings, q, r, cs, blks);
    more := blks + [blk];
    ghost var u := output[..];
    SealIfLast(output, settings, last, cs, samples[..], total, more, q, r + 1, Pair(left.Value(), right.Value()));
    OutsideTwice(s, t, u, StartOf(settings.format, q), SizeOf(settings.format));
    OutsideTwice(s, u, output[..], StartOf(settings.format, q), SizeOf(settings.format));
    TailKept(s, output[..], StartOf(settings.format, q) + SizeOf(settings.format), StartOf(settings.format, n));
  }

  lemma TailKept(s: seq<byte>, t: seq<byte>, a: nat, b: nat)
    requires a <= b <= |s| == |t| && s[a..] == t[a..]
    ensures s[b..] == t[b..]
  {
    assert s[b..] == s[a..][b - a..] && t[b..] == t[a..][b - a..];
  }
}
