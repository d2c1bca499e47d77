/** The XA encoder with samples of any other width than four bits: the code for
    them is commented out, so its sectors carry no audio. */
module XaSilence {
  import opened Arithmetic
  import opened Bits
  import opened Edc
  import opened SectorFormat
  import opened PsxCdrom
  import opened XaBlock
  import opened XaEncoder

  /** The sectors before sector `q` are finished and silent. */
  ghost predicate AllSilent(s: seq<byte>, settings: Settings, q: nat) {
    StartOf(settings.format, q) <= |s| && forall p :: 0 <= p < q ==> SilentAt(s, settings, p)
  }

  ghost predicate SilentAt(s: seq<byte>, settings: Settings, q: nat) {
    StartOf(settings.format, q + 1) <= |s| && Sealed(s, settings, q) && Quiet(s, settings, q)
  }

  predicate QuietAt(s: seq<byte>, settings: Settings, q: nat) {
    StartOf(settings.format, q + 1) <= |s| && Opened(s, settings, q) && Quiet(s, settings, q)
  }

  /** Of sector `q`, `r` blocks are done. */
  ghost predicate SilentUpTo(s: seq<byte>, settings: Settings, q: nat, r: nat) {
    AllSilent(s, settings, q) && (r > 0 ==> QuietAt(s, settings, q))
  }

  lemma SilentKept(s: seq<byte>, t: seq<byte>, settings: Settings, q: nat, p: nat)
    requires AllSilent(s, settings, q) && StartOf(settings.format, q) <= p <= |s| == |t| && s[..p] == t[..p]
    ensures AllSilent(t, settings, q)
  {
    hide Sealed, Opened;
    forall k | 0 <= k < q
      ensures SilentAt(t, settings, k)
    {
      assert SilentAt(s, settings, k);
      MulMonotone(k + 1, q, SizeOf(settings.format));
      SealedKept(s, t, settings, k, p);
      SectorEnds(settings.format, k, 0);
      var b := BaseOf(settings.format, k);
      SlicePrefix(s, t, p, b + 0x018, b + 0x918);
    }
  }

  /** Copying the headers of a block of zeroes changes nothing in it. */
  lemma StaysZero(s: seq<byte>, t: seq<byte>, settings: Settings, q: nat, r: nat)
    requires QuietAt(s, settings, q) && r < 18 && BlockAt(settings.format, q, r) + BLOCK_SIZE <= |s|
    requires var d := BlockAt(settings.format, q, r);
      && SameOutside(s, t, d, BLOCK_SIZE)
      && OthersKept(Slice(s, d), Slice(t, d)) && HeadersCopied(Slice(t, d))
    ensures t == s
  {
    hide Opened;
    var d, b := BlockAt(settings.format, q, r), BaseOf(settings.format, q);
    SectorEnds(settings.format, q, r);
    var z, u := Slice(s, d), Slice(t, d);
    forall k | 0 <= k < BLOCK_SIZE
      ensures z[k] == 0
    {
      assert z[k] == s[d + k] == s[b + 0x018..b + 0x918][r * 0x80 + k];
    }
    forall k | 0 <= k < BLOCK_SIZE
      ensures u[k] == 0
    {
      if 4 <= k < 8 { assert u[4..8][k - 4] == u[0..4][k - 4]; }
      if 12 <= k < 16 { assert u[12..16][k - 12] == u[8..12][k - 12]; }
    }
    assert z == u;
    assert s == s[..d] + z + s[d + BLOCK_SIZE..] && t == t[..d] + u + t[d + BLOCK_SIZE..];
  }

  /** `psx_audio_xa_encode` with samples that are not of four bits: it returns
      the announced size and writes that many bytes, sectors without audio;
      the predictor states are not touched. */
  method XaEncodeSilence(settings: Settings, count: nat, output: array<byte>) returns (length: nat)
    requires settings.bitsPerSample != 4 && output.Length >= BufferSize(settings, count)
    modifies output
    ensures length == BufferSize(settings, count)
    ensures output[length..] == old(output[length..])
    ensures AllSilent(output[..], settings, SectorCount(Total(settings, count), SampleJump(settings)))
  {
    hide SilentUpTo, BufferSize, SizeOf, AllSilent;
    var jump := SampleJump(settings);
    var sampleCount := Total(settings, count);
    ghost var n := SectorCount(sampleCount, jump);
    SizesAgree(settings, count);
    NoneSilent(output[..], settings);
    var i: nat, j: nat := 0, 0;
    var initSector := true;
    ghost var q: nat, r: nat := 0, 0;
    LoopEnds(sampleCount, jump, 0, 0);
    while i < sampleCount || j % 18 != 0
      invariant j == 18 * q + r && r < 18 && i == jump * j && initSector == (r == 0)
      invariant q <= n && (r > 0 ==> q < n) && (r == 0 ==> (i < sampleCount <==> q < n))
      invariant output[StartOf(settings.format, n)..] == old(output[StartOf(settings.format, n)..])
      invariant SilentUpTo(output[..], settings, q, r)
      decreases 18 * n - j
    {
      assert j / 18 == q && j % 18 == r;
      MulMonotone(q + 1, n, SizeOf(settings.format));
      SilentOne(settings, output, initSector, (j + 1) % 18 == 0, j / 18, j % 18, n);
      initSector := (j + 1) % 18 == 0;
      if r == 17 { q, r := q + 1, 0; } else { r := r + 1; }
      i, j := i + jump, j + 1;
      if r == 0 { LoopEnds(sampleCount, jump, q, i); }
    }
    assert j % 18 == r;
    assert (j + 17) / 18 == n;
    length := (j + 17) / 18 * SizeOf(settings.format);
    SilentAtEnd(output[..], settings, q);
  }

  /** At the end of a sector, samples are left just when sectors are. */
  lemma LoopEnds(total: nat, jump: nat, q: nat, i: nat)
    requires (jump == 112 || jump == 224) && i == jump * (18 * q)
    ensures i < total <==> q < SectorCount(total, jump)
  {
    QuotientAtLeast(total + (18 * jump - 1), q + 1, 18 * jump);
  }

  lemma NoneSilent(s: seq<byte>, settings: Settings)
    ensures SilentUpTo(s, settings, 0, 0)
  {}

  lemma SilentAtEnd(s: seq<byte>, settings: Settings, q: nat)
    requires SilentUpTo(s, settings, q, 0)
    ensures AllSilent(s, settings, q)
  {}

  /** The body of the block loop. */
  method SilentOne(settings: Settings, output: array<byte>, initSector: bool, last: bool, q: nat, r: nat, ghost n: nat)
    requires q < n && r < 18 && initSector == (r == 0) && last == (r == 17)
    requires StartOf(settings.format, q + 1) <= StartOf(settings.format, n) <= output.Length
    requires SilentUpTo(output[..], settings, q, r)
    modifies output
    ensures output[StartOf(settings.format, n)..] == old(output[StartOf(settings.format, n)..])
    ensures SilentUpTo(output[..], settings, if last then q + 1 else q, if last then 0 else r + 1)
  {
    hide Opened, Sealed, Quiet, AllSilent, EdcOf, Bytes;
    SectorEnds(settings.format, q, r);
    ghost var s, z := output[..], SizeOf(settings.format);
    if initSector {
      InitSector(output, settings, q);
      SilentKept(s, output[..], settings, q, q * z);
    }
    ghost var t := output[..];
    var d := BlockAt(settings.format, q, r);
    CopyHeaders(output, d);
    StaysZero(t, output[..], settings, q, r);
    if last {
      CalculateChecksums(output, BaseOf(settings.format, q), TypeMode2Form2);
      SilentSealed(t, output[..], settings, q);
    }
    TailKept(s, t, q * z + z, n * z);
    TailKept(t, output[..], q * z + z, n * z);
  }

  lemma SilentSealed(s: seq<byte>, t: seq<byte>, settings: Settings, q: nat)
    requires AllSilent(s, settings, q) && QuietAt(s, settings, q)
    requires 0 <= BaseOf(settings.format, q) + 0x010 && BaseOf(settings.format, q) + 0x930 <= |s|
    requires t == WithEdc(s, BaseOf(settings.format, q) + 0x010, 0x91C)
    ensures AllSilent(t, settings, q + 1)
    ensures var e := StartOf(settings.format, q) + SizeOf(settings.format);
      e <= |s| == |t| && s[e..] == t[e..]
  {
    hide Opened, EdcOf, Bytes;
    SectorEnds(settings.format, q, 0);
    CodeSeals(s, t, settings, q);
    var b := BaseOf(settings.format, q);
    SlicePrefix(s, t, b + 0x92C, b + 0x018, b + 0x918);
    OutsideWider(s, t, b + 0x92C, 4, StartOf(settings.format, q), SizeOf(settings.format));
    SilentKept(s, t, settings, q, StartOf(settings.format, q));
    hide Sealed;
    OneMoreSilent(t, settings, q);
  }

  lemma OneMoreSilent(s: seq<byte>, settings: Settings, q: nat)
    requires AllSilent(s, settings, q) && SilentAt(s, settings, q)
    ensures AllSilent(s, settings, q + 1)
  {
    hide Sealed, Quiet;
  }
}
