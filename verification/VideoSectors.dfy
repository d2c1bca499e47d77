/** Video sectors: a header that names the frame and its piece, and the piece.
    A player picks the sectors of a frame and joins them again. */
module VideoSectors {
  import opened Arithmetic
  import opened Bits
  import opened FrameLayout
  import opened FrameScheduler

  const CHUNK := 2016

  /** A coded frame: its buffer and the numbers that go into sector headers. */
  datatype Coded = Coded(unmuxed: seq<byte>, bytesUsed: nat, blocksUsed: nat, quantScale: nat)

  predicate WholeBuffer(c: Coded) {
    |c.unmuxed| == CHUNK * MAX_UNMUXED_BLOCKS
  }

  // ----- numbers in headers

  function LittleEndian(v: nat, n: nat): (s: seq<byte>)
    ensures |s| == n
    decreases n
  {
    if n == 0 then [] else [v % 0x100] + LittleEndian(v / 0x100, n - 1)
  }

  function Joined(low: nat, high: nat): nat {
    low + 0x100 * high
  }

  /** Two and four bytes of a header as a number, lowest first. */
  function TwoBytes(s: seq<byte>, at: nat): nat
    requires at + 2 <= |s|
  {
    Joined(s[at], s[at + 1])
  }

  function FourBytes(s: seq<byte>, at: nat): nat
    requires at + 4 <= |s|
  {
    Joined(s[at], Joined(s[at + 1], Joined(s[at + 2], s[at + 3])))
  }

  lemma TwoBytesBack(v: nat, s: seq<byte>, at: nat)
    requires at + 2 <= |s| && s[at..at + 2] == LittleEndian(v, 2)
    ensures TwoBytes(s, at) == v % 0x1_0000
  {
    assert s[at] == s[at..at + 2][0] && s[at + 1] == s[at..at + 2][1];
    assert LittleEndian(v, 2) == [v % 0x100] + LittleEndian(v / 0x100, 1);
    assert LittleEndian(v / 0x100, 1) == [v / 0x100 % 0x100];
    TwoDigits(v);
  }

  lemma FourBytesBack(v: nat, s: seq<byte>, at: nat)
    requires at + 4 <= |s| && s[at..at + 4] == LittleEndian(v, 4)
    ensures FourBytes(s, at) == v % 0x1_0000_0000
  {
    var t, w := s[at..at + 4], v / 0x100;
    assert s[at] == t[0] && s[at + 1] == t[1] && s[at + 2] == t[2] && s[at + 3] == t[3];
    assert LittleEndian(v, 4) == [v % 0x100] + LittleEndian(w, 3);
    assert LittleEndian(w, 3) == [w % 0x100] + LittleEndian(w / 0x100, 2);
    assert LittleEndian(w / 0x100, 2) == [w / 0x100 % 0x100] + LittleEndian(w / 0x100 / 0x100, 1);
    hide LittleEndian;
    FourDigits(v);
  }

  lemma TwoDigits(v: nat)
    ensures v % 0x100 + 0x100 * (v / 0x100 % 0x100) == v % 0x1_0000
  {
    hide *;
    LowDigit(v, 0x100);
  }

  lemma FourDigits(v: nat)
    ensures v % 0x100 + 0x100 * (v / 0x100 % 0x100 + 0x100 * (v / 0x100 / 0x100 % 0x100
            + 0x100 * (v / 0x100 / 0x100 / 0x100 % 0x100))) == v % 0x1_0000_0000
  {
    hide *;
    LowDigit(v, 0x100_0000);
    LowDigit(v / 0x100, 0x1_0000);
    LowDigit(v / 0x100 / 0x100, 0x100);
  }

  lemma LowDigit(v: nat, span: nat)
    requires span > 0
    ensures v % 0x100 + 0x100 * (v / 0x100 % span) == v % (0x100 * span)
  {
    hide *;
    var h, q := v / 0x100, v / 0x100 / span;
    assert v == 0x100 * h + v % 0x100;
    assert h == q * span + h % span;
    Regrouped(q, span);
    QuotientIs(v, q, v % 0x100 + 0x100 * (h % span), 0x100 * span);
  }

  lemma Regrouped(q: nat, span: nat)
    ensures q * (0x100 * span) == 0x100 * (q * span)
  {}

  /** The 32 header bytes of a video sector. */
  function SectorHeader(index: nat, count: nat, frame: nat, bytesUsed: nat, blocksUsed: nat, quantScale: nat, d: Size)
    : (h: seq<byte>)
    ensures |h| == 32
  {
    [0x60, 0x01, 0x01, 0x80] + LittleEndian(index, 2) + LittleEndian(count, 2) + LittleEndian(frame, 4)
    + LittleEndian(bytesUsed, 4) + LittleEndian(16 * d.w, 2) + LittleEndian(16 * d.h, 2)
    + LittleEndian(blocksUsed, 2) + [0x00, 0x38] + LittleEndian(quantScale, 2) + [0x02, 0x00]
    + [0x00, 0x00, 0x00, 0x00]
  }

  /** What a player reads in a header. */
  function FrameField(s: seq<byte>): nat {
    if |s| < 32 then 0 else FourBytes(s, 8)
  }

  function BytesField(s: seq<byte>): nat {
    if |s| < 32 then 0 else FourBytes(s, 12)
  }

  function IndexField(s: seq<byte>): nat {
    if |s| < 32 then 0 else TwoBytes(s, 4)
  }

  function CountField(s: seq<byte>): nat {
    if |s| < 32 then 0 else TwoBytes(s, 6)
  }

  /** Every byte of a header stands where a player looks for it. */
  lemma HeaderReads(index: nat, count: nat, frame: nat, bytesUsed: nat, blocksUsed: nat, quantScale: nat, d: Size)
    ensures var h := SectorHeader(index, count, frame, bytesUsed, blocksUsed, quantScale, d);
      && h[0..4] == [0x60, 0x01, 0x01, 0x80]
      && TwoBytes(h, 4) == index % 0x1_0000 && TwoBytes(h, 6) == count % 0x1_0000
      && FourBytes(h, 8) == frame % 0x1_0000_0000 && FourBytes(h, 12) == bytesUsed % 0x1_0000_0000
      && TwoBytes(h, 16) == 16 * d.w % 0x1_0000 && TwoBytes(h, 18) == 16 * d.h % 0x1_0000
      && TwoBytes(h, 20) == blocksUsed % 0x1_0000 && h[22..24] == [0x00, 0x38]
      && TwoBytes(h, 24) == quantScale % 0x1_0000 && h[26..32] == [0x02, 0x00, 0x00, 0x00, 0x00, 0x00]
  {
    hide LittleEndian, TwoBytes, FourBytes;
    var h := SectorHeader(index, count, frame, bytesUsed, blocksUsed, quantScale, d);
    TwoBytesBack(index, h, 4);
    TwoBytesBack(count, h, 6);
    FourBytesBack(frame, h, 8);
    FourBytesBack(bytesUsed, h, 12);
    TwoBytesBack(16 * d.w, h, 16);
    TwoBytesBack(16 * d.h, h, 18);
    TwoBytesBack(blocksUsed, h, 20);
    TwoBytesBack(quantScale, h, 24);
  }

  // ----- the sectors of a stream

  /** Sector `q` of the stream, which belongs to frame `f`: its header and its
      piece of the frame. */
  function VideoSector(base: nat, den: nat, q: nat, f: nat, c: Coded, d: Size): (s: seq<byte>)
    requires den > 0 && base <= 9 * den && InFrame(base, den, q, f) && WholeBuffer(c)
    ensures |s| == 32 + CHUNK
  {
    var index := q - Total(base, den, f - 1);
    IndexFits(base, den, q, f);
    SectorHeader(index, SectorsOf(base, den, f), f, c.bytesUsed, c.blocksUsed, c.quantScale, d)
    + c.unmuxed[CHUNK * index..CHUNK * index + CHUNK]
  }

  lemma IndexFits(base: nat, den: nat, q: nat, f: nat)
    requires den > 0 && base <= 9 * den && InFrame(base, den, q, f)
    ensures 0 <= q - Total(base, den, f - 1) < SectorsOf(base, den, f) <= MAX_UNMUXED_BLOCKS
  {
    BufferSuffices(base, den);
  }

  /** `s` is sector `q` of the stream whose frames are `coded`, the first of
      them frame 1. */
  ghost predicate IsSector(s: seq<byte>, base: nat, den: nat, q: nat, coded: seq<Coded>, d: Size)
    requires den > 0 && base <= 9 * den
  {
    forall f :: InFrame(base, den, q, f) ==> IsSectorOf(s, base, den, q, f, coded, d)
  }

  ghost predicate IsSectorOf(s: seq<byte>, base: nat, den: nat, q: nat, f: nat, coded: seq<Coded>, d: Size)
    requires den > 0 && base <= 9 * den && InFrame(base, den, q, f)
  {
    f <= |coded| && WholeBuffer(coded[f - 1]) && s == VideoSector(base, den, q, f, coded[f - 1], d)
  }

  /** The sectors from the first on. */
  ghost predicate IsStream(stream: seq<seq<byte>>, base: nat, den: nat, coded: seq<Coded>, d: Size)
    requires den > 0 && base <= 9 * den
  {
    forall q :: 0 <= q < |stream| ==> IsSector(stream[q], base, den, q, coded, d)
  }

  /** Place `i` of an output block holds the sector `i` behind sector `q`. */
  ghost predicate SectorLies(output: seq<byte>, i: nat, base: nat, den: nat, q: nat, coded: seq<Coded>, d: Size)
    requires den > 0 && base <= 9 * den
  {
    2352 * i + 0x818 <= |output| && IsSector(output[2352 * i + 0x018..2352 * i + 0x818], base, den, q + i, coded, d)
  }

  // ----- a player puts a frame together again

  /** The sectors of a stream that name frame `f`. */
  function Picked(stream: seq<seq<byte>>, f: nat): seq<seq<byte>> {
    if stream == [] then []
    else
      var n := |stream| - 1;
      Picked(stream[..n], f) + if FrameField(stream[n]) == f then [stream[n]] else []
  }

  /** What sectors carry behind their headers. */
  function Gather(sectors: seq<seq<byte>>): seq<byte> {
    if sectors == [] then []
    else
      var last := sectors[|sectors| - 1];
      Gather(sectors[..|sectors| - 1]) + if |last| < 32 then [] else last[32..]
  }

  /** A frame's bytes behind its own header, as many as the sectors say. */
  function Demuxed(sectors: seq<seq<byte>>): seq<byte> {
    var joined := Gather(sectors);
    var used := if sectors == [] then 0 else BytesField(sectors[0]);
    if 8 <= used <= |joined| then joined[8..used] else []
  }

  function Within(n: nat, lo: nat, hi: nat): nat {
    if n < lo then lo else if n > hi then hi else n
  }

  /** The sectors that name a frame are those that belong to it. */
  lemma {:induction false} PicksFrame(stream: seq<seq<byte>>, base: nat, den: nat, coded: seq<Coded>, d: Size, f: nat)
    requires base > 0 && den > 0 && base <= 9 * den && IsStream(stream, base, den, coded, d)
    requires 0 < f && |coded| < 0x1_0000_0000
    requires Total(base, den, f) <= |stream|
    ensures Total(base, den, f - 1) <= Total(base, den, f)
    ensures Picked(stream, f) == stream[Total(base, den, f - 1)..Total(base, den, f)]
  {
    TotalsGrow(base, den, f - 1, f);
    PicksUpTo(stream, base, den, coded, d, f, |stream|);
    assert stream[..|stream|] == stream;
  }

  lemma {:induction false} PicksUpTo(stream: seq<seq<byte>>, base: nat, den: nat, coded: seq<Coded>, d: Size, f: nat,
                                     n: nat)
    requires base > 0 && den > 0 && base <= 9 * den && IsStream(stream, base, den, coded, d)
    requires 0 < f && |coded| < 0x1_0000_0000 && n <= |stream|
    requires Total(base, den, f - 1) <= Total(base, den, f) <= |stream|
    ensures var lo, hi := Total(base, den, f - 1), Total(base, den, f);
      Picked(stream[..n], f) == stream[lo..Within(n, lo, hi)]
  {
    hide Total, IsSector, FrameField;
    if n > 0 {
      PicksUpTo(stream, base, den, coded, d, f, n - 1);
      assert stream[..n][..n - 1] == stream[..n - 1];
      assert IsSector(stream[n - 1], base, den, n - 1, coded, d);
      NamesItsFrame(stream[n - 1], base, den, n - 1, coded, d, f);
    }
  }

  lemma NamesItsFrame(s: seq<byte>, base: nat, den: nat, q: nat, coded: seq<Coded>, d: Size, f: nat)
    requires base > 0 && den > 0 && base <= 9 * den && IsSector(s, base, den, q, coded, d) && |coded| < 0x1_0000_0000
    ensures FrameField(s) == f <==> InFrame(base, den, q, f)
  {
    hide Total, SectorsOf, SectorHeader, FrameField, InFrame;
    var g := SomeFrame(base, den, q);
    assert IsSectorOf(s, base, den, q, g, coded, d);
    FrameNamed(base, den, q, g, coded[g - 1], d);
    if InFrame(base, den, q, f) { OneFrame(base, den, q, f, g); }
  }

  lemma FrameNamed(base: nat, den: nat, q: nat, f: nat, c: Coded, d: Size)
    requires den > 0 && base <= 9 * den && InFrame(base, den, q, f) && WholeBuffer(c) && f < 0x1_0000_0000
    ensures FrameField(VideoSector(base, den, q, f, c, d)) == f
  {
    hide LittleEndian, FourBytes, Total, SectorsOf;
    IndexFits(base, den, q, f);
    var s := VideoSector(base, den, q, f, c, d);
    assert s[8..12] == LittleEndian(f, 4);
    FourBytesBack(f, s, 8);
  }

  /** The first sectors of a frame carry the start of its buffer, so all of
      them carry all of it. */
  lemma {:induction false} FrameGathers(base: nat, den: nat, f: nat, coded: seq<Coded>, d: Size,
                                        sectors: seq<seq<byte>>)
    requires den > 0 && base <= 9 * den && 0 < f <= |coded| && WholeBuffer(coded[f - 1])
    requires |sectors| <= SectorsOf(base, den, f)
    requires forall k :: 0 <= k < |sectors| ==> SectorAfter(sectors[k], base, den, f, k, coded, d)
    ensures CHUNK * |sectors| <= CHUNK * MAX_UNMUXED_BLOCKS
    ensures Gather(sectors) == coded[f - 1].unmuxed[..CHUNK * |sectors|]
    decreases |sectors|
  {
    hide Total, SectorsOf, SectorHeader;
    if sectors != [] {
      var n := |sectors| - 1;
      FrameGathers(base, den, f, coded, d, sectors[..n]);
      assert SectorAfter(sectors[n], base, den, f, n, coded, d);
      IndexFits(base, den, Total(base, den, f - 1) + n, f);
      var u := coded[f - 1].unmuxed;
      assert sectors[n][32..] == u[CHUNK * n..CHUNK * n + CHUNK];
      assert u[..CHUNK * (n + 1)] == u[..CHUNK * n] + u[CHUNK * n..CHUNK * n + CHUNK];
    }
  }

  /** Sector `k` of frame `f`. */
  ghost predicate SectorAfter(s: seq<byte>, base: nat, den: nat, f: nat, k: nat, coded: seq<Coded>, d: Size)
    requires den > 0 && base <= 9 * den && f > 0
  {
    var q := Total(base, den, f - 1) + k;
    InFrame(base, den, q, f) && IsSectorOf(s, base, den, q, f, coded, d)
  }

  /** Joining the sectors that name a frame gives the frame's bytes. */
  lemma FrameJoins(stream: seq<seq<byte>>, base: nat, den: nat, coded: seq<Coded>, d: Size, f: nat)
    requires base > 0 && den > 0 && base <= 9 * den && IsStream(stream, base, den, coded, d)
    requires 0 < f <= |coded| < 0x1_0000_0000 && Total(base, den, f) <= |stream|
    requires WholeBuffer(coded[f - 1]) && 8 <= coded[f - 1].bytesUsed <= CHUNK * SectorsOf(base, den, f)
    ensures coded[f - 1].bytesUsed <= CHUNK * MAX_UNMUXED_BLOCKS
    ensures Demuxed(Picked(stream, f)) == coded[f - 1].unmuxed[8..coded[f - 1].bytesUsed]
  {
    hide Total, SectorsOf, Picked, Gather, SectorHeader, BytesField, InFrame;
    PicksFrame(stream, base, den, coded, d, f);
    SectorsOfIs(base, den, f);
    var lo, sectors, c := Total(base, den, f - 1), Picked(stream, f), coded[f - 1];
    assert |sectors| == SectorsOf(base, den, f);
    forall k | 0 <= k < |sectors|
      ensures SectorAfter(sectors[k], base, den, f, k, coded, d)
    {
      var q := lo + k;
      assert sectors[k] == stream[q] && IsSector(stream[q], base, den, q, coded, d);
      Belongs(base, den, f, k);
    }
    FrameGathers(base, den, f, coded, d, sectors);
    assert SectorAfter(sectors[0], base, den, f, 0, coded, d);
    SizeNamed(base, den, lo, f, c, d);
    assert c.unmuxed[..CHUNK * |sectors|][8..c.bytesUsed] == c.unmuxed[8..c.bytesUsed];
  }

  lemma Belongs(base: nat, den: nat, f: nat, k: nat)
    requires den > 0 && f > 0 && k < SectorsOf(base, den, f)
    ensures InFrame(base, den, Total(base, den, f - 1) + k, f)
  {}

  lemma SizeNamed(base: nat, den: nat, q: nat, f: nat, c: Coded, d: Size)
    requires den > 0 && base <= 9 * den && InFrame(base, den, q, f) && WholeBuffer(c) && c.bytesUsed < 0x1_0000_0000
    ensures BytesField(VideoSector(base, den, q, f, c, d)) == c.bytesUsed
  {
    hide LittleEndian, FourBytes, Total, SectorsOf;
    IndexFits(base, den, q, f);
    var s := VideoSector(base, den, q, f, c, d);
    assert s[12..16] == LittleEndian(c.bytesUsed, 4);
    FourBytesBack(c.bytesUsed, s, 12);
  }
}
