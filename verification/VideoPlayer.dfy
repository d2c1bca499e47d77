/** A player of video sectors: it goes by the headers, takes the pieces of a
    frame as they come, and shows what the frame's words say. */
module VideoPlayer {
  import opened Wrappers
  import opened Bits
  import opened BitStrings
  import opened BitWriter
  import opened FiniteSets
  import opened MdecBlock
  import opened MdecFormat
  import opened FrameLayout
  import opened FrameShedder
  import opened FrameCoder
  import opened FrameTransform
  import opened FrameEncoder
  import opened FrameScheduler
  import opened StreamConditions
  import opened VideoSectors
  import opened VideoStream

  // ----- one sector

  /** What a player reads in sector `q` of a stream, which belongs to frame
      `f`: the piece's number and how many there are, the frame's number, its
      sizes, and the fixed bytes; and then the piece. */
  lemma SectorReads(s: seq<byte>, base: nat, den: nat, q: nat, f: nat, coded: seq<Coded>, d: Size)
    requires den > 0 && base <= 9 * den && IsSector(s, base, den, q, coded, d) && InFrame(base, den, q, f)
    ensures |s| == 2048 && f <= |coded| && WholeBuffer(coded[f - 1])
    ensures TwoBytes(s, 4) == q - Total(base, den, f - 1) < TwoBytes(s, 6) == SectorsOf(base, den, f) <= 9
    ensures FourBytes(s, 8) == f % 0x1_0000_0000 && FourBytes(s, 12) == coded[f - 1].bytesUsed % 0x1_0000_0000
    ensures TwoBytes(s, 16) == 16 * d.w % 0x1_0000 && TwoBytes(s, 18) == 16 * d.h % 0x1_0000
    ensures TwoBytes(s, 20) == coded[f - 1].blocksUsed % 0x1_0000
    ensures TwoBytes(s, 24) == coded[f - 1].quantScale % 0x1_0000
    ensures s[0..4] == [0x60, 0x01, 0x01, 0x80] && s[22..24] == [0x00, 0x38]
    ensures s[26..32] == [0x02, 0x00, 0x00, 0x00, 0x00, 0x00]
    ensures var at := 2016 * TwoBytes(s, 4);
      at + 2016 <= |coded[f - 1].unmuxed| && s[32..] == coded[f - 1].unmuxed[at..at + 2016]
  {
    hide TwoBytes, FourBytes, SectorHeader, Total, SectorsOf;
    assert IsSectorOf(s, base, den, q, f, coded, d);
    IndexFits(base, den, q, f);
    var c, index := coded[f - 1], q - Total(base, den, f - 1);
    var h := SectorHeader(index, SectorsOf(base, den, f), f, c.bytesUsed, c.blocksUsed, c.quantScale, d);
    HeaderReads(index, SectorsOf(base, den, f), f, c.bytesUsed, c.blocksUsed, c.quantScale, d);
    assert s[..32] == h;
    SameFields(s, h);
  }

  lemma SameFields(s: seq<byte>, h: seq<byte>)
    requires |s| == 2048 && |h| == 32 && s[..32] == h
    ensures TwoBytes(s, 4) == TwoBytes(h, 4) && TwoBytes(s, 6) == TwoBytes(h, 6)
    ensures FourBytes(s, 8) == FourBytes(h, 8) && FourBytes(s, 12) == FourBytes(h, 12)
    ensures TwoBytes(s, 16) == TwoBytes(h, 16) && TwoBytes(s, 18) == TwoBytes(h, 18)
    ensures TwoBytes(s, 20) == TwoBytes(h, 20) && TwoBytes(s, 24) == TwoBytes(h, 24)
    ensures s[0..4] == h[0..4] && s[22..24] == h[22..24] && s[26..32] == h[26..32]
  {
    assert forall k :: 0 <= k < 32 ==> s[k] == s[..32][k] == h[k];
  }

  /** Where a block of output has its seven sectors: each behind the first 24
      bytes of 2352. */
  lemma OutputHas(output: seq<byte>, i: nat, base: nat, den: nat, q: nat, coded: seq<Coded>, d: Size, s: seq<byte>)
    requires den > 0 && base <= 9 * den && SectorLies(output, i, base, den, q, coded, d)
    ensures 2352 * i + 24 + 2048 <= |output|
    ensures s == output[2352 * i + 24..2352 * i + 24 + 2048] ==> IsSector(s, base, den, q + i, coded, d)
  {
    hide IsSector;
  }

  // ----- the pieces of a frame, in any order

  /** Each piece goes where its number says. */
  function Assembled(buffer: seq<byte>, sectors: seq<seq<byte>>): (r: seq<byte>)
    ensures |r| == |buffer|
  {
    if sectors == [] then buffer
    else
      var n := |sectors| - 1;
      var t, s := Assembled(buffer, sectors[..n]), sectors[n];
      var at := 2016 * IndexField(s);
      if |s| == 2048 && at + 2016 <= |t| then t[..at] + s[32..] + t[at + 2016..] else t
  }

  /** The numbers of the pieces so far. */
  function Seen(sectors: seq<seq<byte>>): set<int> {
    set k | 0 <= k < |sectors| :: IndexField(sectors[k])
  }

  /** All of them: as many as the last header says there are. */
  predicate Complete(sectors: seq<seq<byte>>) {
    sectors != [] && |Seen(sectors)| == CountField(sectors[|sectors| - 1])
  }

  /** All sectors are of frame `f`, in whatever order and however often. */
  ghost predicate AllOf(sectors: seq<seq<byte>>, base: nat, den: nat, f: nat, coded: seq<Coded>, d: Size)
    requires den > 0 && base <= 9 * den
  {
    forall k :: 0 <= k < |sectors| ==> SomeSectorOf(sectors[k], base, den, f, coded, d)
  }

  ghost predicate SomeSectorOf(s: seq<byte>, base: nat, den: nat, f: nat, coded: seq<Coded>, d: Size)
    requires den > 0 && base <= 9 * den
  {
    exists q: nat :: InFrame(base, den, q, f) && IsSector(s, base, den, q, coded, d)
  }

  /** What a player needs of one of them. */
  lemma PieceIs(s: seq<byte>, base: nat, den: nat, f: nat, coded: seq<Coded>, d: Size)
    requires den > 0 && base <= 9 * den && f > 0 && SomeSectorOf(s, base, den, f, coded, d)
    ensures |s| == 2048 && f <= |coded| && WholeBuffer(coded[f - 1])
    ensures IndexField(s) < CountField(s) == SectorsOf(base, den, f) <= 9
    ensures BytesField(s) == coded[f - 1].bytesUsed % 0x1_0000_0000
    ensures var at := 2016 * IndexField(s);
      at + 2016 <= |coded[f - 1].unmuxed| && s[32..] == coded[f - 1].unmuxed[at..at + 2016]
  {
    hide TwoBytes, FourBytes, Total, SectorsOf, IsSector, InFrame;
    var q: nat :| InFrame(base, den, q, f) && IsSector(s, base, den, q, coded, d);
    SectorReads(s, base, den, q, f, coded, d);
  }

  /** Piece `i` of the buffer is that of the frame. */
  predicate PieceIn(buffer: seq<byte>, u: seq<byte>, i: int) {
    0 <= i && 2016 * i + 2016 <= |u| && 2016 * i + 2016 <= |buffer|
    && buffer[2016 * i..2016 * i + 2016] == u[2016 * i..2016 * i + 2016]
  }

  lemma {:induction false} SeenAreIn(buffer: seq<byte>, sectors: seq<seq<byte>>, base: nat, den: nat, f: nat,
                                     coded: seq<Coded>, d: Size)
    requires den > 0 && base <= 9 * den && 0 < f <= |coded| && WholeBuffer(coded[f - 1])
    requires |buffer| == 18144 && AllOf(sectors, base, den, f, coded, d)
    ensures forall i :: i in Seen(sectors) ==> PieceIn(Assembled(buffer, sectors), coded[f - 1].unmuxed, i)
    decreases |sectors|
  {
    hide SomeSectorOf, IndexField, CountField, BytesField, SectorsOf, PieceIn;
    if sectors != [] {
      var n := |sectors| - 1;
      var t, u, s := Assembled(buffer, sectors[..n]), coded[f - 1].unmuxed, sectors[n];
      SeenAreIn(buffer, sectors[..n], base, den, f, coded, d);
      PieceIs(s, base, den, f, coded, d);
      assert Seen(sectors) == Seen(sectors[..n]) + {IndexField(s)};
      forall i | i in Seen(sectors)
        ensures PieceIn(Assembled(buffer, sectors), u, i)
      {
        StillIn(t, u, s, IndexField(s), i);
      }
    }
  }

  lemma StillIn(t: seq<byte>, u: seq<byte>, s: seq<byte>, at: nat, i: int)
    requires |t| == |u| == 18144 && |s| == 2048 && 2016 * at + 2016 <= |t|
    requires s[32..] == u[2016 * at..2016 * at + 2016] && (i == at || PieceIn(t, u, i))
    ensures PieceIn(t[..2016 * at] + s[32..] + t[2016 * at + 2016..], u, i)
  {
    var r, a := t[..2016 * at] + s[32..] + t[2016 * at + 2016..], 2016 * i;
    if i == at {
      assert r[a..a + 2016] == s[32..];
    } else {
      forall k | a <= k < a + 2016
        ensures r[k] == t[k]
      {}
      assert r[a..a + 2016] == t[a..a + 2016];
    }
  }

  /** When all pieces have come, in whatever order, the buffer holds the
      frame's sectors. */
  lemma CompleteHolds(buffer: seq<byte>, sectors: seq<seq<byte>>, base: nat, den: nat, f: nat, coded: seq<Coded>,
                      d: Size)
    requires den > 0 && base <= 9 * den && 0 < f && |buffer| == 18144
    requires AllOf(sectors, base, den, f, coded, d) && Complete(sectors)
    ensures f <= |coded| && WholeBuffer(coded[f - 1]) && 0 < SectorsOf(base, den, f) <= 9
    ensures var n := 2016 * SectorsOf(base, den, f);
      Assembled(buffer, sectors)[..n] == coded[f - 1].unmuxed[..n]
  {
    hide SomeSectorOf, IndexField, CountField, BytesField, SectorsOf, PieceIn, Assembled;
    var last := sectors[|sectors| - 1];
    assert SomeSectorOf(last, base, den, f, coded, d);
    PieceIs(last, base, den, f, coded, d);
    SeenAreIn(buffer, sectors, base, den, f, coded, d);
    AllSeen(sectors, base, den, f, coded, d);
    AllIn(Assembled(buffer, sectors), coded[f - 1].unmuxed, Seen(sectors), SectorsOf(base, den, f));
  }

  /** As many different pieces as there are: every one of them. */
  lemma AllSeen(sectors: seq<seq<byte>>, base: nat, den: nat, f: nat, coded: seq<Coded>, d: Size)
    requires den > 0 && base <= 9 * den && 0 < f && AllOf(sectors, base, den, f, coded, d) && Complete(sectors)
    ensures forall i :: 0 <= i < SectorsOf(base, den, f) ==> i in Seen(sectors)
  {
    hide SomeSectorOf, IndexField, CountField, BytesField, SectorsOf;
    var last := sectors[|sectors| - 1];
    assert SomeSectorOf(last, base, den, f, coded, d);
    PieceIs(last, base, den, f, coded, d);
    var n: nat := SectorsOf(base, den, f);
    forall k | 0 <= k < |sectors|
      ensures 0 <= IndexField(sectors[k]) < n
    {
      assert SomeSectorOf(sectors[k], base, den, f, coded, d);
      PieceIs(sectors[k], base, den, f, coded, d);
    }
    FromZeroSize(n);
    FullSubset(Seen(sectors), FromZero(n));
  }

  function FromZero(n: nat): set<int> {
    if n == 0 then {} else FromZero(n - 1) + {n - 1}
  }

  lemma {:induction false} FromZeroSize(n: nat)
    ensures |FromZero(n)| == n && forall i :: i in FromZero(n) <==> 0 <= i < n
  {
    if n > 0 { FromZeroSize(n - 1); }
  }

  lemma AllIn(t: seq<byte>, u: seq<byte>, seen: set<int>, n: nat)
    requires |t| == |u| == 18144 && n <= 9
    requires (forall i :: 0 <= i < n ==> i in seen) && forall i :: i in seen ==> PieceIn(t, u, i)
    ensures t[..2016 * n] == u[..2016 * n]
  {
    forall k | 0 <= k < 2016 * n
      ensures t[k] == u[k]
    {
      var i := k / 2016;
      assert i in seen;
      assert t[k] == t[2016 * i..2016 * i + 2016][k - 2016 * i];
      assert u[k] == u[2016 * i..2016 * i + 2016][k - 2016 * i];
    }
  }

  // ----- the picture

  /** The bits of a frame behind its own header, as many as its size says. */
  function FrameBitsIn(bytes: seq<byte>, used: nat): seq<bool> {
    if 8 <= used <= |bytes| && used % 2 == 0 then
      seq((used - 8) / 2 * 16, i requires 0 <= i < (used - 8) / 2 * 16 => BitAt(bytes[8..used], i))
    else []
  }

  lemma BitsAreWords(bytes: seq<byte>, used: nat)
    requires 8 <= used <= |bytes| && used % 2 == 0
    ensures FrameBitsIn(bytes, used) == Words(bytes[8..used])
  {
    hide BitAt, Words;
    var body := bytes[8..used];
    forall i | 0 <= i < |body| / 2 * 16
      ensures Words(body)[i] == BitAt(body, i)
    {
      WordsAreBits(body, i);
    }
  }

  /** Where block `k` of a frame lies: macroblocks column by column, in each the
      six lists. */
  function PlaceOf(d: Size, k: nat): int
    requires d.h > 0
  {
    64 * ((k % 6 * d.h + k / 6 % d.h) * d.w + k / 6 / d.h)
  }

  /** Value `i` of shown block `k` represents its coefficient. */
  predicate ShownAt(qs: seq<seq<int>>, left: seq<int>, d: Size, k: nat, i: nat)
    requires d.h > 0
  {
    && k < |qs| && i < |qs[k]| && 0 <= PlaceOf(d, k) + i < |left|
    && Represents(qs[k][i], left[PlaceOf(d, k) + i], Step(i))
  }

  /** All blocks of a frame, all values. */
  predicate Shown(qs: seq<seq<int>>, left: seq<int>, d: Size) {
    && |qs| == 6 * (d.w * d.h)
    && (d.h > 0 ==> forall k, i :: 0 <= k < |qs| && 0 <= i < 64 ==> ShownAt(qs, left, d, k, i))
  }

  lemma {:induction false} BlockOf(left: seq<int>, d: Size, n: nat, k: nat)
    requires IsFrame(left, d) && k < n <= Blocks(d)
    ensures |QuantisedBlocks(left, d, n)| == n && QuantisedBlocks(left, d, n)[k] == QuantisedAtVisit(left, d, k)
    decreases n
  {
    hide QuantisedAtVisit, Blocks;
    if k < n - 1 {
      BlockOf(left, d, n - 1, k);
    } else {
      BlockCount(left, d, n - 1);
    }
  }

  lemma {:induction false} BlockCount(left: seq<int>, d: Size, n: nat)
    requires IsFrame(left, d) && n <= Blocks(d)
    ensures |QuantisedBlocks(left, d, n)| == n
    decreases n
  {
    hide QuantisedAtVisit, Blocks;
    if n > 0 { BlockCount(left, d, n - 1); }
  }

  /** The quantised blocks of a frame, times their steps, approach it. */
  lemma QuantisedAreShown(left: seq<int>, d: Size)
    requires IsFrame(left, d)
    ensures Shown(QuantisedBlocks(left, d, Blocks(d)), left, d)
  {
    hide QuantisedBlocks, QuantisedAtVisit, ShownAt, IsFrame;
    var qs := QuantisedBlocks(left, d, Blocks(d));
    BlockCount(left, d, Blocks(d));
    if d.h > 0 {
      forall k, i | 0 <= k < |qs| && 0 <= i < 64
        ensures ShownAt(qs, left, d, k, i)
      {
        BlockOf(left, d, Blocks(d), k);
        BlockShown(left, d, qs, k, i);
      }
    }
  }

  lemma BlockShown(left: seq<int>, d: Size, qs: seq<seq<int>>, k: nat, i: nat)
    requires IsFrame(left, d) && d.h > 0 && k < Blocks(d) && i < 64
    requires k < |qs| && qs[k] == QuantisedAtVisit(left, d, k)
    ensures ShownAt(qs, left, d, k, i)
  {
    hide Blocks, At, QuantisedAt, Represents, Step;
    BlockParts(left, d, Coding, k);
    VisitPlaceIs(d, k);
    var b := BlockAt(left, d, Coding, k);
    assert b[i] == left[At(d, Coding, k) + i];
    QuantisedRepresents(b[i], i);
  }

  lemma VisitPlaceIs(d: Size, k: nat)
    requires k < Blocks(d) && d.h > 0
    ensures At(d, Coding, k) == PlaceOf(d, k)
  {}

  /** A player that has all pieces of a frame, and reads the frame's size in any
      of them, reads blocks whose values times their steps approach what
      shedding left of the frame; behind them come the end marker, 0 and nine
      ones and the end code, and zeroes. */
  lemma PictureShown(source: nat -> seq<int>, d: Size, base: nat, den: nat, coded: seq<Coded>,
                     buffer: seq<byte>, sectors: seq<seq<byte>>, f: nat)
    returns (left: seq<int>, qs: seq<seq<int>>, padding: nat)
    requires den > 0 && base <= 9 * den && AllCoded(source, d, base, den, coded) && 0 < f && |buffer| == 18144
    requires AllOf(sectors, base, den, f, coded, d) && Complete(sectors)
    ensures SectorsOf(base, den, f) > 0 && Leaves(source(f), d, SectorsOf(base, den, f), left)
    ensures ReadBlocks(FrameBitsIn(Assembled(buffer, sectors), BytesField(sectors[0])), 6 * (d.w * d.h))
      == Some((qs, [false] + seq(9, _ => true) + [true, false] + seq(padding, _ => false)))
    ensures Shown(qs, left, d)
  {
    hide Complete, AllOf, SectorsOf, ReadBlocks, Leaves, HoldsFrame, Assembled, BytesField, Shown, FrameBitsIn;
    CompleteHolds(buffer, sectors, base, den, f, coded, d);
    FirstIs(sectors, base, den, f, coded, d);
    var c, n: nat := coded[f - 1], SectorsOf(base, den, f);
    assert CodedAt(source, d, base, den, coded, f);
    left, padding :| Leaves(source(f), d, n, left) && HoldsFrame(c, d, n, left, padding);
    qs := HeldIsShown(c, d, n, left, padding, Assembled(buffer, sectors));
  }

  /** The same of the frame's own sectors. */
  lemma HeldIsShown(c: Coded, d: Size, n: nat, left: seq<int>, padding: nat, bytes: seq<byte>)
    returns (qs: seq<seq<int>>)
    requires HoldsFrame(c, d, n, left, padding) && WholeBuffer(c) && n <= 9
    requires |bytes| == 18144 && bytes[..2016 * n] == c.unmuxed[..2016 * n]
    ensures c.bytesUsed < 0x1_0000_0000
    ensures ReadBlocks(FrameBitsIn(bytes, c.bytesUsed), 6 * (d.w * d.h))
      == Some((qs, [false] + seq(9, _ => true) + [true, false] + seq(padding, _ => false)))
    ensures Shown(qs, left, d)
  {
    hide ReadBlocks, FrameBits, Zeros, Shown, FrameBitsIn, Words, QuantisedBlocks, HoldsFrame, Holds, IsFrame;
    HeldBytes(c, d, n, left, padding, bytes);
    FrameDecodes(c.unmuxed, c.bytesUsed, left, d, padding);
    BitsAreWords(bytes, c.bytesUsed);
    qs := QuantisedBlocks(left, d, Blocks(d));
    QuantisedAreShown(left, d);
    MarkerIs(padding);
  }

  lemma HeldBytes(c: Coded, d: Size, n: nat, left: seq<int>, padding: nat, bytes: seq<byte>)
    requires HoldsFrame(c, d, n, left, padding) && WholeBuffer(c) && n <= 9
    requires |bytes| == 18144 && bytes[..2016 * n] == c.unmuxed[..2016 * n]
    ensures 8 <= c.bytesUsed <= 18144 && c.bytesUsed % 2 == 0 && bytes[8..c.bytesUsed] == c.unmuxed[8..c.bytesUsed]
    ensures IsFrame(left, d) && Holds(c.unmuxed, c.bytesUsed, FrameBits(left, d), padding)
  {
    hide FrameBits, Zeros, Header, Hwords, Words, Blocks, RoundUp16;
    SameSlice(bytes, c.unmuxed, 2016 * n, 8, c.bytesUsed);
  }

  lemma SameSlice(a: seq<byte>, b: seq<byte>, n: nat, lo: nat, hi: nat)
    requires lo <= hi <= n <= |a| && n <= |b| && a[..n] == b[..n]
    ensures a[lo..hi] == b[lo..hi]
  {
    assert a[lo..hi] == a[..n][lo..hi] && b[lo..hi] == b[..n][lo..hi];
  }

  lemma FirstIs(sectors: seq<seq<byte>>, base: nat, den: nat, f: nat, coded: seq<Coded>, d: Size)
    requires den > 0 && base <= 9 * den && 0 < f && AllOf(sectors, base, den, f, coded, d) && Complete(sectors)
    ensures sectors != [] && f <= |coded| && BytesField(sectors[0]) == coded[f - 1].bytesUsed % 0x1_0000_0000
  {
    hide SomeSectorOf;
    PieceIs(sectors[0], base, den, f, coded, d);
  }

  lemma MarkerIs(padding: nat)
    ensures TRAILER + Zeros(padding) == [false] + seq(9, _ => true) + [true, false] + seq(padding, _ => false)
  {
    NineOnes();
  }

  lemma NineOnes()
    ensures BitsOf(0x1FF, 10) == [false] + seq(9, _ => true)
  {
    assert BitsOf(0x1FF, 10) == [false, true, true, true, true, true, true, true, true, true];
  }

  /** The sectors of a stream that name a frame are such a set of pieces. */
  lemma PickedIsComplete(stream: seq<seq<byte>>, base: nat, den: nat, coded: seq<Coded>, d: Size, f: nat)
    requires base > 0 && den > 0 && base <= 9 * den && IsStream(stream, base, den, coded, d)
    requires 0 < f && |coded| < 0x1_0000_0000
    requires Total(base, den, f - 1) < Total(base, den, f) <= |stream|
    ensures AllOf(Picked(stream, f), base, den, f, coded, d) && Complete(Picked(stream, f))
  {
    hide Total, SectorsOf, Picked, IsSector, IndexField, CountField, Seen;
    PicksFrame(stream, base, den, coded, d, f);
    SectorsOfIs(base, den, f);
    var sectors, lo, n := Picked(stream, f), Total(base, den, f - 1), SectorsOf(base, den, f);
    forall k | 0 <= k < |sectors|
      ensures SomeSectorOf(sectors[k], base, den, f, coded, d)
      ensures IndexField(sectors[k]) == k && CountField(sectors[k]) == n
    {
      var q := lo + k;
      assert sectors[k] == stream[q] && IsSector(stream[q], base, den, q, coded, d);
      Belongs(base, den, f, k);
      NumbersOf(stream[q], base, den, q, f, coded, d);
    }
    AllNumbers(sectors);
  }

  lemma NumbersOf(s: seq<byte>, base: nat, den: nat, q: nat, f: nat, coded: seq<Coded>, d: Size)
    requires den > 0 && base <= 9 * den && IsSector(s, base, den, q, coded, d) && InFrame(base, den, q, f)
    ensures IndexField(s) == q - Total(base, den, f - 1) && CountField(s) == SectorsOf(base, den, f)
  {
    hide TwoBytes, FourBytes, Total, SectorsOf, IsSector, InFrame;
    SectorReads(s, base, den, q, f, coded, d);
  }

  lemma {:induction false} AllNumbers(sectors: seq<seq<byte>>)
    requires forall k :: 0 <= k < |sectors| ==> IndexField(sectors[k]) == k
    ensures Seen(sectors) == FromZero(|sectors|) && |Seen(sectors)| == |sectors|
  {
    hide IndexField;
    FromZeroSize(|sectors|);
    forall i | i in FromZero(|sectors|)
      ensures i in Seen(sectors)
    {
      assert IndexField(sectors[i]) == i;
    }
  }

  // ----- where the values come from

  /** What shedding leaves at a place is what the transform gave there, cut down
      to a 32nd or a quarter, or nothing; the first value of a block stays. */
  lemma LeftFromTransform(x: seq<int>, d: Size, blocks: nat, left: seq<int>, p: nat)
    requires Leaves(x, d, blocks, left) && p < |x|
    ensures |left| == |x|
    ensures var n := if p % 64 == 0 then 32 else 4;
      && (left[p] != 0 ==> Approaches(n * left[p], x[p], n) && !(-n * Step(p % 64) < x[p] < n * Step(p % 64)))
      && (left[p] == 0 && p % 64 == 0 ==> -n * Step(0) < x[p] < n * Step(0))
  {
    hide IsRound, At, Blocks, BlockAt, Finished, Step, VisitOfSlot;
    var m: nat, accum: nat :| IsOutcome(x, d, blocks, left, m, accum);
    var s := FrameFinished(x);
    RoundFrames(s, left, d, COUNTS_PER_BLOCK * blocks, m, accum);
    var k := VisitOfSlot(d, Coding, p / 64);
    SlotVisited(d, Coding, p / 64);
    BlockThinned(s, left, d, COUNTS_PER_BLOCK * blocks, m, accum, k);
    BlockParts(s, d, Coding, k);
    BlockParts(left, d, Coding, k);
    assert p == At(d, Coding, k) + p % 64;
    assert s[p] == BlockAt(s, d, Coding, k)[p % 64] && left[p] == BlockAt(left, d, Coding, k)[p % 64];
    FinishedIs(x[p], p % 64);
  }

  // ----- the frame's own header

  /** The eight bytes in front of a frame's bits: size in units of 32 bytes, two
      fixed bytes, the scale and the version. */
  lemma FrameHeader(x: seq<int>, d: Size, blocks: nat, c: Coded)
    requires CodesFrame(x, d, blocks, c)
    ensures |c.unmuxed| == 18144
    ensures TwoBytes(c.unmuxed, 0) == c.blocksUsed % 0x1_0000 && TwoBytes(c.unmuxed, 4) == 1
    ensures c.unmuxed[2] == 0x00 && c.unmuxed[3] == 0x38 && c.unmuxed[6] == 0x02 && c.unmuxed[7] == 0x00
  {
    hide FrameFits, Holds, FrameBits, Hwords, Leaves, RoundUp16;
    var h := c.unmuxed[..8];
    assert forall k :: 0 <= k < 8 ==> c.unmuxed[k] == h[k];
    TwoDigits(c.blocksUsed);
  }

  /** That size is enough for all run-length words of the frame's blocks, with
      two more for each block and for the end, and no more than rounding each
      block up to a unit takes. */
  lemma FrameSize(x: seq<int>, d: Size, blocks: nat, c: Coded)
    returns (left: seq<int>)
    requires CodesFrame(x, d, blocks, c)
    ensures Leaves(x, d, blocks, left) && IsFrame(left, d)
    ensures var words := WordsWritten(left, d, Blocks(d)) + 2 * Blocks(d) + 2;
      words <= 16 * c.blocksUsed < words + 16 * (Blocks(d) + 1)
  {
    hide Holds, FrameBits, Hwords, Leaves, Header, WordsWritten, Blocks;
    var padding: nat;
    left, padding :| Leaves(x, d, blocks, left) && HoldsFrame(c, d, blocks, left, padding);
    HwordsHold(left, d, Blocks(d));
    RoundedUp(Hwords(left, d, Blocks(d)) + 2);
  }

  lemma RoundedUp(n: nat)
    ensures n <= RoundUp16(n) < n + 16 && RoundUp16(n) % 16 == 0 && RoundUp16(n) / 16 * 16 == RoundUp16(n)
  {}

  lemma {:induction false} HwordsHold(left: seq<int>, d: Size, n: nat)
    requires IsFrame(left, d) && n <= Blocks(d)
    ensures var words := WordsWritten(left, d, n) + 2 * n;
      words <= Hwords(left, d, n) <= words + 15 * n && Hwords(left, d, n) % 16 == 0
    decreases n
  {
    hide Runs, Scan, QuantisedAtVisit, RoundUp16, Blocks;
    if n > 0 {
      HwordsHold(left, d, n - 1);
      RoundedUp(Hwords(left, d, n - 1) + |Runs(Scan(QuantisedAtVisit(left, d, n - 1)), 0)| + 2);
    }
  }
}
