/** The video half of an STR file: frames are coded when their first sector is
    due, and seven sectors at a time go into the output. */
module VideoStream {
  import opened Arithmetic
  import opened Wrappers
  import opened Bits
  import opened BitStrings
  import opened BitWriter
  import opened HuffmanCodes
  import opened FrameLayout
  import opened FrameShedder
  import opened FrameCoder
  import opened FrameTransform
  import opened FrameEncoder
  import opened FrameScheduler
  import opened StreamConditions
  import opened VideoSectors

  // ----- what is recorded of a frame

  /** `c` codes frame `x` in its sectors: its words are the bits of what
      shedding leaves, and they fit. */
  ghost predicate CodesFrame(x: seq<int>, d: Size, blocks: nat, c: Coded) {
    WholeBuffer(c) && exists left, padding: nat :: Leaves(x, d, blocks, left) && HoldsFrame(c, d, blocks, left, padding)
  }

  ghost predicate HoldsFrame(c: Coded, d: Size, blocks: nat, left: seq<int>, padding: nat) {
    && FrameFits(left, d, blocks)
    && c.bytesUsed % 4 == 0 && c.bytesUsed <= CHUNK * blocks && padding < 32
    && Holds(c.unmuxed, c.bytesUsed, FrameBits(left, d), padding)
    && c.blocksUsed == RoundUp16(Hwords(left, d, Blocks(d)) + 2) / 16 && c.quantScale == 1
    && c.unmuxed[..8] == Header(c.blocksUsed, c.quantScale)
  }

  /** Frame `f`, counted from 1, is coded in the sectors it gets. */
  ghost predicate CodedFrame(source: nat -> seq<int>, d: Size, base: nat, den: nat, f: nat, c: Coded)
    requires den > 0 && f > 0
  {
    SomeSectors(base, den, f);
    CodesFrame(source(f), d, SectorsOf(base, den, f), c)
  }

  /** The frames from the first on. */
  ghost predicate AllCoded(source: nat -> seq<int>, d: Size, base: nat, den: nat, coded: seq<Coded>)
    requires den > 0
  {
    forall f: nat :: 0 < f <= |coded| ==> CodedAt(source, d, base, den, coded, f)
  }

  ghost predicate CodedAt(source: nat -> seq<int>, d: Size, base: nat, den: nat, coded: seq<Coded>, f: nat)
    requires den > 0 && 0 < f <= |coded|
  {
    CodedFrame(source, d, base, den, f, coded[f - 1])
  }

  lemma OneMoreCoded(source: nat -> seq<int>, d: Size, base: nat, den: nat, coded: seq<Coded>, c: Coded)
    requires den > 0 && AllCoded(source, d, base, den, coded)
    requires CodedFrame(source, d, base, den, |coded| + 1, c)
    ensures AllCoded(source, d, base, den, coded + [c])
  {
    hide CodedFrame;
    var more := coded + [c];
    forall f: nat | 0 < f <= |more|
      ensures CodedAt(source, d, base, den, more, f)
    {
      if f <= |coded| { assert CodedAt(source, d, base, den, coded, f); }
    }
  }

  /** What is left of frame `f` does not fit the sectors it gets. */
  ghost predicate Overflows(source: nat -> seq<int>, d: Size, base: nat, den: nat, f: nat)
    requires den > 0 && f > 0
  {
    !FrameFitting(base, den, f, source(f), d)
  }

  ghost predicate AllFrames(source: nat -> seq<int>, d: Size) {
    forall f :: IsFrame(source(f), d)
  }

  /** No frame that has a turn before sector `q` overflows. */
  ghost predicate Clean(source: nat -> seq<int>, d: Size, base: nat, den: nat, q: nat)
    requires den > 0
  {
    forall f: nat :: f > 0 && Total(base, den, f - 1) < q ==> !Overflows(source, d, base, den, f)
  }

  /** A coded frame did not overflow. */
  lemma CodedDoesNot(source: nat -> seq<int>, d: Size, base: nat, den: nat, f: nat, c: Coded)
    requires den > 0 && f > 0 && CodedFrame(source, d, base, den, f, c)
    ensures !Overflows(source, d, base, den, f)
  {
    hide FrameFits, Holds, Hwords, FrameBits, Header, SectorsOf, IsOutcome;
    SomeSectors(base, den, f);
    var n: nat := SectorsOf(base, den, f);
    var left, padding: nat :| Leaves(source(f), d, n, left) && HoldsFrame(c, d, n, left, padding);
    forall other | Leaves(source(f), d, n, other)
      ensures FrameFits(other, d, n)
    {
      LeavesOne(source(f), d, n, left, other);
    }
  }

  /** No stream ever aborts just when the worst frame fits at this rate. */
  lemma NeverAbortsExactlyWhen(d: Size, base: nat, den: nat)
    requires den > 0 && Overhead(d) <= COUNTS_PER_BLOCK * (base / den)
    ensures (forall source, q: nat :: AllFrames(source, d) ==> Clean(source, d, base, den, q))
      <==> RateFits(d, base, den)
  {
    hide Overhead, FrameFitting, RateFits, Total, IsFrame;
    StreamFitsExactlyWhen(d, base, den);
    if !RateFits(d, base, den) {
      var f: nat, x :| f > 0 && IsFrame(x, d) && !FrameFitting(base, den, f, x, d);
      var source: nat -> seq<int> := (n: nat) => x;
      var q := Total(base, den, f - 1) + 1;
      assert AllFrames(source, d) && Overflows(source, d, base, den, f);
      assert !Clean(source, d, base, den, q);
    }
  }

  // ----- the encoder

  /** `vid_encoder_state_t`, but for the fields in its bit writer.  Frame `f`
      comes from `source(f)`, the coefficients that its transform gives. */
  class Encoder {
    const w: Writer
    const encodingMap: array<word32>
    const coefs: array<int>
    const d: Size
    const base: nat
    const den: nat
    const source: nat -> seq<int>
    var frameIndex: nat
    var frameBlockIndex: nat
    var overflowNum: nat
    var blocksUsed: nat
    ghost var coded: seq<Coded>

    /** The state that a stream starts from. */
    constructor (d: Size, base: nat, den: nat, source: nat -> seq<int>)
      requires base > 0 && den > 0 && base <= 9 * den
      requires Overhead(d) <= COUNTS_PER_BLOCK * (base / den) && AllFrames(source, d)
      ensures this.d == d && this.base == base && this.den == den && this.source == source
      ensures Valid(0) && coded == [] && fresh(w) && fresh(w.unmuxed) && fresh(coefs) && fresh(encodingMap)
    {
      this.d, this.base, this.den, this.source := d, base, den, source;
      frameIndex, frameBlockIndex, overflowNum, blocksUsed, coded := 0, 0, 0, 0, [];
      w := new Writer();
      coefs := new int[64 * Blocks(d)];
      encodingMap := new word32[0x1_0000];
      new;
      InitDctData(encodingMap);
      QuotientIs(0, 0, 0, den);
    }

    /** The parts that never change hands. */
    ghost predicate Ready()
      reads this, w, encodingMap
    {
      && base > 0 && den > 0 && base <= 9 * den
      && Overhead(d) <= COUNTS_PER_BLOCK * (base / den) && AllFrames(source, d)
      && coefs.Length == 64 * Blocks(d) && MapReady(encodingMap[..])
      && encodingMap as object != w.unmuxed && coefs as object != w.unmuxed && coefs as object != encodingMap
      && w.Shape() && w.bitsLeft == 16 && w.bitsValue == 0
    }

    /** Every frame so far has been coded, and the buffer still holds the last. */
    ghost predicate History()
      requires den > 0
      reads this, w, w.unmuxed
    {
      && |coded| == frameIndex
      && AllCoded(source, d, base, den, coded)
      && (frameIndex > 0 ==> coded[frameIndex - 1] == Coded(w.unmuxed[..], w.bytesUsed, blocksUsed, 1))
    }

    /** `q` sectors have been given out. */
    ghost predicate Turn(q: nat)
      requires den > 0
      reads this, w
    {
      && overflowNum == Carry(base, den, frameIndex)
      && frameBlockIndex <= w.frameBlockCount
      && q + w.frameBlockCount == Total(base, den, frameIndex) + frameBlockIndex
      && (frameIndex == 0 ==> w.frameBlockCount == 0)
      && (frameIndex > 0 ==> w.frameBlockCount == SectorsOf(base, den, frameIndex))
    }

    ghost predicate Valid(q: nat)
      reads this, w, w.unmuxed, encodingMap
    {
      Ready() && History() && Turn(q)
    }

    /** `encode_frame_str`: the frame's coefficients are thresholded, shed and
        coded. */
    method EncodeFrameStr() returns (ok: bool)
      requires Ready() && frameIndex > 0 && w.frameBlockCount == SectorsOf(base, den, frameIndex)
      modifies this`blocksUsed, w, w.unmuxed, coefs
      ensures ok <==> !Overflows(source, d, base, den, frameIndex)
      ensures ok ==>
        && Ready() && w.frameBlockCount == old(w.frameBlockCount)
        && CodedFrame(source, d, base, den, frameIndex, Coded(w.unmuxed[..], w.bytesUsed, blocksUsed, 1))
    {
      hide Overhead, SectorsOf, MapReady, FrameFits, Holds, FrameBits, Hwords, Header, FrameFinished, IsRound,
        RoundUp16;
      ghost var n, x := w.frameBlockCount, source(frameIndex);
      ShareOfFrame(d, base, den, frameIndex);
      LoadFrame();
      FinishFrame(coefs, d);
      ghost var left, m, accum, padding;
      ok, blocksUsed, left, m, accum, padding := EncodeFrame(w, encodingMap, coefs, d);
      assert IsOutcome(x, d, n, left, m, accum);
      assert Leaves(x, d, n, left);
      OnlyOneLeft(x, d, n, left);
      if ok {
        assert HoldsFrame(Coded(w.unmuxed[..], w.bytesUsed, blocksUsed, 1), d, n, left, padding);
      }
    }

    /** The block lists are filled from the transform. */
    method LoadFrame()
      requires AllFrames(source, d) && coefs.Length == 64 * Blocks(d)
      modifies coefs
      ensures coefs[..] == source(frameIndex) && IsFrame(coefs[..], d)
    {
      var x := source(frameIndex);
      assert IsFrame(x, d);
      forall k | 0 <= k < coefs.Length {
        coefs[k] := x[k];
      }
    }

    /** The body of the inner loop: the next frame gets its sectors and is
        coded for them. */
    method NextFrame(ghost q: nat) returns (ok: bool)
      requires Valid(q) && frameBlockIndex >= w.frameBlockCount
      modifies this, w, w.unmuxed, coefs
      ensures !ok ==> !Clean(source, d, base, den, q + 1)
      ensures ok ==> Valid(q) && old(coded) <= coded && frameIndex == old(frameIndex) + 1
    {
      hide Total, SectorsOf, Carry, Ahead, Overhead, MapReady, CodedFrame, Overflows, AllFrames;
      NextTotal(base, den, frameIndex);
      SectorsOfIs(base, den, frameIndex + 1);
      frameIndex := frameIndex + 1;
      overflowNum := overflowNum + base;
      w.frameBlockCount := overflowNum / den;
      overflowNum := overflowNum % den;
      frameBlockIndex := 0;
      ok := EncodeFrameStr();
      if !ok {
        return;
      }
      OneMoreCoded(source, d, base, den, coded, Coded(w.unmuxed[..], w.bytesUsed, blocksUsed, 1));
      coded := coded + [Coded(w.unmuxed[..], w.bytesUsed, blocksUsed, 1)];
    }

    /** The inner loop: on to a frame that has sectors left. */
    method AdvanceFrame(ghost q: nat) returns (ok: bool)
      requires Valid(q)
      modifies this, w, w.unmuxed, coefs
      ensures !ok ==> !Clean(source, d, base, den, q + 1)
      ensures ok ==>
        && Valid(q) && old(coded) <= coded && InFrame(base, den, q, frameIndex)
        && frameBlockIndex == q - Total(base, den, frameIndex - 1) < w.frameBlockCount
        && w.frameBlockCount == SectorsOf(base, den, frameIndex)
    {
      hide Total, SectorsOf, Carry, Ahead, Overhead, MapReady, AllCoded, Clean, AllFrames;
      while frameBlockIndex >= w.frameBlockCount
        invariant Valid(q) && old(coded) <= coded
        decreases Ahead(base, den, frameIndex, q)
      {
        StillBelow(base, den, frameIndex, q);
        ok := NextFrame(q);
        if !ok {
          return;
        }
      }
      NoneYet(base, den);
      SectorsOfIs(base, den, frameIndex);
      ok := true;
    }

    /** One sector of the outer loop. */
    method NextSector(ghost q: nat, i: nat, output: array<byte>) returns (ok: bool)
      requires Valid(q + i) && 2352 * i + 2352 <= output.Length
      requires output != w.unmuxed && output as object != encodingMap && output as object != coefs
      modifies this, w, w.unmuxed, coefs, output
      ensures !ok ==> !Clean(source, d, base, den, q + i + 1)
      ensures ok ==>
        && Valid(q + i + 1) && old(coded) <= coded
        && SectorLies(output[..], i, base, den, q, coded, d)
        && output[..2352 * i + 0x018] == old(output[..2352 * i + 0x018])
        && output[2352 * i + 0x818..] == old(output[2352 * i + 0x818..])
    {
      hide Total, SectorsOf, Carry, SectorHeader, InFrame, Overhead, MapReady, CodedFrame, Overflows, AllFrames;
      ok := AdvanceFrame(q + i);
      if !ok {
        return;
      }
      WriteSector(q + i, 2352 * i + 0x018, output);
      frameBlockIndex := frameBlockIndex + 1;
    }

    /** The header and the piece of the frame's buffer. */
    method WriteSector(ghost q: nat, at: nat, output: array<byte>)
      requires Ready() && History() && 0 < frameIndex && InFrame(base, den, q, frameIndex)
      requires frameBlockIndex == q - Total(base, den, frameIndex - 1)
      requires w.frameBlockCount == SectorsOf(base, den, frameIndex)
      requires at + 0x800 <= output.Length
      requires output != w.unmuxed && output as object != encodingMap && output as object != coefs
      modifies output
      ensures IsSector(output[at..at + 0x800], base, den, q, coded, d)
      ensures output[..at] == old(output[..at]) && output[at + 0x800..] == old(output[at + 0x800..])
    {
      hide Total, SectorsOf, SectorHeader, InFrame, Overhead, MapReady, CodedFrame, AllFrames;
      IndexFits(base, den, q, frameIndex);
      var header :=
        SectorHeader(frameBlockIndex, w.frameBlockCount, frameIndex, w.bytesUsed, blocksUsed, 1, d);
      var piece := w.unmuxed[CHUNK * frameBlockIndex..CHUNK * frameBlockIndex + CHUNK];
      ghost var s, c := output[..], coded[frameIndex - 1];
      WriteBytes(output, at, header);
      ghost var t := output[..];
      WriteBytes(output, at + 32, piece);
      TwoWrites(s, t, output[..], at, header, piece);
      assert CodedAt(source, d, base, den, coded, frameIndex);
      FrameBuffered(source, d, base, den, frameIndex, c);
      SectorHere(output[at..at + 0x800], base, den, q, frameIndex, coded, d);
    }

    /** `encode_block_str`: seven sectors, each 24 bytes into its place.  The
        program aborts just when a frame overflows. */
    method EncodeBlockStr(ghost q: nat, output: array<byte>) returns (ok: bool)
      requires Valid(q) && 2352 * 7 <= output.Length
      requires output != w.unmuxed && output as object != encodingMap && output as object != coefs
      modifies this, w, w.unmuxed, coefs, output
      ensures ok <==> Clean(source, d, base, den, q + 7)
      ensures ok ==>
        && Valid(q + 7) && old(coded) <= coded && OthersKept(old(output[..]), output[..])
        && forall i :: 0 <= i < 7 ==> SectorLies(output[..], i, base, den, q, coded, d)
    {
      hide SectorLies, OthersKept, Total, SectorsOf, Carry, Overhead, MapReady, CodedFrame, Overflows, AllFrames;
      NoneChanged(output[..]);
      for i := 0 to 7
        invariant Valid(q + i) && old(coded) <= coded && OthersKept(old(output[..]), output[..])
        invariant forall k :: 0 <= k < i ==> SectorLies(output[..], k, base, den, q, coded, d)
      {
        ghost var s, before := output[..], coded;
        ok := NextSector(q, i, output);
        if !ok {
          return;
        }
        KeptOutside(old(output[..]), s, output[..], i);
        forall k | 0 <= k < i
          ensures SectorLies(output[..], k, base, den, q, coded, d)
        {
          EarlierLies(s, output[..], i, k, base, den, q, before, coded, d);
        }
      }
      CleanUpTo(q + 7);
      ok := true;
    }

    lemma CleanUpTo(q: nat)
      requires Valid(q)
      ensures Clean(source, d, base, den, q)
    {
      hide Total, SectorsOf, Carry, Overhead, MapReady, CodedFrame, Overflows, AllFrames;
      forall f: nat | f > 0 && Total(base, den, f - 1) < q
        ensures !Overflows(source, d, base, den, f)
      {
        if f > frameIndex { TotalsGrow(base, den, frameIndex, f - 1); }
        assert CodedAt(source, d, base, den, coded, f);
        CodedDoesNot(source, d, base, den, f, coded[f - 1]);
      }
    }
  }

  /** The video sectors of `encode_file_str`, `n` output blocks of them. */
  method EncodeVideo(e: Encoder, n: nat) returns (ok: bool, stream: seq<seq<byte>>)
    requires e.Valid(0) && e.coded == []
    modifies e, e.w, e.w.unmuxed, e.coefs
    ensures ok <==> Clean(e.source, e.d, e.base, e.den, 7 * n)
    ensures ok ==> |stream| == 7 * n && e.Valid(7 * n) && IsStream(stream, e.base, e.den, e.coded, e.d)
  {
    hide IsSector, Total, SectorsOf, Overhead, MapReady, CodedFrame, Overflows, AllFrames;
    stream := [];
    var buffer := new byte[2352 * 8];
    for j := 0 to n
      invariant e.Valid(7 * j) && |stream| == 7 * j
      invariant IsStream(stream, e.base, e.den, e.coded, e.d)
    {
      ghost var before, coded := stream, e.coded;
      ok := e.EncodeBlockStr(7 * j, buffer);
      if !ok {
        return;
      }
      forall q | 0 <= q < |stream|
        ensures IsSector(stream[q], e.base, e.den, q, e.coded, e.d)
      {
        SectorStays(stream[q], e.base, e.den, q, coded, e.coded, e.d);
      }
      for i := 0 to 7
        invariant |stream| == 7 * j + i
        invariant IsStream(stream, e.base, e.den, e.coded, e.d)
      {
        assert SectorLies(buffer[..], i, e.base, e.den, 7 * j, e.coded, e.d);
        assert buffer[..][2352 * i + 0x018..2352 * i + 0x818] == buffer[2352 * i + 0x018..2352 * i + 0x818];
        stream := stream + [buffer[2352 * i + 0x018..2352 * i + 0x818]];
      }
    }
    e.CleanUpTo(7 * n);
    ok := true;
  }

  // ----- what the player gets

  /** A player that picks the sectors of a frame, joins them and reads the
      words recovers every quantised block of what shedding left of it. */
  lemma FrameRecovered(source: nat -> seq<int>, d: Size, base: nat, den: nat, coded: seq<Coded>,
                       stream: seq<seq<byte>>, f: nat)
    returns (left: seq<int>, padding: nat)
    requires base > 0 && den > 0 && base <= 9 * den
    requires AllCoded(source, d, base, den, coded) && |coded| < 0x1_0000_0000
    requires IsStream(stream, base, den, coded, d)
    requires f > 0 && Total(base, den, f - 1) < Total(base, den, f) <= |stream|
    ensures SectorsOf(base, den, f) > 0 && Leaves(source(f), d, SectorsOf(base, den, f), left) && IsFrame(left, d)
    ensures ReadBlocks(Words(Demuxed(Picked(stream, f))), Blocks(d))
         == Some((QuantisedBlocks(left, d, Blocks(d)), TRAILER + Zeros(padding)))
  {
    hide Total, SectorsOf, Words, Blocks, QuantisedBlocks, ReadBlocks, FrameBits, Zeros, Header, Hwords, Leaves,
      Picked, Demuxed, IsFrame;
    NamedByLast(stream, base, den, coded, d, f);
    SectorsOfIs(base, den, f);
    var c, n: nat := coded[f - 1], SectorsOf(base, den, f);
    assert CodedAt(source, d, base, den, coded, f);
    left, padding :| Leaves(source(f), d, n, left) && HoldsFrame(c, d, n, left, padding);
    FrameJoins(stream, base, den, coded, d, f);
    FrameDecodes(c.unmuxed, c.bytesUsed, left, d, padding);
  }

  /** A frame whose last sector is in the stream has been coded. */
  lemma NamedByLast(stream: seq<seq<byte>>, base: nat, den: nat, coded: seq<Coded>, d: Size, f: nat)
    requires den > 0 && base <= 9 * den && IsStream(stream, base, den, coded, d)
    requires f > 0 && Total(base, den, f - 1) < Total(base, den, f) <= |stream|
    ensures f <= |coded|
  {
    hide Total, VideoSector;
    var q := Total(base, den, f) - 1;
    assert IsSector(stream[q], base, den, q, coded, d);
    assert IsSectorOf(stream[q], base, den, q, f, coded, d);
  }

  // ----- parts of the proofs

  lemma OnlyOneLeft(x: seq<int>, d: Size, blocks: nat, left: seq<int>)
    requires Leaves(x, d, blocks, left)
    ensures Fitting(x, d, blocks) <==> FrameFits(left, d, blocks)
  {
    hide FrameFits, IsOutcome;
    forall other | Leaves(x, d, blocks, other)
      ensures other == left
    {
      LeavesOne(x, d, blocks, left, other);
    }
  }

  /** The blocks' share fits the sectors of a frame. */
  lemma ShareOfFrame(d: Size, base: nat, den: nat, f: nat)
    requires den > 0 && f > 0 && Overhead(d) <= COUNTS_PER_BLOCK * (base / den)
    ensures Overhead(d) <= COUNTS_PER_BLOCK * SectorsOf(base, den, f)
  {
    hide Overhead, SectorsOf;
    ShareOfEveryFrame(d, base, den);
  }

  method WriteBytes(output: array<byte>, at: nat, s: seq<byte>)
    requires at + |s| <= output.Length
    modifies output
    ensures output[at..at + |s|] == s
    ensures output[..at] == old(output[..at]) && output[at + |s|..] == old(output[at + |s|..])
  {
    for k := 0 to |s|
      invariant output[at..at + k] == s[..k]
      invariant output[..at] == old(output[..at]) && output[at + |s|..] == old(output[at + |s|..])
    {
      output[at + k] := s[k];
      assert output[at..at + k + 1] == output[at..at + k] + [s[k]];
    }
  }

  lemma TwoWrites(s: seq<byte>, t: seq<byte>, u: seq<byte>, at: nat, header: seq<byte>, piece: seq<byte>)
    requires |s| == |t| == |u| && |header| == 32 && |piece| == CHUNK && at + 32 + CHUNK <= |s|
    requires t[at..at + 32] == header && t[..at] == s[..at] && t[at + 32..] == s[at + 32..]
    requires u[at + 32..at + 32 + CHUNK] == piece && u[..at + 32] == t[..at + 32]
    requires u[at + 32 + CHUNK..] == t[at + 32 + CHUNK..]
    ensures u[at..at + 32 + CHUNK] == header + piece
    ensures u[..at] == s[..at] && u[at + 32 + CHUNK..] == s[at + 32 + CHUNK..]
  {
    assert u[at..at + 32] == u[..at + 32][at..] == t[..at + 32][at..] == t[at..at + 32];
    assert u[at..at + 32 + CHUNK] == u[at..at + 32] + u[at + 32..at + 32 + CHUNK];
    assert u[..at] == u[..at + 32][..at] == t[..at + 32][..at] == t[..at];
    assert u[at + 32 + CHUNK..] == t[at + 32..][CHUNK..] == s[at + 32..][CHUNK..] == s[at + 32 + CHUNK..];
  }

  /** Only the 2048 bytes behind the first 24 of each of seven sectors may
      differ. */
  predicate OthersKept(s: seq<byte>, t: seq<byte>) {
    |s| == |t| && forall k :: 0 <= k < |s| ==> KeptAt(s, t, k)
  }

  predicate KeptAt(s: seq<byte>, t: seq<byte>, k: nat)
    requires k < |s| == |t|
  {
    (k < 7 * 2352 && 0x018 <= k % 2352 < 0x818) || t[k] == s[k]
  }

  lemma NoneChanged(s: seq<byte>)
    ensures OthersKept(s, s)
  {}

  lemma KeptOutside(r: seq<byte>, s: seq<byte>, t: seq<byte>, i: nat)
    requires OthersKept(r, s) && i < 7 && 2352 * i + 2352 <= |s| == |t|
    requires t[..2352 * i + 0x018] == s[..2352 * i + 0x018] && t[2352 * i + 0x818..] == s[2352 * i + 0x818..]
    ensures OthersKept(r, t)
  {
    forall k | 0 <= k < |t|
      ensures KeptAt(r, t, k)
    {
      assert KeptAt(r, s, k);
      if k < 2352 * i + 0x018 {
        assert t[..2352 * i + 0x018][k] == s[..2352 * i + 0x018][k];
      } else if k >= 2352 * i + 0x818 {
        assert t[2352 * i + 0x818..][k - 2352 * i - 0x818] == s[2352 * i + 0x818..][k - 2352 * i - 0x818];
      } else {
        QuotientIs(k, i, k - 2352 * i, 2352);
      }
    }
  }

  /** A sector written behind leaves those before it alone. */
  lemma EarlierLies(s: seq<byte>, t: seq<byte>, i: nat, k: nat, base: nat, den: nat, q: nat,
                    before: seq<Coded>, coded: seq<Coded>, d: Size)
    requires den > 0 && base <= 9 * den && before <= coded
    requires k < i && 2352 * i + 2352 <= |s| == |t| && t[..2352 * i + 0x018] == s[..2352 * i + 0x018]
    requires SectorLies(s, k, base, den, q, before, d)
    ensures SectorLies(t, k, base, den, q, coded, d)
  {
    hide IsSector;
    var a, b := 2352 * k + 0x018, 2352 * k + 0x818;
    assert t[a..b] == t[..2352 * i + 0x018][a..b] == s[..2352 * i + 0x018][a..b] == s[a..b];
    SectorStays(s[a..b], base, den, q + k, before, coded, d);
  }

  /** Coding more frames does not change what a sector is. */
  lemma SectorStays(s: seq<byte>, base: nat, den: nat, q: nat, before: seq<Coded>, coded: seq<Coded>, d: Size)
    requires den > 0 && base <= 9 * den && before <= coded && IsSector(s, base, den, q, before, d)
    ensures IsSector(s, base, den, q, coded, d)
  {
    hide VideoSector, Total;
    forall f | InFrame(base, den, q, f)
      ensures IsSectorOf(s, base, den, q, f, coded, d)
    {
      assert IsSectorOf(s, base, den, q, f, before, d);
    }
  }

  /** The sector that a frame gives when it has one left. */
  lemma SectorHere(s: seq<byte>, base: nat, den: nat, q: nat, f: nat, coded: seq<Coded>, d: Size)
    requires den > 0 && base <= 9 * den && InFrame(base, den, q, f) && IsSectorOf(s, base, den, q, f, coded, d)
    ensures IsSector(s, base, den, q, coded, d)
  {
    hide VideoSector, InFrame;
    forall g | InFrame(base, den, q, g)
      ensures IsSectorOf(s, base, den, q, g, coded, d)
    {
      OneFrame(base, den, q, f, g);
    }
  }

  lemma FrameBuffered(source: nat -> seq<int>, d: Size, base: nat, den: nat, f: nat, c: Coded)
    requires den > 0 && f > 0 && CodedFrame(source, d, base, den, f, c)
    ensures WholeBuffer(c)
  {}
}
