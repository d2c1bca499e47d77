/** A whole SPU-ADPCM stream: 16 bytes for every 28 samples, the predictor
    running on from block to block. */
module SpuStream {
  import opened Bits
  import opened Adpcm
  import opened AdpcmSearch
  import opened AdpcmEncoder

  const SPU_FILTER_COUNT := 5

  function Blocks(count: int): nat {
    if count <= 0 then 0 else (count + 27) / 28
  }

  /** `psx_audio_spu_get_buffer_size` */
  function BufferSize(count: nat): nat {
    (count + 27) / 28 * 16
  }

  /** Every block's 28 samples can be read, whatever the count. */
  predicate ReadableStream(samples: seq<int16>, count: int) {
    28 * Blocks(count) <= |samples|
  }

  // ----- what a decoder reads

  function BlockNibbles(bytes: seq<byte>, b: nat): (ns: seq<nat>)
    requires 16 * b + 16 <= |bytes|
    ensures |ns| == SAMPLES_PER_UNIT && forall k :: 0 <= k < |ns| ==> ns[k] < 16
  {
    seq(28, j requires 0 <= j < 28 => GetNibble(bytes[16 * b + 2 + j / 2], if j % 2 == 0 then 0 else 4))
  }

  /** The first `n` blocks, decoded from predictor state `p`. */
  function Decode(p: Predictor, bytes: seq<byte>, n: nat): (ys: seq<int16>)
    requires 16 * n <= |bytes|
    ensures |ys| == 28 * n
  {
    if n == 0 then []
    else
      var ys := Decode(p, bytes, n - 1);
      var h := bytes[16 * (n - 1)];
      ys + DecodeRun(PushAll(p, ys), h / 16, h % 16, BlockNibbles(bytes, n - 1))
  }

  // ----- what the encoder promises

  function RawBlock(samples: seq<int16>, b: nat): seq<int16>
    requires 28 * b + 28 <= |samples|
  {
    Raws(samples, 28 * b, 1)
  }

  function PaddedBlock(samples: seq<int16>, count: int, b: nat): (xs: seq<int16>)
    requires 28 * b + 28 <= |samples|
    ensures |xs| == SAMPLES_PER_UNIT
  {
    Padded(samples, 28 * b, 1, count - 28 * b)
  }

  /** The tracked channel state after `n` blocks with the headers in `bytes`. */
  function ChannelAfter(c: Channel, samples: seq<int16>, count: int, bytes: seq<byte>, n: nat): Channel
    requires 16 * n <= |bytes| && 28 * n <= |samples|
  {
    if n == 0 then c
    else
      var h := bytes[16 * (n - 1)];
      Attempt(ChannelAfter(c, samples, count, bytes, n - 1), h / 16, h % 16, PaddedBlock(samples, count, n - 1))
  }

  ghost predicate BlockHolds(c: Channel, samples: seq<int16>, count: int, bytes: seq<byte>, b: nat)
    requires 16 * b + 16 <= |bytes| && 28 * b + 28 <= |samples|
  {
    var h := bytes[16 * b];
    var now := ChannelAfter(c, samples, count, bytes, b);
    && IsBest(now, RawBlock(samples, b), PaddedBlock(samples, count, b), SPU_FILTER_COUNT, h / 16, h % 16)
    && bytes[16 * b + 1] == 0
    && BlockNibbles(bytes, b) == AttemptNibbles(now, h / 16, h % 16, PaddedBlock(samples, count, b))
  }

  /** The first `n` blocks are the encoder's best choices, one after another. */
  ghost predicate IsStream(c: Channel, samples: seq<int16>, count: int, bytes: seq<byte>, n: nat)
    requires 16 * n <= |bytes| && 28 * n <= |samples|
  {
    forall b :: 0 <= b < n ==> BlockHolds(c, samples, count, bytes, b)
  }

  /** A stream together with the channel state that its encoder is left with. */
  ghost predicate StreamWith(c: Channel, samples: seq<int16>, count: int, bytes: seq<byte>, n: nat, now: Channel)
    requires 16 * n <= |bytes| && 28 * n <= |samples|
  {
    IsStream(c, samples, count, bytes, n) && now == ChannelAfter(c, samples, count, bytes, n)
  }

  lemma {:induction false} ChannelAfterSame(c: Channel, samples: seq<int16>, count: int, s: seq<byte>, t: seq<byte>,
                                            n: nat)
    requires 16 * n <= |s| && 16 * n <= |t| && 28 * n <= |samples|
    requires s[..16 * n] == t[..16 * n]
    ensures ChannelAfter(c, samples, count, s, n) == ChannelAfter(c, samples, count, t, n)
  {
    if n > 0 {
      var m := 16 * n;
      assert s[..m][..m - 16] == s[..m - 16] && t[..m][..m - 16] == t[..m - 16];
      assert s[m - 16] == s[..m][m - 16] && t[m - 16] == t[..m][m - 16];
      hide Attempt;
      ChannelAfterSame(c, samples, count, s, t, n - 1);
    }
  }

  lemma BlockHoldsSame(c: Channel, samples: seq<int16>, count: int, s: seq<byte>, t: seq<byte>, b: nat)
    requires 16 * b + 16 <= |s| && 16 * b + 16 <= |t| && 28 * b + 28 <= |samples|
    requires s[..16 * b + 16] == t[..16 * b + 16]
    ensures BlockHolds(c, samples, count, s, b) == BlockHolds(c, samples, count, t, b)
  {
    var m := 16 * b + 16;
    assert forall k :: 0 <= k < m ==> s[k] == s[..m][k] && t[k] == t[..m][k];
    assert s[..16 * b] == s[..m][..16 * b] && t[..16 * b] == t[..m][..16 * b];
    ChannelAfterSame(c, samples, count, s, t, b);
    assert BlockNibbles(s, b) == BlockNibbles(t, b);
    hide IsBest, Attempt, AttemptNibbles, ChannelAfter;
  }

  lemma StreamSame(c: Channel, samples: seq<int16>, count: int, s: seq<byte>, t: seq<byte>, n: nat)
    requires 16 * n <= |s| && 16 * n <= |t| && 28 * n <= |samples|
    requires s[..16 * n] == t[..16 * n]
    ensures IsStream(c, samples, count, s, n) == IsStream(c, samples, count, t, n)
    ensures ChannelAfter(c, samples, count, s, n) == ChannelAfter(c, samples, count, t, n)
  {
    ChannelAfterSame(c, samples, count, s, t, n);
    forall b | 0 <= b < n
      ensures BlockHolds(c, samples, count, s, b) == BlockHolds(c, samples, count, t, b)
    {
      var m := 16 * b + 16;
      assert s[..m] == s[..16 * n][..m] && t[..m] == t[..16 * n][..m];
      BlockHoldsSame(c, samples, count, s, t, b);
    }
    hide BlockHolds, ChannelAfter;
  }

  // ----- the stream decodes to what the encoder tracked

  lemma InRangeKept(c: Channel, samples: seq<int16>, count: int, bytes: seq<byte>, n: nat)
    requires 16 * n <= |bytes| && 28 * n <= |samples|
    ensures ChannelAfter(c, samples, count, bytes, n).qerr == c.qerr
  {
    if n > 0 { InRangeKept(c, samples, count, bytes, n - 1); }
  }

  /** Decoding the bytes alone, from the same start, reaches the predictor
      state that the encoder ends in. */
  lemma {:induction false} DecodeTracks(c: Channel, samples: seq<int16>, count: int, bytes: seq<byte>, n: nat)
    requires 16 * n <= |bytes| && 28 * n <= |samples|
    requires IsStream(c, samples, count, bytes, n)
    ensures PushAll(c.pred, Decode(c.pred, bytes, n)) == ChannelAfter(c, samples, count, bytes, n).pred
  {
    hide DecodeRun, Attempt, BlockHolds, BlockNibbles;
    if n > 0 {
      DecodeTracks(c, samples, count, bytes, n - 1);
      BlockDecodes(c, samples, count, bytes, n - 1);
      var ys := Decode(c.pred, bytes, n - 1);
      var h := bytes[16 * (n - 1)];
      PushAllConcat(c.pred, ys, DecodeRun(PushAll(c.pred, ys), h / 16, h % 16, BlockNibbles(bytes, n - 1)));
    }
  }

  /** The encoder is left with the last two samples that a player hears. */
  lemma EndsAsHeard(c: Channel, samples: seq<int16>, count: int, bytes: seq<byte>, n: nat, now: Channel)
    requires n > 0 && 16 * n <= |bytes| && 28 * n <= |samples|
    requires StreamWith(c, samples, count, bytes, n, now)
    ensures var ys := Decode(c.pred, bytes, n);
      now.pred == Predictor(ys[28 * n - 1], ys[28 * n - 2])
  {
    DecodeTracks(c, samples, count, bytes, n);
    LastTwo(c.pred, Decode(c.pred, bytes, n));
    hide Decode, PushAll, IsStream, ChannelAfter;
  }

  /** One block: its samples, decoded from the state before it, lead to the
      state after it, and their squared distance from the coded samples is the
      error that the encoder reports. */
  lemma BlockDecodes(c: Channel, samples: seq<int16>, count: int, bytes: seq<byte>, b: nat)
    requires 16 * b + 16 <= |bytes| && 28 * b + 28 <= |samples|
    requires BlockHolds(c, samples, count, bytes, b)
    ensures var h := bytes[16 * b];
      var now := ChannelAfter(c, samples, count, bytes, b);
      var next := ChannelAfter(c, samples, count, bytes, b + 1);
      var ys := DecodeRun(now.pred, h / 16, h % 16, BlockNibbles(bytes, b));
      && PushAll(now.pred, ys) == next.pred
      && SquaredDistance(ys, Inputs(now, PaddedBlock(samples, count, b))) == next.mse
  {
    var h := bytes[16 * b];
    var now := ChannelAfter(c, samples, count, bytes, b);
    ClosedLoop(now.pred, h / 16, h % 16, Inputs(now, PaddedBlock(samples, count, b)));
  }

  /** From end to end: with no error carried over, the samples decoded from
      each block stay within the promised distance of the zero-padded input,
      where 2^r - 1 = d and r is the least right shift that brings the block's
      raw samples into signed nibbles. */
  lemma DecodedClose(c: Channel, samples: seq<int16>, count: int, bytes: seq<byte>, n: nat, b: nat, d: nat)
    requires 16 * n <= |bytes| && 28 * n <= |samples| && b < n
    requires IsStream(c, samples, count, bytes, n) && c.qerr == 0
    requires d + 1 == Pow2(RightShift(c.pred, 0, RawBlock(samples, b)))
    ensures SquaredDistance(Decode(c.pred, bytes, n)[28 * b..28 * b + 28], PaddedBlock(samples, count, b))
      <= 28 * (d * d)
  {
    hide Decode, ChannelAfter, DecodeRun, RightShift, SquaredDistance, PushAll, Attempt, IsBest;
    DecodedBlock(c, samples, count, bytes, n, b);
    BlockDecodes(c, samples, count, bytes, b);
    BlockClose(c, samples, count, bytes, b, d);
  }

  /** The decoded samples of block `b`, from the state tracked before it. */
  lemma DecodedBlock(c: Channel, samples: seq<int16>, count: int, bytes: seq<byte>, n: nat, b: nat)
    requires 16 * n <= |bytes| && 28 * n <= |samples| && b < n
    requires IsStream(c, samples, count, bytes, n)
    ensures var h := bytes[16 * b];
      Decode(c.pred, bytes, n)[28 * b..28 * b + 28]
      == DecodeRun(ChannelAfter(c, samples, count, bytes, b).pred, h / 16, h % 16, BlockNibbles(bytes, b))
  {
    hide DecodeRun, ChannelAfter, PushAll, BlockHolds, BlockNibbles;
    DecodePrefix(c.pred, bytes, b + 1, n);
    PrefixStream(c, samples, count, bytes, b, n);
    DecodeTracks(c, samples, count, bytes, b);
    var ys, zs := Decode(c.pred, bytes, b + 1), Decode(c.pred, bytes, n);
    assert zs[28 * b..28 * b + 28] == zs[..28 * (b + 1)][28 * b..] == ys[28 * b..];
  }

  lemma BlockClose(c: Channel, samples: seq<int16>, count: int, bytes: seq<byte>, b: nat, d: nat)
    requires 16 * b + 16 <= |bytes| && 28 * b + 28 <= |samples| && c.qerr == 0
    requires BlockHolds(c, samples, count, bytes, b)
    requires d + 1 == Pow2(RightShift(c.pred, 0, RawBlock(samples, b)))
    ensures ChannelAfter(c, samples, count, bytes, b + 1).mse <= 28 * (d * d)
    ensures Inputs(ChannelAfter(c, samples, count, bytes, b), PaddedBlock(samples, count, b))
      == PaddedBlock(samples, count, b)
  {
    var h := bytes[16 * b];
    var now := ChannelAfter(c, samples, count, bytes, b);
    var xs := PaddedBlock(samples, count, b);
    var raws := RawBlock(samples, b);
    InRangeKept(c, samples, count, bytes, b);
    assert ChannelAfter(c, samples, count, bytes, b + 1) == Attempt(now, h / 16, h % 16, xs);
    ResidualsOfPlain(c.pred, raws);
    ResidualsOfPlain(now.pred, raws);
    BestIsGood(now, raws, xs, SPU_FILTER_COUNT, h / 16, h % 16, d);
  }

  lemma PrefixStream(c: Channel, samples: seq<int16>, count: int, bytes: seq<byte>, m: nat, n: nat)
    requires 16 * n <= |bytes| && 28 * n <= |samples| && m <= n
    requires IsStream(c, samples, count, bytes, n)
    ensures IsStream(c, samples, count, bytes, m)
  {}

  lemma {:induction false} DecodePrefix(p: Predictor, bytes: seq<byte>, m: nat, n: nat)
    requires 16 * n <= |bytes| && m <= n
    ensures Decode(p, bytes, n)[..28 * m] == Decode(p, bytes, m)
  {
    if m < n {
      DecodePrefix(p, bytes, m, n - 1);
      assert Decode(p, bytes, n)[..28 * (n - 1)] == Decode(p, bytes, n - 1);
      assert Decode(p, bytes, n)[..28 * m] == Decode(p, bytes, n - 1)[..28 * m];
    }
  }

  // ----- the encoder

  method SpuEncode(state: ChannelState, samples: array<int16>, count: int, output: array<byte>) returns (length: nat)
    requires InRange(state.Value()) && ReadableStream(samples[..], count)
    requires output.Length >= 16 * Blocks(count)
    modifies state, output
    ensures length == 16 * Blocks(count)
    ensures output[length..] == old(output[length..])
    ensures StreamWith(old(state.Value()), samples[..], count, output[..], Blocks(count), state.Value())
  {
    ghost var c, n := state.Value(), Blocks(count);
    BlockCount(count);
    StreamAtStart(c, samples[..], count, output[..]);
    hide StreamWith, Blocks;
    var prebuf := new byte[28];
    var i, buffer := 0, 0;
    ghost var b: nat := 0;
    while i < count
      invariant i == 28 * b && buffer == 16 * b
      invariant b <= n && (i < count <==> b < n)
      invariant output[16 * n..] == old(output[16 * n..])
      invariant state.Value().qerr == c.qerr
      invariant StreamWith(c, samples[..], count, output[..], b, state.Value())
    {
      EncodeNext(state, samples, i, count, prebuf, output, buffer, c, b, n);
      i, buffer, b := i + 28, buffer + 16, b + 1;
    }
    length := buffer;
  }

  /** The loop body: the stream grows by block `b`. */
  method EncodeNext(state: ChannelState, samples: array<int16>, i: nat, count: int,
                    prebuf: array<byte>, output: array<byte>, buffer: nat, ghost c: Channel, ghost b: nat, ghost n: nat)
    requires InRange(state.Value()) && prebuf.Length == 28 && prebuf != output
    requires i == 28 * b && buffer == 16 * b && b < n && 16 * n <= output.Length && 28 * n <= samples.Length
    requires StreamWith(c, samples[..], count, output[..], b, state.Value())
    modifies state, prebuf, output
    ensures output[16 * n..] == old(output[16 * n..])
    ensures state.Value().qerr == old(state.Value().qerr)
    ensures StreamWith(c, samples[..], count, output[..], b + 1, state.Value())
  {
    hide BlockHolds, ChannelAfter, IsStream, BlockCoded, Attempt;
    ghost var now, before := state.Value(), output[..];
    EncodeBlock(state, samples, b, i, count - i, prebuf, output, buffer);
    UntouchedAround(before, output[..], buffer, 16 * n);
    StreamSame(c, samples[..], count, before, output[..], b);
    StreamStep(c, samples[..], count, output[..], b, now);
  }

  lemma BlockCount(count: int)
    ensures forall b: nat {:trigger 28 * b} :: 28 * b < count <==> b < Blocks(count)
  {}

  lemma UntouchedAround(s: seq<byte>, t: seq<byte>, at: nat, stop: nat)
    requires |s| == |t| && at + 16 <= stop <= |s|
    requires forall k :: 0 <= k < |s| && !(at <= k < at + 16) ==> t[k] == s[k]
    ensures s[..at] == t[..at] && s[stop..] == t[stop..]
  {}

  lemma StreamAtStart(c: Channel, samples: seq<int16>, count: int, bytes: seq<byte>)
    ensures StreamWith(c, samples, count, bytes, 0, c)
  {}

  lemma StreamStep(c: Channel, samples: seq<int16>, count: int, bytes: seq<byte>, b: nat, now: Channel)
    requires 16 * b + 16 <= |bytes| && 28 * b + 28 <= |samples|
    requires IsStream(c, samples, count, bytes, b) && now == ChannelAfter(c, samples, count, bytes, b)
    requires BlockCoded(now, samples, 28 * b, count - 28 * b, bytes, b)
    ensures IsStream(c, samples, count, bytes, b + 1)
    ensures var h := bytes[16 * b];
      ChannelAfter(c, samples, count, bytes, b + 1)
        == Attempt(now, h / 16, h % 16, Padded(samples, 28 * b, 1, count - 28 * b))
  {
    hide IsBest, Attempt, AttemptNibbles;
  }

  /** Block `b` of the bytes is the best coding of the 28 samples at `at`. */
  ghost predicate BlockCoded(now: Channel, samples: seq<int16>, at: nat, limit: int, bytes: seq<byte>, b: nat)
    requires 16 * b + 16 <= |bytes| && at + 28 <= |samples|
  {
    var h := bytes[16 * b];
    var raws, xs := Raws(samples, at, 1), Padded(samples, at, 1, limit);
    && IsBest(now, raws, xs, SPU_FILTER_COUNT, h / 16, h % 16)
    && bytes[16 * b + 1] == 0
    && BlockNibbles(bytes, b) == AttemptNibbles(now, h / 16, h % 16, xs)
  }

  lemma AttemptKeepsQerr()
    ensures forall c, f, s, xs :: Attempt(c, f, s, xs).qerr == c.qerr
  {}

  function PackNibbles(low: byte, high: byte): (r: byte)
    ensures GetNibble(r, 0) == low % 16 && GetNibble(r, 4) == high % 16
  {
    low % 16 + 16 * (high % 16)
  }

  /** One block: a header, a zero flag byte and 14 bytes packed from the
      working buffer, whatever that held before. */
  method EncodeBlock(state: ChannelState, samples: array<int16>, ghost b: nat, at: nat, limit: int,
                     prebuf: array<byte>, output: array<byte>, buffer: nat)
    requires InRange(state.Value()) && at + 28 <= samples.Length
    requires prebuf.Length == 28 && prebuf != output && buffer == 16 * b && buffer + 16 <= output.Length
    modifies state, prebuf, output
    ensures forall k :: 0 <= k < output.Length && !(buffer <= k < buffer + 16) ==> output[k] == old(output[k])
    ensures BlockCoded(old(state.Value()), samples[..], at, limit, output[..], b)
    ensures state.Value().qerr == old(state.Value()).qerr
    ensures var h := output[buffer];
      state.Value() == Attempt(old(state.Value()), h / 16, h % 16, Padded(samples[..], at, 1, limit))
  {
    AttemptKeepsQerr();
    hide IsBest, Attempt, AttemptNibbles, OnlyLane, Searched;
    var h := EncodeNibbles(state, samples, at, limit, 1, prebuf, 0, 0, 1, SPU_FILTER_COUNT);
    ghost var ns := Lane(prebuf[..], 0, 0, 1);
    output[buffer] := h;
    output[buffer + 1] := 0;
    PackBlock(prebuf, output, buffer + 2);
    assert forall j :: 0 <= j < 28 ==> ns[j] == GetNibble(prebuf[j], 0);
    assert BlockNibbles(output[..], b) == ns;
  }

  method PackBlock(prebuf: array<byte>, output: array<byte>, at: nat)
    requires prebuf.Length == 28 && prebuf != output && at + 14 <= output.Length
    modifies output
    ensures forall k :: 0 <= k < output.Length && !(at <= k < at + 14) ==> output[k] == old(output[k])
    ensures forall j {:trigger prebuf[j]} :: 0 <= j < 28 ==>
      GetNibble(output[at + j / 2], if j % 2 == 0 then 0 else 4) == GetNibble(prebuf[j], 0)
  {
    for j := 0 to 14
      invariant forall k :: 0 <= k < output.Length && !(at <= k < at + 14) ==> output[k] == old(output[k])
      invariant forall k :: 0 <= k < j ==> output[at + k] == PackNibbles(prebuf[2 * k], prebuf[2 * k + 1])
    {
      output[at + j] := PackNibbles(prebuf[2 * j], prebuf[2 * j + 1]);
    }
    forall j | 0 <= j < 28
      ensures GetNibble(output[at + j / 2], if j % 2 == 0 then 0 else 4) == GetNibble(prebuf[j], 0)
    {
      assert output[at + j / 2] == PackNibbles(prebuf[2 * (j / 2)], prebuf[2 * (j / 2) + 1]);
    }
  }
}
