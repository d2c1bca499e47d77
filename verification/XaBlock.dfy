/** One 128-byte XA-ADPCM block: eight units of 28 samples whose nibbles share
    bytes, coded for two predictor states in turn. */
module XaBlock {
  import opened Bits
  import opened Adpcm
  import opened AdpcmSearch
  import opened AdpcmEncoder

  const XA_FILTER_COUNT := 4
  const BLOCK_SIZE := 0x80

  datatype Pair = Pair(left: Channel, right: Channel)

  function Side(cs: Pair, u: nat): Channel {
    if u % 2 == 0 then cs.left else cs.right
  }

  function WithSide(cs: Pair, u: nat, c: Channel): Pair {
    if u % 2 == 0 then Pair(c, cs.right) else Pair(cs.left, c)
  }

  // ----- where unit u lives

  function HeaderAt(u: nat): nat {
    if u < 4 then u else u + 4
  }

  function LaneAt(u: nat): nat {
    0x10 + u / 2
  }

  function LaneShift(u: nat): nat {
    if u % 2 == 0 then 0 else 4
  }

  /** Offset of the unit's first sample and distance between its samples. */
  function SampleAt(stereo: bool, u: nat): nat {
    if stereo then 56 * (u / 2) + u % 2 else 28 * u
  }

  function Pitch(stereo: bool): (p: nat)
    ensures p == 1 || p == 2
  {
    if stereo then 2 else 1
  }

  function UnitNibbles(blk: seq<byte>, u: nat): (ns: seq<nat>)
    requires |blk| == BLOCK_SIZE && u < 8
    ensures |ns| == SAMPLES_PER_UNIT && forall k :: 0 <= k < |ns| ==> ns[k] < 16
  {
    Lane(blk, LaneAt(u), LaneShift(u), 4)
  }

  function UnitHeader(blk: seq<byte>, u: nat): byte
    requires |blk| == BLOCK_SIZE && u < 8
  {
    blk[HeaderAt(u)]
  }

  // ----- what the encoder puts there

  function UnitRaws(samples: seq<int16>, at: nat, stereo: bool, u: nat): seq<int16>
    requires at + 224 <= |samples| && u < 8
  {
    Raws(samples, at + SampleAt(stereo, u), Pitch(stereo))
  }

  function UnitInputs(samples: seq<int16>, at: nat, limit: int, stereo: bool, u: nat): seq<int16>
    requires at + 224 <= |samples| && u < 8
  {
    Padded(samples, at + SampleAt(stereo, u), Pitch(stereo), limit - SampleAt(stereo, u))
  }

  /** The two channel states after the first `n` units, whose headers are in
      the block. */
  function UnitsAfter(cs: Pair, samples: seq<int16>, at: nat, limit: int, stereo: bool, blk: seq<byte>, n: nat): Pair
    requires at + 224 <= |samples| && |blk| == BLOCK_SIZE && n <= 8
  {
    if n == 0 then cs
    else
      var before := UnitsAfter(cs, samples, at, limit, stereo, blk, n - 1);
      var h := UnitHeader(blk, n - 1);
      WithSide(before, n - 1, Attempt(Side(before, n - 1), h / 16, h % 16,
                                      UnitInputs(samples, at, limit, stereo, n - 1)))
  }

  /** Unit `u` is the best coding of its samples from the state before it. */
  ghost predicate UnitHolds(cs: Pair, samples: seq<int16>, at: nat, limit: int, stereo: bool, blk: seq<byte>, u: nat)
    requires at + 224 <= |samples| && |blk| == BLOCK_SIZE && u < 8
  {
    var h := UnitHeader(blk, u);
    var now := Side(UnitsAfter(cs, samples, at, limit, stereo, blk, u), u);
    var xs := UnitInputs(samples, at, limit, stereo, u);
    && IsBest(now, UnitRaws(samples, at, stereo, u), xs, XA_FILTER_COUNT, h / 16, h % 16)
    && UnitNibbles(blk, u) == AttemptNibbles(now, h / 16, h % 16, xs)
  }

  ghost predicate UnitsHold(cs: Pair, samples: seq<int16>, at: nat, limit: int, stereo: bool, blk: seq<byte>, n: nat)
    requires at + 224 <= |samples| && |blk| == BLOCK_SIZE && n <= 8
  {
    forall u :: 0 <= u < n ==> UnitHolds(cs, samples, at, limit, stereo, blk, u)
  }

  /** The headers are stored twice. */
  predicate HeadersCopied(blk: seq<byte>)
    requires |blk| == BLOCK_SIZE
  {
    blk[4..8] == blk[0..4] && blk[12..16] == blk[8..12]
  }

  ghost predicate BlockHolds(cs: Pair, samples: seq<int16>, at: nat, limit: int, stereo: bool, blk: seq<byte>)
    requires at + 224 <= |samples| && |blk| == BLOCK_SIZE
  {
    UnitsHold(cs, samples, at, limit, stereo, blk, 8) && HeadersCopied(blk)
  }

  // ----- units do not disturb one another

  /** What the first `n` units own: their headers and their nibbles. */
  predicate SameUnits(s: seq<byte>, t: seq<byte>, n: nat) {
    && |s| == |t| == BLOCK_SIZE && n <= 8
    && forall u :: 0 <= u < n ==> UnitHeader(s, u) == UnitHeader(t, u) && UnitNibbles(s, u) == UnitNibbles(t, u)
  }

  lemma {:induction false} UnitsAfterSame(cs: Pair, samples: seq<int16>, at: nat, limit: int, stereo: bool,
                                          s: seq<byte>, t: seq<byte>, n: nat)
    requires at + 224 <= |samples| && SameUnits(s, t, n)
    ensures UnitsAfter(cs, samples, at, limit, stereo, s, n) == UnitsAfter(cs, samples, at, limit, stereo, t, n)
  {
    hide Attempt, UnitInputs, UnitNibbles;
    if n > 0 {
      UnitsAfterSame(cs, samples, at, limit, stereo, s, t, n - 1);
      assert UnitHeader(s, n - 1) == UnitHeader(t, n - 1);
    }
  }

  lemma UnitsHoldSame(cs: Pair, samples: seq<int16>, at: nat, limit: int, stereo: bool,
                      s: seq<byte>, t: seq<byte>, n: nat)
    requires at + 224 <= |samples| && SameUnits(s, t, n)
    requires UnitsHold(cs, samples, at, limit, stereo, s, n)
    ensures UnitsHold(cs, samples, at, limit, stereo, t, n)
  {
    forall u | 0 <= u < n
      ensures UnitHolds(cs, samples, at, limit, stereo, t, u)
    {
      assert UnitHolds(cs, samples, at, limit, stereo, s, u);
      UnitsAfterSame(cs, samples, at, limit, stereo, s, t, u);
      hide Attempt, UnitsAfter, IsBest, AttemptNibbles, UnitRaws, UnitInputs;
      assert UnitHeader(s, u) == UnitHeader(t, u) && UnitNibbles(s, u) == UnitNibbles(t, u);
    }
  }

  /** Writing the lane of one unit and then its header leaves every other
      unit's header and nibbles alone. */
  lemma UnitsDisjoint(s: seq<byte>, t: seq<byte>, u: nat, h: byte, v: nat)
    requires |s| == |t| == BLOCK_SIZE && u < 8 && v < 8 && u != v
    requires OnlyLane(s, t, LaneAt(u), LaneShift(u), 4)
    ensures UnitHeader(t[HeaderAt(u) := h], v) == UnitHeader(s, v)
    ensures UnitNibbles(t[HeaderAt(u) := h], v) == UnitNibbles(s, v)
  {
    var r := t[HeaderAt(u) := h];
    forall k | 0 <= k < 28
      ensures UnitNibbles(r, v)[k] == UnitNibbles(s, v)[k]
    {
      var p := LaneAt(v) + 4 * k;
      LaneClash(u, v, k);
    }
  }

  /** A byte of unit v's lane is on unit u's lane only when the two units are
      the halves of one pair, and then v's nibble is the other one. */
  lemma LaneClash(u: nat, v: nat, k: nat)
    requires u < 8 && v < 8 && u != v && k < 28
    ensures OnLane(LaneAt(v) + 4 * k, LaneAt(u), 4) ==> u / 2 == v / 2 && LaneShift(v) == 4 - LaneShift(u)
  {}

  lemma OwnUnit(t: seq<byte>, u: nat, h: byte)
    requires |t| == BLOCK_SIZE && u < 8
    ensures UnitHeader(t[HeaderAt(u) := h], u) == h
    ensures UnitNibbles(t[HeaderAt(u) := h], u) == UnitNibbles(t, u)
  {}

  // ----- the encoder

  function Slice(s: seq<byte>, d: nat): (blk: seq<byte>)
    requires d + BLOCK_SIZE <= |s|
    ensures |blk| == BLOCK_SIZE
  {
    s[d..d + BLOCK_SIZE]
  }

  predicate SameOutside(s: seq<byte>, t: seq<byte>, d: nat, n: nat) {
    |s| == |t| && d + n <= |s| && s[..d] == t[..d] && s[d + n..] == t[d + n..]
  }

  lemma LaneInSlice(s: seq<byte>, t: seq<byte>, d: nat, u: nat)
    requires d + BLOCK_SIZE <= |s| && u < 8
    requires OnlyLane(s, t, d + LaneAt(u), LaneShift(u), 4)
    ensures SameOutside(s, t, d, BLOCK_SIZE)
    ensures OnlyLane(Slice(s, d), Slice(t, d), LaneAt(u), LaneShift(u), 4)
    ensures Lane(t, d + LaneAt(u), LaneShift(u), 4) == UnitNibbles(Slice(t, d), u)
  {
    var p, q := Slice(s, d), Slice(t, d);
    forall k | 0 <= k < BLOCK_SIZE
      ensures OnLane(k, LaneAt(u), 4) == OnLane(d + k, d + LaneAt(u), 4)
      ensures p[k] == s[d + k] && q[k] == t[d + k]
    {
      assert (d + k) - (d + LaneAt(u)) == k - LaneAt(u);
    }
    forall k | 0 <= k < BLOCK_SIZE
      ensures if OnLane(k, LaneAt(u), 4) then GetNibble(q[k], 4 - LaneShift(u)) == GetNibble(p[k], 4 - LaneShift(u))
              else q[k] == p[k]
    {
      assert OnLane(k, LaneAt(u), 4) == OnLane(d + k, d + LaneAt(u), 4);
    }
  }

  lemma UnitStep(cs: Pair, samples: seq<int16>, at: nat, limit: int, stereo: bool,
                 s: seq<byte>, t: seq<byte>, u: nat, h: byte, now: Channel)
    requires at + 224 <= |samples| && |s| == |t| == BLOCK_SIZE && u < 8
    requires UnitsHold(cs, samples, at, limit, stereo, s, u)
    requires now == Side(UnitsAfter(cs, samples, at, limit, stereo, s, u), u)
    requires OnlyLane(s, t, LaneAt(u), LaneShift(u), 4)
    requires var xs := UnitInputs(samples, at, limit, stereo, u);
      && IsBest(now, UnitRaws(samples, at, stereo, u), xs, XA_FILTER_COUNT, h / 16, h % 16)
      && UnitNibbles(t, u) == AttemptNibbles(now, h / 16, h % 16, xs)
    ensures var r := t[HeaderAt(u) := h];
      && UnitsHold(cs, samples, at, limit, stereo, r, u + 1)
      && UnitsAfter(cs, samples, at, limit, stereo, r, u + 1)
         == WithSide(UnitsAfter(cs, samples, at, limit, stereo, s, u), u,
                     Attempt(now, h / 16, h % 16, UnitInputs(samples, at, limit, stereo, u)))
  {
    hide UnitNibbles, IsBest, Attempt, AttemptNibbles, UnitRaws, UnitInputs, OnlyLane;
    var r := t[HeaderAt(u) := h];
    forall v | 0 <= v < u
      ensures UnitHeader(s, v) == UnitHeader(r, v) && UnitNibbles(s, v) == UnitNibbles(r, v)
    {
      UnitsDisjoint(s, t, u, h, v);
    }
    assert SameUnits(s, r, u);
    UnitsHoldSame(cs, samples, at, limit, stereo, s, r, u);
    UnitsAfterSame(cs, samples, at, limit, stereo, s, r, u);
    OwnUnit(t, u, h);
    assert UnitHolds(cs, samples, at, limit, stereo, r, u);
  }

  lemma HeaderWritten(s: seq<byte>, t: seq<byte>, d: nat, at: nat, h: byte)
    requires SameOutside(s, t, d, BLOCK_SIZE) && at < BLOCK_SIZE
    ensures Slice(t[d + at := h], d) == Slice(t, d)[at := h]
    ensures SameOutside(s, t[d + at := h], d, BLOCK_SIZE)
  {}

  method EncodeUnit(left: ChannelState, right: ChannelState, samples: array<int16>, at: nat, limit: int, stereo: bool,
                    data: array<byte>, d: nat, u: nat, ghost cs: Pair)
    requires left != right && u < 8 && at + 224 <= samples.Length && d + BLOCK_SIZE <= data.Length
    requires InRange(left.Value()) && InRange(right.Value())
    requires UnitsHold(cs, samples[..], at, limit, stereo, Slice(data[..], d), u)
    requires Pair(left.Value(), right.Value()) == UnitsAfter(cs, samples[..], at, limit, stereo, Slice(data[..], d), u)
    modifies left, right, data
    ensures left.qerr == old(left.qerr) && right.qerr == old(right.qerr)
    ensures SameOutside(old(data[..]), data[..], d, BLOCK_SIZE)
    ensures UnitsHold(cs, samples[..], at, limit, stereo, Slice(data[..], d), u + 1)
    ensures Pair(left.Value(), right.Value())
      == UnitsAfter(cs, samples[..], at, limit, stereo, Slice(data[..], d), u + 1)
  {
    hide UnitsHold, UnitsAfter, UnitNibbles, IsBest, AttemptNibbles, OnlyLane, Raws, Padded, SameOutside, Slice;
    var state := if u % 2 == 0 then left else right;
    ghost var s, now := data[..], state.Value();
    var h := EncodeNibbles(state, samples, at + SampleAt(stereo, u), limit - SampleAt(stereo, u), Pitch(stereo),
                           data, d + LaneAt(u), LaneShift(u), 4, XA_FILTER_COUNT);
    ghost var t := data[..];
    LaneInSlice(s, t, d, u);
    UnitStep(cs, samples[..], at, limit, stereo, Slice(s, d), Slice(t, d), u, h, now);
    data[d + HeaderAt(u)] := h;
    assert data[..] == t[d + HeaderAt(u) := h];
    HeaderWritten(s, t, d, HeaderAt(u), h);
  }

  /** The eight calls of `encode_block_xa`, in order. */
  method EncodeBlockXa(left: ChannelState, right: ChannelState, samples: array<int16>, at: nat, limit: int,
                       stereo: bool, data: array<byte>, d: nat)
    requires left != right && at + 224 <= samples.Length && d + BLOCK_SIZE <= data.Length
    requires InRange(left.Value()) && InRange(right.Value())
    modifies left, right, data
    ensures left.qerr == old(left.qerr) && right.qerr == old(right.qerr)
    ensures SameOutside(old(data[..]), data[..], d, BLOCK_SIZE)
    ensures UnitsHold(old(Pair(left.Value(), right.Value())), samples[..], at, limit, stereo, Slice(data[..], d), 8)
    ensures Pair(left.Value(), right.Value())
         == UnitsAfter(old(Pair(left.Value(), right.Value())), samples[..], at, limit, stereo, Slice(data[..], d), 8)
  {
    ghost var cs := Pair(left.Value(), right.Value());
    StartUnits(cs, samples[..], at, limit, stereo, Slice(data[..], d));
    hide UnitsHold, UnitsAfter;
    for u := 0 to 8
      invariant left.qerr == old(left.qerr) && right.qerr == old(right.qerr)
      invariant SameOutside(old(data[..]), data[..], d, BLOCK_SIZE)
      invariant UnitsHold(cs, samples[..], at, limit, stereo, Slice(data[..], d), u)
      invariant Pair(left.Value(), right.Value())
        == UnitsAfter(cs, samples[..], at, limit, stereo, Slice(data[..], d), u)
    {
      EncodeUnit(left, right, samples, at, limit, stereo, data, d, u, cs);
    }
  }

  lemma StartUnits(cs: Pair, samples: seq<int16>, at: nat, limit: int, stereo: bool, blk: seq<byte>)
    requires at + 224 <= |samples| && |blk| == BLOCK_SIZE
    ensures UnitsHold(cs, samples, at, limit, stereo, blk, 0)
    ensures UnitsAfter(cs, samples, at, limit, stereo, blk, 0) == cs
  {}

  /** The two copies of each header group. */
  method CopyHeaders(data: array<byte>, d: nat)
    requires d + BLOCK_SIZE <= data.Length
    modifies data
    ensures SameOutside(old(data[..]), data[..], d, BLOCK_SIZE)
    ensures HeadersCopied(Slice(data[..], d))
    ensures OthersKept(old(Slice(data[..], d)), Slice(data[..], d))
    ensures SameUnits(old(Slice(data[..], d)), Slice(data[..], d), 8)
  {
    ghost var s := data[..];
    forall k | 0 <= k < 4 {
      data[d + 4 + k] := data[d + k];
    }
    forall k | 0 <= k < 4 {
      data[d + 12 + k] := data[d + 8 + k];
    }
    ghost var p, q := Slice(s, d), Slice(data[..], d);
    assert forall k :: 0 <= k < BLOCK_SIZE ==> p[k] == s[d + k] && q[k] == data[d + k];
    CopiesKeepUnits(p, q);
    assert q[0..4] == p[0..4] && q[4..8] == p[0..4];
    assert q[8..12] == p[8..12] && q[12..16] == p[8..12];
  }

  /** Only the copies of the headers may differ. */
  predicate OthersKept(p: seq<byte>, q: seq<byte>) {
    |p| == |q| == BLOCK_SIZE && forall k :: 0 <= k < BLOCK_SIZE && (k < 4 || 8 <= k < 12 || 16 <= k) ==> q[k] == p[k]
  }

  lemma CopiesKeepUnits(p: seq<byte>, q: seq<byte>)
    requires OthersKept(p, q)
    ensures SameUnits(p, q, 8)
  {}
}
