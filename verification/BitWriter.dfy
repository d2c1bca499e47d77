/** Writing bit fields, most significant bit first, through a 16-bit word that
    is stored low byte first. */
module BitWriter {
  import opened Arithmetic
  import opened Bits
  import opened BitStrings

  const UNMUXED_SIZE := 2016 * 9

  /** The bits of a run of little-endian 16-bit words. */
  function Words(bs: seq<byte>): (s: seq<bool>)
    ensures |s| == |bs| / 2 * 16
    decreases |bs|
  {
    if |bs| < 2 then []
    else Words(bs[..|bs| - 2]) + BitsOf(Join(bs[|bs| - 2], bs[|bs| - 1]), 16)
  }

  function Join(low: nat, high: nat): nat {
    low + 0x100 * high
  }

  /** The bits that wait in a word with `left` free places. */
  function Pending(value: nat, left: nat): (s: seq<bool>)
    requires left <= 16
    ensures |s| == 16 - left
  {
    BitsOf(Shr(value, left), 16 - left)
  }

  /** Bytes taken by `total` bits, rounded up to words. */
  function WordBytes(total: nat): nat {
    2 * ((total + 15) / 16)
  }

  lemma MoreWords(bs: seq<byte>, w: word16, more: seq<byte>)
    requires more == bs + [w % 0x100, w / 0x100]
    ensures Words(more) == Words(bs) + BitsOf(w, 16)
  {
    assert more[..|more| - 2] == bs;
  }

  /** Storing a word behind `at` bytes. */
  lemma WordAppended(s: seq<byte>, t: seq<byte>, at: nat, w: word16)
    requires 8 <= at && at + 2 <= |s| && t == s[at := w % 0x100][at + 1 := w / 0x100]
    ensures t[..8] == s[..8] && t[at + 2..] == s[at + 2..]
    ensures Words(t[8..at + 2]) == Words(s[8..at]) + BitsOf(w, 16)
  {
    assert t[8..at + 2] == s[8..at] + [w % 0x100, w / 0x100];
    MoreWords(s[8..at], w, t[8..at + 2]);
  }

  /** Apart from the bytes from 8 to `at`, the buffer is the same. */
  predicate Around(s: seq<byte>, t: seq<byte>, at: nat) {
    8 <= at <= |s| == |t| && t[..8] == s[..8] && t[at..] == s[at..]
  }

  lemma AroundTwice(s: seq<byte>, t: seq<byte>, u: seq<byte>, a: nat, b: nat)
    requires Around(s, t, a) && Around(t, u, b) && a <= b
    ensures Around(s, u, b)
  {
    assert t[b..] == t[a..][b - a..] && s[b..] == s[a..][b - a..];
  }

  lemma NothingPending()
    ensures Pending(0, 16) == [] && Low(0, 16) == 0
  {
    ShrOfJoin(0, 0, 16);
  }

  // ----- placing a field in the word

  /** `v << k` */
  function Shl(v: nat, k: nat): nat {
    v * Pow2(k)
  }

  /** A field of `b` bits goes into the top of the free places: nothing
      overlaps, and the word's bits are extended by the field's. */
  lemma Place(value: nat, left: nat, v: nat, b: nat)
    requires value < Pow2(16) && Low(value, left) == 0 && b <= left <= 16 && v < Pow2(b)
    ensures var out := Shl(v, left - b);
      && out < Pow2(16) && And(value, out) == 0 && Or(value, out) == value + out < Pow2(16)
      && Low(value + out, left - b) == 0
      && Pending(value + out, left - b) == Pending(value, left) + BitsOf(v, b)
  {
    hide *;
    ShlIs(v, left - b);
    var h, k := Shr(value, left), left - b;
    var out := v * Pow2(k);
    ShrLow(value, left);
    ShrBound(value, 16, left);
    Pow2Add(b, k);
    Pow2Add(16 - left, left);
    ProductBelow(v, Pow2(b), Pow2(k));
    OrJoins(h, out, left);
    Regroup(h, Pow2(b), Pow2(k), v);
    ShrOfJoin(h * Pow2(b) + v, 0, k);
    SplitBits(h, v, 16 - left, b);
    TopBound(h, Pow2(16 - left), out, Pow2(left));
    PendingIs(value, left);
    PendingIs(value + out, k);
    TopBound(0, Pow2(16 - left), out, Pow2(left));
  }

  /** A field that takes all the free places needs no shift. */
  lemma PlaceTop(value: nat, left: nat, v: nat)
    requires value < Pow2(16) && Low(value, left) == 0 && left <= 16 && v < Pow2(left)
    ensures v < Pow2(16) && And(value, v) == 0 && Or(value, v) == value + v < Pow2(16)
    ensures BitsOf(value + v, 16) == Pending(value, left) + BitsOf(v, left)
  {
    hide *;
    NoShift(v);
    NoShift(value + v);
    Place(value, left, v, left);
    PendingIs(value + v, 0);
  }

  lemma NoShift(v: nat)
    ensures Shl(v, 0) == v && Shr(v, 0) == v
  {}

  lemma ShlIs(v: nat, k: nat)
    ensures Shl(v, k) == v * Pow2(k)
  {}

  lemma PendingIs(value: nat, left: nat)
    requires left <= 16
    ensures Pending(value, left) == BitsOf(Shr(value, left), 16 - left)
  {}

  lemma Regroup(h: nat, p: nat, q: nat, v: nat)
    ensures h * (p * q) + v * q == (h * p + v) * q
  {
    assert h * (p * q) == (h * p) * q;
  }

  lemma TopBound(h: nat, q: nat, out: nat, p: nat)
    requires h < q && out < p
    ensures h * p + out < q * p
  {
    MulMonotone(h + 1, q, p);
  }

  /** Cutting a field: its high `left` bits, then the rest. */
  lemma Cut(v: nat, n: nat, left: nat)
    requires v < Pow2(n) && left <= n
    ensures Shr(v, n - left) < Pow2(left) && Low(v, n - left) < Pow2(n - left)
    ensures BitsOf(v, n) == BitsOf(Shr(v, n - left), left) + BitsOf(Low(v, n - left), n - left)
  {
    hide *;
    ShrBound(v, n, n - left);
    ShrLow(v, n - left);
    SplitBits(Shr(v, n - left), Low(v, n - left), left, n - left);
  }

  // ----- the writer

  /** What a writer holds: its buffer, how much of that is used, the frame's
      share of blocks, and all the bits written so far. */
  datatype State = State(bytes: seq<byte>, used: nat, blocks: nat, contents: seq<bool>)

  /** `bits` were added, and no byte outside the used ones has changed. */
  predicate Extends(a: State, b: State, bits: seq<bool>) {
    && b.contents == a.contents + bits && b.blocks == a.blocks && a.used <= b.used
    && Around(a.bytes, b.bytes, b.used)
  }

  /** `n` more bits fit the buffer and the frame's share of blocks. */
  predicate Fits(a: State, n: nat) {
    8 + WordBytes(|a.contents| + n) <= UNMUXED_SIZE && 8 + WordBytes(|a.contents| + n) <= 2016 * a.blocks
  }

  lemma ExtendsNone(a: State)
    requires 8 <= a.used <= |a.bytes|
    ensures Extends(a, a, [])
  {}

  lemma ExtendsTwice(a: State, b: State, c: State, x: seq<bool>, y: seq<bool>)
    requires Extends(a, b, x) && Extends(b, c, y)
    ensures Extends(a, c, x + y)
  {
    AroundTwice(a.bytes, b.bytes, c.bytes, b.used, c.used);
    hide Around;
    assert a.contents + (x + y) == (a.contents + x) + y;
  }

  lemma FitsAfter(a: State, b: State, x: seq<bool>, n: nat)
    requires Extends(a, b, x) && Fits(a, |x| + n)
    ensures Fits(b, n)
  {}

  lemma FitsLess(a: State, m: nat, n: nat)
    requires Fits(a, n) && m <= n
    ensures Fits(a, m)
  {}

  /** What does not fit later did not fit before. */
  lemma TooMuchLater(a: State, b: State, x: seq<bool>, n: nat, total: nat)
    requires Extends(a, b, x) && !Fits(b, n) && |x| + n <= total
    ensures !Fits(a, total)
  {
    if Fits(a, total) {
      FitsLess(a, |x| + n, total);
      FitsAfter(a, b, x, n);
    }
  }

  lemma TooMuch(a: State, n: nat, total: nat)
    requires !Fits(a, n) && n <= total
    ensures !Fits(a, total)
  {}

  class Writer {
    var bitsValue: word16
    var bitsLeft: nat
    var bytesUsed: nat
    var frameBlockCount: nat
    const unmuxed: array<byte>

    /** The state that a stream starts from. */
    constructor ()
      ensures fresh(unmuxed) && Shape() && bitsLeft == 16 && bitsValue == 0 && frameBlockCount == 0
    {
      bitsValue, bitsLeft, bytesUsed, frameBlockCount := 0, 16, 8, 0;
      unmuxed := new byte[UNMUXED_SIZE](_ => 0);
    }

    ghost predicate Shape()
      reads this
    {
      && unmuxed.Length == UNMUXED_SIZE
      && 8 <= bytesUsed <= UNMUXED_SIZE && bytesUsed % 2 == 0 && bitsLeft <= 16
    }

    /** What has been stored is within the frame's share of blocks. */
    ghost predicate WithinShare()
      reads this
    {
      bytesUsed > 8 ==> bytesUsed <= 2016 * frameBlockCount
    }

    ghost predicate Valid()
      reads this
    {
      Shape() && WithinShare() && Low(bitsValue, bitsLeft) == 0
    }

    /** Stored words. */
    ghost function Stored(): (s: seq<bool>)
      requires Shape()
      reads this, unmuxed
      ensures |s| == (bytesUsed - 8) / 2 * 16
    {
      Words(unmuxed[8..bytesUsed])
    }

    /** Everything written so far. */
    ghost function Contents(): (s: seq<bool>)
      requires Shape()
      reads this, unmuxed
      ensures |s| == (bytesUsed - 8) / 2 * 16 + 16 - bitsLeft
    {
      Stored() + Pending(bitsValue, bitsLeft)
    }

    ghost function Now(): State
      requires Shape()
      reads this, unmuxed
    {
      State(unmuxed[..], bytesUsed, frameBlockCount, Contents())
    }

    /** Bytes outside those written are as they were. */
    twostate predicate Frame()
      reads this, unmuxed
    {
      frameBlockCount == old(frameBlockCount) && Around(old(unmuxed[..]), unmuxed[..], bytesUsed)
    }

    /** `flush_bits`; false where one of its assertions aborts the program. */
    method FlushBits() returns (ok: bool)
      requires Shape() && WithinShare()
      modifies this, unmuxed
      ensures ok <==> old(bitsLeft) == 16 ||
                      (old(bytesUsed) + 2 <= UNMUXED_SIZE && old(bytesUsed) + 2 <= 2016 * old(frameBlockCount))
      ensures ok ==>
        && Valid() && Frame() && old(bytesUsed) <= bytesUsed
        && bitsLeft == 16 && bitsValue == 0
        && bytesUsed == old(bytesUsed) + (if old(bitsLeft) < 16 then 2 else 0)
        && Stored() == old(Stored()) + (if old(bitsLeft) < 16 then BitsOf(old(bitsValue), 16) else [])
        && Contents() == Stored()
    {
      hide Words, BitsOf, Shr, Low, Pow2, Pending;
      NothingPending();
      ghost var before, w, at := unmuxed[..], bitsValue, bytesUsed;
      ok := true;
      if bitsLeft < 16 {
        if !(bytesUsed < UNMUXED_SIZE) {
          return false;
        }
        unmuxed[bytesUsed] := bitsValue % 0x100;
        bytesUsed := bytesUsed + 1;
        if !(bytesUsed < UNMUXED_SIZE && bytesUsed < 2016 * frameBlockCount) {
          return false;
        }
        unmuxed[bytesUsed] := bitsValue / 0x100;
        bytesUsed := bytesUsed + 1;
        WordAppended(before, unmuxed[..], at, w);
      }
      bitsLeft := 16;
      bitsValue := 0;
    }

    /** The start of a frame: the buffer is cleared, its first eight bytes kept
        for the header.  The flush that ended the frame before has left the
        word empty. */
    method BeginFrame()
      requires Shape() && bitsLeft == 16 && bitsValue == 0
      modifies this`bytesUsed, unmuxed
      ensures Valid() && Contents() == [] && bytesUsed == 8
      ensures forall k :: 0 <= k < unmuxed.Length ==> unmuxed[k] == 0
    {
      NothingPending();
      forall k | 0 <= k < unmuxed.Length {
        unmuxed[k] := 0;
      }
      bytesUsed := 8;
    }

    /** The flush that ends a frame adds zero padding and nothing else. */
    method FinalFlush() returns (ok: bool)
      requires Valid() && Contents() != []
      modifies this, unmuxed
      ensures ok <==> old(Fits(Now(), 0))
      ensures ok ==>
        && Valid() && bitsLeft == 16 && bitsValue == 0 && frameBlockCount == old(frameBlockCount)
        && old(bytesUsed) <= bytesUsed && Around(old(unmuxed[..]), unmuxed[..], bytesUsed)
        && Stored() == old(Contents()) + Zeros(if old(bitsLeft) < 16 then old(bitsLeft) else 0)
    {
      hide Words, BitsOf, Shr, Low, Pow2, Pending, Zeros, Around;
      Pow2Values();
      Padding(bitsValue, bitsLeft);
      NothingPending();
      ghost var stored, pending := Stored(), Pending(bitsValue, bitsLeft);
      ghost var zeros := Zeros(if bitsLeft < 16 then bitsLeft else 0);
      WordsTaken((bytesUsed - 8) / 2, bitsLeft);
      ok := FlushBits();
      if ok {
        Reassociate(stored, pending, zeros, []);
      }
    }

    /** `encode_bits`; false where an assertion aborts the program, which is
        only when the field does not fit. */
    method EncodeBits(bits: nat, val: nat) returns (ok: bool)
      requires Valid() && val < Pow2(bits)
      modifies this, unmuxed
      ensures ok ==> Valid() && Extends(old(Now()), Now(), BitsOf(val, bits))
      ensures !ok ==> !old(Fits(Now(), bits))
      decreases bits
    {
      hide BitsOf, Shr, Low, Pow2, Pending, Words, Stored, Contents, Extends, Fits;
      ghost var before := Now();
      if bits > 16 {
        ghost var high, low := BitsOf(Shr(val, 16), bits - 16), BitsOf(Low(val, 16), 16);
        Cut(val, bits, bits - 16);
        FieldLengths(val, bits);
        ok := EncodeBits(bits - 16, Shr(val, 16));
        if !ok {
          TooMuch(before, bits - 16, bits);
          return;
        }
        ghost var middle := Now();
        ok := EncodeField(16, Low(val, 16));
        if !ok {
          TooMuchLater(before, middle, high, 16, bits);
          return;
        }
        ExtendsTwice(before, middle, Now(), high, low);
      } else {
        ok := EncodeField(bits, val);
      }
    }

    /** The rest of it, for a field no wider than a word. */
    method EncodeField(bits: nat, val: nat) returns (ok: bool)
      requires Valid() && val < Pow2(bits) && bits <= 16
      modifies this, unmuxed
      ensures ok ==> Valid() && Extends(old(Now()), Now(), BitsOf(val, bits))
      ensures !ok ==> !old(Fits(Now(), bits))
    {
      hide BitsOf, Shr, Low, Pow2, Pending, Words, Around, Stored, Fits;
      var n: nat, v: nat := bits, val;
      ghost var start := Now();
      ghost var before, goal := unmuxed[..], Contents() + BitsOf(val, bits);
      SameAround(before, bytesUsed);
      if bitsLeft == 0 {
        PendingFull(bitsValue);
        ok := FlushBits();
        if !ok {
          FlushFails(start, bits, 16);
          return;
        }
      }
      while n > bitsLeft
        invariant Valid() && v < Pow2(n) && n <= 16 && bitsLeft > 0
        invariant |Contents()| + n == |old(Contents())| + bits
        invariant frameBlockCount == old(frameBlockCount) && old(bytesUsed) <= bytesUsed
        invariant Around(before, unmuxed[..], bytesUsed)
        invariant Contents() + BitsOf(v, n) == goal
        decreases n
      {
        ghost var s, at, n0 := unmuxed[..], bytesUsed, n;
        ghost var middle := Now();
        ok, n, v := Truncate(n, v);
        if !ok {
          SameTotal(start, bits, middle, n0);
          return;
        }
        AroundTwice(before, s, unmuxed[..], at, bytesUsed);
      }
      ok := true;
      if n >= 1 {
        Plop(n, v);
      } else {
        NoBits(v);
      }
    }

    /** The part of a field that still fits completes the word. */
    method Truncate(bits: nat, val: nat) returns (ok: bool, n: nat, v: nat)
      requires Valid() && val < Pow2(bits) && 0 < bitsLeft < bits <= 16
      modifies this, unmuxed
      ensures ok ==>
        && Valid() && Frame() && bitsLeft == 16 && old(bytesUsed) <= bytesUsed
        && n < bits && v < Pow2(n)
        && Contents() + BitsOf(v, n) == old(Contents()) + BitsOf(val, bits)
        && |Contents()| + n == |old(Contents())| + bits
      ensures !ok ==> !old(Fits(Now(), bits))
    {
      hide BitsOf, Shr, Low, Pow2, Pending, Or, And, Words, Fits;
      Pow2Values();
      Cut(val, bits, bitsLeft);
      var out := Shr(val, bits - bitsLeft);
      PlaceTop(bitsValue, bitsLeft, out);
      assert out < 0x1_0000 && And(bitsValue, out) == 0;
      ghost var stored, pending, top := Stored(), Pending(bitsValue, bitsLeft), BitsOf(out, bitsLeft);
      ghost var start, taken := Now(), 16 - bitsLeft;
      bitsValue := Or(bitsValue, out);
      n := bits - bitsLeft;
      v := Low(val, n);
      ok := FlushBits();
      if ok {
        Reassociate(stored, pending, top, BitsOf(v, n));
      } else {
        FlushFails(start, bits, taken);
      }
    }

    /** A field that fits is shifted into place. */
    method Plop(bits: nat, val: nat)
      requires Valid() && val < Pow2(bits) && 1 <= bits <= bitsLeft
      modifies this
      ensures Valid() && frameBlockCount == old(frameBlockCount) && bytesUsed == old(bytesUsed)
      ensures Contents() == old(Contents()) + BitsOf(val, bits)
    {
      Pow2Values();
      hide BitsOf, Shr, Low, Pow2, Pending, Or, And, Words, Shl;
      Place(bitsValue, bitsLeft, val, bits);
      var out := Shl(val, bitsLeft - bits);
      assert out < 0x1_0000 && And(bitsValue, out) == 0;
      Reassociate(Stored(), Pending(bitsValue, bitsLeft), BitsOf(val, bits), []);
      bitsValue := Or(bitsValue, out);
      bitsLeft := bitsLeft - bits;
    }
  }

  lemma Padding(value: nat, left: nat)
    requires value < Pow2(16) && Low(value, left) == 0 && left <= 16
    ensures left < 16 ==> BitsOf(value, 16) == Pending(value, left) + Zeros(left)
    ensures left == 16 ==> Pending(value, left) == [] && Zeros(0) == []
  {
    hide Shr, Low;
    ShrLow(value, left);
    SplitBits(Shr(value, left), 0, 16 - left, left);
    ZeroBits(left);
  }

  lemma SameAround(s: seq<byte>, at: nat)
    requires 8 <= at <= |s|
    ensures Around(s, s, at)
  {}

  lemma PendingFull(value: nat)
    ensures Pending(value, 0) == BitsOf(value, 16)
  {}

  /** Where a flush aborts, the field behind it would not have fitted. */
  lemma FlushFails(a: State, n: nat, pending: nat)
    requires a.used >= 8 && a.used % 2 == 0 && pending + n > 0 && pending <= 16
    requires |a.contents| == (a.used - 8) / 2 * 16 + pending
    requires a.used + 2 > UNMUXED_SIZE || a.used + 2 > 2016 * a.blocks
    ensures !Fits(a, n)
  {
    var words := (a.used - 8) / 2;
    assert WordBytes(words * 16 + pending + n) >= 2 * words + 2;
  }

  lemma SameTotal(a: State, m: nat, b: State, n: nat)
    requires |a.contents| + m == |b.contents| + n && a.blocks == b.blocks && !Fits(b, n)
    ensures !Fits(a, m)
  {}

  lemma WordsTaken(words: nat, left: nat)
    requires left <= 16
    ensures WordBytes(words * 16 + 16 - left) == if left == 16 then 2 * words else 2 * words + 2
  {}

  lemma FieldLengths(v: nat, n: nat)
    requires n > 16
    ensures |BitsOf(Shr(v, 16), n - 16)| == n - 16
  {}

  lemma NoBits(v: nat)
    ensures BitsOf(v, 0) == []
  {}

  lemma Reassociate(a: seq<bool>, b: seq<bool>, c: seq<bool>, d: seq<bool>)
    ensures a + (b + c) + d == a + b + (c + d) && a + (b + c) == a + b + c
  {}
}
