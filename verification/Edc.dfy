/** The 32-bit error detection code of a CD-ROM sector (ECMA-130, section
    14.3): division by (x^16 + x^15 + x^2 + 1)(x^16 + x^2 + x + 1), lowest bit
    first. */
module Edc {
  import opened Bits

  const POLYNOMIAL := 0xD801_8001

  /** One step of the division. */
  function Shift(x: word32): word32 {
    Xor32(x / 2, if x % 2 == 1 then POLYNOMIAL else 0)
  }

  function ShiftN(x: word32, n: nat): word32
    decreases n, x
  {
    if n == 0 then x else ShiftN(Shift(x), n - 1)
  }

  /** A byte enters the register and is shifted out of it. */
  function Absorb(x: word32, b: byte): word32 {
    ShiftN(Xor32(x, b), 8)
  }

  function Feed(x: word32, m: seq<byte>): word32
    decreases |m|
  {
    if m == [] then x else Feed(Absorb(x, m[0]), m[1..])
  }

  function EdcOf(m: seq<byte>): word32 {
    Feed(0, m)
  }

  lemma {:induction false} FeedConcat(x: word32, m: seq<byte>, t: seq<byte>)
    ensures Feed(x, m + t) == Feed(Feed(x, m), t)
    decreases |m|
  {
    if m == [] {
      assert m + t == t;
    } else {
      assert (m + t)[1..] == m[1..] + t;
      FeedConcat(Absorb(x, m[0]), m[1..], t);
    }
  }

  lemma FeedNext(x: word32, m: seq<byte>, b: byte)
    ensures Feed(x, m + [b]) == Absorb(Feed(x, m), b)
  {
    FeedConcat(x, m, [b]);
    assert [b][1..] == [];
  }

  /** The constant is the product of the two factors, bit `i` of each standing
      for the power 16 - `i`, but for its highest power: the first factor times
      each of the four powers of the second, added up. */
  lemma PolynomialIs()
    ensures var f := 0x1_4003;
      Xor(Xor(f, 0x4000 * f), Xor(0x8000 * f, 0x1_0000 * f)) == 2 * POLYNOMIAL + 1
  {
    hide Xor;
    ShortSums();
    var f := 0x1_4003;
    LowAndHigh(f, 1, 0x4003, 0x4000 * f, 0x5000, 0xC000);
    LowAndHigh(0x8000 * f, 0xA001, 0x8000, 0x1_0000 * f, 0x1_4003, 0);
    LowAndHigh(0x5001_8003, 0x5001, 0x8003, 0x1_E002_8000, 0x1_E002, 0x8000);
  }

  lemma ShortSums()
    ensures Xor(0x4003, 0xC000) == 0x8003 && Xor(1, 0x5000) == 0x5001
    ensures Xor(0x8000, 0) == 0x8000 && Xor(0xA001, 0x1_4003) == 0x1_E002
    ensures Xor(0x8003, 0x8000) == 3 && Xor(0x5001, 0x1_E002) == 0x1_B003
  {
    hide Xor;
    HighSums();
    LowSums();
    XorZero(0x8000);
    XorSelf(0x80);
    XorZero(0x50);
    BytesApart(0x40, 3, 0xC0, 0);
    BytesApart(0, 1, 0x50, 0);
    BytesApart(0xA0, 1, 0x140, 3);
    BytesApart(0x80, 3, 0x80, 0);
    BytesApart(0x50, 1, 0x1E0, 2);
  }

  lemma HighSums()
    ensures Xor(0x40, 0xC0) == 0x80 && Xor(0xA0, 0x140) == 0x1E0 && Xor(0x50, 0x1E0) == 0x1B0
  {
    hide Xor;
    DigitSums();
    SixteenTimes(4, 0xC);
    SixteenTimes(0xA, 0x14);
    SixteenTimes(5, 0x1E);
  }

  lemma DigitSums()
    ensures Xor(4, 0xC) == 8 && Xor(0xA, 0x14) == 0x1E && Xor(5, 0x1E) == 0x1B
  {}

  lemma SixteenTimes(a: nat, b: nat)
    ensures Xor(0x10 * a, 0x10 * b) == 0x10 * Xor(a, b)
  {
    hide Xor;
    TwoTimes(a, b);
    TwoTimes(2 * a, 2 * b);
    TwoTimes(4 * a, 4 * b);
    TwoTimes(8 * a, 8 * b);
  }

  lemma TwoTimes(a: nat, b: nat)
    ensures Xor(2 * a, 2 * b) == 2 * Xor(a, b)
  {
    hide Xor;
    XorHalf(2 * a, 2 * b);
  }

  lemma LowSums()
    ensures Xor(3, 0) == 3 && Xor(1, 0) == 1 && Xor(1, 3) == 2 && Xor(1, 2) == 3
  {}

  lemma BytesApart(h: nat, l: byte, g: nat, m: byte)
    ensures Xor(0x100 * h + l, 0x100 * g + m) == 0x100 * Xor(h, g) + Xor(l, m)
  {
    Pow2Values();
    XorJoin(0x100 * h + l, h, l, 0x100 * g + m, g, m, 8);
  }

  lemma LowAndHigh(x: nat, h: nat, l: word16, y: nat, g: nat, m: word16)
    requires x == h * 0x1_0000 + l && y == g * 0x1_0000 + m
    ensures Xor(x, y) == Xor(h, g) * 0x1_0000 + Xor(l, m)
  {
    Pow2Values();
    XorJoin(x, h, l, y, g, m, 16);
  }

  /** Nothing but zeroes has code zero, and a last bit alone the polynomial. */
  lemma LastBit(n: nat)
    ensures EdcOf(seq(n, _ => 0)) == 0 && EdcOf(seq(n, _ => 0) + [0x80]) == 0xD801_8001
  {
    ZeroesCode(n);
    var z: seq<byte> := seq(n, _ => 0);
    FeedNext(0, z, 0x80);
    LoneBit();
  }

  lemma LoneBit()
    ensures Absorb(0, 0x80) == 0xD801_8001
  {
    XorZero(0x80);
    XorZero(0x40);
    XorZero(0x20);
    XorZero(0x10);
    XorZero(8);
    XorZero(4);
    XorZero(2);
    XorZero(1);
    XorZero(POLYNOMIAL);
    assert Shift(0x80) == 0x40 && Shift(0x40) == 0x20 && Shift(0x20) == 0x10 && Shift(0x10) == 8;
    assert Shift(8) == 4 && Shift(4) == 2 && Shift(2) == 1 && Shift(1) == POLYNOMIAL;
    hide Shift, Xor;
  }

  lemma {:induction false} ZeroesCode(n: nat)
    ensures EdcOf(seq(n, _ => 0)) == 0
  {
    var z: seq<byte> := seq(n, _ => 0);
    if n > 0 {
      ZeroesCode(n - 1);
      assert z[1..] == seq(n - 1, _ => 0);
      XorZero(0);
      ShiftNZero(8);
    }
  }

  // ----- the register is linear in its high bits

  lemma ShiftHigh(y: word32, v: nat)
    requires 2 * v < 0x1_0000_0000
    ensures Shift(Xor32(y, 2 * v)) == Xor(Shift(y), v)
  {
    var c := if y % 2 == 1 then POLYNOMIAL else 0;
    XorHalf(y, 2 * v);
    XorAssoc(y / 2, v, c);
    XorComm(v, c);
    XorAssoc(y / 2, c, v);
  }

  /** Bits above the `k` that are shifted out come down unchanged. */
  lemma {:induction false} ShiftNHigh(y: word32, h: nat, v: nat, k: nat)
    requires v == h * Pow2(k) < 0x1_0000_0000
    ensures ShiftN(Xor32(y, v), k) == Xor(ShiftN(y, k), h)
    decreases k
  {
    if k > 0 {
      var w := h * Pow2(k - 1);
      Halve(h, 0, Pow2(k - 1));
      assert v == 2 * w;
      ShiftHigh(y, w);
      ShiftNHigh(Shift(y), h, w, k - 1);
    }
  }

  lemma SplitLow8(z: word32)
    ensures z == Xor(z % 0x100, z / 0x100 * 0x100)
  {
    var l, h := z % 0x100, z / 0x100;
    Pow2Values();
    XorJoin(l, 0, l, h * 0x100, h, 0, 8);
    XorZero(l);
    XorZero(h);
  }

  /** What a 256-entry table of eight shifts buys: a byte at a time. */
  lemma ByTable(z: word32)
    ensures ShiftN(z, 8) == Xor(z / 0x100, ShiftN(z % 0x100, 8))
  {
    var k := 8;
    Pow2Values();
    SplitLow8(z);
    ShiftNHigh(z % 0x100, z / 0x100, z / 0x100 * 0x100, k);
    XorComm(z / 0x100, ShiftN(z % 0x100, k));
  }

  lemma AbsorbByTable(x: word32, b: byte)
    ensures var z := Xor32(x, b);
      Absorb(x, b) == Xor(z / 0x100, ShiftN(z % 0x100, 8))
  {
    ByTable(Xor32(x, b));
  }

  // ----- the appended code leaves no residue

  /** The code as it is stored, lowest byte first. */
  function Bytes(x: word32): (b: seq<byte>)
    ensures |b| == 4
  {
    [x % 0x100, x / 0x100 % 0x100, x / 0x1_0000 % 0x100, x / 0x100_0000]
  }

  lemma {:induction false} ShiftNZero(n: nat)
    ensures ShiftN(0, n) == 0
  {
    if n > 0 {
      assert Shift(0) == 0;
      ShiftNZero(n - 1);
    }
  }

  lemma AbsorbOwnLow(x: word32)
    ensures Absorb(x, x % 0x100) == x / 0x100
  {
    var l, h, k := x % 0x100, x / 0x100, 8;
    SplitLow8(x);
    XorCancel(l, h * 0x100);
    XorComm(x, l);
    XorZero(h);
    XorZero(h * 0x100);
    Pow2Values();
    ShiftNHigh(0, h, h * 0x100, k);
    ShiftNZero(k);
  }

  lemma FeedOwnLow(x: word32, t: seq<byte>)
    requires t != [] && t[0] == x % 0x100
    ensures Feed(x, t) == Feed(x / 0x100, t[1..])
  {
    AbsorbOwnLow(x);
  }

  lemma FeedOwnBytes(x0: word32, x1: word32, x2: word32, x3: word32, t: seq<byte>)
    requires x1 == x0 / 0x100 && x2 == x1 / 0x100 && x3 == x2 / 0x100
    requires t == [x0 % 0x100, x1 % 0x100, x2 % 0x100, x3 % 0x100]
    ensures Feed(x0, t) == 0
  {
    FeedOwnLow(x0, t);
    FeedOwnLow(x1, t[1..]);
    FeedOwnLow(x2, t[1..][1..]);
    FeedOwnLow(x3, t[1..][1..][1..]);
  }

  lemma BytesStepwise(x: word32)
    ensures Bytes(x) == [x % 0x100, x / 0x100 % 0x100, x / 0x100 / 0x100 % 0x100, x / 0x100 / 0x100 / 0x100 % 0x100]
  {}

  /** A message followed by its own code has code zero. */
  lemma Residue(m: seq<byte>)
    ensures EdcOf(m + Bytes(EdcOf(m))) == 0
  {
    var x := EdcOf(m);
    FeedConcat(0, m, Bytes(x));
    BytesStepwise(x);
    FeedOwnBytes(x, x / 0x100, x / 0x100 / 0x100, x / 0x100 / 0x100 / 0x100, Bytes(x));
  }

  // ----- the same division, a bit at a time

  /** Bits in the order in which they enter the register. */
  function FeedBits(x: word32, s: seq<bool>): word32
    decreases |s|
  {
    if s == [] then x else FeedBits(Shift(Xor32(x, if s[0] then 1 else 0)), s[1..])
  }

  function LowFirst(v: nat, k: nat): (s: seq<bool>)
    ensures |s| == k
    decreases k, v
  {
    if k == 0 then [] else [v % 2 == 1] + LowFirst(v / 2, k - 1)
  }

  function MessageBits(m: seq<byte>): (s: seq<bool>)
    ensures |s| == 8 * |m|
  {
    if m == [] then [] else LowFirst(m[0], 8) + MessageBits(m[1..])
  }

  /** Loading up to 32 bits at once and shifting is the same as feeding them
      one by one. */
  lemma {:induction false} LoadThenShift(x: word32, v: word32, k: nat)
    requires v < Pow2(k)
    ensures FeedBits(x, LowFirst(v, k)) == ShiftN(Xor32(x, v), k)
    decreases k
  {
    if k == 0 {
      XorZero(x);
    } else {
      var t, h := v % 2, v / 2;
      var y := Xor32(x, t);
      XorLowBit(v);
      XorAssoc(x, t, 2 * h);
      ShiftHigh(y, h);
      LoadThenShift(Shift(y), h, k - 1);
      var s := LowFirst(v, k);
      assert s[1..] == LowFirst(h, k - 1);
    }
  }

  lemma XorLowBit(v: nat)
    ensures Xor(v % 2, 2 * (v / 2)) == v
  {
    XorHalf(v % 2, 2 * (v / 2));
    XorZero(v / 2);
  }

  lemma {:induction false} FeedBitsConcat(x: word32, s: seq<bool>, t: seq<bool>)
    ensures FeedBits(x, s + t) == FeedBits(FeedBits(x, s), t)
    decreases |s|
  {
    if s == [] {
      assert s + t == t;
    } else {
      assert (s + t)[1..] == s[1..] + t;
      FeedBitsConcat(Shift(Xor32(x, if s[0] then 1 else 0)), s[1..], t);
    }
  }

  lemma {:induction false} FeedIsFeedBits(x: word32, m: seq<byte>)
    ensures Feed(x, m) == FeedBits(x, MessageBits(m))
    decreases |m|
  {
    if m != [] {
      Pow2Values();
      LoadThenShift(x, m[0], 8);
      FeedIsFeedBits(Absorb(x, m[0]), m[1..]);
      FeedBitsConcat(x, LowFirst(m[0], 8), MessageBits(m[1..]));
    }
  }

  // ----- bursts

  lemma TopBitSet(x: nat, y: nat)
    requires x < 0x8000_0000
    ensures Xor(x, POLYNOMIAL) >= 0x8000_0000
  {
    Pow2Values();
    XorJoin(x, 0, x, POLYNOMIAL, 1, POLYNOMIAL - 0x8000_0000, 31);
    assert Xor(0, 1) == 1;
  }

  lemma ShiftInjective(x: word32, y: word32)
    requires Shift(x) == Shift(y)
    ensures x == y
  {
    XorZero(x / 2);
    XorZero(y / 2);
    TopBitSet(x / 2, 0);
    TopBitSet(y / 2, 0);
    XorCancel(POLYNOMIAL, x / 2);
    XorCancel(POLYNOMIAL, y / 2);
  }

  lemma {:induction false} ShiftNInjective(x: word32, y: word32, n: nat)
    requires ShiftN(x, n) == ShiftN(y, n)
    ensures x == y
    decreases n
  {
    if n > 0 {
      ShiftNInjective(Shift(x), Shift(y), n - 1);
      ShiftInjective(x, y);
    }
  }

  lemma {:induction false} FeedBitsInjective(x: word32, y: word32, s: seq<bool>)
    requires FeedBits(x, s) == FeedBits(y, s)
    ensures x == y
    decreases |s|
  {
    if s != [] {
      var t := if s[0] then 1 else 0;
      FeedBitsInjective(Shift(Xor32(x, t)), Shift(Xor32(y, t)), s[1..]);
      ShiftInjective(Xor32(x, t), Xor32(y, t));
      XorCancel(t, x);
      XorCancel(t, y);
    }
  }

  function Pack(s: seq<bool>): (v: nat)
    ensures v < Pow2(|s|)
    decreases |s|
  {
    if s == [] then 0 else (if s[0] then 1 else 0) + 2 * Pack(s[1..])
  }

  lemma {:induction false} LowFirstOfPack(s: seq<bool>)
    ensures LowFirst(Pack(s), |s|) == s
    decreases |s|
  {
    if s != [] { LowFirstOfPack(s[1..]); }
  }

  /** From one register state, different bit strings of at most 32 bits lead to
      different states. */
  lemma WindowsSeparate(x: word32, s: seq<bool>, t: seq<bool>)
    requires |s| == |t| <= 32
    requires FeedBits(x, s) == FeedBits(x, t)
    ensures s == t
  {
    Pow2Values();
    Pow2Monotone(|s|, 32);
    var v, w := Pack(s), Pack(t);
    LowFirstOfPack(s);
    LowFirstOfPack(t);
    LoadThenShift(x, v, |s|);
    LoadThenShift(x, w, |s|);
    ShiftNInjective(Xor32(x, v), Xor32(x, w), |s|);
    XorCancel(x, v);
    XorCancel(x, w);
  }

  lemma SameAround(a: seq<bool>, s: seq<bool>, t: seq<bool>, b: seq<bool>)
    requires |s| == |t| <= 32
    requires FeedBits(0, a + s + b) == FeedBits(0, a + t + b)
    ensures s == t
  {
    var x := FeedBits(0, a);
    FeedBitsConcat(0, a, s);
    FeedBitsConcat(0, a, t);
    FeedBitsConcat(0, a + s, b);
    FeedBitsConcat(0, a + t, b);
    FeedBitsInjective(FeedBits(x, s), FeedBits(x, t), b);
    WindowsSeparate(x, s, t);
  }

  lemma Cut(p: seq<bool>, start: nat, stop: nat)
    requires start <= stop <= |p|
    ensures p == p[..start] + p[start..stop] + p[stop..]
  {}

  lemma BitBurst(p: seq<bool>, q: seq<bool>, start: nat, stop: nat)
    requires |p| == |q| && start <= stop <= start + 32 && stop <= |p|
    requires forall i :: 0 <= i < |p| && !(start <= i < stop) ==> p[i] == q[i]
    requires FeedBits(0, p) == FeedBits(0, q)
    ensures p == q
  {
    Cut(p, start, stop);
    Cut(q, start, stop);
    assert p[..start] == q[..start] && p[stop..] == q[stop..];
    SameAround(p[..start], p[start..stop], q[start..stop], p[stop..]);
  }

  lemma {:induction false} LowFirstInjective(v: nat, w: nat, k: nat)
    requires v < Pow2(k) && w < Pow2(k)
    requires LowFirst(v, k) == LowFirst(w, k)
    ensures v == w
    decreases k
  {
    if k > 0 {
      assert LowFirst(v, k)[0] == LowFirst(w, k)[0];
      assert LowFirst(v, k)[1..] == LowFirst(w, k)[1..];
      LowFirstInjective(v / 2, w / 2, k - 1);
    }
  }

  /** Distinct messages of equal length have distinct bits. */
  lemma {:induction false} MessageBitsInjective(m: seq<byte>, n: seq<byte>)
    requires |m| == |n| && MessageBits(m) == MessageBits(n)
    ensures m == n
  {
    if m != [] {
      var p, q := MessageBits(m), MessageBits(n);
      assert LowFirst(m[0], 8) == p[..8] && LowFirst(n[0], 8) == q[..8];
      assert MessageBits(m[1..]) == p[8..] && MessageBits(n[1..]) == q[8..];
      Pow2Values();
      LowFirstInjective(m[0], n[0], 8);
      MessageBitsInjective(m[1..], n[1..]);
    }
  }

  /** Every burst is caught: messages of equal length whose bits differ only
      inside one window of at most 32 consecutive bits have equal codes only
      when they are equal. */
  lemma BurstDetection(m: seq<byte>, n: seq<byte>, start: nat, length: nat)
    requires |m| == |n| && length <= 32 && start + length <= 8 * |m|
    requires forall i :: 0 <= i < 8 * |m| && !(start <= i < start + length)
                         ==> MessageBits(m)[i] == MessageBits(n)[i]
    ensures EdcOf(m) == EdcOf(n) <==> m == n
  {
    if EdcOf(m) == EdcOf(n) {
      FeedIsFeedBits(0, m);
      FeedIsFeedBits(0, n);
      BitBurst(MessageBits(m), MessageBits(n), start, start + length);
      MessageBitsInjective(m, n);
    }
  }

  // ----- odd numbers of wrong bits

  /** Whether a word has an odd number of ones. */
  function OddWord(v: nat): bool {
    v != 0 && (v % 2 == 1) != OddWord(v / 2)
  }

  function OddBits(s: seq<bool>): bool
    decreases |s|
  {
    s != [] && s[0] != OddBits(s[1..])
  }

  lemma {:induction false} OddXor(a: nat, b: nat)
    ensures OddWord(Xor(a, b)) == (OddWord(a) != OddWord(b))
    decreases a + b
  {
    if a + b > 0 {
      XorHalf(a, b);
      OddXor(a / 2, b / 2);
    }
  }

  lemma OddPolynomial()
    ensures OddWord(POLYNOMIAL)
  {
    assert !OddWord(0xD8) && OddWord(0xD801);
    assert !OddWord(0xD8_0180);
  }

  lemma OddShift(x: word32)
    ensures OddWord(Shift(x)) == OddWord(x)
  {
    OddXor(x / 2, if x % 2 == 1 then POLYNOMIAL else 0);
    OddPolynomial();
  }

  lemma {:induction false} OddFeedBits(x: word32, s: seq<bool>)
    ensures OddWord(FeedBits(x, s)) == (OddWord(x) != OddBits(s))
    decreases |s|
  {
    if s != [] {
      var t := if s[0] then 1 else 0;
      OddXor(x, t);
      OddShift(Xor32(x, t));
      OddFeedBits(Shift(Xor32(x, t)), s[1..]);
    }
  }

  /** The code has an odd number of ones exactly when the message has, so any
      corruption that flips an odd number of bits is caught. */
  lemma OddErrors(m: seq<byte>, n: seq<byte>)
    ensures OddWord(EdcOf(m)) == OddBits(MessageBits(m))
    ensures OddBits(MessageBits(m)) != OddBits(MessageBits(n)) ==> EdcOf(m) != EdcOf(n)
  {
    FeedIsFeedBits(0, m);
    FeedIsFeedBits(0, n);
    OddFeedBits(0, MessageBits(m));
    OddFeedBits(0, MessageBits(n));
  }
}
