/** The MDEC frame format as a player has it from its own tables: steps, scan
    order, code words and the order of bits. */
module MdecFormat {
  import opened Arithmetic
  import opened Bits
  import opened BitStrings
  import opened BitWriter
  import opened HuffmanCodes
  import opened MdecBlock

  // ----- quantisation

  /** What a player multiplies the places of a block by, row by row. */
  const STEPS: seq<seq<nat>> := [
    [2, 16, 19, 22, 26, 27, 29, 34],
    [16, 16, 22, 24, 27, 29, 34, 37],
    [19, 22, 26, 27, 29, 34, 34, 38],
    [22, 22, 26, 27, 29, 34, 37, 40],
    [22, 26, 27, 29, 32, 35, 40, 48],
    [26, 27, 29, 32, 35, 40, 48, 58],
    [26, 27, 29, 34, 38, 46, 56, 69],
    [27, 29, 35, 38, 46, 56, 69, 83]]

  function Step(i: nat): nat {
    if i < 64 && |STEPS[i / 8]| == 8 then STEPS[i / 8][i % 8] else 0
  }

  lemma StepsAre(i: nat)
    requires i < 64
    ensures QuantDec(i) == Step(i)
  {
    hide QuantDec, Step;
    if i < 16 { Steps0(i); } else if i < 32 { Steps16(i); } else if i < 48 { Steps32(i); } else { Steps48(i); }
  }

  lemma Steps0(i: nat)
    requires 0 <= i < 16
    ensures QuantDec(i) == Step(i)
  {}

  lemma Steps16(i: nat)
    requires 16 <= i < 32
    ensures QuantDec(i) == Step(i)
  {}

  lemma Steps32(i: nat)
    requires 32 <= i < 48
    ensures QuantDec(i) == Step(i)
  {}

  lemma Steps48(i: nat)
    requires 48 <= i < 64
    ensures QuantDec(i) == Step(i)
  {}

  /** `z` lies from zero on towards `v`, less than `s` short of it. */
  predicate Approaches(z: int, v: int, s: nat) {
    if v >= 0 then v - s < z <= v && z >= 0 else v <= z < v + s && z <= 0
  }

  /** A quantised value times its step approaches the coefficient, and beyond
      ten bits it is the nearest there is. */
  predicate Represents(q: int, v: int, s: nat) {
    if v >= 0x200 * s then q == 0x1FF
    else if v <= -0x201 * s then q == -0x200
    else Approaches(q * s, v, s)
  }

  lemma QuantisedRepresents(v: int, i: nat)
    requires i < 64
    ensures Represents(QuantisedAt(v, i), v, Step(i))
  {
    hide QuantDec, Step;
    StepsAre(i);
    QuotientRepresents(v, QuantDec(i));
  }

  lemma QuotientRepresents(v: int, s: nat)
    requires s > 0
    ensures Represents(Clamp(CDiv(v, s), -0x200, 0x1FF), v, s)
  {
    hide *;
    var w: nat := if v >= 0 then v else 0 - v;
    var q := QuotientOf(v, w, s);
    if v >= 0 { UpwardRepresents(w, q, s); } else { DownwardRepresents(w, q, s); }
  }

  lemma QuotientOf(v: int, w: nat, s: nat) returns (q: nat)
    requires s > 0 && w == if v >= 0 then v else 0 - v
    ensures CDiv(v, s) == if v >= 0 then q else 0 - q
    ensures q * s <= w < q * s + s && (q >= 0x200 <==> w >= 0x200 * s) && (q >= 0x201 <==> w >= 0x201 * s)
  {
    q := w / s;
    QuotientAtLeast(w, 0x200, s);
    QuotientAtLeast(w, 0x201, s);
  }

  lemma UpwardRepresents(v: nat, q: nat, s: nat)
    requires q * s <= v < q * s + s && (q >= 0x200 <==> v >= 0x200 * s)
    ensures Represents(Clamp(q, -0x200, 0x1FF), v, s)
  {
    assert q * s >= 0;
  }

  lemma DownwardRepresents(w: nat, q: nat, s: nat)
    requires w > 0 && q * s <= w < q * s + s && (q >= 0x201 <==> w >= 0x201 * s)
    ensures Represents(Clamp(0 - q, -0x200, 0x1FF), 0 - w, s)
  {
    assert q * s >= 0;
    Opposite(q, s);
  }

  lemma Opposite(q: int, s: int)
    ensures (0 - q) * s == 0 - q * s
  {}

  // ----- the end of the transform

  /** What the transform leaves of a coefficient: the first of a block is a
      32nd, the others a quarter, cut off towards zero, and nothing where that
      is below the step. */
  lemma FinishedIs(v: int, i: nat)
    requires i < 64
    ensures var n, r := if i == 0 then 32 else 4, Finished(v, i);
      && (r == 0 <==> -n * Step(i) < v < n * Step(i))
      && (r != 0 ==> Approaches(n * r, v, n))
  {
    hide QuantDec, Step;
    StepsAre(i);
    if i == 0 { EightThenFour(v); }
  }

  lemma EightThenFour(v: int)
    ensures CDiv(CDiv(v, 8), 4) == CDiv(v, 32)
  {}

  // ----- the scan

  /** The place of a block that the scan visits behind place `p`: along one
      diagonal up to the right, along the next down to the left. */
  function Behind(p: nat): nat
    requires p < 63
  {
    var row, column := p / 8, p % 8;
    if (row + column) % 2 == 0 then
      if column == 7 then p + 8 else if row == 0 then p + 1 else p - 7
    else
      if row == 7 then p + 1 else if column == 0 then p + 8 else p + 7
  }

  lemma ScanWalks(k: nat)
    requires k < 63
    ensures ZagZig(0) == 0 && ZagZig(k) < 63 && ZagZig(k + 1) == Behind(ZagZig(k))
  {
    FirstStays();
    hide ZagZig, Behind;
    if k < 16 { Walk0(k); } else if k < 32 { Walk16(k); } else if k < 48 { Walk32(k); } else { Walk48(k); }
  }

  lemma Walk0(k: nat)
    requires 0 <= k < 16
    ensures ZagZig(k) < 63 && ZagZig(k + 1) == Behind(ZagZig(k))
  {}

  lemma Walk16(k: nat)
    requires 16 <= k < 32
    ensures ZagZig(k) < 63 && ZagZig(k + 1) == Behind(ZagZig(k))
  {}

  lemma Walk32(k: nat)
    requires 32 <= k < 48
    ensures ZagZig(k) < 63 && ZagZig(k + 1) == Behind(ZagZig(k))
  {}

  lemma Walk48(k: nat)
    requires 48 <= k < 63
    ensures ZagZig(k) < 63 && ZagZig(k + 1) == Behind(ZagZig(k))
  {}

  // ----- bits

  lemma {:induction false} BitOfNumber(v: nat, w: nat, k: nat)
    requires k < w
    ensures BitsOf(v, w)[k] == (v / Pow2(w - 1 - k) % 2 == 1)
    decreases w
  {
    if k < w - 1 {
      BitOfNumber(v / 2, w - 1, k);
      HalfFirst(v, Pow2(w - 2 - k));
    }
  }

  lemma HalfFirst(v: nat, p: nat)
    requires p > 0
    ensures v / 2 / p == v / (2 * p)
  {
    var q, r := v / 2 / p, v / 2 % p;
    assert v / 2 == q * p + r;
    assert v == q * (2 * p) + (2 * r + v % 2);
    QuotientIs(v, q, 2 * r + v % 2, 2 * p);
  }

  /** Where a player finds bit `i` of a frame: in words of two bytes, the high
      byte behind the low one, the highest bit of each first. */
  predicate BitAt(bytes: seq<byte>, i: nat)
    requires i < |bytes| / 2 * 16
  {
    var b := bytes[i / 16 * 2 + (if i % 16 < 8 then 1 else 0)];
    b / Pow2(7 - i % 8) % 2 == 1
  }

  lemma {:induction false} WordsAreBits(bytes: seq<byte>, i: nat)
    requires |bytes| % 2 == 0 && i < |bytes| / 2 * 16
    ensures Words(bytes)[i] == BitAt(bytes, i)
    decreases |bytes|
  {
    hide BitAt, Words;
    var n := |bytes|;
    WordsGrow(bytes);
    if i < (n - 2) / 2 * 16 {
      WordsAreBits(bytes[..n - 2], i);
      EarlierBit(bytes, i);
    } else {
      LastWord(bytes, i, i - (n - 2) / 2 * 16);
    }
  }

  lemma WordsGrow(bytes: seq<byte>)
    requires |bytes| % 2 == 0 && |bytes| > 0
    ensures var init := bytes[..|bytes| - 2];
      |Words(init)| == |init| / 2 * 16 && Words(bytes)[..|Words(init)|] == Words(init)
    ensures (|bytes| - 2) / 2 * 16 + 16 == |bytes| / 2 * 16
  {
    hide BitsOf;
  }

  lemma EarlierBit(bytes: seq<byte>, i: nat)
    requires |bytes| % 2 == 0 && |bytes| > 0 && i < (|bytes| - 2) / 2 * 16
    ensures BitAt(bytes, i) == BitAt(bytes[..|bytes| - 2], i)
  {
    hide Pow2;
  }

  lemma LastWord(bytes: seq<byte>, i: nat, k: nat)
    requires |bytes| >= 2 && k < 16 && i == (|bytes| - 2) / 2 * 16 + k && |bytes| % 2 == 0
    ensures Words(bytes)[i] == BitAt(bytes, i)
  {
    hide BitsOf, Pow2;
    var n := |bytes|;
    QuotientIs(i, (n - 2) / 2, k, 16);
    WordBits(bytes[n - 2], bytes[n - 1], k);
    if k < 8 { QuotientIs(i, (n - 2) / 2 * 2, k, 8); } else { QuotientIs(i, (n - 2) / 2 * 2 + 1, k - 8, 8); }
  }

  lemma WordBits(low: byte, high: byte, k: nat)
    requires k < 16
    ensures BitsOf(Join(low, high), 16)[k] == if k < 8 then high / Pow2(7 - k) % 2 == 1 else low / Pow2(15 - k) % 2 == 1
  {
    Pow2Values();
    hide BitsOf, Pow2;
    SplitBits(high, low, 8, 8);
    if k < 8 { BitOfNumber(high, 8, k); } else { BitOfNumber(low, 8, k - 8); }
  }

  // ----- code words

  /** A run of zeroes and a value, as a player's word has them: six bits and
      ten, the value in two's complement. */
  function WordOf(run: nat, v: int): int {
    0x400 * run + (if v < 0 then v + 0x400 else v)
  }

  /** A row's code is followed by a bit that is set for a negative value. */
  lemma RowCode(i: nat, negative: bool)
    requires i < ROWS
    ensures var r := RowAt(i);
      var w := WordOf(r.run, if negative then 0 - r.level else r.level);
      0 <= w < 0x1_0000 && Emitted(w) == BitsOf(r.code, r.bits) + [negative]
  {
    hide RowAt, BitsOf, Lookup, Emitted, RowOf, Grouped;
    var r, sign := RowAt(i), if negative then 1 else 0;
    RowFacts(i);
    var w := WordOf(r.run, if negative then 0 - r.level else r.level);
    assert Codes(i, w, sign) by { assert (0 - r.level) % 0x400 == 0x400 - r.level; }
    RowUsed(i, w, sign);
    EmittedIs(w);
    RowSmall(i);
    RowForm(r, sign);
    CodeOfRowIs(i, sign);
  }

  /** What no row has is six bits, 000001, and the word. */
  lemma EscapeCode(run: nat, v: int)
    requires run < 64 && -0x200 <= v <= 0x1FF
    requires forall i :: 0 <= i < ROWS ==> !Names(RowAt(i), run, v)
    ensures 0 <= WordOf(run, v) < 0x1_0000
    ensures Emitted(WordOf(run, v)) == [false, false, false, false, false, true] + BitsOf(WordOf(run, v), 16)
  {
    hide RowAt, Emitted, RowOf, Grouped, RowBits;
    var w := WordOf(run, v);
    var i, sign := EmittedForms(w);
    if i < ROWS {
      RowFacts(i);
      WordParts(RowAt(i), sign, w);
      NamedBy(RowAt(i), sign, w, run, v);
    }
    assert BitsOf(1, 6) == [false, false, false, false, false, true];
  }

  predicate Names(r: Row, run: nat, v: int) {
    r.run == run && (v == r.level || v == 0 - r.level)
  }

  lemma NamedBy(r: Row, sign: nat, w: nat, run: nat, v: int)
    requires run < 64 && -0x200 <= v <= 0x1FF && w == WordOf(run, v) && 1 <= r.level <= 40
    requires w / 0x400 == r.run && w % 0x400 == if sign == 1 then 0x400 - r.level else r.level
    ensures Names(r, run, v)
  {
    QuotientIs(w, run, if v < 0 then v + 0x400 else v, 0x400);
  }

  // ----- a block

  /** What a player does with a block's words: each moves on by its run and one
      more in scan order, and is stored there. */
  function Played(ws: seq<word16>, k: nat, b: seq<int>): (c: seq<int>)
    requires |b| == 64
    ensures |c| == 64
    decreases |ws|
  {
    if ws == [] then b
    else
      var w: int := ws[0];
      var next := k + w / 0x400 + 1;
      var v := if w % 0x400 < 0x200 then w % 0x400 else w % 0x400 - 0x400;
      Played(ws[1..], next, if next < 64 then b[ZagZig(next) := v] else b)
  }

  /** Up to scan place `j` the blocks agree, behind it `b` is zero. */
  predicate AgreeUpTo(b: seq<int>, q: seq<int>, j: nat) {
    |b| == |q| == 64 && forall m :: 0 <= m < 64 ==> b[ZagZig(m)] == if m <= j then q[ZagZig(m)] else 0
  }

  lemma {:induction false} PlayedRuns(q: seq<int>, b: seq<int>, j: nat, zeroes: nat)
    requires IsBlock(q) && InTenBits(q) && zeroes <= j <= 63 && AgreeUpTo(b, q, j)
    ensures Played(Runs(Scan(q)[j..], zeroes), j - zeroes, b) == q
    decreases 63 - j
  {
    hide ZagZig, RunWord, InTenBits;
    var zs := Scan(q);
    if j == 63 {
      assert zs[j..] == [];
      AllPlaces(b, q);
    } else {
      assert zs[j..][1..] == zs[j + 1..] && zs[j..][0] == q[ZagZig(j + 1)];
      if zs[j] == 0 {
        ZeroPlace(b, q, j);
        PlayedRuns(q, b, j + 1, zeroes + 1);
      } else {
        var v := zs[j];
        var ws := Runs(zs[j..], zeroes);
        assert ws[0] == RunWord(zeroes, v) && ws[1..] == Runs(zs[j + 1..], 0);
        TenBitValue(q, ZagZig(j + 1));
        SignedBack(zeroes, v);
        NextPlace(b, q, j);
        PlayedRuns(q, b[ZagZig(j + 1) := v], j + 1, 0);
      }
    }
  }

  lemma TenBitValue(q: seq<int>, i: nat)
    requires IsBlock(q) && InTenBits(q) && i < 64
    ensures -0x200 <= q[i] <= 0x1FF
  {}

  lemma AllPlaces(b: seq<int>, q: seq<int>)
    requires AgreeUpTo(b, q, 63)
    ensures b == q
  {
    hide ZagZig, ZigZag;
    forall i | 0 <= i < 64
      ensures b[i] == q[i]
    {
      ScanPermutes(i);
      assert b[ZagZig(ZigZag(i))] == q[ZagZig(ZigZag(i))];
    }
  }

  lemma ZeroPlace(b: seq<int>, q: seq<int>, j: nat)
    requires AgreeUpTo(b, q, j) && j < 63 && q[ZagZig(j + 1)] == 0
    ensures AgreeUpTo(b, q, j + 1)
  {
    hide ZagZig;
  }

  lemma NextPlace(b: seq<int>, q: seq<int>, j: nat)
    requires AgreeUpTo(b, q, j) && j < 63
    ensures AgreeUpTo(b[ZagZig(j + 1) := q[ZagZig(j + 1)]], q, j + 1)
  {
    hide ZagZig, ZigZag;
    var n := j + 1;
    forall m | 0 <= m < 64
      ensures ZagZig(m) == ZagZig(n) ==> m == n
    {
      ScanPermutes(m);
      ScanPermutes(n);
    }
  }

  /** A block's bits are its first value in ten bits, the code words of its
      words, and 10; and a player that carries the words out has the block. */
  lemma BlockPlays(q: seq<int>)
    requires IsBlock(q) && InTenBits(q)
    ensures var ws := Runs(Scan(q), 0);
      && BlockBits(q) == BitsOf(WordOf(0, q[0]), 10) + CodeWords(ws) + [true, false]
      && Played(ws, 0, [q[0]] + seq(63, _ => 0)) == q
  {
    hide ZagZig, BitsOf, Runs, Scan, CodeWords, Played;
    FirstInRange(q);
    assert q[0] % 0x400 == WordOf(0, q[0]);
    var b := [q[0]] + seq(63, _ => 0);
    OnlyFirst(q, b);
    PlayedRuns(q, b, 0, 0);
    assert Scan(q)[0..] == Scan(q);
  }

  lemma OnlyFirst(q: seq<int>, b: seq<int>)
    requires IsBlock(q) && b == [q[0]] + seq(63, _ => 0)
    ensures AgreeUpTo(b, q, 0)
  {
    FirstStays();
    hide ZagZig, ZigZag;
    forall m | 0 <= m < 64
      ensures b[ZagZig(m)] == if m <= 0 then q[ZagZig(m)] else 0
    {
      if m > 0 { InScan(m); }
    }
  }
}
