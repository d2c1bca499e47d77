/** One 8 by 8 block of coefficients: thresholding, quantisation, run-length
    words in zigzag order, and the decoder that takes them back. */
module MdecBlock {
  import opened Wrappers
  import opened Arithmetic
  import opened Bits
  import opened BitStrings
  import opened HuffmanCodes
  import opened FrameBudget
  import opened FiniteSets

  // ----- tables

  /** Column `c` of a table row. */
  function Pick(c: nat, x0: nat, x1: nat, x2: nat, x3: nat, x4: nat, x5: nat, x6: nat, x7: nat): nat {
    if c < 4 then if c < 2 then if c < 1 then x0 else x1 else if c < 3 then x2 else x3
    else if c < 6 then if c < 5 then x4 else x5 else if c < 7 then x6 else x7
  }

  /** `quant_dec` */
  function QuantDec(i: nat): (q: nat)
    ensures 2 <= q <= 83
  {
    match i / 8
    case 0 => Pick(i % 8, 2, 16, 19, 22, 26, 27, 29, 34)
    case 1 => Pick(i % 8, 16, 16, 22, 24, 27, 29, 34, 37)
    case 2 => Pick(i % 8, 19, 22, 26, 27, 29, 34, 34, 38)
    case 3 => Pick(i % 8, 22, 22, 26, 27, 29, 34, 37, 40)
    case 4 => Pick(i % 8, 22, 26, 27, 29, 32, 35, 40, 48)
    case 5 => Pick(i % 8, 26, 27, 29, 32, 35, 40, 48, 58)
    case 6 => Pick(i % 8, 26, 27, 29, 34, 38, 46, 56, 69)
    case _ => Pick(i % 8, 27, 29, 35, 38, 46, 56, 69, 83)
  }

  /** `dct_zigzag_table`: where in the scan a position comes. */
  function ZigZag(i: nat): (r: nat)
    ensures r < 64
  {
    match i / 8
    case 0 => Pick(i % 8, 0x00, 0x01, 0x05, 0x06, 0x0E, 0x0F, 0x1B, 0x1C)
    case 1 => Pick(i % 8, 0x02, 0x04, 0x07, 0x0D, 0x10, 0x1A, 0x1D, 0x2A)
    case 2 => Pick(i % 8, 0x03, 0x08, 0x0C, 0x11, 0x19, 0x1E, 0x29, 0x2B)
    case 3 => Pick(i % 8, 0x09, 0x0B, 0x12, 0x18, 0x1F, 0x28, 0x2C, 0x35)
    case 4 => Pick(i % 8, 0x0A, 0x13, 0x17, 0x20, 0x27, 0x2D, 0x34, 0x36)
    case 5 => Pick(i % 8, 0x14, 0x16, 0x21, 0x26, 0x2E, 0x33, 0x37, 0x3C)
    case 6 => Pick(i % 8, 0x15, 0x22, 0x25, 0x2F, 0x32, 0x38, 0x3B, 0x3D)
    case _ => Pick(i % 8, 0x23, 0x24, 0x30, 0x31, 0x39, 0x3A, 0x3E, 0x3F)
  }

  /** `dct_zagzig_table`: the position that the scan reaches. */
  function ZagZig(i: nat): (r: nat)
    ensures r < 64
  {
    match i / 8
    case 0 => Pick(i % 8, 0x00, 0x01, 0x08, 0x10, 0x09, 0x02, 0x03, 0x0A)
    case 1 => Pick(i % 8, 0x11, 0x18, 0x20, 0x19, 0x12, 0x0B, 0x04, 0x05)
    case 2 => Pick(i % 8, 0x0C, 0x13, 0x1A, 0x21, 0x28, 0x30, 0x29, 0x22)
    case 3 => Pick(i % 8, 0x1B, 0x14, 0x0D, 0x06, 0x07, 0x0E, 0x15, 0x1C)
    case 4 => Pick(i % 8, 0x23, 0x2A, 0x31, 0x38, 0x39, 0x32, 0x2B, 0x24)
    case 5 => Pick(i % 8, 0x1D, 0x16, 0x0F, 0x17, 0x1E, 0x25, 0x2C, 0x33)
    case 6 => Pick(i % 8, 0x3A, 0x3B, 0x34, 0x2D, 0x26, 0x1F, 0x27, 0x2E)
    case _ => Pick(i % 8, 0x35, 0x3C, 0x3D, 0x36, 0x2F, 0x37, 0x3E, 0x3F)
  }

  /** The scan is a permutation, and the two tables are inverse. */
  lemma ScanPermutes(i: nat)
    requires i < 64
    ensures ZigZag(ZagZig(i)) == i && ZagZig(ZigZag(i)) == i
  {
    hide ZigZag, ZagZig;
    if i < 16 { Scan0(i); } else if i < 32 { Scan16(i); } else if i < 48 { Scan32(i); } else { Scan48(i); }
  }

  lemma Scan0(i: nat)
    requires 0 <= i < 16
    ensures ZigZag(ZagZig(i)) == i && ZagZig(ZigZag(i)) == i
  {}

  lemma Scan16(i: nat)
    requires 16 <= i < 32
    ensures ZigZag(ZagZig(i)) == i && ZagZig(ZigZag(i)) == i
  {}

  lemma Scan32(i: nat)
    requires 32 <= i < 48
    ensures ZigZag(ZagZig(i)) == i && ZagZig(ZigZag(i)) == i
  {}

  lemma Scan48(i: nat)
    requires 48 <= i < 64
    ensures ZigZag(ZagZig(i)) == i && ZagZig(ZigZag(i)) == i
  {}

  // ----- from coefficients to code words

  predicate IsBlock(b: seq<int>) {
    |b| == 64
  }

  predicate InTenBits(b: seq<int>) {
    forall i :: 0 <= i < |b| ==> -0x200 <= b[i] <= 0x1FF
  }

  /** A coefficient divided by its step and clamped to ten bits. */
  function QuantisedAt(v: int, i: nat): (r: int)
    ensures -0x200 <= r <= 0x1FF
  {
    Clamp(CDiv(v, QuantDec(i)), -0x200, 0x1FF)
  }

  function Quantised(b: seq<int>): (q: seq<int>)
    requires IsBlock(b)
    ensures IsBlock(q) && InTenBits(q)
  {
    seq(64, i requires 0 <= i < 64 => QuantisedAt(b[i], i))
  }

  /** The 63 coefficients behind the first, in scan order. */
  function Scan(q: seq<int>): (zs: seq<int>)
    requires IsBlock(q)
    ensures |zs| == 63
  {
    seq(63, k requires 0 <= k < 63 => q[ZagZig(k + 1)])
  }

  /** One word for each value that is not zero: how many zeroes come before
      it, and its low ten bits. */
  function Runs(zs: seq<int>, zeroes: nat): (ws: seq<word16>)
    requires zeroes + |zs| <= 63
    decreases |zs|
  {
    if zs == [] then []
    else if zs[0] == 0 then Runs(zs[1..], zeroes + 1)
    else [RunWord(zeroes, zs[0])] + Runs(zs[1..], 0)
  }

  lemma {:induction false} OneWordEach(zs: seq<int>, zeroes: nat)
    requires zeroes + |zs| <= 63
    ensures |Runs(zs, zeroes)| == NonZeroes(zs)
    decreases |zs|
  {
    if zs != [] {
      OneWordEach(zs[1..], if zs[0] == 0 then zeroes + 1 else 0);
      NonZeroesConcat(zs[..1], zs[1..]);
      assert zs == zs[..1] + zs[1..];
      assert zs[..1][..0] == [];
    }
  }

  function CodeWords(ws: seq<word16>): seq<bool> {
    if ws == [] then [] else Emitted(ws[0]) + CodeWords(ws[1..])
  }

  /** `encode_dct_block`, for a quantised block. */
  function BlockBits(q: seq<int>): seq<bool>
    requires IsBlock(q)
  {
    BitsOf(q[0] % 0x400, 10) + CodeWords(Runs(Scan(q), 0)) + END_BITS
  }

  // ----- and back

  function ReadWords(s: seq<bool>): Option<(seq<word16>, seq<bool>)>
    decreases |s|
  {
    match ReadSymbol(s)
    case None => None
    case Some(Reading(EndOfBlock, rest)) => Some(([], rest))
    case Some(Reading(Coefficient(w), rest)) =>
      match ReadWords(rest)
      case None => None
      case Some((ws, end)) => Some(([w] + ws, end))
  }

  /** The low ten bits as a signed number. */
  function Signed(w: nat): int {
    if w % 0x400 < 0x200 then w % 0x400 else w % 0x400 - 0x400
  }

  function Expand(ws: seq<word16>): seq<int> {
    if ws == [] then [] else seq(ws[0] / 0x400, _ => 0) + [Signed(ws[0])] + Expand(ws[1..])
  }

  function Unscan(dc: int, zs: seq<int>): (q: seq<int>)
    requires |zs| == 63
    ensures IsBlock(q)
  {
    seq(64, k requires 0 <= k < 64 => if ZigZag(k) == 0 then dc else zs[ZigZag(k) - 1])
  }

  /** What a decoder makes of a block: ten bits, then runs up to the end code,
      zeroes to fill it up. */
  function ReadBlock(s: seq<bool>): (r: Option<(seq<int>, seq<bool>)>)
    ensures r.Some? ==> IsBlock(r.value.0) && |r.value.1| < |s|
  {
    if |s| < 10 then None
    else
      match ReadWords(s[10..])
      case None => None
      case Some((ws, rest)) =>
        var zs := Expand(ws);
        if |zs| > 63 || |rest| > |s| - 10 then None
        else Some((Unscan(Signed(ValueOf(s[..10])), zs + seq(63 - |zs|, _ => 0)), rest))
  }

  lemma {:induction false} WordsRead(ws: seq<word16>, rest: seq<bool>)
    ensures ReadWords(CodeWords(ws) + END_BITS + rest) == Some((ws, rest))
  {
    hide ReadSymbol, Emitted;
    if ws == [] {
      EndReads(rest);
      assert CodeWords(ws) + END_BITS + rest == END_BITS + rest;
    } else {
      var tail := CodeWords(ws[1..]) + END_BITS + rest;
      assert CodeWords(ws) + END_BITS + rest == Emitted(ws[0]) + tail;
      CoefficientReads(ws[0], tail);
      WordsRead(ws[1..], rest);
      assert [ws[0]] + ws[1..] == ws;
    }
  }

  lemma SignedBack(run: nat, v: int)
    requires -0x200 <= v <= 0x1FF
    ensures Signed(RunWord(run, v)) == v && RunWord(run, v) / 0x400 == run
    ensures Signed(v % 0x400) == v
  {}

  /** Filled up with zeroes, the expanded runs are the scan again. */
  lemma {:induction false} RunsExpand(zs: seq<int>, zeroes: nat)
    requires zeroes + |zs| <= 63 && InTenBits(zs)
    ensures var es := Expand(Runs(zs, zeroes));
      && |es| <= zeroes + |zs|
      && es + seq(zeroes + |zs| - |es|, _ => 0) == seq(zeroes, _ => 0) + zs
    decreases |zs|
  {
    if zs != [] {
      hide RunWord, Signed;
      if zs[0] == 0 {
        RunsExpand(zs[1..], zeroes + 1);
        assert seq(zeroes + 1, _ => 0) + zs[1..] == seq(zeroes, _ => 0) + zs;
      } else {
        RunsExpand(zs[1..], 0);
        SignedBack(zeroes, zs[0]);
        ExpandStep(RunWord(zeroes, zs[0]), Runs(zs[1..], 0), zeroes, zs[0]);
        FillBehind(seq(zeroes, _ => 0) + [zs[0]], Expand(Runs(zs[1..], 0)), zs[1..]);
        assert seq(zeroes, _ => 0) + [zs[0]] + zs[1..] == seq(zeroes, _ => 0) + zs;
      }
    }
  }

  lemma ExpandStep(w: word16, ws: seq<word16>, zeroes: nat, v: int)
    requires w / 0x400 == zeroes && Signed(w) == v
    ensures Expand([w] + ws) == seq(zeroes, _ => 0) + [v] + Expand(ws)
  {
    assert ([w] + ws)[1..] == ws;
  }

  lemma FillBehind(front: seq<int>, es: seq<int>, zs: seq<int>)
    requires |es| <= |zs| && es + seq(|zs| - |es|, _ => 0) == seq(0, _ => 0) + zs
    ensures front + es + seq(|zs| - |es|, _ => 0) == front + zs
  {
    assert front + es + seq(|zs| - |es|, _ => 0) == front + (es + seq(|zs| - |es|, _ => 0));
    assert seq(0, _ => 0) + zs == zs;
  }

  lemma ScanBack(q: seq<int>)
    requires IsBlock(q)
    ensures Unscan(q[0], Scan(q)) == q
  {
    hide ZigZag, ZagZig;
    forall k | 0 <= k < 64
      ensures Unscan(q[0], Scan(q))[k] == q[k]
    {
      ScanPermutes(k);
      FirstStays();
    }
  }

  lemma FirstStays()
    ensures ZagZig(0) == 0 == ZigZag(0)
  {}

  /** A decoder recovers every quantised block, and where it ended. */
  lemma BlockReads(q: seq<int>, rest: seq<bool>)
    requires IsBlock(q) && InTenBits(q)
    ensures ReadBlock(BlockBits(q) + rest) == Some((q, rest))
  {
    hide ReadWords, Expand, Runs, CodeWords, Unscan, Scan, BitsOf, ValueOf, InTenBits;
    var dc, ws := q[0] % 0x400, Runs(Scan(q), 0);
    var s := BlockBits(q) + rest;
    assert s[..10] == BitsOf(dc, 10);
    assert s[10..] == CodeWords(ws) + END_BITS + rest;
    WordsRead(ws, rest);
    Pow2Ten();
    ValueOfBits(dc, 10);
    FirstInRange(q);
    SignedBack(0, q[0]);
    ScanInRange(q);
    RunsExpand(Scan(q), 0);
    ScanBack(q);
    assert seq(0, _ => 0) + Scan(q) == Scan(q);
    assert |rest| <= |s| - 10;
  }

  lemma FirstInRange(q: seq<int>)
    requires IsBlock(q) && InTenBits(q)
    ensures -0x200 <= q[0] <= 0x1FF
  {}

  lemma ScanInRange(q: seq<int>)
    requires IsBlock(q) && InTenBits(q)
    ensures InTenBits(Scan(q))
  {}

  lemma Pow2Ten()
    ensures Pow2(10) == 0x400
  {}

  // ----- thresholding

  /** The end of `transform_dct_block`: a coefficient is scaled down, and goes
      if it is below its quantisation step. */
  function Finished(v: int, i: nat): int {
    var r := CDiv(if i == 0 then CDiv(v, 8) else v, 4);
    if Abs(r) < QuantDec(i) then 0 else r
  }

  predicate ThresholdedAt(v: int, i: nat) {
    v == 0 || Abs(v) >= QuantDec(i)
  }

  predicate Thresholded(b: seq<int>)
    requires IsBlock(b)
  {
    forall i :: 0 <= i < 64 ==> ThresholdedAt(b[i], i)
  }

  /** A coefficient that has passed the threshold never quantises to zero. */
  lemma SurvivesQuantisation(v: int, i: nat)
    requires ThresholdedAt(v, i)
    ensures QuantisedAt(v, i) == 0 <==> v == 0
  {
    hide QuantDec;
    var q := QuantDec(i);
    if v >= q { DivideAtLeastOne(v, q); }
    if -v >= q { DivideAtLeastOne(-v, q); }
  }

  lemma DivideAtLeastOne(v: int, q: int)
    requires v >= q > 0
    ensures v / q >= 1
  {}

  // ----- the scan keeps the count

  ghost function Support(zs: seq<int>): set<int> {
    set i | 0 <= i < |zs| && zs[i] != 0
  }

  lemma {:induction false} NonZeroesIsSize(zs: seq<int>)
    ensures NonZeroes(zs) == |Support(zs)|
  {
    if zs != [] {
      var n := |zs| - 1;
      NonZeroesIsSize(zs[..n]);
      assert Support(zs) == Support(zs[..n]) + (if zs[n] != 0 then {n} else {});
    }
  }

  function Forth(k: int): int {
    if 0 <= k < 63 then ZagZig(k + 1) - 1 else k
  }

  function Back(k: int): int {
    if 0 <= k < 63 then ZigZag(k + 1) - 1 else k
  }

  lemma ForthAndBack(k: int)
    requires 0 <= k < 63
    ensures 0 <= Forth(k) < 63 && Back(Forth(k)) == k
    ensures 0 <= Back(k) < 63 && Forth(Back(k)) == k
  {
    FirstStays();
    hide ZigZag, ZagZig;
    ScanPermutes(k + 1);
    var i: int, j: int := ZagZig(k + 1), ZigZag(k + 1);
    assert 0 < i < 64 && 0 < j < 64 by { InScan(k + 1); }
  }

  lemma InScan(i: nat)
    requires 0 < i < 64
    ensures 0 < ZagZig(i) < 64 && 0 < ZigZag(i) < 64
  {
    ScanPermutes(i);
    FirstStays();
    hide ZigZag, ZagZig;
  }

  lemma ScanOf(q: seq<int>, k: int)
    requires IsBlock(q) && 0 <= k < 63
    ensures 0 <= Forth(k) < 63 && Scan(q)[k] == q[1..][Forth(k)]
  {
    InScan(k + 1);
    hide ZigZag, ZagZig;
  }

  /** Scanning only reorders. */
  lemma ScanKeepsCount(q: seq<int>)
    requires IsBlock(q)
    ensures NonZeroes(Scan(q)) == NonZeroes(q[1..])
  {
    hide NonZeroes, Forth, Back, Scan;
    var zs, cs := Scan(q), q[1..];
    NonZeroesIsSize(zs);
    NonZeroesIsSize(cs);
    forall k | 0 <= k < 63
      ensures 0 <= Forth(k) < 63 && Back(Forth(k)) == k && zs[k] == cs[Forth(k)]
      ensures 0 <= Back(k) < 63 && Forth(Back(k)) == k && cs[k] == zs[Back(k)]
    {
      ForthAndBack(k);
      ScanOf(q, k);
      ScanOf(q, Back(k));
    }
    ImageNoLarger(Support(zs), Support(cs), Forth);
    ImageNoLarger(Support(cs), Support(zs), Back);
  }

  /** As many code words as there were coefficients other than zero. */
  lemma WordsPerBlock(b: seq<int>)
    requires IsBlock(b) && Thresholded(b)
    ensures |Runs(Scan(Quantised(b)), 0)| == NonZeroes(b[1..])
  {
    hide Runs, NonZeroes, Scan;
    var q := Quantised(b);
    OneWordEach(Scan(q), 0);
    ScanKeepsCount(q);
    SameSupport(b);
  }

  lemma SameSupport(b: seq<int>)
    requires IsBlock(b) && Thresholded(b)
    ensures NonZeroes(Quantised(b)[1..]) == NonZeroes(b[1..])
  {
    hide NonZeroes, QuantisedAt;
    var q := Quantised(b);
    NonZeroesIsSize(q[1..]);
    NonZeroesIsSize(b[1..]);
    forall i | 0 <= i < 63
      ensures q[1..][i] == 0 <==> b[1..][i] == 0
    {
      assert ThresholdedAt(b[i + 1], i + 1);
      SurvivesQuantisation(b[i + 1], i + 1);
    }
    assert Support(q[1..]) == Support(b[1..]);
  }

  lemma {:induction false} CodeWordsLength(ws: seq<word16>)
    ensures |CodeWords(ws)| <= 22 * |ws|
  {
    hide Emitted;
    if ws != [] {
      EmittedLength(ws[0]);
      CodeWordsLength(ws[1..]);
    }
  }

  /** A block takes twelve bits and at most 22 for each coefficient kept. */
  lemma BlockLength(b: seq<int>)
    requires IsBlock(b) && Thresholded(b)
    ensures |BlockBits(Quantised(b))| <= 12 + 22 * NonZeroes(b[1..])
  {
    WordsPerBlock(b);
    CodeWordsLength(Runs(Scan(Quantised(b)), 0));
    hide CodeWords, Runs, Scan, Quantised, NonZeroes, Thresholded;
  }
}
