/** Coding a frame: each block is quantised in place, its run-length words are
    coded, and the bits go through the writer. */
module FrameCoder {
  import opened Wrappers
  import opened Arithmetic
  import opened Bits
  import opened BitStrings
  import opened BitWriter
  import opened HuffmanCodes
  import opened FrameBudget
  import opened MdecBlock
  import opened FrameLayout
  import opened FrameShedder

  // ----- one block

  /** A map over the places of a block, done for the first `i`. */
  predicate MappedUpTo(b: seq<int>, c: seq<int>, i: nat, f: (int, nat) -> int) {
    |b| == |c| == 64 && forall k :: 0 <= k < 64 ==> c[k] == if k < i then f(b[k], k) else b[k]
  }

  lemma MappedNext(b: seq<int>, c: seq<int>, i: nat, f: (int, nat) -> int)
    requires MappedUpTo(b, c, i, f) && i < 64
    ensures c[i] == b[i] && MappedUpTo(b, c[i := f(b[i], i)], i + 1, f)
  {}

  /** The loop that ends `transform_dct_block`. */
  method FinishTransform(coefs: array<int>, at: nat)
    requires at + 64 <= coefs.Length
    modifies coefs
    ensures OnlyBlock(old(coefs[..]), coefs[..], at)
    ensures MappedUpTo(old(BlockIn(coefs[..], at)), BlockIn(coefs[..], at), 64, Finished)
    ensures Thresholded(BlockIn(coefs[..], at))
  {
    ghost var s, b := coefs[..], BlockIn(coefs[..], at);
    coefs[at] := CDiv(coefs[at], 8);
    ghost var head := b[0 := CDiv(b[0], 8)];
    assert coefs[at..at + 64] == head;
    hide QuantDec, CDiv, MappedUpTo;
    assert MappedUpTo(head, head, 0, ScaledAt) by { MappedNone(head, ScaledAt); }
    for i := 0 to 64
      invariant coefs[..at] == s[..at] && coefs[at + 64..] == s[at + 64..]
      invariant MappedUpTo(head, coefs[at..at + 64], i, ScaledAt)
    {
      ghost var c := coefs[at..at + 64];
      MappedNext(head, c, i, ScaledAt);
      coefs[at + i] := CDiv(coefs[at + i], 4);
      if Abs(coefs[at + i]) < QuantDec(i) {
        coefs[at + i] := 0;
      }
      assert coefs[at..at + 64] == c[i := ScaledAt(head[i], i)];
    }
    FinishedAll(b, head, coefs[at..at + 64]);
  }

  function ScaledAt(v: int, i: nat): int {
    if Abs(CDiv(v, 4)) < QuantDec(i) then 0 else CDiv(v, 4)
  }

  lemma MappedNone(b: seq<int>, f: (int, nat) -> int)
    requires |b| == 64
    ensures MappedUpTo(b, b, 0, f)
  {}

  lemma FinishedAll(b: seq<int>, head: seq<int>, c: seq<int>)
    requires |b| == 64 && head == b[0 := CDiv(b[0], 8)] && MappedUpTo(head, c, 64, ScaledAt)
    ensures MappedUpTo(b, c, 64, Finished) && Thresholded(c)
  {
    hide QuantDec, CDiv;
  }

  /** The loop that starts `encode_dct_block`. */
  method QuantiseBlock(coefs: array<int>, at: nat)
    requires at + 64 <= coefs.Length
    modifies coefs
    ensures OnlyBlock(old(coefs[..]), coefs[..], at)
    ensures BlockIn(coefs[..], at) == Quantised(old(BlockIn(coefs[..], at)))
  {
    ghost var s, b := coefs[..], BlockIn(coefs[..], at);
    hide QuantDec, CDiv, MappedUpTo;
    MappedNone(b, QuantisedAt);
    for i := 0 to 64
      invariant coefs[..at] == s[..at] && coefs[at + 64..] == s[at + 64..]
      invariant MappedUpTo(b, coefs[at..at + 64], i, QuantisedAt)
    {
      ghost var c := coefs[at..at + 64];
      MappedNext(b, c, i, QuantisedAt);
      coefs[at + i] := CDiv(coefs[at + i], QuantDec(i));
      if coefs[at + i] < -0x200 { coefs[at + i] := -0x200; }
      if coefs[at + i] > 0x1FF { coefs[at + i] := 0x1FF; }
      assert coefs[at..at + 64] == c[i := QuantisedAt(b[i], i)];
    }
    QuantisedAll(b, coefs[at..at + 64]);
  }

  lemma QuantisedAll(b: seq<int>, c: seq<int>)
    requires MappedUpTo(b, c, 64, QuantisedAt)
    ensures c == Quantised(b)
  {
    hide QuantisedAt;
  }

  /** The run-length words of a block, in a buffer of 64. */
  method BuildRuns(coefs: array<int>, at: nat) returns (zeroRleData: array<word16>, zeroRleWords: nat)
    requires at + 64 <= coefs.Length
    ensures fresh(zeroRleData) && zeroRleWords <= zeroRleData.Length
    ensures zeroRleData[..zeroRleWords] == Runs(Scan(BlockIn(coefs[..], at)), 0)
  {
    hide ZagZig, RunWord;
    ghost var zs := Scan(BlockIn(coefs[..], at));
    zeroRleData := new word16[64];
    zeroRleWords := 0;
    var zeroes := 0;
    assert zs[0..] == zs;
    for i := 1 to 64
      invariant zeroRleWords < i && zeroes < i
      invariant zeroRleData[..zeroRleWords] + Runs(zs[i - 1..], zeroes) == Runs(zs, 0)
    {
      var ri := ZagZig(i);
      assert zs[i - 1..][0] == coefs[at + ri] && zs[i - 1..][1..] == zs[i..];
      ghost var before := zeroRleData[..zeroRleWords];
      if coefs[at + ri] == 0 {
        zeroes := zeroes + 1;
      } else {
        RunWordFits(zeroes, coefs[at + ri]);
        zeroRleData[zeroRleWords] := RunWord(zeroes, coefs[at + ri]);
        zeroRleWords := zeroRleWords + 1;
        assert zeroRleData[..zeroRleWords] == before + [RunWord(zeroes, coefs[at + ri])];
        zeroes := 0;
      }
    }
    assert zs[63..] == [];
  }

  lemma RunWordFits(zeroes: nat, v: int)
    requires zeroes < 64
    ensures RunWord(zeroes, v) < 0x1_0000
  {}

  // ----- code words into the writer

  /** The map that `init_dct_data` filled. */
  predicate MapReady(encodingMap: seq<word32>) {
    |encodingMap| == 0x1_0000 && forall w :: 0 <= w < 0x1_0000 ==> encodingMap[w] == Lookup(w, ROWS)
  }

  lemma EntryFits(w: word16)
    ensures Lookup(w, ROWS) % 0x100_0000 < Pow2(Lookup(w, ROWS) / 0x100_0000)
  {
    hide Lookup, RowAt, Codes, CodeOfRow;
    var i, sign := LookupCases(w, ROWS);
    if i < ROWS {
      RowFits(i, sign);
    } else {
      EscapeFits(w);
    }
  }

  lemma RowFits(i: nat, sign: nat)
    requires i < ROWS && sign < 2
    ensures CodeOfRow(i, sign) % 0x100_0000 < Pow2(CodeOfRow(i, sign) / 0x100_0000)
  {
    hide RowAt, Indexed, RowOf;
    RowFacts(i);
    RowSmall(i);
    var r := RowAt(i);
    CodeFits(r.bits, r.code);
    UnpackRow(r, sign);
    assert Pow2(r.bits + 1) == 2 * Pow2(r.bits);
    hide Grouped, FirstOf, BaseOf, CountOf;
  }

  lemma UnpackRow(r: Row, sign: nat)
    requires r.bits <= 16 && r.code < 0x40 && sign < 2
    ensures Packed(r.bits + 1, 2 * r.code + sign) / 0x100_0000 == r.bits + 1
    ensures Packed(r.bits + 1, 2 * r.code + sign) % 0x100_0000 == 2 * r.code + sign
  {}

  lemma EscapeFits(w: word16)
    ensures Packed(22, 0x1_0000 + w) % 0x100_0000 < Pow2(Packed(22, 0x1_0000 + w) / 0x100_0000)
  {
    Pow2Values();
    Pow2Add(16, 6);
    assert Pow2(6) == 64;
    assert Packed(22, 0x1_0000 + w) / 0x100_0000 == 22 && Packed(22, 0x1_0000 + w) % 0x100_0000 == 0x1_0000 + w;
    hide Pow2;
  }

  /** `encode_ac_value`; false, as in all that follows, where the writer
      aborts the program, which is only when the bits do not fit. */
  method EncodeAcValue(w: Writer, encodingMap: array<word32>, value: word16) returns (ok: bool)
    requires w.Valid() && MapReady(encodingMap[..]) && encodingMap as object != w.unmuxed
    modifies w, w.unmuxed
    ensures ok ==> w.Valid() && Extends(old(w.Now()), w.Now(), Emitted(value))
    ensures !ok ==> !old(Fits(w.Now(), |Emitted(value)|))
  {
    hide Lookup, Pow2, Extends, Fits, MapReady, BitsOf;
    EntryFits(value);
    EntryIs(encodingMap[..], value);
    EmittedIs(value);
    BitsLength(Lookup(value, ROWS) % 0x100_0000, Lookup(value, ROWS) / 0x100_0000);
    var outword := encodingMap[value];
    ok := w.EncodeBits(outword / 0x100_0000, outword % 0x100_0000);
  }

  lemma EntryIs(encodingMap: seq<word32>, value: word16)
    requires MapReady(encodingMap)
    ensures |encodingMap| == 0x1_0000 && encodingMap[value] == Lookup(value, ROWS)
  {
    hide Lookup;
  }

  lemma BitsLength(v: nat, n: nat)
    ensures |BitsOf(v, n)| == n
  {}

  /** The words of a block, one after another. */
  method EncodeWords(w: Writer, encodingMap: array<word32>, data: array<word16>, count: nat) returns (ok: bool)
    requires w.Valid() && MapReady(encodingMap[..]) && encodingMap as object != w.unmuxed
    requires count <= data.Length && data as object != w.unmuxed
    modifies w, w.unmuxed
    ensures ok ==> w.Valid() && Extends(old(w.Now()), w.Now(), CodeWords(data[..count]))
    ensures !ok ==> !old(Fits(w.Now(), |CodeWords(data[..count])|))
  {
    hide Emitted, MapReady, Extends, Fits, CodeWords, Low, Pow2, Writer.Now, Writer.Contents;
    NothingYet(w);
    ghost var ws, before := data[..count], w.Now();
    NoWords();
    for i := 0 to count
      invariant w.Valid() && Extends(before, w.Now(), CodeWords(ws[..i]))
    {
      ghost var s := w.Now();
      NextWord(ws, i);
      ok := EncodeAcValue(w, encodingMap, data[i]);
      if !ok {
        TooMuchLater(before, s, CodeWords(ws[..i]), |Emitted(ws[i])|, |CodeWords(ws)|);
        return;
      }
      ExtendsTwice(before, s, w.Now(), CodeWords(ws[..i]), Emitted(ws[i]));
    }
    assert ws[..count] == ws;
    ok := true;
  }

  lemma NothingYet(w: Writer)
    requires w.Valid()
    ensures Extends(w.Now(), w.Now(), [])
  {
    ExtendsNone(w.Now());
  }

  lemma NoWords()
    ensures CodeWords([]) == []
  {}

  lemma NextWord(ws: seq<word16>, i: nat)
    requires i < |ws|
    ensures CodeWords(ws[..i + 1]) == CodeWords(ws[..i]) + Emitted(ws[i])
    ensures |CodeWords(ws[..i])| + |Emitted(ws[i])| <= |CodeWords(ws)|
  {
    hide Emitted;
    CodeWordsConcat(ws[..i], ws[i..]);
    assert ws == ws[..i] + ws[i..];
    CodeWordsConcat(ws[..i], [ws[i]]);
    assert ws[..i + 1] == ws[..i] + [ws[i]];
    assert CodeWords([ws[i]]) == Emitted(ws[i]) + CodeWords([]);
    assert ws[i..][0] == ws[i];
  }

  lemma {:induction false} CodeWordsConcat(a: seq<word16>, b: seq<word16>)
    ensures CodeWords(a + b) == CodeWords(a) + CodeWords(b)
  {
    hide Emitted;
    if a == [] {
      assert a + b == b;
    } else {
      assert (a + b)[1..] == a[1..] + b;
      CodeWordsConcat(a[1..], b);
    }
  }

  /** The padding of a frame's uncompressed size. */
  function RoundUp16(n: nat): nat {
    (n + 15) / 16 * 16
  }

  /** `encode_dct_block` */
  method EncodeDctBlock(w: Writer, encodingMap: array<word32>, coefs: array<int>, at: nat, uncompHwordsUsed: nat)
    returns (ok: bool, hwords: nat)
    requires w.Valid() && MapReady(encodingMap[..]) && encodingMap as object != w.unmuxed
    requires at + 64 <= coefs.Length && coefs as object != w.unmuxed && coefs as object != encodingMap
    modifies w, w.unmuxed, coefs
    ensures OnlyBlock(old(coefs[..]), coefs[..], at)
    ensures BlockIn(coefs[..], at) == Quantised(old(BlockIn(coefs[..], at)))
    ensures ok ==> w.Valid() && Extends(old(w.Now()), w.Now(), BlockBits(BlockIn(coefs[..], at)))
    ensures ok ==> hwords == RoundUp16(uncompHwordsUsed + |Runs(Scan(BlockIn(coefs[..], at)), 0)| + 2)
    ensures !ok ==> !old(Fits(w.Now(), |BlockBits(Quantised(BlockIn(coefs[..], at)))|))
  {
    hide MapReady, Quantised, OnlyBlock, Extends, Fits, BlockBits, Low, Pow2;
    QuantiseBlock(coefs, at);
    var words;
    ok, words := CodeBlock(w, encodingMap, coefs, at);
    hwords := RoundUp16(uncompHwordsUsed + words + 2);
  }

  /** The rest of it, which only reads the block. */
  method CodeBlock(w: Writer, encodingMap: array<word32>, coefs: array<int>, at: nat) returns (ok: bool, words: nat)
    requires w.Valid() && MapReady(encodingMap[..]) && encodingMap as object != w.unmuxed
    requires at + 64 <= coefs.Length && coefs as object != w.unmuxed
    modifies w, w.unmuxed
    ensures ok ==> w.Valid() && Extends(old(w.Now()), w.Now(), BlockBits(BlockIn(coefs[..], at)))
    ensures ok ==> words == |Runs(Scan(BlockIn(coefs[..], at)), 0)|
    ensures !ok ==> !old(Fits(w.Now(), |BlockBits(BlockIn(coefs[..], at))|))
  {
    hide MapReady, Extends, Fits, Low, Pow2, CodeWords, Runs, Scan, BitsOf, Writer.Now, Writer.Contents;
    words := 0;
    ghost var q := BlockIn(coefs[..], at);
    ghost var before, dc, body := w.Now(), BitsOf(q[0] % 0x400, 10), CodeWords(Runs(Scan(q), 0));
    var dcValue := coefs[at];
    assert dcValue == q[0];
    TenBits(dcValue);
    ok := w.EncodeBits(10, dcValue % 0x400);
    if !ok {
      TooMuch(before, 10, |BlockBits(q)|);
      return;
    }
    ghost var s1 := w.Now();
    var data, count := BuildRuns(coefs, at);
    ok := EncodeWords(w, encodingMap, data, count);
    if !ok {
      TooMuchLater(before, s1, dc, |body|, |BlockBits(q)|);
      return;
    }
    ghost var s2 := w.Now();
    ExtendsTwice(before, s1, s2, dc, body);
    EndIsTwo();
    ok := w.EncodeBits(2, 2);
    if !ok {
      TooMuchLater(before, s2, dc + body, 2, |BlockBits(q)|);
      return;
    }
    ExtendsTwice(before, s2, w.Now(), dc + body, END_BITS);
    words := count;
  }

  lemma TenBits(v: int)
    ensures v % 0x400 < Pow2(10) && |BitsOf(v % 0x400, 10)| == 10
  {}

  lemma EndIsTwo()
    ensures BitsOf(2, 2) == END_BITS && 2 < Pow2(2)
  {}

  // ----- a whole frame

  function QuantisedAtVisit(coefs: seq<int>, d: Size, k: nat): (q: seq<int>)
    requires IsFrame(coefs, d) && k < Blocks(d)
    ensures IsBlock(q) && InTenBits(q)
  {
    Quantised(BlockAt(coefs, d, Coding, k))
  }

  /** The quantised blocks of the first `n` visits. */
  function QuantisedBlocks(coefs: seq<int>, d: Size, n: nat): seq<seq<int>>
    requires IsFrame(coefs, d) && n <= Blocks(d)
  {
    if n == 0 then [] else QuantisedBlocks(coefs, d, n - 1) + [QuantisedAtVisit(coefs, d, n - 1)]
  }

  /** Their bits. */
  function CodedBits(coefs: seq<int>, d: Size, n: nat): seq<bool>
    requires IsFrame(coefs, d) && n <= Blocks(d)
  {
    if n == 0 then [] else CodedBits(coefs, d, n - 1) + BlockBits(QuantisedAtVisit(coefs, d, n - 1))
  }

  const TRAILER: seq<bool> := BitsOf(0x1FF, 10) + END_BITS

  function FrameBits(coefs: seq<int>, d: Size): seq<bool>
    requires IsFrame(coefs, d)
  {
    CodedBits(coefs, d, Blocks(d)) + TRAILER
  }

  /** The uncompressed size that the encoder reports, in 16-bit words. */
  function Hwords(coefs: seq<int>, d: Size, n: nat): nat
    requires IsFrame(coefs, d) && n <= Blocks(d)
  {
    if n == 0 then 0
    else RoundUp16(Hwords(coefs, d, n - 1) + |Runs(Scan(QuantisedAtVisit(coefs, d, n - 1)), 0)| + 2)
  }

  // ----- reading it back

  /** `n` blocks off the front of a bit string. */
  function ReadBlocks(s: seq<bool>, n: nat): Option<(seq<seq<int>>, seq<bool>)> {
    if n == 0 then Some(([], s))
    else
      match ReadBlocks(s, n - 1)
      case None => None
      case Some((qs, rest)) =>
        match ReadBlock(rest)
        case None => None
        case Some((q, end)) => Some((qs + [q], end))
  }

  lemma {:induction false} BlocksRead(coefs: seq<int>, d: Size, n: nat, rest: seq<bool>)
    requires IsFrame(coefs, d) && n <= Blocks(d)
    ensures ReadBlocks(CodedBits(coefs, d, n) + rest, n) == Some((QuantisedBlocks(coefs, d, n), rest))
    decreases n
  {
    hide ReadBlock, BlockBits, QuantisedAtVisit, Blocks;
    if n == 0 {
      assert CodedBits(coefs, d, n) + rest == rest;
    } else {
      var q := QuantisedAtVisit(coefs, d, n - 1);
      BlocksRead(coefs, d, n - 1, BlockBits(q) + rest);
      BlockReads(q, rest);
      assert CodedBits(coefs, d, n) + rest == CodedBits(coefs, d, n - 1) + (BlockBits(q) + rest);
    }
  }

  /** A decoder that is told the number of blocks recovers all of them from the
      frame's bits, whatever padding follows, and finds the trailer next. */
  lemma FrameReads(coefs: seq<int>, d: Size, padding: seq<bool>)
    requires IsFrame(coefs, d)
    ensures ReadBlocks(FrameBits(coefs, d) + padding, Blocks(d))
         == Some((QuantisedBlocks(coefs, d, Blocks(d)), TRAILER + padding))
  {
    hide ReadBlocks, CodedBits, QuantisedBlocks, Blocks;
    BlocksRead(coefs, d, Blocks(d), TRAILER + padding);
    assert FrameBits(coefs, d) + padding == CodedBits(coefs, d, Blocks(d)) + (TRAILER + padding);
  }

  // ----- how long it is

  predicate FrameThresholded(coefs: seq<int>, d: Size)
    requires IsFrame(coefs, d)
  {
    forall k :: 0 <= k < Blocks(d) ==> ThresholdedVisit(coefs, d, k)
  }

  predicate ThresholdedVisit(coefs: seq<int>, d: Size, k: nat)
    requires IsFrame(coefs, d) && k < Blocks(d)
  {
    Thresholded(BlockAt(coefs, d, Coding, k))
  }

  lemma {:induction false} CodedLength(coefs: seq<int>, d: Size, n: nat)
    requires IsFrame(coefs, d) && n <= Blocks(d) && FrameThresholded(coefs, d)
    ensures |CodedBits(coefs, d, n)| <= 12 * n + 22 * Count(coefs, d, Coding, n)
    decreases n
  {
    hide BlockBits, Thresholded, BlockAt, Blocks, NonZeroes, Quantised, AcAt;
    if n > 0 {
      CodedLength(coefs, d, n - 1);
      assert ThresholdedVisit(coefs, d, n - 1);
      BlockLength(BlockAt(coefs, d, Coding, n - 1));
      BlockParts(coefs, d, Coding, n - 1);
    }
  }

  /** Run-length words of the first `n` visits, all of which are coded. */
  function WordsWritten(coefs: seq<int>, d: Size, n: nat): nat
    requires IsFrame(coefs, d) && n <= Blocks(d)
  {
    if n == 0 then 0
    else WordsWritten(coefs, d, n - 1) + |Runs(Scan(QuantisedAtVisit(coefs, d, n - 1)), 0)|
  }

  lemma {:induction false} WordsAreCounted(coefs: seq<int>, d: Size, n: nat)
    requires IsFrame(coefs, d) && n <= Blocks(d) && FrameThresholded(coefs, d)
    ensures WordsWritten(coefs, d, n) == Count(coefs, d, Coding, n)
    decreases n
  {
    hide Runs, Scan, Thresholded, BlockAt, Blocks, NonZeroes, Quantised, AcAt;
    if n > 0 {
      WordsAreCounted(coefs, d, n - 1);
      assert ThresholdedVisit(coefs, d, n - 1);
      WordsPerBlock(BlockAt(coefs, d, Coding, n - 1));
      BlockParts(coefs, d, Coding, n - 1);
    }
  }

  /** The coder emits as many words as the reducer counted coefficients, though
      the one visits the lists of a macroblock in the opposite order. */
  lemma CoderAgreesWithReducer(coefs: seq<int>, d: Size)
    requires IsFrame(coefs, d) && FrameThresholded(coefs, d)
    ensures WordsWritten(coefs, d, Blocks(d)) == NonZeroes(FrameAcs(coefs, d))
  {
    WordsAreCounted(coefs, d, Blocks(d));
    CountIs(coefs, d, Shedding, Blocks(d));
    CountsAgree(coefs, d, d.w * d.h);
    hide WordsWritten, Count, Acs, NonZeroes, FrameThresholded;
  }

  /** A thresholded frame takes twelve bits for each block and for the trailer,
      and at most 22 for each coefficient kept. */
  lemma FrameLength(coefs: seq<int>, d: Size)
    requires IsFrame(coefs, d) && FrameThresholded(coefs, d)
    ensures |FrameBits(coefs, d)| <= 72 * (d.w * d.h) + 22 * NonZeroes(FrameAcs(coefs, d)) + 12
  {
    hide CodedBits, Count, Acs, NonZeroes, FrameThresholded;
    CodedLength(coefs, d, Blocks(d));
    CountIs(coefs, d, Shedding, Blocks(d));
    CountsAgree(coefs, d, d.w * d.h);
    TrailerLength();
  }

  /** A frame of `n` macroblocks whose coefficients have passed the threshold
      and meet the budget takes at most 72 n + 22 (threshold - 12 n) + 12
      bits. */
  lemma BudgetBits(coefs: seq<int>, d: Size, threshold: nat)
    requires IsFrame(coefs, d) && FrameThresholded(coefs, d)
    requires NonZeroes(FrameAcs(coefs, d)) + Overhead(d) <= threshold
    ensures var n := d.w * d.h;
      |FrameBits(coefs, d)| <= 72 * n + 22 * (threshold - 12 * n) + 12
  {
    hide FrameBits, FrameAcs, NonZeroes, FrameThresholded;
    FrameLength(coefs, d);
  }

  lemma TrailerLength()
    ensures |TRAILER| == 12
  {}
}
