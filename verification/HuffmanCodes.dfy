/** The variable-length code of MDEC coefficients: Table B-14 of
    ISO/IEC 13818-2, with an escape and an end-of-block code. */
module HuffmanCodes {
  import opened Wrappers
  import opened Bits
  import opened BitStrings

  // ----- the table

  /** `code` in `bits` bits, then a sign bit, for `run` zeroes and a value of
      magnitude `level`. */
  datatype Row = Row(bits: nat, code: nat, run: nat, level: nat)

  const ROWS := 111

  function FirstOf(bits: nat): nat {
    match bits
    case 2 => 0 case 3 => 1 case 4 => 2 case 5 => 4 case 6 => 7 case 7 => 11 case 8 => 15
    case 10 => 23 case 12 => 31 case 13 => 47 case 14 => 63 case 15 => 79 case _ => 95
  }

  function BaseOf(bits: nat): nat {
    match bits
    case 2 => 3 case 3 => 3 case 4 => 4 case 5 => 5 case 6 => 4 case 7 => 4 case 8 => 0x20
    case 10 => 8 case _ => 0x10
  }

  function CountOf(bits: nat): nat {
    match bits
    case 2 => 1 case 3 => 1 case 4 => 2 case 5 => 3 case 6 => 4 case 7 => 4 case 8 => 8
    case 10 => 8 case _ => 16
  }

  predicate IsLength(bits: nat) {
    2 <= bits <= 8 || bits == 10 || 12 <= bits <= 16
  }

  /** The rows of one length hold consecutive codes. */
  predicate Grouped(i: nat, r: Row) {
    && IsLength(r.bits)
    && BaseOf(r.bits) <= r.code < BaseOf(r.bits) + CountOf(r.bits)
    && i == FirstOf(r.bits) + (r.code - BaseOf(r.bits))
  }

  /** The row for a run and a level, the other way round. */
  function RowOf(run: nat, level: nat): nat {
    match run
    case 0 =>
      if 32 <= level <= 40 then 119 - level
      else if 16 <= level < 32 then 94 - level
      else if 12 <= level < 16 then 69 - level
      else (match level case 1 => 0 case 2 => 2 case 3 => 4 case 4 => 13 case 5 => 21 case 6 => 16
            case 7 => 25 case 8 => 44 case 9 => 39 case 10 => 34 case _ => 31)
    case 1 =>
      if 15 <= level <= 18 then 113 - level
      else if 8 <= level < 15 then 102 - level
      else (match level case 1 => 1 case 2 => 9 case 3 => 20 case 4 => 27 case 5 => 42 case 6 => 53 case _ => 52)
    case 2 => (match level case 1 => 3 case 2 => 11 case 3 => 26 case 4 => 35 case _ => 51)
    case 3 => (match level case 1 => 6 case 2 => 19 case 3 => 43 case _ => 50)
    case 4 => (match level case 1 => 5 case 2 => 30 case _ => 33)
    case 5 => (match level case 1 => 10 case 2 => 24 case _ => 49)
    case 6 => (match level case 1 => 8 case 2 => 45 case _ => 99)
    case 7 => (match level case 1 => 7 case _ => 36)
    case 8 => (match level case 1 => 14 case _ => 32)
    case 9 => (match level case 1 => 12 case _ => 48)
    case 10 => (match level case 1 => 22 case _ => 47)
    case 11 => (match level case 1 => 18 case _ => 105)
    case 12 => (match level case 1 => 17 case _ => 104)
    case 13 => (match level case 1 => 15 case _ => 103)
    case 14 => (match level case 1 => 29 case _ => 102)
    case 15 => (match level case 1 => 28 case _ => 101)
    case 16 => (match level case 1 => 23 case _ => 100)
    case 17 => 46
    case 18 => 41
    case 19 => 40
    case 20 => 38
    case 21 => 37
    case 22 => 62
    case 23 => 61
    case 24 => 60
    case 25 => 59
    case 26 => 58
    case 27 => 110
    case 28 => 109
    case 29 => 108
    case 30 => 107
    case 31 => 106
    case _ => ROWS
  }

  predicate Indexed(i: nat, r: Row) {
    r.run <= 31 && 1 <= r.level <= 40 && RowOf(r.run, r.level) == i
  }

  function RowsTo8(i: nat): Row {
    match i
    case 0 => Row(2, 0x3, 0, 1)
    case 1 => Row(3, 0x3, 1, 1)
    case 2 => Row(4, 0x4, 0, 2)
    case 3 => Row(4, 0x5, 2, 1)
    case 4 => Row(5, 0x5, 0, 3)
    case 5 => Row(5, 0x6, 4, 1)
    case 6 => Row(5, 0x7, 3, 1)
    case 7 => Row(6, 0x4, 7, 1)
    case 8 => Row(6, 0x5, 6, 1)
    case 9 => Row(6, 0x6, 1, 2)
    case 10 => Row(6, 0x7, 5, 1)
    case 11 => Row(7, 0x4, 2, 2)
    case 12 => Row(7, 0x5, 9, 1)
    case 13 => Row(7, 0x6, 0, 4)
    case 14 => Row(7, 0x7, 8, 1)
    case 15 => Row(8, 0x20, 13, 1)
    case 16 => Row(8, 0x21, 0, 6)
    case 17 => Row(8, 0x22, 12, 1)
    case 18 => Row(8, 0x23, 11, 1)
    case 19 => Row(8, 0x24, 3, 2)
    case 20 => Row(8, 0x25, 1, 3)
    case 21 => Row(8, 0x26, 0, 5)
    case _ => Row(8, 0x27, 10, 1)
  }

  function Rows10(i: nat): Row {
    match i
    case 23 => Row(10, 0x8, 16, 1)
    case 24 => Row(10, 0x9, 5, 2)
    case 25 => Row(10, 0xA, 0, 7)
    case 26 => Row(10, 0xB, 2, 3)
    case 27 => Row(10, 0xC, 1, 4)
    case 28 => Row(10, 0xD, 15, 1)
    case 29 => Row(10, 0xE, 14, 1)
    case _ => Row(10, 0xF, 4, 2)
  }

  function Rows12(i: nat): Row {
    match i
    case 31 => Row(12, 0x10, 0, 11)
    case 32 => Row(12, 0x11, 8, 2)
    case 33 => Row(12, 0x12, 4, 3)
    case 34 => Row(12, 0x13, 0, 10)
    case 35 => Row(12, 0x14, 2, 4)
    case 36 => Row(12, 0x15, 7, 2)
    case 37 => Row(12, 0x16, 21, 1)
    case 38 => Row(12, 0x17, 20, 1)
    case 39 => Row(12, 0x18, 0, 9)
    case 40 => Row(12, 0x19, 19, 1)
    case 41 => Row(12, 0x1A, 18, 1)
    case 42 => Row(12, 0x1B, 1, 5)
    case 43 => Row(12, 0x1C, 3, 3)
    case 44 => Row(12, 0x1D, 0, 8)
    case 45 => Row(12, 0x1E, 6, 2)
    case _ => Row(12, 0x1F, 17, 1)
  }

  function Rows13(i: nat): Row {
    match i
    case 47 => Row(13, 0x10, 10, 2)
    case 48 => Row(13, 0x11, 9, 2)
    case 49 => Row(13, 0x12, 5, 3)
    case 50 => Row(13, 0x13, 3, 4)
    case 51 => Row(13, 0x14, 2, 5)
    case 52 => Row(13, 0x15, 1, 7)
    case 53 => Row(13, 0x16, 1, 6)
    case 54 => Row(13, 0x17, 0, 15)
    case 55 => Row(13, 0x18, 0, 14)
    case 56 => Row(13, 0x19, 0, 13)
    case 57 => Row(13, 0x1A, 0, 12)
    case 58 => Row(13, 0x1B, 26, 1)
    case 59 => Row(13, 0x1C, 25, 1)
    case 60 => Row(13, 0x1D, 24, 1)
    case 61 => Row(13, 0x1E, 23, 1)
    case _ => Row(13, 0x1F, 22, 1)
  }

  function Rows14(i: nat): Row {
    match i
    case 63 => Row(14, 0x10, 0, 31)
    case 64 => Row(14, 0x11, 0, 30)
    case 65 => Row(14, 0x12, 0, 29)
    case 66 => Row(14, 0x13, 0, 28)
    case 67 => Row(14, 0x14, 0, 27)
    case 68 => Row(14, 0x15, 0, 26)
    case 69 => Row(14, 0x16, 0, 25)
    case 70 => Row(14, 0x17, 0, 24)
    case 71 => Row(14, 0x18, 0, 23)
    case 72 => Row(14, 0x19, 0, 22)
    case 73 => Row(14, 0x1A, 0, 21)
    case 74 => Row(14, 0x1B, 0, 20)
    case 75 => Row(14, 0x1C, 0, 19)
    case 76 => Row(14, 0x1D, 0, 18)
    case 77 => Row(14, 0x1E, 0, 17)
    case _ => Row(14, 0x1F, 0, 16)
  }

  function Rows15(i: nat): Row {
    match i
    case 79 => Row(15, 0x10, 0, 40)
    case 80 => Row(15, 0x11, 0, 39)
    case 81 => Row(15, 0x12, 0, 38)
    case 82 => Row(15, 0x13, 0, 37)
    case 83 => Row(15, 0x14, 0, 36)
    case 84 => Row(15, 0x15, 0, 35)
    case 85 => Row(15, 0x16, 0, 34)
    case 86 => Row(15, 0x17, 0, 33)
    case 87 => Row(15, 0x18, 0, 32)
    case 88 => Row(15, 0x19, 1, 14)
    case 89 => Row(15, 0x1A, 1, 13)
    case 90 => Row(15, 0x1B, 1, 12)
    case 91 => Row(15, 0x1C, 1, 11)
    case 92 => Row(15, 0x1D, 1, 10)
    case 93 => Row(15, 0x1E, 1, 9)
    case _ => Row(15, 0x1F, 1, 8)
  }

  function Rows16(i: nat): Row {
    match i
    case 95 => Row(16, 0x10, 1, 18)
    case 96 => Row(16, 0x11, 1, 17)
    case 97 => Row(16, 0x12, 1, 16)
    case 98 => Row(16, 0x13, 1, 15)
    case 99 => Row(16, 0x14, 6, 3)
    case 100 => Row(16, 0x15, 16, 2)
    case 101 => Row(16, 0x16, 15, 2)
    case 102 => Row(16, 0x17, 14, 2)
    case 103 => Row(16, 0x18, 13, 2)
    case 104 => Row(16, 0x19, 12, 2)
    case 105 => Row(16, 0x1A, 11, 2)
    case 106 => Row(16, 0x1B, 31, 1)
    case 107 => Row(16, 0x1C, 30, 1)
    case 108 => Row(16, 0x1D, 29, 1)
    case 109 => Row(16, 0x1E, 28, 1)
    case _ => Row(16, 0x1F, 27, 1)
  }

  function RowAt(i: nat): Row
    requires i < ROWS
  {
    if i < 23 then RowsTo8(i)
    else if i < 31 then Rows10(i)
    else if i < 47 then Rows12(i)
    else if i < 63 then Rows13(i)
    else if i < 79 then Rows14(i)
    else if i < 95 then Rows15(i)
    else Rows16(i)
  }

  lemma RowsTo8Grouped(i: nat)
    requires 0 <= i < 23
    ensures Grouped(i, RowAt(i)) && Indexed(i, RowAt(i))
  {
    hide Rows10, Rows12, Rows13, Rows14, Rows15, Rows16;
  }

  lemma Rows10Grouped(i: nat)
    requires 23 <= i < 31
    ensures Grouped(i, RowAt(i)) && Indexed(i, RowAt(i))
  {
    hide RowsTo8, Rows12, Rows13, Rows14, Rows15, Rows16;
  }

  lemma Rows12Grouped(i: nat)
    requires 31 <= i < 47
    ensures Grouped(i, RowAt(i)) && Indexed(i, RowAt(i))
  {
    hide RowsTo8, Rows10, Rows13, Rows14, Rows15, Rows16;
  }

  lemma Rows13Grouped(i: nat)
    requires 47 <= i < 63
    ensures Grouped(i, RowAt(i)) && Indexed(i, RowAt(i))
  {
    hide RowsTo8, Rows10, Rows12, Rows14, Rows15, Rows16;
  }

  lemma Rows14Grouped(i: nat)
    requires 63 <= i < 79
    ensures Grouped(i, RowAt(i)) && Indexed(i, RowAt(i))
  {
    hide RowsTo8, Rows10, Rows12, Rows13, Rows15, Rows16;
  }

  lemma Rows15Grouped(i: nat)
    requires 79 <= i < 95
    ensures Grouped(i, RowAt(i)) && Indexed(i, RowAt(i))
  {
    hide RowsTo8, Rows10, Rows12, Rows13, Rows14, Rows16;
  }

  lemma Rows16Grouped(i: nat)
    requires 95 <= i < 111
    ensures Grouped(i, RowAt(i)) && Indexed(i, RowAt(i))
  {
    hide RowsTo8, Rows10, Rows12, Rows13, Rows14, Rows15;
  }

  lemma RowFacts(i: nat)
    requires i < ROWS
    ensures Grouped(i, RowAt(i)) && Indexed(i, RowAt(i))
  {
    hide RowAt, Grouped, Indexed;
    if i < 23 { RowsTo8Grouped(i); }
    else if i < 31 { Rows10Grouped(i); }
    else if i < 47 { Rows12Grouped(i); }
    else if i < 63 { Rows13Grouped(i); }
    else if i < 79 { Rows14Grouped(i); }
    else if i < 95 { Rows15Grouped(i); }
    else { Rows16Grouped(i); }
  }

  // ----- the map built from it

  /** A run of zeroes and a 10-bit value in one word. */
  function RunWord(run: nat, value: int): nat {
    run * 0x400 + value % 0x400
  }

  function PosWord(r: Row): nat {
    RunWord(r.run, r.level)
  }

  function NegWord(r: Row): nat {
    RunWord(r.run, 0 - r.level)
  }

  /** A code with its length in the high eight bits. */
  function Packed(bits: nat, value: nat): nat {
    bits * 0x100_0000 + value
  }

  /** What the first `n` rows make of a word: the last row that names it
      wins, and a word that no row names is escaped. */
  function Lookup(w: nat, n: nat): nat
    requires n <= ROWS
  {
    if n == 0 then Packed(6 + 16, 0x1_0000 + w)
    else
      var r := RowAt(n - 1);
      if w == NegWord(r) then Packed(r.bits + 1, 2 * r.code + 1)
      else if w == PosWord(r) then Packed(r.bits + 1, 2 * r.code)
      else Lookup(w, n - 1)
  }

  /** Row `i` codes `w`, negated or not. */
  predicate Codes(i: nat, w: nat, sign: nat)
    requires i < ROWS
  {
    sign < 2 && w == if sign == 1 then NegWord(RowAt(i)) else PosWord(RowAt(i))
  }

  function CodeOfRow(i: nat, sign: nat): nat
    requires i < ROWS
  {
    Packed(RowAt(i).bits + 1, 2 * RowAt(i).code + sign)
  }

  lemma {:induction false} LookupCases(w: nat, n: nat) returns (i: nat, sign: nat)
    requires n <= ROWS
    ensures i <= n
    ensures i == n ==> Lookup(w, n) == Packed(22, 0x1_0000 + w)
    ensures sign < 2
    ensures i < n ==> Codes(i, w, sign) && Lookup(w, n) == CodeOfRow(i, sign)
  {
    hide RowAt, PosWord, NegWord, Packed;
    if n == 0 {
      i, sign := 0, 0;
    } else if w == NegWord(RowAt(n - 1)) {
      i, sign := n - 1, 1;
    } else if w == PosWord(RowAt(n - 1)) {
      i, sign := n - 1, 0;
    } else {
      i, sign := LookupCases(w, n - 1);
      if i == n - 1 { i := n; }
    }
  }

  lemma CodesUnique(i: nat, a: nat, j: nat, b: nat, w: nat)
    requires i < ROWS && j < ROWS && Codes(i, w, a) && Codes(j, w, b)
    ensures i == j && a == b
  {
    RowNamed(i, a, w);
    RowNamed(j, b, w);
    hide *;
  }

  lemma RowNamed(i: nat, sign: nat, w: nat)
    requires i < ROWS && Codes(i, w, sign)
    ensures sign == (if w % 0x400 < 0x200 then 0 else 1)
    ensures i == RowOf(w / 0x400, if w % 0x400 < 0x200 then w % 0x400 else 0x400 - w % 0x400)
  {
    hide RowAt, RowOf, Grouped;
    RowFacts(i);
    WordParts(RowAt(i), sign, w);
    hide PosWord, NegWord, RunWord;
  }

  lemma WordParts(r: Row, sign: nat, w: nat)
    requires 1 <= r.level <= 40 && sign < 2 && w == if sign == 1 then NegWord(r) else PosWord(r)
    ensures w / 0x400 == r.run
    ensures w % 0x400 == if sign == 1 then 0x400 - r.level else r.level
  {
    hide RowAt, RowOf;
    assert (0 - r.level) % 0x400 == 0x400 - r.level;
  }

  /** Every row of the table is used: its run and level get its code. */
  lemma RowUsed(i: nat, w: nat, sign: nat)
    requires i < ROWS && Codes(i, w, sign)
    ensures Lookup(w, ROWS) == CodeOfRow(i, sign)
  {
    RowUsedFrom(i, w, sign, ROWS);
  }

  lemma {:induction false} RowUsedFrom(i: nat, w: nat, sign: nat, n: nat)
    requires i < n <= ROWS && Codes(i, w, sign)
    ensures Lookup(w, n) == CodeOfRow(i, sign)
    decreases n
  {
    hide RowAt, PosWord, NegWord, Packed;
    if w == NegWord(RowAt(n - 1)) {
      CodesUnique(i, sign, n - 1, 1, w);
    } else if w == PosWord(RowAt(n - 1)) {
      CodesUnique(i, sign, n - 1, 0, w);
    } else {
      RowUsedFrom(i, w, sign, n - 1);
    }
  }

  // ----- the code words

  datatype Symbol = EndOfBlock | Coefficient(word: word16)

  const END_BITS: seq<bool> := [true, false]

  /** `encode_ac_value`: the low 24 bits of the map's entry, as many as its
      high eight say. */
  function Emitted(w: word16): seq<bool> {
    BitsOf(Lookup(w, ROWS) % 0x100_0000, Lookup(w, ROWS) / 0x100_0000)
  }

  function CodeWord(sym: Symbol): seq<bool> {
    match sym
    case EndOfBlock => END_BITS
    case Coefficient(w) => Emitted(w)
  }

  function RowBits(i: nat, sign: nat): seq<bool>
    requires i < ROWS
  {
    BitsOf(RowAt(i).code, RowAt(i).bits) + [sign == 1]
  }

  function EscapeBits(w: nat): seq<bool> {
    BitsOf(1, 6) + BitsOf(w, 16)
  }

  /** A word's bits are a row's code and a sign, or an escape. */
  lemma EmittedForms(w: word16) returns (i: nat, sign: nat)
    ensures i <= ROWS && sign < 2
    ensures i < ROWS ==> Codes(i, w, sign) && Emitted(w) == RowBits(i, sign)
    ensures i == ROWS ==> Emitted(w) == EscapeBits(w)
  {
    hide Emitted, Lookup, RowAt, RowBits, EscapeBits, CodeOfRow, Codes, Packed, BitsOf;
    i, sign := LookupCases(w, ROWS);
    EmittedIs(w);
    if i < ROWS {
      RowSmall(i);
      RowForm(RowAt(i), sign);
      CodeOfRowIs(i, sign);
    } else {
      sign := 0;
      EscapeForm(w);
    }
  }

  lemma EmittedIs(w: word16)
    ensures Emitted(w) == BitsOf(Lookup(w, ROWS) % 0x100_0000, Lookup(w, ROWS) / 0x100_0000)
  {}

  lemma CodeOfRowIs(i: nat, sign: nat)
    requires i < ROWS
    ensures CodeOfRow(i, sign) == Packed(RowAt(i).bits + 1, 2 * RowAt(i).code + sign)
    ensures RowBits(i, sign) == BitsOf(RowAt(i).code, RowAt(i).bits) + [sign == 1]
  {}

  lemma RowSmall(i: nat)
    requires i < ROWS
    ensures 2 <= RowAt(i).bits <= 16 && RowAt(i).code < 0x40
  {
    RowFacts(i);
    hide RowAt, Indexed;
  }

  lemma RowForm(r: Row, sign: nat)
    requires 2 <= r.bits <= 16 && r.code < 0x40 && sign < 2
    ensures var e := Packed(r.bits + 1, 2 * r.code + sign);
      BitsOf(e % 0x100_0000, e / 0x100_0000) == BitsOf(r.code, r.bits) + [sign == 1]
  {
    var v := 2 * r.code + sign;
    assert Packed(r.bits + 1, v) / 0x100_0000 == r.bits + 1 && Packed(r.bits + 1, v) % 0x100_0000 == v;
    assert v / 2 == r.code && v % 2 == sign;
  }

  lemma EscapeForm(w: word16)
    ensures var e := Packed(22, 0x1_0000 + w);
      BitsOf(e % 0x100_0000, e / 0x100_0000) == EscapeBits(w)
  {
    Pow2Values();
    hide BitsOf, Pow2;
    SplitBits(1, w, 6, 16);
  }

  // ----- reading a code word

  /** The row whose code begins a 16-bit window, if one does. */
  function RowOfWindow(w: nat): nat {
    if w >= 0xC000 then 0
    else if w >= 0x8000 then ROWS
    else if w >= 0x6000 then 1
    else if w >= 0x4000 then 2 + (w - 0x4000) / 0x1000
    else if w >= 0x2800 then 4 + (w - 0x2800) / 0x800
    else if w >= 0x2000 then 15 + (w - 0x2000) / 0x100
    else if w >= 0x1000 then 7 + (w - 0x1000) / 0x400
    else if w >= 0x800 then 11 + (w - 0x800) / 0x200
    else if w >= 0x400 then ROWS
    else if w >= 0x200 then 23 + (w - 0x200) / 0x40
    else if w >= 0x100 then 31 + (w - 0x100) / 0x10
    else if w >= 0x80 then 47 + (w - 0x80) / 8
    else if w >= 0x40 then 63 + (w - 0x40) / 4
    else if w >= 0x20 then 79 + (w - 0x20) / 2
    else if w >= 0x10 then 95 + (w - 0x10)
    else ROWS
  }

  /** How many windows begin with one code of a length. */
  function UnitOf(bits: nat): nat {
    match bits
    case 2 => 0x4000 case 3 => 0x2000 case 4 => 0x1000 case 5 => 0x800 case 6 => 0x400 case 7 => 0x200
    case 8 => 0x100 case 10 => 0x40 case 12 => 0x10 case 13 => 8 case 14 => 4 case 15 => 2 case _ => 1
  }

  lemma UnitIsPow2(bits: nat)
    requires IsLength(bits)
    ensures UnitOf(bits) == Pow2(16 - bits)
  {
    var n := 16 - bits;
    assert Pow2(4) == 0x10 && Pow2(8) == 0x100;
    Pow2Add(4, 8);
    Pow2Add(4, 9);
    Pow2Add(4, 10);
  }

  /** A window begins with a row's code just when it names that row. */
  lemma WindowNamesRow(w: nat, i: nat)
    requires w < 0x1_0000 && i < ROWS
    ensures var r := RowAt(i);
      RowOfWindow(w) == i <==> r.code * UnitOf(r.bits) <= w < r.code * UnitOf(r.bits) + UnitOf(r.bits)
  {
    hide RowAt, RowOf, RowOfWindow, Indexed, FirstOf, BaseOf, CountOf, UnitOf;
    RowFacts(i);
    var r := RowAt(i);
    if r.code * UnitOf(r.bits) <= w < r.code * UnitOf(r.bits) + UnitOf(r.bits) {
      CodeNames(w, r.bits, r.code);
    }
    if RowOfWindow(w) == i {
      var bits, code := WindowCode(w);
      SameGroup(bits, code, r.bits, r.code);
    }
  }

  predicate InGroup(bits: nat, code: nat) {
    IsLength(bits) && BaseOf(bits) <= code < BaseOf(bits) + CountOf(bits)
  }

  lemma CodeNames(w: nat, bits: nat, code: nat)
    requires InGroup(bits, code)
    requires code * UnitOf(bits) <= w < code * UnitOf(bits) + UnitOf(bits)
    ensures RowOfWindow(w) == FirstOf(bits) + (code - BaseOf(bits))
  {
    if bits <= 5 { ShortNames(w, bits, code); }
    else if bits <= 10 { MiddleNames(w, bits, code); }
    else { LongNames(w, bits, code); }
  }

  lemma ShortNames(w: nat, bits: nat, code: nat)
    requires bits <= 5 && InGroup(bits, code)
    requires code * UnitOf(bits) <= w < code * UnitOf(bits) + UnitOf(bits)
    ensures RowOfWindow(w) == FirstOf(bits) + (code - BaseOf(bits))
  {}

  lemma MiddleNames(w: nat, bits: nat, code: nat)
    requires 6 <= bits <= 10 && InGroup(bits, code)
    requires code * UnitOf(bits) <= w < code * UnitOf(bits) + UnitOf(bits)
    ensures RowOfWindow(w) == FirstOf(bits) + (code - BaseOf(bits))
  {}

  lemma LongNames(w: nat, bits: nat, code: nat)
    requires 12 <= bits && InGroup(bits, code)
    requires code * UnitOf(bits) <= w < code * UnitOf(bits) + UnitOf(bits)
    ensures RowOfWindow(w) == FirstOf(bits) + (code - BaseOf(bits))
  {}

  lemma WindowCode(w: nat) returns (bits: nat, code: nat)
    requires w < 0x1_0000 && RowOfWindow(w) < ROWS
    ensures InGroup(bits, code)
    ensures code * UnitOf(bits) <= w < code * UnitOf(bits) + UnitOf(bits)
    ensures RowOfWindow(w) == FirstOf(bits) + (code - BaseOf(bits))
  {
    if w >= 0x2000 { bits, code := ShortWindow(w); } else { bits, code := LongWindow(w); }
  }

  lemma ShortWindow(w: nat) returns (bits: nat, code: nat)
    requires 0x2000 <= w < 0x1_0000 && RowOfWindow(w) < ROWS
    ensures InGroup(bits, code)
    ensures code * UnitOf(bits) <= w < code * UnitOf(bits) + UnitOf(bits)
    ensures RowOfWindow(w) == FirstOf(bits) + (code - BaseOf(bits))
  {
    bits := if w >= 0xC000 then 2 else if w >= 0x6000 then 3 else if w >= 0x4000 then 4 else if w >= 0x2800 then 5
      else 8;
    code := w / UnitOf(bits);
  }

  lemma LongWindow(w: nat) returns (bits: nat, code: nat)
    requires w < 0x2000 && RowOfWindow(w) < ROWS
    ensures InGroup(bits, code)
    ensures code * UnitOf(bits) <= w < code * UnitOf(bits) + UnitOf(bits)
    ensures RowOfWindow(w) == FirstOf(bits) + (code - BaseOf(bits))
  {
    bits := if w >= 0x1000 then 6 else if w >= 0x800 then 7 else if w >= 0x200 then 10
      else if w >= 0x100 then 12 else if w >= 0x80 then 13 else if w >= 0x40 then 14 else if w >= 0x20 then 15 else 16;
    code := w / UnitOf(bits);
  }

  lemma SameGroup(bits: nat, code: nat, other: nat, second: nat)
    requires InGroup(bits, code) && InGroup(other, second)
    requires FirstOf(bits) + (code - BaseOf(bits)) == FirstOf(other) + (second - BaseOf(other))
    ensures bits == other && code == second
  {}

  datatype Reading = Reading(symbol: Symbol, rest: seq<bool>)

  /** One code word off the front of a bit string. */
  function ReadSymbol(s: seq<bool>): (r: Option<Reading>)
    ensures r.Some? ==> |r.value.rest| < |s|
  {
    var w := Peek(s, 16);
    var i := RowOfWindow(w);
    if 0x8000 <= w < 0xC000 then
      if |s| < 2 then None else Some(Reading(EndOfBlock, s[2..]))
    else if 0x400 <= w < 0x800 then
      if |s| < 22 then None else Some(Reading(Coefficient(WordBitsOf(s[6..22])), s[22..]))
    else if i >= ROWS then None
    else
      var n := RowAt(i).bits;
      if |s| < n + 1 then None
      else Some(Reading(Coefficient((if s[n] then NegWord(RowAt(i)) else PosWord(RowAt(i))) % 0x1_0000), s[n + 1..]))
  }

  function WordBitsOf(s: seq<bool>): word16 {
    ValueOf(s) % 0x1_0000
  }

  /** Reading gives back the word that was coded, and where its code ended. */
  lemma CoefficientReads(w: word16, rest: seq<bool>)
    ensures ReadSymbol(Emitted(w) + rest) == Some(Reading(Coefficient(w), rest))
  {
    hide *;
    var i, sign := EmittedForms(w);
    if i < ROWS { RowReads(i, sign, w, rest); } else { EscapeReads(w, rest); }
  }

  lemma EscapeReads(w: word16, rest: seq<bool>)
    ensures ReadSymbol(EscapeBits(w) + rest) == Some(Reading(Coefficient(w), rest))
  {
    hide ReadSymbol, BitsOf, Peek, ValueOf, Pow2;
    var s := EscapeBits(w) + rest;
    EscapePeeks(w, rest);
    EscapeRead(s);
    assert s[6..22] == BitsOf(w, 16);
    assert s[22..] == rest;
    Pow2Values();
    ValueOfBits(w, 16);
  }

  lemma EscapeRead(s: seq<bool>)
    requires |s| >= 22 && 0x400 <= Peek(s, 16) < 0x800
    ensures ReadSymbol(s) == Some(Reading(Coefficient(WordBitsOf(s[6..22])), s[22..]))
  {
    hide Peek, RowOfWindow, RowAt, WordBitsOf;
  }

  lemma EscapePeeks(w: word16, rest: seq<bool>)
    ensures 0x400 <= Peek(EscapeBits(w) + rest, 16) < 0x800
  {
    assert Pow2(6) == 64 && Pow2(10) == 0x400;
    hide BitsOf, Peek, Pow2;
    assert EscapeBits(w) + rest == BitsOf(1, 6) + (BitsOf(w, 16) + rest);
    PeekField(1, 6, BitsOf(w, 16) + rest, 16);
    PeekBound(BitsOf(w, 16) + rest, 10);
  }

  lemma RowReads(i: nat, sign: nat, w: word16, rest: seq<bool>)
    requires i < ROWS && Codes(i, w, sign)
    ensures ReadSymbol(RowBits(i, sign) + rest) == Some(Reading(Coefficient(w), rest))
  {
    hide RowAt, Peek, Pow2, BitsOf, NegWord, PosWord, RowOfWindow;
    var r := RowAt(i);
    var s := RowBits(i, sign) + rest;
    RowPeeks(i, sign, rest);
    assert s[r.bits] == (sign == 1);
    assert s[r.bits + 1..] == rest;
    WindowAvoids(i, Peek(s, 16));
  }

  lemma RowPeeks(i: nat, sign: nat, rest: seq<bool>)
    requires i < ROWS
    ensures Peek(RowBits(i, sign) + rest, 16) < 0x1_0000
    ensures RowOfWindow(Peek(RowBits(i, sign) + rest, 16)) == i
  {
    hide RowAt, Peek, BitsOf, RowOfWindow, Indexed;
    RowFacts(i);
    var r := RowAt(i);
    assert RowBits(i, sign) + rest == BitsOf(r.code, r.bits) + ([sign == 1] + rest);
    CodeFits(r.bits, r.code);
    PeekField(r.code, r.bits, [sign == 1] + rest, 16);
    UnitIsPow2(r.bits);
    PeekBound([sign == 1] + rest, 16 - r.bits);
    PeekBound(RowBits(i, sign) + rest, 16);
    Pow2Values();
    WindowNamesRow(Peek(RowBits(i, sign) + rest, 16), i);
    hide Pow2, UnitOf, FirstOf, BaseOf, CountOf;
  }

  lemma PeekBound(s: seq<bool>, n: nat)
    ensures Peek(s, n) < Pow2(n)
  {}

  lemma CodeFits(bits: nat, code: nat)
    requires InGroup(bits, code)
    ensures code < Pow2(bits)
  {
    assert Pow2(2) == 4 && Pow2(3) == 8;
    if bits > 3 { Pow2Add(4, bits - 4); }
    if bits > 5 { Pow2Add(6, bits - 6); }
  }

  /** A window that names a row does not begin with the end-of-block code or
      the escape. */
  lemma WindowAvoids(i: nat, w: nat)
    requires i < ROWS && RowOfWindow(w) == i
    ensures !(0x8000 <= w < 0xC000) && !(0x400 <= w < 0x800)
  {}

  lemma EndReads(rest: seq<bool>)
    ensures ReadSymbol(END_BITS + rest) == Some(Reading(EndOfBlock, rest))
  {
    assert BitsOf(2, 2) == END_BITS;
    Pow2Values();
    Pow2Add(2, 14);
    PeekField(2, 2, rest, 16);
    hide BitsOf, Peek, Pow2, RowOfWindow;
    assert (END_BITS + rest)[2..] == rest;
  }

  /** No code word begins another. */
  lemma PrefixFree(a: Symbol, b: Symbol, s: seq<bool>)
    requires CodeWord(a) <= s && CodeWord(b) <= s
    ensures a == b
  {
    SymbolReads(a, s[|CodeWord(a)|..]);
    SymbolReads(b, s[|CodeWord(b)|..]);
    hide *;
    assert s == CodeWord(a) + s[|CodeWord(a)|..] == CodeWord(b) + s[|CodeWord(b)|..];
  }

  lemma SymbolReads(sym: Symbol, rest: seq<bool>)
    ensures ReadSymbol(CodeWord(sym) + rest) == Some(Reading(sym, rest))
  {
    hide ReadSymbol, Emitted;
    if sym == EndOfBlock { EndReads(rest); } else { CoefficientReads(sym.word, rest); }
  }

  lemma EmittedLength(w: word16)
    ensures 3 <= |Emitted(w)| <= 22
  {
    hide *;
    var i, sign := EmittedForms(w);
    if i < ROWS {
      RowSmall(i);
      CodeOfRowIs(i, sign);
    } else {
      EscapeLength(w);
    }
  }

  lemma EscapeLength(w: nat)
    ensures |EscapeBits(w)| == 22
  {}

  // ----- filling the map

  /** `init_dct_data` */
  method InitDctData(encodingMap: array<word32>)
    requires encodingMap.Length == 0x1_0000
    modifies encodingMap
    ensures forall w :: 0 <= w < 0x1_0000 ==> encodingMap[w] == Lookup(w, ROWS)
  {
    PackedFits();
    hide RowAt, PosWord, NegWord, Packed;
    for i := 0 to 0x1_0000
      invariant forall w :: 0 <= w < i ==> encodingMap[w] == Packed(22, 0x1_0000 + w)
    {
      encodingMap[i] := Packed(6 + 16, 0x1_0000 + i);
    }
    for i := 0 to ROWS
      invariant forall w :: 0 <= w < 0x1_0000 ==> encodingMap[w] == Lookup(w, i)
    {
      var r := RowAt(i);
      RowSmall(i);
      WordsInRange(i);
      encodingMap[PosWord(r)] := Packed(r.bits + 1, 2 * r.code);
      encodingMap[NegWord(r)] := Packed(r.bits + 1, 2 * r.code + 1);
    }
  }

  lemma PackedFits()
    ensures forall bits, value :: bits <= 22 && value < 0x100_0000 ==> Packed(bits, value) < 0x1_0000_0000
  {}

  lemma WordsInRange(i: nat)
    requires i < ROWS
    ensures PosWord(RowAt(i)) < 0x1_0000 && NegWord(RowAt(i)) < 0x1_0000
  {
    RowFacts(i);
    hide RowAt, RowOf, Grouped;
  }
}
