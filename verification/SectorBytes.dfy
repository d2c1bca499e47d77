/** What stands in an encoded sector, byte by byte, as the disc format lays it
    down. */
module SectorBytes {
  import opened Arithmetic
  import opened Bits
  import opened Edc
  import opened ReedSolomon
  import opened SectorLayout
  import opened SectorFormat
  import opened SectorGuarantees

  /** The two digits of a stored byte are those of `v`. */
  predicate HoldsDigits(b: byte, v: int) {
    v == 10 * (b / 0x10) + b % 0x10 && b % 0x10 < 10
  }

  lemma BcdHolds(v: int)
    requires 0 <= v < 160
    ensures HoldsDigits(Bcd(v), v)
  {
    var q, r := v / 10, v % 10;
    assert CMod(v, 10) == r && CDiv(v, 10) == q;
    hide CMod, CDiv;
    DigitsOf(q, r, Bcd(v));
  }

  lemma DigitsOf(q: nat, r: nat, b: byte)
    requires q < 16 && r < 10 && b == (r + 16 * q) % 0x100
    ensures b / 0x10 == q && b % 0x10 == r
  {}

  /** Sync pattern, time, and mode of every encoded sector. */
  lemma FrontBytes(src: seq<byte>, lba: int, mode: SecMode, submode: byte)
    requires |src| >= SourceSize(mode) && Encoded(src, lba, mode, submode).Some?
    ensures var r := Encoded(src, lba, mode, submode).value;
      && r[0x000] == 0 && (forall k :: 0x001 <= k <= 0x00A ==> r[k] == 0xFF) && r[0x00B] == 0
      && r[0x00F] == (match mode case SecEmpty => 0 case SecAudio => 0 case SecMode1 => 1 case SecRaw => src[0x00F]
                      case _ => 2)
    ensures var r, t := Encoded(src, lba, mode, submode).value, lba + 150;
      0 <= t < 160 * 60 * 75 ==>
        && HoldsDigits(r[0x00C], t / 4500) && HoldsDigits(r[0x00D], t / 75 % 60) && HoldsDigits(r[0x00E], t % 75)
  {
    hide Front, Bcd, Mode1, Form1, Form2, Blank, RawBase, HoldsDigits;
    var r, t := Encoded(src, lba, mode, submode).value, lba + 150;
    FrontKept(src, lba, mode, submode);
    SyncBytes(r, lba);
    if 0 <= t < 160 * 60 * 75 {
      TimeBytes(lba);
      assert r[..0x00F][0x00C] == r[0x00C] && r[..0x00F][0x00D] == r[0x00D] && r[..0x00F][0x00E] == r[0x00E];
    }
  }

  lemma FrontKept(src: seq<byte>, lba: int, mode: SecMode, submode: byte)
    requires |src| >= SourceSize(mode) && Encoded(src, lba, mode, submode).Some?
    ensures var r := Encoded(src, lba, mode, submode).value;
      && r[..0x00F] == Front(lba)
      && r[0x00F] == (match mode case SecEmpty => 0 case SecAudio => 0 case SecMode1 => 1 case SecRaw => src[0x00F]
                      case _ => 2)
  {
    hide Front, Mode1, Form1, Form2, Blank, EdcOf, ParityHolds;
    var s := if mode == SecRaw then RawBase(src, lba) else Blank(lba);
    BlankFront(lba);
    match mode
    case SecEmpty =>
    case SecMode1 => Mode1Guarantees(s, src[..0x800]);
    case SecMode2Form1 => Form1Guarantees(s, src[..0x800], submode);
    case SecMode2Form2 => Form2Bytes(s, src[0x010..SECTOR_SIZE]);
    case SecRaw =>
      if src[0x00F] == 1 {
        Mode1Guarantees(s, src[0x010..0x810]);
      } else if src[0x00F] == 2 {
        Form1Guarantees(s, src[0x018..0x818], submode);
        Form2Bytes(s, src[0x010..SECTOR_SIZE]);
      }
  }

  lemma SyncBytes(r: seq<byte>, lba: int)
    requires IsSector(r) && r[..0x00F] == Front(lba)
    ensures r[0x000] == 0 && (forall k :: 0x001 <= k <= 0x00A ==> r[k] == 0xFF) && r[0x00B] == 0
  {
    hide Bcd;
    forall k | 0x000 <= k <= 0x00B
      ensures r[k] == if 0x001 <= k <= 0x00A then 0xFF else 0
    {
      assert r[k] == r[..0x00F][k] == Front(lba)[k];
    }
  }

  lemma TimeBytes(lba: int)
    requires 0 <= lba + 150 < 160 * 60 * 75
    ensures var f, t := Front(lba), lba + 150;
      HoldsDigits(f[0x00C], t / 4500) && HoldsDigits(f[0x00D], t / 75 % 60) && HoldsDigits(f[0x00E], t % 75)
  {
    var t := lba + 150;
    FrontTime(lba);
    hide Front, Bcd, HoldsDigits;
    assert CMod(t / 75, 60) == t / 75 % 60 && CMod(t, 75) == t % 75 && t / 75 / 60 == t / 4500;
    BcdHolds(t / 4500);
    BcdHolds(t / 75 % 60);
    BcdHolds(t % 75);
  }

  // ----- subheaders

  /** The call stores a Form 1 sector. */
  predicate StoresForm1(src: seq<byte>, mode: SecMode)
    requires |src| >= SourceSize(mode)
  {
    mode == SecMode2Form1 || (mode == SecRaw && src[0x00F] == 2 && src[0x012] / 0x20 % 2 == 0)
  }

  /** The call stores a Form 2 sector. */
  predicate StoresForm2(src: seq<byte>, mode: SecMode)
    requires |src| >= SourceSize(mode)
  {
    mode == SecMode2Form2 || (mode == SecRaw && src[0x00F] == 2 && src[0x012] / 0x20 % 2 == 1)
  }

  /** Form 1: the submode that the call asks for, but for the form bit, twice,
      and nothing else in the subheader. */
  lemma Form1Submode(src: seq<byte>, lba: int, mode: SecMode, submode: byte)
    requires |src| >= SourceSize(mode) && StoresForm1(src, mode)
    ensures var e := Encoded(src, lba, mode, submode);
      && e.Some?
      && e.value[0x012] == e.value[0x016]
      && e.value[0x012] % 0x20 == submode % 0x20 && e.value[0x012] / 0x40 == submode / 0x40
      && e.value[0x012] / 0x20 % 2 == 0
      && e.value[0x010] == e.value[0x011] == e.value[0x013] == 0
      && e.value[0x014] == e.value[0x015] == e.value[0x017] == 0
  {
    hide Front, Form1, Blank, EdcOf, ParityHolds, RawBase, Subheader;
    var s := if mode == SecRaw then RawBase(src, lba) else Blank(lba);
    var data := if mode == SecRaw then src[0x018..0x818] else src[..0x800];
    Form1Guarantees(s, data, submode);
    SubheaderBytes(submode);
    var r, h := Form1(s, data, submode), Subheader(submode);
    assert r[0x010..0x018] == h;
    EightBytes(r, h);
  }

  lemma EightBytes(r: seq<byte>, h: seq<byte>)
    requires IsSector(r) && |h| == 8 && r[0x010..0x018] == h
    ensures r[0x010] == h[0] && r[0x011] == h[1] && r[0x012] == h[2] && r[0x013] == h[3]
    ensures r[0x014] == h[4] && r[0x015] == h[5] && r[0x016] == h[6] && r[0x017] == h[7]
  {
    assert forall k :: 0 <= k < 8 ==> r[0x010..0x018][k] == h[k];
  }

  lemma SubheaderBytes(submode: byte)
    ensures var h := Subheader(submode);
      && h[2] == h[6] && h[0] == h[1] == h[3] == h[4] == h[5] == h[7] == 0
      && h[2] % 0x20 == submode % 0x20 && h[2] / 0x40 == submode / 0x40 && h[2] / 0x20 % 2 == 0
  {}

  /** Form 2: the source's second subheader copy, twice, with the form bit
      set. */
  lemma Form2Submode(src: seq<byte>, lba: int, mode: SecMode, submode: byte)
    requires |src| >= SourceSize(mode) && StoresForm2(src, mode)
    ensures var e := Encoded(src, lba, mode, submode);
      && e.Some?
      && e.value[0x010] == e.value[0x014] == src[0x014] && e.value[0x011] == e.value[0x015] == src[0x015]
      && e.value[0x012] == e.value[0x016] && e.value[0x013] == e.value[0x017] == src[0x017]
      && e.value[0x012] % 0x20 == src[0x016] % 0x20 && e.value[0x012] / 0x40 == src[0x016] / 0x40
      && e.value[0x012] / 0x20 % 2 == 1
  {
    hide Front, Form2, Blank, EdcOf, Bytes, RawBase;
    var s := if mode == SecRaw then RawBase(src, lba) else Blank(lba);
    var body := src[0x010..SECTOR_SIZE];
    Form2Bytes(s, body);
    var r, h := Form2(s, body), Form2Subheader(body);
    assert r[0x010] == r[0x010..0x018][0] && r[0x011] == r[0x010..0x018][1] && r[0x012] == r[0x010..0x018][2];
    assert r[0x013] == r[0x010..0x018][3] && r[0x014] == r[0x010..0x018][4] && r[0x015] == r[0x010..0x018][5];
    assert r[0x016] == r[0x010..0x018][6] && r[0x017] == r[0x010..0x018][7];
  }

  // ----- content

  predicate StoresMode1(src: seq<byte>, mode: SecMode)
    requires |src| >= SourceSize(mode)
  {
    mode == SecMode1 || (mode == SecRaw && src[0x00F] == 1)
  }

  /** Mode 1: the 2048 bytes of the source behind the header, their code from
      the very first byte on, and eight bytes that are zero unless a raw source
      has others. */
  lemma Mode1Content(src: seq<byte>, lba: int, mode: SecMode, submode: byte)
    requires |src| >= SourceSize(mode) && StoresMode1(src, mode)
    ensures var e := Encoded(src, lba, mode, submode);
      && e.Some? && EdcOf(e.value[0x000..0x814]) == 0
      && (forall k :: 0 <= k < 0x800 ==> e.value[0x010..0x810][k] == src[(if mode == SecRaw then 0x010 else 0) + k])
      && e.value[0x814..0x81C] == if mode == SecRaw then src[0x814..0x81C] else [0, 0, 0, 0, 0, 0, 0, 0]
  {
    hide Front, Mode1, Blank, EdcOf, ParityHolds, RawBase;
    if mode == SecRaw {
      var s := RawBase(src, lba);
      Mode1Guarantees(s, src[0x010..0x810]);
      assert s[0x814..0x81C] == s[0x010..][0x804..0x80C] == src[0x814..0x81C];
    } else {
      var s := Blank(lba);
      Mode1Guarantees(s, src[..0x800]);
      BlankTail(lba);
    }
  }

  lemma BlankTail(lba: int)
    ensures Blank(lba)[0x814..0x81C] == [0, 0, 0, 0, 0, 0, 0, 0]
  {
    hide Front;
  }

  /** Form 1: the 2048 bytes of the source behind the subheader, and their code
      with the subheader's. */
  lemma Form1Content(src: seq<byte>, lba: int, mode: SecMode, submode: byte)
    requires |src| >= SourceSize(mode) && StoresForm1(src, mode)
    ensures var e := Encoded(src, lba, mode, submode);
      && e.Some? && EdcOf(e.value[0x010..0x81C]) == 0
      && (forall k :: 0 <= k < 0x800 ==> e.value[0x018..0x818][k] == src[(if mode == SecRaw then 0x018 else 0) + k])
  {
    hide Front, Form1, Blank, EdcOf, ParityHolds, RawBase, Subheader;
    if mode == SecRaw {
      Form1Guarantees(RawBase(src, lba), src[0x018..0x818], submode);
    } else {
      Form1Guarantees(Blank(lba), src[..0x800], submode);
    }
  }

  /** Form 2: the 2324 bytes of the source behind the subheader; no code where
      the source has none, else the right one. */
  lemma Form2Content(src: seq<byte>, lba: int, mode: SecMode, submode: byte)
    requires |src| >= SourceSize(mode) && StoresForm2(src, mode)
    ensures var e := Encoded(src, lba, mode, submode);
      && e.Some? && e.value[0x018..0x92C] == src[0x018..0x92C]
      && (src[0x92C..0x930] == [0, 0, 0, 0] ==> e.value[0x92C..0x930] == [0, 0, 0, 0])
      && (src[0x92C..0x930] != [0, 0, 0, 0] ==> EdcOf(e.value[0x010..0x930]) == 0)
  {
    hide Front, Form2, Blank, EdcOf, Bytes, RawBase, Form2Subheader;
    var s := if mode == SecRaw then RawBase(src, lba) else Blank(lba);
    var body := src[0x010..SECTOR_SIZE];
    Form2Bytes(s, body);
    var r := Form2(s, body);
    assert body[0x91C..] == src[0x92C..0x930] && body[8..0x91C] == src[0x018..0x92C];
    assert r[0x92C..0x930] == r[0x92C..];
    if src[0x92C..0x930] != [0, 0, 0, 0] {
      Pieces(r, 0x010, 0x018, 0x92C);
      assert r[0x010..] == r[0x010..SECTOR_SIZE];
      Residue(Form2Subheader(body) + body[8..0x91C]);
    }
  }

  /** Mode 0: zeroes, or what a raw source has. */
  lemma Mode0Content(src: seq<byte>, lba: int, mode: SecMode, submode: byte)
    requires |src| >= SourceSize(mode) && (mode == SecEmpty || (mode == SecRaw && src[0x00F] == 0))
    ensures var e := Encoded(src, lba, mode, submode);
      && e.Some?
      && forall k :: 0x010 <= k < 0x930 ==> e.value[k] == if mode == SecRaw then src[k] else 0
  {
    hide Front;
    if mode == SecRaw {
      var s := RawBase(src, lba);
      forall k | 0x010 <= k < 0x930
        ensures s[k] == src[k]
      {
        assert s[k] == s[0x010..][k - 0x010];
      }
    }
  }

  // ----- parity

  /** The bytes of P column `c` of a sector, its two parity bytes last. */
  predicate IsColumnOf(w: seq<byte>, r: seq<byte>, c: nat)
    requires IsSector(r) && c < 86
  {
    |w| == 26 && forall k :: 0 <= k < 26 ==> w[k] == r[0x00C + c + 86 * k]
  }

  /** The bytes of Q diagonal `i` of the low or the high bytes, its two parity
      bytes last. */
  predicate IsDiagonalOf(w: seq<byte>, r: seq<byte>, i: nat, b: nat)
    requires IsSector(r) && i < 26 && b < 2
  {
    && |w| == 45
    && (forall k :: 0 <= k < 43 ==> w[k] == r[0x00C + 2 * ((43 * i + 44 * k) % 1118) + b])
    && w[43] == r[0x8C8 + 2 * i + b] && w[44] == r[0x8FC + 2 * i + b]
  }

  /** In Mode 1 and Form 1 all of them are codewords. */
  lemma ParityBytes(src: seq<byte>, lba: int, mode: SecMode, submode: byte, w: seq<byte>, i: nat, b: nat)
    requires |src| >= SourceSize(mode) && (StoresMode1(src, mode) || StoresForm1(src, mode))
    ensures var e := Encoded(src, lba, mode, submode);
      && e.Some?
      && (i < 86 && IsColumnOf(w, e.value, i) ==> Codeword(w))
      && (i < 26 && b < 2 && IsDiagonalOf(w, e.value, i, b) ==> Codeword(w))
  {
    hide Encoded, Codeword, ParityHolds, IsColumnOf, IsDiagonalOf;
    ParityOfEncoded(src, lba, mode, submode);
    var r := Encoded(src, lba, mode, submode).value;
    if i < 86 && IsColumnOf(w, r, i) {
      ColumnHolds(w, r, i);
    }
    if i < 26 && b < 2 && IsDiagonalOf(w, r, i, b) {
      DiagonalHolds(w, r, i, b);
    }
  }

  lemma ColumnHolds(w: seq<byte>, r: seq<byte>, c: nat)
    requires IsSector(r) && ParityHolds(r) && c < 86 && IsColumnOf(w, r, c)
    ensures Codeword(w)
  {
    hide Codeword;
    assert w == Column(r, c);
  }

  lemma DiagonalHolds(w: seq<byte>, r: seq<byte>, i: nat, b: nat)
    requires IsSector(r) && ParityHolds(r) && i < 26 && b < 2 && IsDiagonalOf(w, r, i, b)
    ensures Codeword(w)
  {
    hide Codeword;
    assert w == Diagonal(r, i, b);
  }

  lemma ParityOfEncoded(src: seq<byte>, lba: int, mode: SecMode, submode: byte)
    requires |src| >= SourceSize(mode) && (StoresMode1(src, mode) || StoresForm1(src, mode))
    ensures var e := Encoded(src, lba, mode, submode);
      e.Some? && ParityHolds(e.value)
  {
    hide Front, Mode1, Form1, Blank, EdcOf, ParityHolds, RawBase, Subheader;
    var s := if mode == SecRaw then RawBase(src, lba) else Blank(lba);
    var data := if mode != SecRaw then src[..0x800]
      else if src[0x00F] == 1 then src[0x010..0x810] else src[0x018..0x818];
    if StoresMode1(src, mode) {
      Mode1Guarantees(s, data);
    } else {
      Form1Guarantees(s, data, submode);
    }
  }
}
