/** The 2352 bytes that `encode_sector` produces, as a function of its
    arguments, and what they promise. */
module SectorFormat {
  import opened Bits
  import opened Edc
  import opened Arithmetic
  import opened Wrappers
  import opened SectorLayout

  datatype SecMode = SecEmpty | SecAudio | SecMode1 | SecMode2Form1 | SecMode2Form2 | SecRaw

  // ----- the header

  /** `tobcd8`, truncated to the byte it is stored in. */
  function Bcd(v: int): byte {
    (CMod(v, 10) + 16 * CDiv(v, 10)) % 0x100
  }

  /** Sync pattern and address: the first 15 bytes. */
  function Front(lba: int): (f: seq<byte>)
    ensures |f| == 15
  {
    var t := lba + 75 * 2;
    [0x00] + seq(10, _ => 0xFF) + [0x00] +
    [Bcd(CDiv(CDiv(t, 75), 60)), Bcd(CMod(CDiv(t, 75), 60)), Bcd(CMod(t, 75))]
  }

  function FromBcd(b: byte): nat {
    10 * (b / 16) + b % 16
  }

  /** How a reader turns the three address bytes into a frame count. */
  function Address(s: seq<byte>): nat
    requires |s| >= 15
  {
    (FromBcd(s[0x00C]) * 60 + FromBcd(s[0x00D])) * 75 + FromBcd(s[0x00E])
  }

  lemma BcdRoundTrip(v: int)
    ensures FromBcd(Bcd(v)) == v <==> 0 <= v < 160
  {
    hide Bcd, FromBcd;
    if v >= 0 {
      var q, r := v / 10, v % 10;
      assert v == 10 * q + r;
      BcdDigits(q, r, v);
    }
  }

  /** The high digit is kept modulo 16. */
  lemma BcdDigits(q: nat, r: nat, v: nat)
    requires v == 10 * q + r && r < 10 && q == v / 10 && r == v % 10
    ensures FromBcd(Bcd(v)) == 10 * (q % 16) + r
  {
    hide Bcd, FromBcd, CMod, CDiv;
    BcdIs(v);
    var h := q % 16;
    QuotientIs(r + 16 * q, q / 16, 16 * h + r, 0x100);
    QuotientIs(16 * h + r, h, r, 16);
    FromBcdIs(Bcd(v));
  }

  lemma BcdIs(v: nat)
    ensures Bcd(v) == (v % 10 + 16 * (v / 10)) % 0x100
  {}

  lemma FromBcdIs(b: byte)
    ensures FromBcd(b) == 10 * (b / 16) + b % 16
  {}

  lemma FrontTime(lba: int)
    ensures var t := lba + 150; var f := Front(lba);
      && f[0x00C] == Bcd(CDiv(CDiv(t, 75), 60))
      && f[0x00D] == Bcd(CMod(CDiv(t, 75), 60))
      && f[0x00E] == Bcd(CMod(t, 75))
  {}

  /** The address decodes to the block number plus the two-second lead-in
      exactly when that frame count is below 160 minutes and not negative. */
  lemma AddressRoundTrip(lba: int)
    ensures Address(Front(lba)) == lba + 150 <==> 0 <= lba + 150 < 160 * 60 * 75
  {
    var t := lba + 150;
    FrontTime(lba);
    hide Front, Bcd, FromBcd;
    if t >= 0 {
      var sec := t / 75;
      BcdRoundTrip(sec / 60);
      BcdRoundTrip(sec % 60);
      BcdRoundTrip(t % 75);
      assert CMod(sec, 60) == sec % 60 && CMod(t, 75) == t % 75;
      assert t == 75 * sec + t % 75 && sec == 60 * (sec / 60) + sec % 60;
    }
  }

  // ----- the body

  function SetBit5(b: byte): byte {
    if b / 0x20 % 2 == 1 then b else b + 0x20
  }

  function ClearBit5(b: byte): byte {
    if b / 0x20 % 2 == 1 then b - 0x20 else b
  }

  /** The sector before any mode-specific byte is written. */
  function Blank(lba: int): (s: seq<byte>)
    ensures IsSector(s)
  {
    Front(lba) + seq(SECTOR_SIZE - 15, _ => 0)
  }

  /** The code of `s[addr..addr + len]` stored behind it. */
  function WithEdc(s: seq<byte>, addr: nat, len: nat): (r: seq<byte>)
    requires addr + len + 4 <= |s|
    ensures |r| == |s|
  {
    Splice(s, addr + len, Bytes(EdcOf(s[addr..addr + len])))
  }

  ghost function WithBothParities(s: seq<byte>): (r: seq<byte>)
    requires IsSector(s)
    ensures IsSector(r)
  {
    WithDiagonalParity(WithColumnParity(s))
  }

  ghost function Mode1(s: seq<byte>, data: seq<byte>): (r: seq<byte>)
    requires IsSector(s) && |data| == 0x800
    ensures IsSector(r)
  {
    WithBothParities(WithEdc(Splice(s[0x00F := 1], 0x010, data), 0x000, 0x810))
  }

  function Subheader(submode: byte): (h: seq<byte>)
    ensures |h| == 8
  {
    var m := ClearBit5(submode);
    [0, 0, m, 0, 0, 0, m, 0]
  }

  ghost function Form1(s: seq<byte>, data: seq<byte>, submode: byte): (r: seq<byte>)
    requires IsSector(s) && |data| == 0x800
    ensures IsSector(r)
  {
    var t := Splice(Splice(s[0x00F := 2], 0x010, Subheader(submode)), 0x018, data);
    WithBothParities(WithEdc(t, 0x010, 0x808))
  }

  /** The second subheader copy wins, with its form bit set. */
  function Form2Subheader(body: seq<byte>): (h: seq<byte>)
    requires |body| >= 8
    ensures |h| == 8
  {
    var m := SetBit5(body[6]);
    [body[4], body[5], m, body[7], body[4], body[5], m, body[7]]
  }

  function Form2(s: seq<byte>, body: seq<byte>): (r: seq<byte>)
    requires IsSector(s) && |body| == 0x920
    ensures IsSector(r)
  {
    var t := Splice(Splice(s, 0x010, body)[0x00F := 2], 0x010, Form2Subheader(body));
    if t[0x92C..] != [0, 0, 0, 0] then WithEdc(t, 0x010, 0x91C) else t
  }

  /** How many source bytes a mode reads. */
  function SourceSize(mode: SecMode): nat {
    match mode
    case SecEmpty => 0
    case SecAudio => 0
    case SecMode1 => 0x800
    case SecMode2Form1 => 0x800
    case SecMode2Form2 => SECTOR_SIZE
    case SecRaw => SECTOR_SIZE
  }

  /** The whole of `encode_sector`; `None` where the program aborts. */
  ghost function Encoded(src: seq<byte>, lba: int, mode: SecMode, submode: byte): (r: Option<seq<byte>>)
    requires |src| >= SourceSize(mode)
    ensures r.Some? ==> IsSector(r.value)
  {
    match mode
    case SecEmpty => Some(Blank(lba)[0x00F := 0])
    case SecAudio => None
    case SecMode1 => Some(Mode1(Blank(lba), src[..0x800]))
    case SecMode2Form1 => Some(Form1(Blank(lba), src[..0x800], submode))
    case SecMode2Form2 => Some(Form2(Blank(lba), src[0x010..SECTOR_SIZE]))
    case SecRaw => Refitted(src, lba, submode)
  }

  /** A raw sector's bytes behind a fresh front. */
  function RawBase(src: seq<byte>, lba: int): (s: seq<byte>)
    requires |src| >= SECTOR_SIZE
    ensures IsSector(s) && s[..0x00F] == Front(lba) && s[0x010..] == src[0x010..SECTOR_SIZE]
  {
    Splice(Blank(lba), 0x010, src[0x010..SECTOR_SIZE])
  }

  /** A raw sector fixed up in place: its mode byte and form bit choose how. */
  ghost function Refitted(src: seq<byte>, lba: int, submode: byte): (r: Option<seq<byte>>)
    requires |src| >= SECTOR_SIZE
    ensures r.Some? <==> src[0x00F] <= 2
    ensures r.Some? ==> IsSector(r.value)
  {
    var s := RawBase(src, lba);
    if src[0x00F] == 0 then Some(s[0x00F := 0])
    else if src[0x00F] == 1 then Some(Mode1(s, src[0x010..0x810]))
    else if src[0x00F] == 2 then
      if src[0x012] / 0x20 % 2 == 0 then Some(Form1(s, src[0x018..0x818], submode))
      else Some(Form2(s, src[0x010..SECTOR_SIZE]))
    else None
  }
}
