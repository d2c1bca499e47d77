/** The library's own sector checksums: the same code computed a bit at a
    time, without tables. */
module PsxCdrom {
  import opened Bits
  import opened Edc
  import opened SectorLayout
  import opened SectorFormat
  import opened SectorGuarantees

  method CalculateEdc(sector: array<byte>, offset: nat, size: nat) returns (edc: word32)
    requires offset + size <= sector.Length
    ensures edc == EdcOf(sector[offset..offset + size])
  {
    edc := 0;
    ghost var m := sector[offset..offset + size];
    for i := offset to offset + size
      invariant edc == EdcOf(m[..i - offset])
    {
      ghost var k := i - offset;
      assert m[..k + 1] == m[..k] + [m[k]];
      FeedNext(0, m[..k], m[k]);
      edc := AbsorbBits(edc, sector[i]);
    }
    assert m[..size] == m;
  }

  /** The bit loop over one byte. */
  method AbsorbBits(x: word32, b: byte) returns (edc: word32)
    ensures edc == Absorb(x, b)
  {
    hide Shift, Xor;
    edc := Xor32(x, b);
    for ibit := 0 to 8
      invariant ShiftN(edc, 8 - ibit) == Absorb(x, b)
    {
      edc := DivideStep(edc);
    }
  }

  /** The polynomial times the low bit, instead of a branch. */
  method DivideStep(x: word32) returns (y: word32)
    ensures y == Shift(x)
  {
    y := Xor32(x / 2, 0xD801_8001 * (x % 2));
  }

  datatype SectorType = TypeMode1 | TypeMode2Form1 | TypeMode2Form2

  ghost function WithChecksums(s: seq<byte>, base: int, kind: SectorType): (r: seq<byte>)
    requires match kind
      case TypeMode1 => 0 <= base && base + 0x81C <= |s|
      case TypeMode2Form1 => 0 <= base + 0x010 && base + 0x81C <= |s|
      case TypeMode2Form2 => 0 <= base + 0x010 && base + 0x930 <= |s|
    ensures |r| == |s|
  {
    match kind
    case TypeMode1 => Splice(WithEdc(s, base, 0x810), base + 0x814, seq(8, _ => 0))
    case TypeMode2Form1 => WithEdc(s, base + 0x010, 0x808)
    case TypeMode2Form2 => WithEdc(s, base + 0x010, 0x91C)
  }

  /** A reader finds the code right, and every other byte is as it was but for
      the eight that Mode 1 clears. */
  lemma ChecksumsHold(s: seq<byte>, base: nat, kind: SectorType)
    requires base + 0x930 <= |s|
    ensures var r := WithChecksums(s, base, kind);
      match kind
      case TypeMode1 =>
        && EdcOf(r[base..base + 0x814]) == 0 && r[base + 0x814..base + 0x81C] == [0, 0, 0, 0, 0, 0, 0, 0]
        && r[..base + 0x810] == s[..base + 0x810] && r[base + 0x81C..] == s[base + 0x81C..]
      case TypeMode2Form1 =>
        && EdcOf(r[base + 0x010..base + 0x81C]) == 0
        && r[..base + 0x818] == s[..base + 0x818] && r[base + 0x81C..] == s[base + 0x81C..]
      case TypeMode2Form2 =>
        && EdcOf(r[base + 0x010..base + 0x930]) == 0
        && r[..base + 0x92C] == s[..base + 0x92C] && r[base + 0x930..] == s[base + 0x930..]
  {
    hide EdcOf, Bytes;
    match kind
    case TypeMode1 =>
      StoredCodeChecks(s, base, 0x810);
      var t, r := WithEdc(s, base, 0x810), WithChecksums(s, base, kind);
      assert r[base..base + 0x814] == t[base..base + 0x814];
    case TypeMode2Form1 => StoredCodeChecks(s, base + 0x010, 0x808);
    case TypeMode2Form2 => StoredCodeChecks(s, base + 0x010, 0x91C);
  }

  method StoreEdc(sector: array<byte>, at: nat, edc: word32)
    requires at + 4 <= sector.Length
    modifies sector
    ensures sector[..] == Splice(old(sector[..]), at, Bytes(edc))
  {
    sector[at] := edc % 0x100;
    sector[at + 1] := edc / 0x100 % 0x100;
    sector[at + 2] := edc / 0x1_0000 % 0x100;
    sector[at + 3] := edc / 0x100_0000;
  }

  /** `base` is where the sector's first byte would be; the 16 bytes before
      the subheader need not exist in Mode 2. */
  method CalculateChecksums(sector: array<byte>, base: int, kind: SectorType)
    requires match kind
      case TypeMode1 => 0 <= base && base + 0x81C <= sector.Length
      case TypeMode2Form1 => 0 <= base + 0x010 && base + 0x81C <= sector.Length
      case TypeMode2Form2 => 0 <= base + 0x010 && base + 0x930 <= sector.Length
    modifies sector
    ensures sector[..] == WithChecksums(old(sector[..]), base, kind)
  {
    hide EdcOf, Bytes;
    match kind {
      case TypeMode1 =>
        var edc := CalculateEdc(sector, base, 0x810);
        StoreEdc(sector, base + 0x810, edc);
        forall k | base + 0x814 <= k < base + 0x81C {
          sector[k] := 0;
        }
      case TypeMode2Form1 =>
        var edc := CalculateEdc(sector, base + 0x010, 0x808);
        StoreEdc(sector, base + 0x818, edc);
      case TypeMode2Form2 =>
        var edc := CalculateEdc(sector, base + 0x010, 0x91C);
        StoreEdc(sector, base + 0x92C, edc);
    }
  }
}
