/** The sector coder's tables and the in-place passes over a sector that use
    them. */
module SectorCoder {
  import opened Arithmetic
  import opened Bits
  import opened GaloisField
  import opened DiscreteLog
  import opened ReedSolomon
  import opened ParityTables
  import opened Edc
  import opened SectorLayout
  import opened SectorFormat
  import opened SectorGuarantees

  class Tables {
    const edcTable: array<word32>
    const gf8Log: array<int>
    const gf8Ilog: array<byte>
    const gf8Product: array2<word16>

    constructor ()
      ensures Allocated()
      ensures fresh(edcTable) && fresh(gf8Log) && fresh(gf8Ilog) && fresh(gf8Product)
    {
      edcTable := new word32[256](_ => 0);
      gf8Log := new int[256](_ => 0);
      gf8Ilog := new byte[256](_ => 0);
      gf8Product := new word16[43, 256]((_, _) => 0);
    }

    ghost predicate Allocated() {
      && edcTable.Length == 256 && gf8Log.Length == 256 && gf8Ilog.Length == 256
      && gf8Product.Length0 == 43 && gf8Product.Length1 == 256
    }

    /** The first `n` entries hold eight shifts of their index. */
    ghost predicate EdcReady(n: int)
      requires Allocated()
      reads edcTable
    {
      forall i :: 0 <= i < n && i < 256 ==> edcTable[i] == ShiftN(i, 8)
    }

    /** The first `n` powers of a, and their logarithms. */
    ghost predicate PowersReady(n: int)
      requires Allocated()
      reads gf8Log, gf8Ilog
    {
      && gf8Log[0] == 0 && gf8Ilog[255] == 0
      && forall i :: 0 <= i < n && i < 255 ==> gf8Ilog[i] == Alpha(i) && gf8Log[Alpha(i)] == i
    }

    ghost predicate ProductsReady(n: int)
      requires Allocated()
      reads gf8Product
    {
      forall j, v {:trigger gf8Product[j, v]} :: 0 <= j < n && j < 43 && 0 <= v < 256
        ==> gf8Product[j, v] == Product(44 - j, v)
    }

    ghost predicate Ready()
      reads edcTable, gf8Log, gf8Ilog, gf8Product
    {
      Allocated() && EdcReady(256) && PowersReady(255) && ProductsReady(43)
    }

    method InitEdcTable()
      requires Allocated()
      modifies edcTable
      ensures EdcReady(256)
    {
      for i := 0 to 256
        invariant EdcReady(i)
      {
        edcTable[i] := EightShifts(i);
      }
    }

    static method EightShifts(i: byte) returns (x: word32)
      ensures x == ShiftN(i, 8)
    {
      x := i;
      for j := 0 to 8
        invariant ShiftN(x, 8 - j) == ShiftN(i, 8)
      {
        x := ShiftStep(x);
      }
    }

    static method ShiftStep(x: word32) returns (y: word32)
      ensures y == Shift(x)
    {
      var carry := x % 2;
      y := x / 2;
      XorZero(y);
      if carry == 1 {
        y := Xor32(y, 0xD801_8001);
      }
    }

    method InitPowers()
      requires Allocated()
      modifies gf8Log, gf8Ilog
      ensures PowersReady(255)
    {
      gf8Log[0] := 0;
      gf8Ilog[255] := 0;
      var x: byte := 1;
      for i := 0 to 255
        invariant x == Alpha(i)
        invariant PowersReady(i)
      {
        gf8Log[x] := i;
        gf8Ilog[i] := x;
        AlphaNonZero(i);
        forall k | 0 <= k < i
          ensures Alpha(k) != Alpha(i)
        {
          if Alpha(k) == Alpha(i) { AlphaInjective(k, i); }
        }
        x := ShiftAndReduce(x);
      }
    }

    /** The set-up's next power: shift, reduce on carry, keep eight bits. */
    static method ShiftAndReduce(x: byte) returns (y: byte)
      ensures y == Times2(x)
    {
      var carry := x >= 0x80;
      var t: word32 := 2 * x;
      if carry {
        KeepEightBits(x);
        t := Xor32(t, 0x1D);
      }
      y := t % 0x100;
    }

    static lemma KeepEightBits(x: byte)
      requires x >= 0x80
      ensures Xor(2 * x, 0x1D) % 0x100 == Times2(x)
    {
      hide Xor, Pow2;
      var l := 2 * x - 0x100;
      Pow2Values();
      XorJoin(2 * x, 1, l, 0x1D, 0, 0x1D, 8);
      XorZero(1);
    }

    /** The quotient a / a^b on table entries. */
    method Subfunc(a: byte, b: nat) returns (r: byte)
      requires Allocated() && PowersReady(255) && b <= 255
      ensures r == DivideAlpha(a, b)
    {
      r := a;
      if a > 0 {
        LogEntry(a);
        var e := gf8Log[a] - b;
        if e < 0 {
          e := e + 255;
        }
        DivideAlphaReduced(a, b);
        r := gf8Ilog[e];
      }
    }

    lemma LogEntry(v: byte)
      requires Allocated() && PowersReady(255) && v != 0
      ensures gf8Log[v] == Log(v)
    {
      assert Alpha(Log(v)) == v;
    }

    /** The logarithms of both factors for one weight. */
    method FactorLogs(j: nat) returns (low: nat, high: nat)
      requires Allocated() && PowersReady(255) && j < 43
      ensures LowFactor(44 - j) != 0 && low == Log(LowFactor(44 - j))
      ensures HighFactor(44 - j) != 0 && high == Log(HighFactor(44 - j))
    {
      ghost var e := 44 - j;
      FactorsNonZero(e);
      PowerIsNotOne(e - 1);
      var xx := gf8Ilog[44 - j];
      var yy := Subfunc(Xor8(xx, 1), 0x19);
      HighFactorByLogs(e, Xor8(xx, 1), 0x19);
      DivideOnce(e);
      xx := Subfunc(xx, 0x01);
      LowFactorByLogs(e, Xor8(xx, 1), 0x18);
      xx := Subfunc(Xor8(xx, 1), 0x18);
      LogEntry(xx);
      LogEntry(yy);
      low := gf8Log[xx];
      high := gf8Log[yy];
    }

    static lemma DivideOnce(e: nat)
      requires 0 < e < 255
      ensures DivideAlpha(Alpha(e), 1) == Alpha(e - 1)
    {
      LogOfAlpha(e);
      Period(e - 1);
    }

    method InitProducts()
      requires Allocated() && PowersReady(255)
      modifies gf8Product
      ensures ProductsReady(43)
    {
      hide Product, PowersReady;
      for j := 0 to 43
        invariant ProductsReady(j)
      {
        InitProductRow(j);
      }
    }

    /** The products of one weight. */
    method InitProductRow(j: nat)
      requires Allocated() && PowersReady(255) && j < 43
      modifies gf8Product
      ensures forall k, v {:trigger gf8Product[k, v]} :: 0 <= k < 43 && 0 <= v < 256 ==>
        gf8Product[k, v] == if k == j then Product(44 - j, v) else old(gf8Product[k, v])
    {
      hide Product, PowersReady, LowFactor, HighFactor, Log;
      var xx, yy := FactorLogs(j);
      gf8Product[j, 0] := 0x0000;
      ProductOfZero(44 - j);
      for i := 1 to 256
        invariant forall k, v {:trigger gf8Product[k, v]} :: 0 <= k < 43 && 0 <= v < 256 && (k != j || v < i) ==>
          gf8Product[k, v] == if k == j then Product(44 - j, v) else old(gf8Product[k, v])
      {
        gf8Product[j, i] := ProductEntry(xx, yy, i, 44 - j);
      }
    }

    method ProductEntry(xx: nat, yy: nat, i: byte, ghost e: nat) returns (r: word16)
      requires Allocated() && PowersReady(255) && i != 0
      requires LowFactor(e) != 0 && xx == Log(LowFactor(e))
      requires HighFactor(e) != 0 && yy == Log(HighFactor(e))
      ensures r == Product(e, i)
    {
      var x: nat := MulEntry(xx, i, LowFactor(e));
      var y: nat := MulEntry(yy, i, HighFactor(e));
      r := x + y * 0x100;
      ProductIs(e, i, x, y);
    }

    static lemma ProductIs(e: nat, v: byte, x: byte, y: byte)
      requires x == Mul(LowFactor(e), v) && y == Mul(HighFactor(e), v)
      ensures Product(e, v) == x + y * 0x100
    {}

    method MulEntry(log: nat, i: byte, ghost c: byte) returns (r: byte)
      requires Allocated() && PowersReady(255) && i != 0
      requires c != 0 && log == Log(c)
      ensures r == Mul(c, i)
    {
      LogEntry(i);
      var x := log + gf8Log[i];
      if x >= 255 { x := x - 255; }
      MulByLogs(c, i);
      r := gf8Ilog[x];
    }

    static lemma ProductOfZero(e: nat)
      ensures Product(e, 0) == 0
    {
      MulZero(LowFactor(e));
      MulZero(HighFactor(e));
    }

    method InitTables()
      requires Allocated()
      modifies edcTable, gf8Log, gf8Ilog, gf8Product
      ensures Ready()
    {
      InitEdcTable();
      InitPowers();
      InitProducts();
    }

    // ----- the passes over a sector

    /** The `j` loop of one line: both running sums over its source words. */
    method SumLine(sector: array<byte>, base: int, j0: nat, step1: int, srcmax: int)
      returns (x: word16, y: word16)
      requires Ready() && j0 <= 43
      requires LineInside(sector.Length, base, step1, srcmax, 43 - j0)
      ensures x == Both(LineOf(sector[..], base, step1, srcmax, 43 - j0, 0), 44 - j0)
      ensures y == Both(LineOf(sector[..], base, step1, srcmax, 43 - j0, 1), 44 - j0)
    {
      hide Product, Xor, PowersReady, EdcReady, Both;
      BothEmpty(44 - j0);
      var src := base;
      x, y := 0x0000, 0x0000;
      ghost var p := LineOf(sector[..], base, step1, srcmax, 43 - j0, 0);
      ghost var q := LineOf(sector[..], base, step1, srcmax, 43 - j0, 1);
      for j := j0 to 43
        invariant src == Source(base, step1, srcmax, j - j0)
        invariant x == Both(p[..j - j0], 44 - j0)
        invariant y == Both(q[..j - j0], 44 - j0)
      {
        ghost var k := j - j0;
        assert p[k] == sector[src + 0] && q[k] == sector[src + 1];
        BothStep(p, k, 44 - j0);
        BothStep(q, k, 44 - j0);
        x := Xor16(x, gf8Product[j, sector[src + 0]]);
        y := Xor16(y, gf8Product[j, sector[src + 1]]);
        src := src + step1;
        if step1 == 2 * 44 && src >= srcmax {
          src := src - 2 * 1118;
        }
      }
      assert p[..43 - j0] == p && q[..43 - j0] == q;
    }

    static lemma BothEmpty(e: nat)
      ensures Both([], e) == 0
    {}

    method CalcParity(sector: array<byte>, offs: nat, len: nat, j0: nat, step1: nat, step2: nat)
      requires Ready() && sector.Length == SECTOR_SIZE
      requires IsColumns(offs, len, j0, step1, step2) || IsDiagonals(offs, len, j0, step1, step2)
      modifies sector
      ensures sector[..] == WithParity(old(sector[..]), offs)
    {
      hide WithParity, LineOf, LineInside, Both, EdcReady, PowersReady, ProductsReady, Source;
      var src := 0x00C;
      var dst := 0x81C + offs;
      var srcmax := dst;
      ghost var s := sector[..];
      ghost var t := WithParity(s, offs);
      for i := 0 to len
        invariant src == 0x00C + step2 * i && dst == srcmax + 2 * i
        invariant forall k {:trigger sector[k]} :: 0 <= k < SECTOR_SIZE ==>
          sector[k] == if srcmax <= k < dst || srcmax + 2 * len <= k < dst + 2 * len then t[k] else s[k]
      {
        var base := src;
        LineStaysInside(i, offs, len, j0, step1, step2);
        LineOfSame(sector[..], s, base, step1, srcmax, 43 - j0);
        var x, y := SumLine(sector, base, j0, step1, srcmax);
        LineGivesParity(s, i, 0, offs, len, j0, step1, step2, LineOf(s, base, step1, srcmax, 43 - j0, 0));
        LineGivesParity(s, i, 1, offs, len, j0, step1, step2, LineOf(s, base, step1, srcmax, 43 - j0, 1));
        sector[dst + 2 * len + 0] := x % 0x100;
        sector[dst + 0] := x / 0x100;
        sector[dst + 2 * len + 1] := y % 0x100;
        sector[dst + 1] := y / 0x100;
        dst := dst + 2;
        src := base + step2;
      }
      ParityElsewhere(s, offs, len, j0, step1, step2);
      assert sector[..] == t;
    }

    method CalcPParity(sector: array<byte>)
      requires Ready() && sector.Length == SECTOR_SIZE
      modifies sector
      ensures sector[..] == WithColumnParity(old(sector[..]))
    {
      CalcParity(sector, 0, 43, 19, 2 * 43, 2);
    }

    method CalcQParity(sector: array<byte>)
      requires Ready() && sector.Length == SECTOR_SIZE
      modifies sector
      ensures sector[..] == WithDiagonalParity(old(sector[..]))
    {
      CalcParity(sector, 43 * 4, 26, 0, 2 * 44, 2 * 43);
    }

    /** The table-driven code of `len` bytes from `addr` on, stored right
        behind them. */
    method AdjustEdc(sector: array<byte>, addr: nat, len: nat)
      requires Ready() && addr + len + 4 <= sector.Length
      modifies sector
      ensures sector[..] == Splice(old(sector[..]), addr + len, Bytes(EdcOf(old(sector[addr..addr + len]))))
    {
      hide Xor, ShiftN, Absorb;
      ghost var m := sector[addr..addr + len];
      var x: word32 := 0x00000000;
      for i := 0 to len
        invariant sector[..] == old(sector[..])
        invariant x == EdcOf(m[..i])
      {
        assert m[..i + 1] == m[..i] + [m[i]];
        FeedNext(0, m[..i], m[i]);
        AbsorbByTable(x, m[i]);
        assert m[i] == sector[addr + i];
        x := Xor32(x, sector[addr + i]);
        x := Xor32(x / 0x100, edcTable[x % 0x100]);
      }
      assert m[..len] == m;
      ghost var t := Splice(sector[..], addr + len, Bytes(x));
      sector[addr + len + 0] := x % 0x100;
      sector[addr + len + 1] := x / 0x100 % 0x100;
      sector[addr + len + 2] := x / 0x1_0000 % 0x100;
      sector[addr + len + 3] := x / 0x100_0000;
      assert sector[..] == t;
    }

    // ----- one whole sector

    /** memset */
    static method Fill(a: array<byte>, at: nat, v: byte, n: nat)
      requires at + n <= a.Length
      modifies a
      ensures a[..] == Splice(old(a[..]), at, seq(n, _ => v))
    {
      forall k | at <= k < at + n {
        a[k] := v;
      }
    }

    /** memcpy */
    static method Copy(a: array<byte>, at: nat, src: array<byte>, from: nat, n: nat)
      requires a != src && at + n <= a.Length && from + n <= src.Length
      modifies a
      ensures a[..] == Splice(old(a[..]), at, src[from..from + n])
    {
      forall k | 0 <= k < n {
        a[at + k] := src[from + k];
      }
    }

    method EncodeMode1(rawsec: array<byte>, srcsec: array<byte>, at: nat)
      requires Ready() && rawsec.Length == SECTOR_SIZE && rawsec != srcsec && at + 0x800 <= srcsec.Length
      modifies rawsec
      ensures rawsec[..] == Mode1(old(rawsec[..]), srcsec[at..at + 0x800])
    {
      hide Splice, EdcOf, Bytes, WithColumnParity, WithDiagonalParity, EdcReady, PowersReady, ProductsReady;
      ghost var s := rawsec[..];
      rawsec[0x00F] := 0x01;
      assert rawsec[..] == s[0x00F := 1];
      Copy(rawsec, 0x010, srcsec, at, 0x800);
      AdjustEdc(rawsec, 0x000, 0x810);
      CalcPParity(rawsec);
      CalcQParity(rawsec);
    }

    method EncodeForm1(rawsec: array<byte>, srcsec: array<byte>, at: nat, submode: byte)
      requires Ready() && rawsec.Length == SECTOR_SIZE && rawsec != srcsec && at + 0x800 <= srcsec.Length
      modifies rawsec
      ensures rawsec[..] == Form1(old(rawsec[..]), srcsec[at..at + 0x800], submode)
    {
      hide EdcOf, Bytes, WithColumnParity, WithDiagonalParity, EdcReady, PowersReady, ProductsReady;
      ghost var s := rawsec[..];
      WriteSubheader(rawsec, submode);
      Copy(rawsec, 0x018, srcsec, at, 0x800);
      AdjustEdc(rawsec, 0x010, 0x808);
      // the four address bytes are saved and put back around the parity
      // passes, which never write them
      ghost var before := rawsec[..];
      var bak0, bak1, bak2, bak3 := rawsec[0x00C], rawsec[0x00D], rawsec[0x00E], rawsec[0x00F];
      CalcPParity(rawsec);
      CalcQParity(rawsec);
      BelowParityKept(before);
      rawsec[0x00C], rawsec[0x00D], rawsec[0x00E], rawsec[0x00F] := bak0, bak1, bak2, bak3;
      assert rawsec[..] == WithBothParities(before);
    }

    static method WriteSubheader(rawsec: array<byte>, submode: byte)
      requires rawsec.Length == SECTOR_SIZE
      modifies rawsec
      ensures rawsec[..] == Splice(old(rawsec[..])[0x00F := 2], 0x010, Subheader(submode))
    {
      hide ClearBit5;
      ghost var s, h := rawsec[..], Subheader(submode);
      rawsec[0x00F] := 0x02;
      rawsec[0x010], rawsec[0x014] := 0x00, 0x00;
      rawsec[0x011], rawsec[0x015] := 0x00, 0x00;
      rawsec[0x012], rawsec[0x016] := ClearBit5(submode), ClearBit5(submode);
      rawsec[0x013], rawsec[0x017] := 0x00, 0x00;
      assert forall k :: 0 <= k < 8 ==> rawsec[0x010 + k] == h[k];
      assert forall k :: 0 <= k < SECTOR_SIZE && k != 0x00F && !(0x010 <= k < 0x018) ==> rawsec[k] == s[k];
    }

    method EncodeForm2(rawsec: array<byte>, srcsec: array<byte>)
      requires Ready() && rawsec.Length == SECTOR_SIZE && rawsec != srcsec && SECTOR_SIZE <= srcsec.Length
      modifies rawsec
      ensures rawsec[..] == Form2(old(rawsec[..]), srcsec[0x010..SECTOR_SIZE])
    {
      hide EdcOf, Bytes, EdcReady, PowersReady, ProductsReady, Splice;
      Copy(rawsec, 0x010, srcsec, 0x010, SECTOR_SIZE - 0x010);
      CopySubheader(rawsec);
      ghost var t := rawsec[..];
      ghost var c := t[0x92C..];
      if rawsec[0x92C] != 0 || rawsec[0x92D] != 0 || rawsec[0x92E] != 0 || rawsec[0x92F] != 0 {
        assert c[0] != 0 || c[1] != 0 || c[2] != 0 || c[3] != 0;
        AdjustEdc(rawsec, 0x010, 0x91C);
      } else {
        assert c == [0, 0, 0, 0];
      }
    }

    static method CopySubheader(rawsec: array<byte>)
      requires rawsec.Length == SECTOR_SIZE
      modifies rawsec
      ensures rawsec[..] == Splice(old(rawsec[..])[0x00F := 2], 0x010, Form2Subheader(old(rawsec[0x010..])))
    {
      rawsec[0x00F] := 0x02;
      rawsec[0x010] := rawsec[0x014];
      rawsec[0x011] := rawsec[0x015];
      rawsec[0x016] := SetBit5(rawsec[0x016]);
      rawsec[0x012] := rawsec[0x016];
      rawsec[0x013] := rawsec[0x017];
    }

    static method StartSector(rawsec: array<byte>, lba: int)
      requires rawsec.Length == SECTOR_SIZE
      modifies rawsec
      ensures rawsec[..] == Blank(lba)
    {
      hide Bcd;
      Fill(rawsec, 0x000, 0x00, SECTOR_SIZE);
      Fill(rawsec, 0x001, 0xFF, 0x00B - 0x001);
      var t := lba + 75 * 2;
      rawsec[0x00C] := Bcd(CDiv(CDiv(t, 75), 60));
      rawsec[0x00D] := Bcd(CMod(CDiv(t, 75), 60));
      rawsec[0x00E] := Bcd(CMod(t, 75));
    }

    /** Returns whether the program gets past its abort. */
    method EncodeSector(rawsec: array<byte>, srcsec: array<byte>, lba: int, secmode: SecMode, submode: byte)
      returns (ok: bool)
      requires Ready() && rawsec.Length == SECTOR_SIZE && rawsec != srcsec
      requires srcsec.Length >= SourceSize(secmode)
      modifies rawsec
      ensures Ready()
      ensures ok <==> Encoded(srcsec[..], lba, secmode, submode).Some?
      ensures ok ==> rawsec[..] == Encoded(srcsec[..], lba, secmode, submode).value
    {
      hide Blank, Mode1, Form1, Form2, EdcReady, PowersReady, ProductsReady;
      StartSector(rawsec, lba);
      var mode, at := secmode, 0;
      if secmode == SecRaw {
        Copy(rawsec, 0x010, srcsec, 0x010, SECTOR_SIZE - 0x010);
        if srcsec[0x00F] == 0 {
          mode := SecEmpty;
        } else if srcsec[0x00F] == 1 {
          mode, at := SecMode1, 0x010;
        } else if srcsec[0x00F] == 2 {
          if srcsec[0x012] / 0x20 % 2 == 0 {
            mode, at := SecMode2Form1, 0x018;
          } else {
            mode := SecMode2Form2;
          }
        } else {
          return false;
        }
      }
      ghost var s := rawsec[..];
      match mode {
        case SecEmpty =>
          rawsec[0x00F] := 0x00;
          assert rawsec[..] == s[0x00F := 0];
        case SecMode1 =>
          EncodeMode1(rawsec, srcsec, at);
          assert srcsec[..][at..at + 0x800] == srcsec[at..at + 0x800];
        case SecMode2Form1 =>
          EncodeForm1(rawsec, srcsec, at, submode);
          assert srcsec[..][at..at + 0x800] == srcsec[at..at + 0x800];
        case SecMode2Form2 =>
          EncodeForm2(rawsec, srcsec);
        case _ =>
          return false;
      }
      ok := true;
    }
  }
}
