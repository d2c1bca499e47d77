/** What every encoded sector guarantees to its reader, and what fitting a raw
    sector to a new address keeps. */
module SectorGuarantees {
  import opened Bits
  import opened Edc
  import opened ReedSolomon
  import opened SectorLayout
  import opened SectorFormat

  // ----- the stored code

  /** Data behind which its code is stored has code zero as a whole. */
  lemma StoredCodeChecks(s: seq<byte>, addr: nat, len: nat)
    requires addr + len + 4 <= |s|
    ensures EdcOf(WithEdc(s, addr, len)[addr..addr + len + 4]) == 0
  {
    var m := s[addr..addr + len];
    assert WithEdc(s, addr, len)[addr..addr + len + 4] == m + Bytes(EdcOf(m));
    Residue(m);
  }

  // ----- parity reads and writes

  lemma BelowParityKept(s: seq<byte>)
    requires IsSector(s)
    ensures forall k :: 0 <= k < P_START ==> WithBothParities(s)[k] == s[k]
  {
    forall k | 0 <= k < P_START
      ensures WithBothParities(s)[k] == s[k]
    {
      assert WithColumnParity(s)[k] == AfterColumns(s, k);
      assert WithBothParities(s)[k] == AfterDiagonals(WithColumnParity(s), k);
    }
  }

  lemma ColumnsDependOnData(s: seq<byte>, t: seq<byte>)
    requires IsSector(s) && IsSector(t)
    requires forall k :: 0 <= k < P_START ==> s[k] == t[k]
    ensures forall k :: 0 <= k < Q_START ==> WithColumnParity(s)[k] == WithColumnParity(t)[k]
  {
    forall c | 0 <= c < 86
      ensures ColumnData(s, c) == ColumnData(t, c)
    {
      assert forall k :: 0 <= k < 24 ==> ColumnData(s, c)[k] == s[0x00C + c + 86 * k];
      assert forall k :: 0 <= k < 24 ==> ColumnData(t, c)[k] == t[0x00C + c + 86 * k];
    }
    forall k | 0 <= k < Q_START
      ensures WithColumnParity(s)[k] == WithColumnParity(t)[k]
    {
      assert WithColumnParity(s)[k] == AfterColumns(s, k);
      assert WithColumnParity(t)[k] == AfterColumns(t, k);
    }
  }

  lemma DiagonalsDependOnData(s: seq<byte>, t: seq<byte>)
    requires IsSector(s) && IsSector(t)
    requires forall k :: 0 <= k < Q_START ==> s[k] == t[k]
    ensures WithDiagonalParity(s) == WithDiagonalParity(t)
  {
    forall i, b | 0 <= i < 26 && 0 <= b < 2
      ensures DiagonalData(s, i, b) == DiagonalData(t, i, b)
    {
      assert forall k :: 0 <= k < 43 ==> DiagonalAt(i, k) + b < Q_START;
    }
    forall k | 0 <= k < SECTOR_SIZE
      ensures AfterDiagonals(s, k) == AfterDiagonals(t, k)
    {
      if k >= Q_START {
        var u := k - Q_START;
        var v := if u < 52 then u else u - 52;
        assert v / 2 < 26 && 0 <= u % 2 < 2;
        assert DiagonalData(s, v / 2, u % 2) == DiagonalData(t, v / 2, u % 2);
      }
    }
  }

  /** All parity bytes are functions of the bytes below them. */
  lemma ParityDependsOnData(s: seq<byte>, t: seq<byte>)
    requires IsSector(s) && IsSector(t)
    requires forall k :: 0 <= k < P_START ==> s[k] == t[k]
    ensures WithBothParities(s) == WithBothParities(t)
  {
    ColumnsDependOnData(s, t);
    DiagonalsDependOnData(WithColumnParity(s), WithColumnParity(t));
  }

  // ----- one sector, mode by mode

  lemma BothParitiesHold(s: seq<byte>)
    requires IsSector(s)
    ensures ParityHolds(WithBothParities(s))
  {
    ParityEstablished(s);
  }

  lemma PrefixCode(r: seq<byte>, u: seq<byte>, addr: nat, stop: nat)
    requires IsSector(r) && IsSector(u) && addr <= stop <= P_START
    requires forall k :: 0 <= k < P_START ==> r[k] == u[k]
    ensures r[addr..stop] == u[addr..stop]
  {}

  lemma Mode1Guarantees(s: seq<byte>, data: seq<byte>)
    requires IsSector(s) && |data| == 0x800
    ensures var r := Mode1(s, data);
      && r[0x00F] == 1 && r[..0x00F] == s[..0x00F]
      && r[0x010..0x810] == data && r[0x814..P_START] == s[0x814..P_START]
      && EdcOf(r[0x000..0x814]) == 0 && ParityHolds(r)
  {
    hide WithBothParities, EdcOf, ParityHolds, Bytes;
    var t := Splice(s[0x00F := 1], 0x010, data);
    var u := WithEdc(t, 0x000, 0x810);
    StoredCodeChecks(t, 0x000, 0x810);
    BelowParityKept(u);
    BothParitiesHold(u);
    PrefixCode(WithBothParities(u), u, 0x000, 0x814);
  }

  lemma Form1Guarantees(s: seq<byte>, data: seq<byte>, submode: byte)
    requires IsSector(s) && |data| == 0x800
    ensures var r := Form1(s, data, submode);
      && r[0x00F] == 2 && r[..0x00F] == s[..0x00F]
      && r[0x010..0x018] == Subheader(submode) && r[0x018..0x818] == data
      && EdcOf(r[0x010..P_START]) == 0 && ParityHolds(r)
  {
    hide WithBothParities, EdcOf, ParityHolds, Bytes, Subheader;
    var t := Splice(Splice(s[0x00F := 2], 0x010, Subheader(submode)), 0x018, data);
    var u := WithEdc(t, 0x010, 0x808);
    StoredCodeChecks(t, 0x010, 0x808);
    BelowParityKept(u);
    BothParitiesHold(u);
    PrefixCode(WithBothParities(u), u, 0x010, P_START);
  }

  predicate HasForm2Bit(s: seq<byte>)
    requires IsSector(s)
  {
    s[0x012] / 0x20 % 2 == 1
  }

  /** What a reader can check of a sector by its mode byte. */
  predicate Sound(s: seq<byte>)
    requires IsSector(s)
  {
    if s[0x00F] == 0 then true
    else if s[0x00F] == 1 then EdcOf(s[0x000..0x814]) == 0 && ParityHolds(s)
    else
      && s[0x00F] == 2
      && s[0x010..0x014] == s[0x014..0x018]
      && if HasForm2Bit(s)
         then s[0x92C..] == [0, 0, 0, 0] || EdcOf(s[0x010..SECTOR_SIZE]) == 0
         else EdcOf(s[0x010..P_START]) == 0 && ParityHolds(s)
  }

  /** What a reader takes for the sector's content. */
  function Payload(s: seq<byte>): seq<byte>
    requires IsSector(s)
  {
    if s[0x00F] == 0 then s[0x010..]
    else if s[0x00F] == 1 then s[0x010..0x810]
    else if HasForm2Bit(s) then s[0x018..0x92C]
    else s[0x018..0x818]
  }

  lemma Bit5(b: byte)
    ensures SetBit5(b) / 0x20 % 2 == 1 && SetBit5(SetBit5(b)) == SetBit5(b)
    ensures ClearBit5(b) / 0x20 % 2 == 0
  {}

  lemma Form2Bytes(s: seq<byte>, body: seq<byte>)
    requires IsSector(s) && |body| == 0x920
    ensures var r := Form2(s, body);
      && r[0x00F] == 2 && r[..0x00F] == s[..0x00F]
      && r[0x010..0x018] == Form2Subheader(body) && r[0x018..0x92C] == body[8..0x91C]
      && r[0x92C..] == if body[0x91C..] == [0, 0, 0, 0] then [0, 0, 0, 0]
                       else Bytes(EdcOf(Form2Subheader(body) + body[8..0x91C]))
  {
    hide EdcOf, Bytes, Form2Subheader, Splice;
    var t := Form2Base(s, body);
    Form2BaseBytes(s, body);
    Form2BaseCore(t, Form2Subheader(body), body[8..0x91C]);
    if body[0x91C..] != [0, 0, 0, 0] {
      EndReplaced(t, 0x92C, Bytes(EdcOf(t[0x010..0x92C])));
    }
  }

  /** A Form 2 sector before its code is put in. */
  function Form2Base(s: seq<byte>, body: seq<byte>): (t: seq<byte>)
    requires IsSector(s) && |body| == 0x920
    ensures IsSector(t)
  {
    Splice(Splice(s, 0x010, body)[0x00F := 2], 0x010, Form2Subheader(body))
  }

  lemma Form2BaseBytes(s: seq<byte>, body: seq<byte>)
    requires IsSector(s) && |body| == 0x920
    ensures var t := Form2Base(s, body);
      && t[0x00F] == 2 && t[..0x00F] == s[..0x00F] && t[0x010..0x018] == Form2Subheader(body)
      && t[0x018..0x92C] == body[8..0x91C] && t[0x92C..] == body[0x91C..]
  {
    hide Form2Subheader;
  }

  lemma Form2BaseCore(t: seq<byte>, h: seq<byte>, body: seq<byte>)
    requires IsSector(t) && |h| == 8 && t[0x010..0x018] == h && t[0x018..0x92C] == body
    ensures t[0x010..0x92C] == h + body
  {
    assert t[0x010..0x92C] == t[0x010..0x018] + t[0x018..0x92C];
  }

  /** A new end leaves what is before it. */
  lemma EndReplaced(t: seq<byte>, at: nat, e: seq<byte>)
    requires at + |e| == |t|
    ensures var r := Splice(t, at, e);
      r[at..] == e && forall a, b :: 0 <= a <= b <= at ==> r[a..b] == t[a..b]
  {
    var r := Splice(t, at, e);
    assert r[..at] == t[..at];
    forall a, b | 0 <= a <= b <= at
      ensures r[a..b] == t[a..b]
    {
      assert r[a..b] == r[..at][a..b] && t[a..b] == t[..at][a..b];
    }
  }

  lemma Pieces(r: seq<byte>, a: nat, b: nat, c: nat)
    requires a <= b <= c <= |r|
    ensures r[a..] == r[a..b] + r[b..c] + r[c..]
  {}

  lemma Form2Guarantees(s: seq<byte>, body: seq<byte>)
    requires IsSector(s) && |body| == 0x920
    ensures var r := Form2(s, body);
      && HasForm2Bit(r) && Sound(r) && Payload(r) == body[8..0x91C]
  {
    Form2Bytes(s, body);
    var r := Form2(s, body);
    Bit5(body[6]);
    var h := Form2Subheader(body);
    assert h[2] == SetBit5(body[6]);
    hide EdcOf, Bytes, Form2;
    assert r[0x012] == r[0x010..0x018][2];
    assert r[0x010..0x014] == h[..4] && r[0x014..0x018] == h[4..];
    if body[0x91C..] != [0, 0, 0, 0] {
      var m := h + body[8..0x91C];
      Pieces(r, 0x010, 0x018, 0x92C);
      assert r[0x010..] == r[0x010..SECTOR_SIZE];
      Residue(m);
    }
  }

  lemma Form1Sound(s: seq<byte>, data: seq<byte>, submode: byte)
    requires IsSector(s) && |data| == 0x800
    ensures var r := Form1(s, data, submode);
      && !HasForm2Bit(r) && Sound(r) && Payload(r) == data
  {
    Form1Guarantees(s, data, submode);
    var r := Form1(s, data, submode);
    var h := Subheader(submode);
    Bit5(submode);
    hide EdcOf, ParityHolds, Form1;
    assert r[0x012] == r[0x010..0x018][2] == h[2];
    assert r[0x010..0x014] == h[..4] && r[0x014..0x018] == h[4..];
  }

  /** The content that a call asks to be stored. */
  function Requested(src: seq<byte>, mode: SecMode): seq<byte>
    requires |src| >= SourceSize(mode)
  {
    match mode
    case SecEmpty => seq(SECTOR_SIZE - 0x010, _ => 0)
    case SecAudio => []
    case SecMode1 => src[..0x800]
    case SecMode2Form1 => src[..0x800]
    case SecMode2Form2 => src[0x018..0x92C]
    case SecRaw => Payload(src[..SECTOR_SIZE])
  }

  predicate Delivers(r: seq<byte>, lba: int, content: seq<byte>)
    requires IsSector(r)
  {
    Sound(r) && r[..0x00F] == Front(lba) && Payload(r) == content
  }

  lemma Mode1Delivers(s: seq<byte>, lba: int, data: seq<byte>)
    requires IsSector(s) && |data| == 0x800 && s[..0x00F] == Front(lba)
    ensures Delivers(Mode1(s, data), lba, data)
  {
    hide EdcOf, ParityHolds, Front, Mode1;
    Mode1Guarantees(s, data);
  }

  lemma Form1Delivers(s: seq<byte>, lba: int, data: seq<byte>, submode: byte)
    requires IsSector(s) && |data| == 0x800 && s[..0x00F] == Front(lba)
    ensures Delivers(Form1(s, data, submode), lba, data)
  {
    hide EdcOf, ParityHolds, Front, Form1, Sound, Payload;
    Form1Guarantees(s, data, submode);
    Form1Sound(s, data, submode);
  }

  lemma Form2Delivers(s: seq<byte>, lba: int, body: seq<byte>)
    requires IsSector(s) && |body| == 0x920 && s[..0x00F] == Front(lba)
    ensures Delivers(Form2(s, body), lba, body[8..0x91C])
  {
    hide EdcOf, ParityHolds, Front, Form2, Sound, Payload;
    Form2Bytes(s, body);
    Form2Guarantees(s, body);
  }

  lemma RefittedDelivers(src: seq<byte>, lba: int, submode: byte)
    requires |src| >= SECTOR_SIZE && src[0x00F] <= 2
    ensures Delivers(Refitted(src, lba, submode).value, lba, Payload(src[..SECTOR_SIZE]))
  {
    hide EdcOf, ParityHolds, Front, Mode1, Form1, Form2;
    var s := RawBase(src, lba);
    var p := src[..SECTOR_SIZE];
    assert s[..0x00F] == Front(lba);
    if src[0x00F] == 0 {
      assert Payload(p) == src[0x010..SECTOR_SIZE];
      assert s[0x00F := 0][0x010..] == s[0x010..];
    } else if src[0x00F] == 1 {
      assert Payload(p) == src[0x010..0x810];
      Mode1Delivers(s, lba, src[0x010..0x810]);
    } else if src[0x012] / 0x20 % 2 == 0 {
      assert Payload(p) == src[0x018..0x818];
      Form1Delivers(s, lba, src[0x018..0x818], submode);
    } else {
      assert Payload(p) == src[0x010..SECTOR_SIZE][8..0x91C];
      Form2Delivers(s, lba, src[0x010..SECTOR_SIZE]);
    }
  }

  /** Whatever the mode, an encoded sector checks, carries the requested
      content and has the address of its block. */
  lemma EncodedSound(src: seq<byte>, lba: int, mode: SecMode, submode: byte)
    requires |src| >= SourceSize(mode)
    requires Encoded(src, lba, mode, submode).Some?
    ensures var r := Encoded(src, lba, mode, submode).value;
      Sound(r) && Address(r) == Address(Front(lba)) && Payload(r) == Requested(src, mode)
  {
    hide Sound, Payload, Front, Mode1, Form1, Form2, Blank;
    var s := Blank(lba);
    var r := Encoded(src, lba, mode, submode).value;
    BlankFront(lba);
    match mode
    case SecEmpty => EmptySound(lba);
    case SecMode1 => Mode1Delivers(s, lba, src[..0x800]);
    case SecMode2Form1 => Form1Delivers(s, lba, src[..0x800], submode);
    case SecMode2Form2 =>
      Form2Delivers(s, lba, src[0x010..SECTOR_SIZE]);
      SliceOfSlice(src, 0x010, SECTOR_SIZE, 8, 0x91C);
    case SecRaw => RefittedDelivers(src, lba, submode);
    SameAddress(r, Front(lba));
  }

  /** The encoder gives up on audio sectors and on raw sectors of an unknown
      mode, and on nothing else. */
  lemma EncodingFails(src: seq<byte>, lba: int, mode: SecMode, submode: byte)
    requires |src| >= SourceSize(mode)
    ensures Encoded(src, lba, mode, submode).None? <==> mode == SecAudio || (mode == SecRaw && src[0x00F] > 2)
  {
    hide Mode1, Form1, Form2, Blank, Refitted;
    if mode == SecRaw {
      KnownMode(src, lba, submode);
    }
  }

  lemma KnownMode(src: seq<byte>, lba: int, submode: byte)
    requires |src| >= SECTOR_SIZE
    ensures Refitted(src, lba, submode).Some? <==> src[0x00F] <= 2
  {
    hide Mode1, Form1, Form2, Blank;
  }

  lemma SliceOfSlice(s: seq<byte>, a: nat, b: nat, i: nat, j: nat)
    requires a <= b <= |s| && i <= j <= b - a
    ensures s[a..b][i..j] == s[a + i..a + j]
  {
    forall k | 0 <= k < j - i
      ensures s[a..b][i..j][k] == s[a + i..a + j][k]
    {}
  }

  lemma BlankFront(lba: int)
    ensures Blank(lba)[..0x00F] == Front(lba)
  {
    hide Front;
  }

  lemma EmptySound(lba: int)
    ensures Delivers(Blank(lba)[0x00F := 0], lba, seq(SECTOR_SIZE - 0x010, _ => 0))
  {
    hide Front;
    var r := Blank(lba)[0x00F := 0];
    assert r[..0x00F] == Front(lba);
    assert r[0x010..] == seq(SECTOR_SIZE - 0x010, _ => 0);
  }

  lemma SameAddress(r: seq<byte>, f: seq<byte>)
    requires |r| >= 15 && |f| == 15 && r[..15] == f
    ensures Address(r) == Address(f)
  {
    assert r[0x00C] == r[..15][0x00C] && r[0x00D] == r[..15][0x00D] && r[0x00E] == r[..15][0x00E];
  }

  // ----- fitting a raw sector to another address

  lemma Mode1Depends(s: seq<byte>, t: seq<byte>, data: seq<byte>)
    requires IsSector(s) && IsSector(t) && |data| == 0x800
    requires s[..0x00F] == t[..0x00F] && s[0x814..P_START] == t[0x814..P_START]
    ensures Mode1(s, data) == Mode1(t, data)
  {
    var u, v := Splice(s[0x00F := 1], 0x010, data), Splice(t[0x00F := 1], 0x010, data);
    assert u[0x000..0x810] == v[0x000..0x810] == s[..0x00F] + [1] + data;
    var x, y := WithEdc(u, 0x000, 0x810), WithEdc(v, 0x000, 0x810);
    forall k | 0 <= k < P_START
      ensures x[k] == y[k]
    {
      if k >= 0x814 {
        assert x[k] == s[0x814..P_START][k - 0x814] && y[k] == t[0x814..P_START][k - 0x814];
      } else if k < 0x810 {
        assert x[k] == u[0x000..0x810][k] && y[k] == v[0x000..0x810][k];
      }
    }
    ParityDependsOnData(x, y);
  }

  lemma Form1Depends(s: seq<byte>, t: seq<byte>, data: seq<byte>, submode: byte)
    requires IsSector(s) && IsSector(t) && |data| == 0x800
    requires s[..0x00F] == t[..0x00F]
    ensures Form1(s, data, submode) == Form1(t, data, submode)
  {
    var h := Subheader(submode);
    var u := Splice(Splice(s[0x00F := 2], 0x010, h), 0x018, data);
    var v := Splice(Splice(t[0x00F := 2], 0x010, h), 0x018, data);
    hide EdcOf, Bytes, WithBothParities, Subheader;
    assert u[..0x818] == v[..0x818] == s[..0x00F] + [2] + h + data;
    assert u[0x010..0x818] == u[..0x818][0x010..] == v[0x010..0x818];
    var x, y := WithEdc(u, 0x010, 0x808), WithEdc(v, 0x010, 0x808);
    forall k | 0 <= k < P_START
      ensures x[k] == y[k]
    {
      if k < 0x818 {
        assert x[k] == u[..0x818][k] && y[k] == v[..0x818][k];
      }
    }
    ParityDependsOnData(x, y);
  }

  lemma Form2Depends(s: seq<byte>, t: seq<byte>, body: seq<byte>, other: seq<byte>)
    requires IsSector(s) && IsSector(t) && |body| == |other| == 0x920
    requires s[..0x00F] == t[..0x00F]
    requires Form2Subheader(body) == Form2Subheader(other)
    requires body[8..0x91C] == other[8..0x91C]
    requires var c := Bytes(EdcOf(Form2Subheader(body) + body[8..0x91C]));
      if body[0x91C..] == [0, 0, 0, 0] then other[0x91C..] == [0, 0, 0, 0]
      else other[0x91C..] == c
    ensures Form2(s, body) == Form2(t, other)
  {
    Form2Bytes(s, body);
    Form2Bytes(t, other);
    hide EdcOf, Bytes, Form2, Form2Subheader;
    var r, q := Form2(s, body), Form2(t, other);
    Whole(r);
    Whole(q);
  }

  lemma Whole(r: seq<byte>)
    requires IsSector(r)
    ensures r == r[..0x00F] + [r[0x00F]] + r[0x010..0x018] + r[0x018..0x92C] + r[0x92C..]
  {}

  /** Fitting forgets: after a sector was fitted to block `m`, fitting it to
      block `l` gives exactly what fitting the source to `l` directly gives. */
  lemma RefitForgets(src: seq<byte>, m: int, l: int, submode: byte)
    requires IsSector(src) && src[0x00F] <= 2
    ensures Refitted(Refitted(src, m, submode).value, l, submode) == Refitted(src, l, submode)
  {
    if src[0x00F] == 0 {
      Refit0Forgets(src, m, l, submode);
    } else if src[0x00F] == 1 {
      Refit1Forgets(src, m, l, submode);
    } else if src[0x012] / 0x20 % 2 == 0 {
      RefitForm1Forgets(src, m, l, submode);
    } else {
      RefitForm2Forgets(src, m, l, submode);
    }
  }

  lemma Refit0Forgets(src: seq<byte>, m: int, l: int, submode: byte)
    requires IsSector(src) && src[0x00F] == 0
    ensures Refitted(Refitted(src, m, submode).value, l, submode) == Refitted(src, l, submode)
  {
    hide Front;
    var x := Refitted(src, m, submode).value;
    assert x[0x010..SECTOR_SIZE] == src[0x010..SECTOR_SIZE];
  }

  lemma Refit1Forgets(src: seq<byte>, m: int, l: int, submode: byte)
    requires IsSector(src) && src[0x00F] == 1
    ensures Refitted(Refitted(src, m, submode).value, l, submode) == Refitted(src, l, submode)
  {
    hide Front, EdcOf, Mode1, ParityHolds, RawBase;
    var x := Mode1(RawBase(src, m), src[0x010..0x810]);
    Mode1Guarantees(RawBase(src, m), src[0x010..0x810]);
    var s, t := RawBase(x, l), RawBase(src, l);
    TailSlice(RawBase(src, m), src);
    TailSlice(s, x);
    TailSlice(t, src);
    Mode1Depends(s, t, src[0x010..0x810]);
  }

  lemma TailSlice(s: seq<byte>, src: seq<byte>)
    requires IsSector(s) && IsSector(src) && s[0x010..] == src[0x010..]
    ensures s[0x814..P_START] == src[0x814..P_START]
  {
    assert s[0x814..P_START] == s[0x010..][0x804..0x80C];
    assert src[0x814..P_START] == src[0x010..][0x804..0x80C];
  }

  lemma RefitForm1Forgets(src: seq<byte>, m: int, l: int, submode: byte)
    requires IsSector(src) && src[0x00F] == 2 && src[0x012] / 0x20 % 2 == 0
    ensures Refitted(Refitted(src, m, submode).value, l, submode) == Refitted(src, l, submode)
  {
    hide Front, EdcOf, Form1, ParityHolds, Sound, RawBase;
    var d := src[0x018..0x818];
    var x := Form1(RawBase(src, m), d, submode);
    Form1Guarantees(RawBase(src, m), d, submode);
    Form1Sound(RawBase(src, m), d, submode);
    Form1Depends(RawBase(x, l), RawBase(src, l), d, submode);
  }

  lemma RefitForm2Forgets(src: seq<byte>, m: int, l: int, submode: byte)
    requires IsSector(src) && src[0x00F] == 2 && src[0x012] / 0x20 % 2 == 1
    ensures Refitted(Refitted(src, m, submode).value, l, submode) == Refitted(src, l, submode)
  {
    hide Front, EdcOf, Bytes, Form2, Sound, RawBase, ParityHolds;
    var b := src[0x010..SECTOR_SIZE];
    var x := Form2(RawBase(src, m), b);
    Form2Bytes(RawBase(src, m), b);
    Form2Guarantees(RawBase(src, m), b);
    var c := x[0x010..SECTOR_SIZE];
    var h := Form2Subheader(b);
    BodyPieces(x, c);
    Bit5(b[6]);
    assert c[..8] == h;
    assert c[4] == h[4] && c[5] == h[5] && c[6] == h[6] && c[7] == h[7];
    assert Form2Subheader(c) == h;
    Form2Depends(RawBase(src, l), RawBase(x, l), b, c);
  }

  lemma BodyPieces(x: seq<byte>, c: seq<byte>)
    requires IsSector(x) && c == x[0x010..SECTOR_SIZE]
    ensures c[..8] == x[0x010..0x018] && c[8..0x91C] == x[0x018..0x92C] && c[0x91C..] == x[0x92C..]
  {}

  /** A Form 2 sector changes in its address alone exactly when its subheader
      copies already agree with the form bit set and its code is absent or
      right. */
  lemma RefitKeepsForm2(src: seq<byte>, lba: int, submode: byte)
    requires IsSector(src) && src[0x00F] == 2 && HasForm2Bit(src)
    ensures Refitted(src, lba, submode).value == Front(lba) + src[0x00F..]
      <==> && src[0x010..0x014] == src[0x014..0x018]
           && (src[0x92C..] == [0, 0, 0, 0] || src[0x92C..] == Bytes(EdcOf(src[0x010..0x92C])))
  {
    var b := src[0x010..SECTOR_SIZE];
    var r := Form2(RawBase(src, lba), b);
    var h := Form2Subheader(b);
    Form2Bytes(RawBase(src, lba), b);
    BodyPieces(src, b);
    SubheaderAgrees(src, b);
    hide Front, EdcOf, Bytes, Form2, Form2Subheader, RawBase;
    Joined(src);
    WithFront(src, Front(lba));
    SameByPieces(r, Front(lba) + src[0x00F..]);
  }

  lemma WithFront(src: seq<byte>, f: seq<byte>)
    requires IsSector(src) && |f| == 0x00F
    ensures var e := f + src[0x00F..];
      && e[..0x00F] == f && e[0x00F] == src[0x00F] && e[0x010..0x018] == src[0x010..0x018]
      && e[0x018..0x92C] == src[0x018..0x92C] && e[0x92C..] == src[0x92C..]
  {}

  lemma SameByPieces(r: seq<byte>, e: seq<byte>)
    requires IsSector(r) && IsSector(e)
    requires r[..0x00F] == e[..0x00F] && r[0x00F] == e[0x00F] && r[0x018..0x92C] == e[0x018..0x92C]
    ensures r == e <==> r[0x010..0x018] == e[0x010..0x018] && r[0x92C..] == e[0x92C..]
  {
    Whole(r);
    Whole(e);
  }

  lemma Joined(src: seq<byte>)
    requires IsSector(src)
    ensures src[0x010..0x018] + src[0x018..0x92C] == src[0x010..0x92C]
  {}

  lemma SubheaderAgrees(src: seq<byte>, b: seq<byte>)
    requires IsSector(src) && b == src[0x010..SECTOR_SIZE] && HasForm2Bit(src)
    ensures Form2Subheader(b) == src[0x010..0x018] <==> src[0x010..0x014] == src[0x014..0x018]
  {
    var h := Form2Subheader(b);
    var p, q, w := src[0x010..0x014], src[0x014..0x018], src[0x010..0x018];
    assert forall k :: 0 <= k < 8 ==> w[k] == b[k] == src[0x010 + k];
    assert p == w[..4] && q == w[4..];
    if p == q {
      assert p[2] == q[2];
      assert forall k :: 0 <= k < 4 ==> w[k] == p[k] && w[4 + k] == q[k];
      assert h == w;
    }
    if h == w {
      assert forall k :: 0 <= k < 4 ==> h[k] == h[4 + k];
      assert p == q;
    }
  }

  // ----- one wrong byte in a sector

  /** What a reader makes of byte column `c`. */
  ghost function ColumnCheck(s: seq<byte>, c: nat): Repair
    requires IsSector(s) && c < 86
  {
    Diagnose(26, Sum(Column(s, c)), Weighted(Column(s, c), 0))
  }

  /** Where a byte of the protected part lies: column and place in it. */
  lemma ByteInColumn(s: seq<byte>, p: nat, v: byte, c: nat)
    requires IsSector(s) && 0x00C <= p < Q_START && c < 86
    ensures IsSector(s[p := v])
    ensures var k := (p - 0x00C) / 86;
      k < 26 && Column(s[p := v], c) == if c == (p - 0x00C) % 86 then Column(s, c)[k := v] else Column(s, c)
  {
    forall j | 0 <= j < 26
      ensures 0x00C + c + 86 * j == p <==> c == (p - 0x00C) % 86 && j == (p - 0x00C) / 86
    {}
  }

  /** Change any one byte of a sound sector's data or column parity: exactly
      its own column is wrong, and that column tells which byte it is and by
      what to correct it. */
  lemma SectorRepair(s: seq<byte>, p: nat, v: byte, c: nat)
    requires IsSector(s) && ParityHolds(s) && 0x00C <= p < Q_START && c < 86
    ensures ColumnCheck(s[p := v], c)
         == if c == (p - 0x00C) % 86 && v != s[p] then Fixed((p - 0x00C) / 86, Xor8(v, s[p])) else Clean
  {
    hide Diagnose, Sum, Weighted, Xor8, Codeword;
    ByteInColumn(s, p, v, c);
    var u, k := Column(s, c), (p - 0x00C) / 86;
    assert Codeword(u);
    if c == (p - 0x00C) % 86 {
      assert u[k] == s[p];
      SingleByteRepair(u, k, v);
    } else {
      SingleByteRepair(u, 0, u[0]);
      assert u[0 := u[0]] == u;
    }
  }
}
