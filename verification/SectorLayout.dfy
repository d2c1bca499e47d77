/** Where the parity of a 2352-byte sector lives: 86 byte columns of 26 bytes
    (P) and 52 byte diagonals of 45 bytes (Q) over the 16-bit words from byte
    0x00C on. */
module SectorLayout {
  import opened Bits
  import opened ReedSolomon
  import opened ParityTables

  const SECTOR_SIZE := 0x930
  const P_START := 0x81C
  const Q_START := 0x8C8

  predicate IsSector(s: seq<byte>) {
    |s| == SECTOR_SIZE
  }

  function Column(s: seq<byte>, c: nat): (w: seq<byte>)
    requires IsSector(s) && c < 86
    ensures |w| == 26
  {
    seq(26, k requires 0 <= k < 26 => s[0x00C + c + 86 * k])
  }

  function DiagonalAt(i: nat, k: nat): nat {
    0x00C + 2 * ((43 * i + 44 * k) % 1118)
  }

  function DiagonalData(s: seq<byte>, i: nat, b: nat): (w: seq<byte>)
    requires IsSector(s) && b < 2
    ensures |w| == 43
  {
    seq(43, k requires 0 <= k < 43 => s[DiagonalAt(i, k) + b])
  }

  function Diagonal(s: seq<byte>, i: nat, b: nat): (w: seq<byte>)
    requires IsSector(s) && i < 26 && b < 2
    ensures |w| == 45
  {
    DiagonalData(s, i, b) + [s[Q_START + 2 * i + b], s[Q_START + 52 + 2 * i + b]]
  }

  /** Every column and every diagonal is a codeword. */
  predicate ParityHolds(s: seq<byte>)
    requires IsSector(s)
  {
    && (forall c :: 0 <= c < 86 ==> Codeword(Column(s, c)))
    && (forall i, b :: 0 <= i < 26 && 0 <= b < 2 ==> Codeword(Diagonal(s, i, b)))
  }

  // ----- the walk of the running source offset

  /** One step: the offset moves on and, on the diagonals, wraps once. */
  function NextSource(src: int, step: int, limit: int): int {
    if step == 2 * 44 && src + step >= limit then src + step - 2 * 1118 else src + step
  }

  function Source(base: int, step: int, limit: int, k: nat): int {
    if k == 0 then base else NextSource(Source(base, step, limit, k - 1), step, limit)
  }

  lemma {:induction false} ColumnWalk(c: nat, limit: int, k: nat)
    ensures Source(0x00C + c, 2 * 43, limit, k) == 0x00C + c + 86 * k
  {
    if k > 0 { ColumnWalk(c, limit, k - 1); }
  }

  /** The word that step `k` of column pair `i` reads. */
  function ColumnAt(i: nat, k: nat): nat {
    0x00C + 2 * i + 86 * k
  }

  /** The column walk reads every data word exactly once. */
  lemma ColumnsPartition(n: nat)
    requires n < 43 * 24
    ensures exists i, k :: 0 <= i < 43 && 0 <= k < 24 && ColumnAt(i, k) == 0x00C + 2 * n
    ensures forall i, k, i', k' ::
      0 <= i < 43 && 0 <= k < 24 && ColumnAt(i, k) == 0x00C + 2 * n &&
      0 <= i' < 43 && 0 <= k' < 24 && ColumnAt(i', k') == 0x00C + 2 * n
      ==> i == i' && k == k'
  {
    assert ColumnAt(n % 43, n / 43) == 0x00C + 2 * n;
  }

  lemma {:induction false} DiagonalWalk(i: nat, k: nat)
    requires i < 26
    ensures Source(0x00C + 2 * 43 * i, 2 * 44, Q_START, k) == DiagonalAt(i, k)
  {
    if k == 0 {
      assert 43 * i < 1118;
    } else {
      DiagonalWalk(i, k - 1);
      StepModulo(43 * i + 44 * (k - 1));
    }
  }

  lemma StepModulo(n: nat)
    ensures (n + 44) % 1118 == if n % 1118 + 44 >= 1118 then n % 1118 + 44 - 1118 else n % 1118 + 44
  {}

  /** Each 16-bit word of bytes 0x00C..0x8C7 is on exactly one diagonal, at
      exactly one step. */
  lemma DiagonalsPartition(n: nat)
    requires n < 1118
    ensures exists i, k :: 0 <= i < 26 && 0 <= k < 43 && DiagonalAt(i, k) == 0x00C + 2 * n
    ensures forall i, k, i', k' ::
      0 <= i < 26 && 0 <= k < 43 && DiagonalAt(i, k) == 0x00C + 2 * n &&
      0 <= i' < 26 && 0 <= k' < 43 && DiagonalAt(i', k') == 0x00C + 2 * n
      ==> i == i' && k == k'
  {
    DiagonalReaches(n);
    forall i, k, i', k' |
      0 <= i < 26 && 0 <= k < 43 && DiagonalAt(i, k) == 0x00C + 2 * n &&
      0 <= i' < 26 && 0 <= k' < 43 && DiagonalAt(i', k') == 0x00C + 2 * n
      ensures i == i' && k == k'
    {
      DiagonalStep(i, k);
      DiagonalStep(i', k');
      SameDiagonal(i, i', k);
    }
  }

  lemma DiagonalStep(i: nat, k: nat)
    requires k < 43
    ensures (43 * i + 44 * k) % 1118 % 43 == k
  {
    var m := 43 * i + 44 * k;
    assert m == 43 * (i + k) + k;
    assert 1118 * (m / 1118) == 43 * (26 * (m / 1118));
    assert m % 1118 == 43 * (i + k - 26 * (m / 1118)) + k;
  }

  lemma SameDiagonal(i: nat, j: nat, k: nat)
    requires i < 26 && j < 26
    requires (43 * i + 44 * k) % 1118 == (43 * j + 44 * k) % 1118
    ensures i == j
  {
    var p, q := (43 * i + 44 * k) / 1118, (43 * j + 44 * k) / 1118;
    assert 43 * (i - j) == 1118 * (p - q);
  }

  lemma DiagonalReaches(n: nat)
    requires n < 1118
    ensures exists i, k :: 0 <= i < 26 && 0 <= k < 43 && DiagonalAt(i, k) == 0x00C + 2 * n
  {
    var k := n % 43;
    var r := n / 43 + 26 * 2 - k;
    var i := r % 26;
    var q := r / 26;
    assert r >= 0 && 43 * r == 43 * i + 1118 * q;
    assert n == 43 * (n / 43) + k;
    assert 43 * i + 44 * k == n + 1118 * (2 - q);
    var m := 43 * i + 44 * k;
    assert m % 1118 == n by { Reduce(n, 2 - q, m); }
    assert DiagonalAt(i, k) == 0x00C + 2 * n;
  }

  lemma Reduce(n: nat, t: int, m: nat)
    requires n < 1118 && m == n + 1118 * t
    ensures m % 1118 == n
  {
    assert m / 1118 == t;
  }

  // ----- a sector with its parity filled in

  function ColumnData(s: seq<byte>, c: nat): (w: seq<byte>)
    requires IsSector(s) && c < 86
    ensures |w| == 24
  {
    Column(s, c)[..24]
  }

  ghost function ColumnParityByte(s: seq<byte>, t: nat): byte
    requires IsSector(s) && t < 172
  {
    if t < 86 then ParityHigh(ColumnData(s, t), 25) else ParityLow(ColumnData(s, t - 86), 25)
  }

  ghost function DiagonalParityByte(s: seq<byte>, t: nat): byte
    requires IsSector(s) && t < 104
  {
    if t < 52 then ParityHigh(DiagonalData(s, t / 2, t % 2), 44)
    else ParityLow(DiagonalData(s, (t - 52) / 2, t % 2), 44)
  }

  ghost function AfterColumns(s: seq<byte>, k: nat): byte
    requires IsSector(s) && k < SECTOR_SIZE
  {
    if P_START <= k < Q_START then ColumnParityByte(s, k - P_START) else s[k]
  }

  ghost function AfterDiagonals(s: seq<byte>, k: nat): byte
    requires IsSector(s) && k < SECTOR_SIZE
  {
    if Q_START <= k then DiagonalParityByte(s, k - Q_START) else s[k]
  }

  ghost function WithColumnParity(s: seq<byte>): (r: seq<byte>)
    requires IsSector(s)
    ensures IsSector(r)
  {
    seq(SECTOR_SIZE, k requires 0 <= k < SECTOR_SIZE => AfterColumns(s, k))
  }

  ghost function WithDiagonalParity(s: seq<byte>): (r: seq<byte>)
    requires IsSector(s)
    ensures IsSector(r)
  {
    seq(SECTOR_SIZE, k requires 0 <= k < SECTOR_SIZE => AfterDiagonals(s, k))
  }

  lemma Appended(w: seq<byte>, d: seq<byte>, h: byte, l: byte)
    requires |w| == |d| + 2 && w[|d|] == h && w[|d| + 1] == l
    requires forall k :: 0 <= k < |d| ==> w[k] == d[k]
    ensures w == d + [h, l]
  {}

  lemma ColumnByte(s: seq<byte>, c: nat, k: nat)
    requires IsSector(s) && c < 86 && k < 26
    ensures Column(WithColumnParity(s), c)[k] == AfterColumns(s, 0x00C + c + 86 * k)
  {
    hide AfterColumns;
  }

  lemma ParityByteOfColumn(s: seq<byte>, c: nat, d: seq<byte>, k: nat, t: nat)
    requires IsSector(s) && c < 86 && d == ColumnData(s, c)
    requires k == P_START + t && (t == c || t == c + 86)
    ensures AfterColumns(s, k) == if t < 86 then ParityHigh(d, 25) else ParityLow(d, 25)
  {
    hide ColumnData, ParityHigh, ParityLow;
  }

  lemma ColumnParityBytes(s: seq<byte>, c: nat, d: seq<byte>)
    requires IsSector(s) && c < 86 && d == ColumnData(s, c)
    ensures AfterColumns(s, 0x00C + c + 86 * 24) == ParityHigh(d, 25)
    ensures AfterColumns(s, 0x00C + c + 86 * 25) == ParityLow(d, 25)
  {
    ParityByteOfColumn(s, c, d, 0x00C + c + 86 * 24, c);
    ParityByteOfColumn(s, c, d, 0x00C + c + 86 * 25, c + 86);
  }

  lemma ColumnSplit(s: seq<byte>, c: nat, d: seq<byte>)
    requires IsSector(s) && c < 86 && d == ColumnData(s, c)
    ensures Column(WithColumnParity(s), c) == d + [ParityHigh(d, 25), ParityLow(d, 25)]
  {
    var w := Column(WithColumnParity(s), c);
    ColumnParityBytes(s, c, d);
    ColumnByte(s, c, 24);
    ColumnByte(s, c, 25);
    forall k | 0 <= k < 24
      ensures w[k] == d[k]
    {
      ColumnByte(s, c, k);
    }
    Appended(w, d, ParityHigh(d, 25), ParityLow(d, 25));
  }

  /** The bytes of the columns lie below the diagonals' parity, so the second
      pass leaves the first pass's codewords as they are. */
  lemma ColumnKept(s: seq<byte>, c: nat)
    requires IsSector(s) && c < 86
    ensures Column(WithDiagonalParity(s), c) == Column(s, c)
  {
    var w := Column(WithDiagonalParity(s), c);
    forall k | 0 <= k < 26
      ensures w[k] == Column(s, c)[k]
    {
      assert w[k] == AfterDiagonals(s, 0x00C + c + 86 * k);
    }
  }

  lemma DiagonalKept(s: seq<byte>, i: nat, b: nat)
    requires IsSector(s) && b < 2
    ensures DiagonalData(WithDiagonalParity(s), i, b) == DiagonalData(s, i, b)
  {
    var w := DiagonalData(WithDiagonalParity(s), i, b);
    forall k | 0 <= k < 43
      ensures w[k] == DiagonalData(s, i, b)[k]
    {
      assert w[k] == AfterDiagonals(s, DiagonalAt(i, k) + b);
    }
  }

  lemma DiagonalParityBytes(s: seq<byte>, i: nat, b: nat, d: seq<byte>)
    requires IsSector(s) && i < 26 && b < 2 && d == DiagonalData(s, i, b)
    ensures AfterDiagonals(s, Q_START + 2 * i + b) == ParityHigh(d, 44)
    ensures AfterDiagonals(s, Q_START + 52 + 2 * i + b) == ParityLow(d, 44)
  {
    HalfAndParity(i, b);
  }

  lemma DiagonalSplit(s: seq<byte>, i: nat, b: nat, d: seq<byte>)
    requires IsSector(s) && i < 26 && b < 2 && d == DiagonalData(s, i, b)
    ensures Diagonal(WithDiagonalParity(s), i, b) == d + [ParityHigh(d, 44), ParityLow(d, 44)]
  {
    DiagonalKept(s, i, b);
    DiagonalParityBytes(s, i, b, d);
  }

  lemma HalfAndParity(i: nat, b: nat)
    requires b < 2
    ensures (2 * i + b) / 2 == i && (2 * i + b) % 2 == b && (52 + 2 * i + b) % 2 == b
  {}

  lemma ColumnCompleted(s: seq<byte>, c: nat)
    requires IsSector(s) && c < 86
    ensures Codeword(Column(WithDiagonalParity(WithColumnParity(s)), c))
  {
    var d := ColumnData(s, c);
    ColumnSplit(s, c, d);
    ColumnKept(WithColumnParity(s), c);
    ParityIsTheCompletion(d, ParityHigh(d, |d| + 1), ParityLow(d, |d| + 1));
  }

  lemma DiagonalCompleted(s: seq<byte>, i: nat, b: nat)
    requires IsSector(s) && i < 26 && b < 2
    ensures Codeword(Diagonal(WithDiagonalParity(s), i, b))
  {
    var d := DiagonalData(s, i, b);
    DiagonalSplit(s, i, b, d);
    ParityIsTheCompletion(d, ParityHigh(d, |d| + 1), ParityLow(d, |d| + 1));
  }

  /** For every sector, column parity followed by diagonal parity makes all 86
      columns and all 52 diagonals codewords. */
  lemma ParityEstablished(s: seq<byte>)
    requires IsSector(s)
    ensures ParityHolds(WithDiagonalParity(WithColumnParity(s)))
  {
    forall c | 0 <= c < 86
      ensures Codeword(Column(WithDiagonalParity(WithColumnParity(s)), c))
    {
      ColumnCompleted(s, c);
    }
    forall i, b | 0 <= i < 26 && 0 <= b < 2
      ensures Codeword(Diagonal(WithDiagonalParity(WithColumnParity(s)), i, b))
    {
      DiagonalCompleted(WithColumnParity(s), i, b);
    }
  }

  /** `t` written over `s` from `at` on. */
  function Splice(s: seq<byte>, at: nat, t: seq<byte>): (r: seq<byte>)
    requires at + |t| <= |s|
    ensures |r| == |s|
    ensures forall k {:trigger r[k]} :: 0 <= k < |s| ==> r[k] == if at <= k < at + |t| then t[k - at] else s[k]
  {
    s[..at] + t + s[at + |t|..]
  }

  // ----- the parameters of the shared parity pass

  predicate IsColumns(offs: nat, len: nat, j0: nat, step1: nat, step2: nat) {
    offs == 0 && len == 43 && j0 == 19 && step1 == 86 && step2 == 2
  }

  predicate IsDiagonals(offs: nat, len: nat, j0: nat, step1: nat, step2: nat) {
    offs == 172 && len == 26 && j0 == 0 && step1 == 88 && step2 == 86
  }

  ghost function WithParity(s: seq<byte>, offs: nat): (r: seq<byte>)
    requires IsSector(s)
    ensures IsSector(r)
  {
    if offs == 0 then WithColumnParity(s) else WithDiagonalParity(s)
  }

  predicate LineInside(length: nat, base: int, step: int, limit: int, n: nat) {
    forall k :: 0 <= k < n ==> 0 <= Source(base, step, limit, k) && Source(base, step, limit, k) + 1 < length
  }

  function LineOf(s: seq<byte>, base: int, step: int, limit: int, n: nat, b: nat): (w: seq<byte>)
    requires LineInside(|s|, base, step, limit, n) && b < 2
    ensures |w| == n
  {
    seq(n, k requires 0 <= k < n => s[Source(base, step, limit, k) + b])
  }

  lemma LineStaysInside(i: nat, offs: nat, len: nat, j0: nat, step1: nat, step2: nat)
    requires IsColumns(offs, len, j0, step1, step2) || IsDiagonals(offs, len, j0, step1, step2)
    requires i < len
    ensures LineInside(P_START + offs, 0x00C + step2 * i, step1, P_START + offs, 43 - j0)
    ensures LineInside(SECTOR_SIZE, 0x00C + step2 * i, step1, P_START + offs, 43 - j0)
  {
    forall k {:trigger Source(0x00C + step2 * i, step1, P_START + offs, k)} | 0 <= k < 43 - j0
      ensures 0 <= Source(0x00C + step2 * i, step1, P_START + offs, k) < P_START + offs - 1
    {
      if offs == 0 {
        ColumnWalk(2 * i, P_START, k);
      } else {
        DiagonalWalk(i, k);
      }
    }
  }

  lemma LineOfSame(s: seq<byte>, t: seq<byte>, base: int, step: int, limit: nat, n: nat)
    requires limit <= |s| == |t| && LineInside(limit, base, step, limit, n)
    requires LineInside(|s|, base, step, limit, n)
    requires forall k :: 0 <= k < limit ==> s[k] == t[k]
    ensures forall b :: 0 <= b < 2 ==> LineOf(s, base, step, limit, n, b) == LineOf(t, base, step, limit, n, b)
  {}

  predicate IsLine(s: seq<byte>, base: int, step: int, limit: int, n: nat, b: nat, d: seq<byte>) {
    b < 2 && |d| == n && LineInside(|s|, base, step, limit, n) && d == LineOf(s, base, step, limit, n, b)
  }

  /** The line's two sums are the parity bytes of its place. */
  lemma LineGivesParity(s: seq<byte>, i: nat, b: nat, offs: nat, len: nat, j0: nat, step1: nat, step2: nat,
                        d: seq<byte>)
    requires IsColumns(offs, len, j0, step1, step2) || IsDiagonals(offs, len, j0, step1, step2)
    requires IsSector(s) && i < len && IsLine(s, 0x00C + step2 * i, step1, P_START + offs, 43 - j0, b, d)
    ensures WithParity(s, offs)[P_START + offs + 2 * i + b] == Both(d, 44 - j0) / 0x100
    ensures WithParity(s, offs)[P_START + offs + 2 * len + 2 * i + b] == Both(d, 44 - j0) % 0x100
  {
    hide LineOf, LineInside, AfterColumns, AfterDiagonals, Both, ColumnData, DiagonalData, ParityHigh, ParityLow;
    if offs == 0 {
      ColumnLine(s, i, b, d);
      ColumnParityBytes(s, 2 * i + b, d);
      BothHalves(d, 25);
    } else {
      DiagonalLine(s, i, b, d);
      DiagonalParityBytes(s, i, b, d);
      BothHalves(d, 44);
    }
  }

  lemma ParityElsewhere(s: seq<byte>, offs: nat, len: nat, j0: nat, step1: nat, step2: nat)
    requires IsSector(s)
    requires IsColumns(offs, len, j0, step1, step2) || IsDiagonals(offs, len, j0, step1, step2)
    ensures forall k :: 0 <= k < SECTOR_SIZE && !(P_START + offs <= k < P_START + offs + 4 * len)
                        ==> WithParity(s, offs)[k] == s[k]
  {}

  lemma ColumnLine(s: seq<byte>, i: nat, b: nat, d: seq<byte>)
    requires IsSector(s) && i < 43 && b < 2
    requires LineInside(SECTOR_SIZE, 0x00C + 2 * i, 86, P_START, 24)
    requires d == LineOf(s, 0x00C + 2 * i, 86, P_START, 24, b)
    ensures d == ColumnData(s, 2 * i + b)
  {
    forall k | 0 <= k < 24
      ensures d[k] == ColumnData(s, 2 * i + b)[k]
    {
      ColumnWalk(2 * i, P_START, k);
    }
  }

  lemma DiagonalLine(s: seq<byte>, i: nat, b: nat, d: seq<byte>)
    requires IsSector(s) && i < 26 && b < 2
    requires LineInside(SECTOR_SIZE, 0x00C + 86 * i, 88, Q_START, 43)
    requires d == LineOf(s, 0x00C + 86 * i, 88, Q_START, 43, b)
    ensures d == DiagonalData(s, i, b)
  {
    forall k | 0 <= k < 43
      ensures d[k] == DiagonalData(s, i, b)[k]
    {
      DiagonalWalk(i, k);
    }
  }
}
