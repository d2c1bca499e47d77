/** What the two codes of a sector achieve together: which bytes a diagonal
    holds, how it locates a wrong one, and how far apart two sound sectors
    are. */
module SectorDistance {
  import opened Arithmetic
  import opened Bits
  import opened FiniteSets
  import opened ReedSolomon
  import opened SectorLayout

  // ----- places on a diagonal

  /** Byte `j` of diagonal `i` in byte plane `b`. */
  function DiagonalPlace(i: nat, b: nat, j: nat): nat {
    if j < 43 then DiagonalAt(i, j) + b else Q_START + 52 * (j - 43) + 2 * i + b
  }

  predicate IsPlace(i: nat, b: nat, j: nat) {
    i < 26 && b < 2 && j < 45
  }

  lemma PlaceRange(i: nat, b: nat, j: nat)
    requires IsPlace(i, b, j)
    ensures 0x00C <= DiagonalPlace(i, b, j) < SECTOR_SIZE
    ensures DiagonalPlace(i, b, j) < Q_START <==> j < 43
  {}

  lemma DiagonalIs(s: seq<byte>, i: nat, b: nat, j: nat)
    requires IsSector(s) && IsPlace(i, b, j)
    ensures DiagonalPlace(i, b, j) < SECTOR_SIZE && Diagonal(s, i, b)[j] == s[DiagonalPlace(i, b, j)]
  {
    PlaceRange(i, b, j);
  }

  /** Diagonals do not share bytes, and none has a byte twice. */
  lemma PlaceUnique(i: nat, b: nat, j: nat, i': nat, b': nat, j': nat)
    requires IsPlace(i, b, j) && IsPlace(i', b', j')
    requires DiagonalPlace(i, b, j) == DiagonalPlace(i', b', j')
    ensures i == i' && b == b' && j == j'
  {
    PlaceRange(i, b, j);
    PlaceRange(i', b', j');
    if j < 43 {
      EvenPlace(i, j);
      EvenPlace(i', j');
      DiagonalsPartition((DiagonalAt(i, j) - 0x00C) / 2);
    }
  }

  lemma EvenPlace(i: nat, k: nat)
    ensures DiagonalAt(i, k) >= 0x00C && (DiagonalAt(i, k) - 0x00C) % 2 == 0 && (DiagonalAt(i, k) - 0x00C) / 2 < 1118
    ensures DiagonalAt(i, k) == 0x00C + 2 * ((DiagonalAt(i, k) - 0x00C) / 2)
  {}

  // ----- one wrong byte, by its diagonal

  /** What a reader makes of a diagonal. */
  ghost function DiagonalCheck(s: seq<byte>, i: nat, b: nat): Repair
    requires IsSector(s) && i < 26 && b < 2
  {
    Diagnose(45, Sum(Diagonal(s, i, b)), Weighted(Diagonal(s, i, b), 0))
  }

  lemma ByteOnDiagonal(s: seq<byte>, i: nat, b: nat, j: nat, v: byte, i': nat, b': nat)
    requires IsSector(s) && IsPlace(i, b, j) && i' < 26 && b' < 2
    ensures DiagonalPlace(i, b, j) < SECTOR_SIZE
    ensures var t := s[DiagonalPlace(i, b, j) := v];
      Diagonal(t, i', b') == if i == i' && b == b' then Diagonal(s, i', b')[j := v] else Diagonal(s, i', b')
  {
    hide DiagonalPlace, Diagonal, IsPlace;
    PlaceBelow(i, b, j);
    var t := s[DiagonalPlace(i, b, j) := v];
    forall k | 0 <= k < 45
      ensures Diagonal(t, i', b')[k] == if i == i' && b == b' && j == k then v else Diagonal(s, i', b')[k]
    {
      Places(i', b', k);
      DiagonalIs(s, i', b', k);
      DiagonalIs(t, i', b', k);
      if DiagonalPlace(i, b, j) == DiagonalPlace(i', b', k) { PlaceUnique(i, b, j, i', b', k); }
    }
  }

  lemma Places(i: nat, b: nat, j: nat)
    ensures IsPlace(i, b, j) <==> i < 26 && b < 2 && j < 45
  {}

  lemma PlaceBelow(i: nat, b: nat, j: nat)
    requires IsPlace(i, b, j)
    ensures i < 26 && b < 2 && j < 45 && DiagonalPlace(i, b, j) < SECTOR_SIZE
  {
    PlaceRange(i, b, j);
  }

  /** Change any one byte behind the header of a sound sector, of its Q parity
      too: exactly its own diagonal is wrong, and tells which byte it is and by
      what to correct it. */
  lemma DiagonalRepair(s: seq<byte>, i: nat, b: nat, j: nat, v: byte, i': nat, b': nat)
    requires IsSector(s) && ParityHolds(s) && IsPlace(i, b, j) && i' < 26 && b' < 2
    ensures DiagonalPlace(i, b, j) < SECTOR_SIZE
    ensures var p := DiagonalPlace(i, b, j);
      DiagonalCheck(s[p := v], i', b')
      == if i == i' && b == b' && v != s[p] then Fixed(j, Xor8(v, s[p])) else Clean
  {
    hide Diagnose, Sum, Weighted, Xor8, Codeword, DiagonalPlace, Diagonal;
    ByteOnDiagonal(s, i, b, j, v, i', b');
    DiagonalIs(s, i, b, j);
    var u := Diagonal(s, i', b');
    assert Codeword(u);
    if i == i' && b == b' {
      SingleByteRepair(u, j, v);
    } else {
      SingleByteRepair(u, 0, u[0]);
      assert u[0 := u[0]] == u;
    }
  }

  // ----- how far apart sound sectors are

  /** Different codewords differ in three places at least. */
  lemma ThreeDiffer(u: seq<byte>, v: seq<byte>) returns (a: nat, b: nat, c: nat)
    requires 2 < |u| == |v| <= 255 && Codeword(u) && Codeword(v) && u != v
    ensures a < |u| && b < |u| && c < |u| && a != b && a != c && b != c
    ensures u[a] != v[a] && u[b] != v[b] && u[c] != v[c]
  {
    hide Codeword;
    a :| 0 <= a < |u| && u[a] != v[a];
    var o := if a == 0 then 1 else 0;
    MinimumDistance(u, v, if a < o then a else o, if a < o then o else a);
    b :| 0 <= b < |u| && b != a && b != o && u[b] != v[b];
    MinimumDistance(u, v, if a < b then a else b, if a < b then b else a);
    c :| 0 <= c < |u| && c != a && c != b && u[c] != v[c];
  }

  /** Where two sectors differ behind their headers. */
  ghost function Differences(s: seq<byte>, t: seq<byte>): set<int>
    requires IsSector(s) && IsSector(t)
  {
    set p: int | 0x00C <= p < SECTOR_SIZE && s[p] != t[p]
  }

  predicate OnDiagonal(p: int, i: nat, b: nat) {
    exists j :: 0 <= j < 45 && p == DiagonalPlace(i, b, j)
  }

  /** A diagonal that differs does so in three of its bytes. */
  lemma ThreeOnDiagonal(s: seq<byte>, t: seq<byte>, i: nat, b: nat) returns (ps: set<int>, data: nat)
    requires IsSector(s) && IsSector(t) && ParityHolds(s) && ParityHolds(t) && i < 26 && b < 2
    requires Diagonal(s, i, b) != Diagonal(t, i, b)
    ensures |ps| == 3 && ps <= Differences(s, t) && forall p :: p in ps ==> OnDiagonal(p, i, b)
    ensures data in Differences(s, t) && data < Q_START
  {
    hide Codeword, Diagonal, DiagonalPlace;
    var k, l, m := ThreeDiffer(Diagonal(s, i, b), Diagonal(t, i, b));
    var p, q, r := DiagonalPlace(i, b, k), DiagonalPlace(i, b, l), DiagonalPlace(i, b, m);
    DifferAt(s, t, i, b, k);
    DifferAt(s, t, i, b, l);
    DifferAt(s, t, i, b, m);
    if p == q { PlaceUnique(i, b, k, i, b, l); }
    if p == r { PlaceUnique(i, b, k, i, b, m); }
    if q == r { PlaceUnique(i, b, l, i, b, m); }
    ps := {p, q, r};
    data := if k < 43 then p else if l < 43 then q else r;
  }

  lemma DifferAt(s: seq<byte>, t: seq<byte>, i: nat, b: nat, k: nat)
    requires IsSector(s) && IsSector(t) && IsPlace(i, b, k) && Diagonal(s, i, b)[k] != Diagonal(t, i, b)[k]
    ensures DiagonalPlace(i, b, k) in Differences(s, t) && OnDiagonal(DiagonalPlace(i, b, k), i, b)
    ensures k < 43 <==> DiagonalPlace(i, b, k) < Q_START
  {
    hide DiagonalPlace;
    DiagonalIs(s, i, b, k);
    DiagonalIs(t, i, b, k);
    PlaceRange(i, b, k);
  }

  /** Every byte behind the header is on a diagonal. */
  lemma PlaceExists(p: nat) returns (i: nat, b: nat, j: nat)
    requires 0x00C <= p < SECTOR_SIZE
    ensures IsPlace(i, b, j) && p == DiagonalPlace(i, b, j)
    ensures b == (p - 0x00C) % 2 && (p < Q_START ==> j == (p - 0x00C) / 2 % 43)
  {
    b := (p - 0x00C) % 2;
    if p < Q_START {
      var n := (p - 0x00C) / 2;
      DiagonalsPartition(n);
      i, j :| 0 <= i < 26 && 0 <= j < 43 && DiagonalAt(i, j) == 0x00C + 2 * n;
      DiagonalStep(i, j);
    } else {
      j := if p < Q_START + 52 then 43 else 44;
      i := (p - Q_START - 52 * (j - 43)) / 2;
    }
  }

  /** The bytes of a column are all on diagonals of one plane, at one step. */
  lemma ColumnOnDiagonals(c: nat, k: nat) returns (i: nat)
    requires c < 86 && k < 26
    ensures i < 26 && DiagonalPlace(i, c % 2, c / 2 % 43) == 0x00C + c + 86 * k
  {
    hide DiagonalPlace;
    var p, b, j := 0x00C + c + 86 * k, 0, 0;
    i, b, j := PlaceExists(p);
    HalfOfColumn(c, k);
    WholeColumns(c / 2, k);
  }

  lemma HalfOfColumn(c: nat, k: nat)
    ensures (c + 86 * k) / 2 == c / 2 + 43 * k && (c + 86 * k) % 2 == c % 2
  {}

  lemma WholeColumns(h: nat, k: nat)
    ensures (h + 43 * k) % 43 == h % 43
  {
    var q, r := h / 43, h % 43;
    QuotientIs(h + 43 * k, q + k, r, 43);
  }

  /** Sound sectors that differ somewhere behind their headers differ in a data
      or P byte. */
  lemma DataDiffers(s: seq<byte>, t: seq<byte>) returns (p: nat)
    requires IsSector(s) && IsSector(t) && ParityHolds(s) && ParityHolds(t) && Differences(s, t) != {}
    ensures p in Differences(s, t) && p < Q_START
  {
    hide ParityHolds, DiagonalPlace, Diagonal;
    var q: int :| q in Differences(s, t);
    var i, b, j := PlaceExists(q);
    DiagonalIs(s, i, b, j);
    DiagonalIs(t, i, b, j);
    var ps, data := ThreeOnDiagonal(s, t, i, b);
    p := data;
  }

  /** Three bytes of one column differ, and each spoils its own diagonal. */
  lemma ThreeDiagonals(s: seq<byte>, t: seq<byte>, p: nat) returns (b: nat, i: nat, i': nat, i'': nat)
    requires IsSector(s) && IsSector(t) && ParityHolds(s) && ParityHolds(t)
    requires p in Differences(s, t) && p < Q_START
    ensures b < 2 && i < 26 && i' < 26 && i'' < 26 && i != i' && i != i'' && i' != i''
    ensures Diagonal(s, i, b) != Diagonal(t, i, b)
    ensures Diagonal(s, i', b) != Diagonal(t, i', b) && Diagonal(s, i'', b) != Diagonal(t, i'', b)
  {
    hide DiagonalPlace, Diagonal, Codeword;
    var c: nat := (p - 0x00C) % 86;
    var k: nat := (p - 0x00C) / 86;
    assert Column(s, c)[k] == s[p] && Column(t, c)[k] == t[p];
    var x, y, z := ThreeDiffer(Column(s, c), Column(t, c));
    b := c % 2;
    i := ColumnOnDiagonals(c, x);
    i' := ColumnOnDiagonals(c, y);
    i'' := ColumnOnDiagonals(c, z);
    DiagonalSpoilt(s, t, i, c, x);
    DiagonalSpoilt(s, t, i', c, y);
    DiagonalSpoilt(s, t, i'', c, z);
  }

  lemma DiagonalSpoilt(s: seq<byte>, t: seq<byte>, i: nat, c: nat, k: nat)
    requires IsSector(s) && IsSector(t) && i < 26 && c < 86 && k < 26 && Column(s, c)[k] != Column(t, c)[k]
    requires DiagonalPlace(i, c % 2, c / 2 % 43) == 0x00C + c + 86 * k
    ensures Diagonal(s, i, c % 2) != Diagonal(t, i, c % 2)
  {
    hide DiagonalPlace, Diagonal;
    DiagonalIs(s, i, c % 2, c / 2 % 43);
    DiagonalIs(t, i, c % 2, c / 2 % 43);
  }

  lemma DiagonalsApart(a: set<int>, b: set<int>, i: nat, i': nat, plane: nat)
    requires i < 26 && i' < 26 && i != i' && plane < 2
    requires forall p :: p in a ==> OnDiagonal(p, i, plane)
    requires forall p :: p in b ==> OnDiagonal(p, i', plane)
    ensures a !! b
  {
    hide DiagonalPlace;
    forall p | p in a && p in b
      ensures false
    {
      var j :| 0 <= j < 45 && p == DiagonalPlace(i, plane, j);
      var j' :| 0 <= j' < 45 && p == DiagonalPlace(i', plane, j');
      PlaceUnique(i, plane, j, i', plane, j');
    }
  }

  /** The two codes together: sound sectors that are not the same behind their
      headers differ in nine bytes at least. */
  lemma NineBytes(s: seq<byte>, t: seq<byte>)
    requires IsSector(s) && IsSector(t) && ParityHolds(s) && ParityHolds(t)
    ensures s[0x00C..] == t[0x00C..] || |Differences(s, t)| >= 9
  {
    hide ParityHolds, Diagonal, OnDiagonal;
    if Differences(s, t) == {} {
      NoDifference(s, t);
    } else {
      var p := DataDiffers(s, t);
      var b, i, i', i'' := ThreeDiagonals(s, t, p);
      var ps, _ := ThreeOnDiagonal(s, t, i, b);
      var qs, _ := ThreeOnDiagonal(s, t, i', b);
      var rs, _ := ThreeOnDiagonal(s, t, i'', b);
      DiagonalsApart(ps, qs, i, i', b);
      DiagonalsApart(ps, rs, i, i'', b);
      DiagonalsApart(qs, rs, i', i'', b);
      assert |ps + qs| == 6 && |ps + qs + rs| == 9;
      SubsetSize(ps + qs + rs, Differences(s, t));
    }
  }

  lemma NoDifference(s: seq<byte>, t: seq<byte>)
    requires IsSector(s) && IsSector(t) && Differences(s, t) == {}
    ensures s[0x00C..] == t[0x00C..]
  {
    forall k | 0 <= k < SECTOR_SIZE - 0x00C
      ensures s[0x00C..][k] == t[0x00C..][k]
    {
      assert 0x00C + k !in Differences(s, t);
    }
  }
}
