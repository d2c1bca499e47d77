/** Where a frame keeps its blocks, and in which order they are visited: six
    lists of blocks, one for each part of a macroblock, and macroblocks taken
    column by column. */
module FrameLayout {
  import opened Arithmetic
  import opened FrameBudget

  /** Frame size in macroblocks. */
  datatype Size = Size(w: nat, h: nat)

  function Blocks(d: Size): nat {
    6 * (d.w * d.h)
  }

  /** Block `y * w + x` of list `i`. */
  function Slot(d: Size, x: nat, y: nat, i: nat): nat {
    (i * d.h + y) * d.w + x
  }

  // ----- visits

  predicate IsVisit(d: Size, x: nat, y: nat, j: nat) {
    x < d.w && y < d.h && j < 6
  }

  function Visit(d: Size, x: nat, y: nat, j: nat): nat {
    6 * (x * d.h + y) + j
  }

  function ColumnOf(d: Size, k: nat): nat
    requires d.h > 0
  {
    k / 6 / d.h
  }

  function RowOfVisit(d: Size, k: nat): nat
    requires d.h > 0
  {
    k / 6 % d.h
  }

  /** Blocks are shed from the last list of a macroblock to the first, and
      coded from the first to the last. */
  datatype Order = Coding | Shedding

  function ListOf(o: Order, j: nat): nat
    requires j < 6
  {
    if o == Coding then j else 5 - j
  }

  /** Offset of the block that visit `k` reaches. */
  function At(d: Size, o: Order, k: nat): nat
    requires k < Blocks(d)
  {
    NotEmpty(d, k);
    64 * Slot(d, ColumnOf(d, k), RowOfVisit(d, k), ListOf(o, k % 6))
  }

  lemma NotEmpty(d: Size, k: nat)
    requires k < Blocks(d)
    ensures d.w > 0 && d.h > 0
  {}

  // ----- mixed radix

  lemma DigitsBound(a: nat, x: nat, w: nat, n: nat)
    requires x < w && a < n
    ensures a * w + x < n * w
  {
    MulMonotone(a + 1, n, w);
  }

  lemma Undigit(z: nat, w: nat, n: nat)
    requires 0 < w && z < n * w
    ensures z == z / w * w + z % w && z % w < w && z / w < n
  {
    if z / w >= n { MulMonotone(n, z / w, w); assert false; }
  }

  /** A visit and its macroblock and list determine each other. */
  lemma VisitParts(d: Size, x: nat, y: nat, j: nat)
    requires IsVisit(d, x, y, j)
    ensures var k := Visit(d, x, y, j);
      k < Blocks(d) && ColumnOf(d, k) == x && RowOfVisit(d, k) == y && k % 6 == j
  {
    QuotientIs(x * d.h + y, x, y, d.h);
    DigitsBound(x, y, d.h, d.w);
    assert d.w * d.h == d.h * d.w;
    assert Visit(d, x, y, j) / 6 == x * d.h + y;
  }

  lemma PartsVisit(d: Size, k: nat)
    requires k < Blocks(d)
    ensures d.h > 0 && IsVisit(d, ColumnOf(d, k), RowOfVisit(d, k), k % 6)
    ensures Visit(d, ColumnOf(d, k), RowOfVisit(d, k), k % 6) == k
  {
    NotEmpty(d, k);
    assert k / 6 < d.w * d.h;
    Undigit(k / 6, d.h, d.w);
  }

  lemma SlotBound(d: Size, x: nat, y: nat, i: nat)
    requires IsVisit(d, x, y, i)
    ensures Slot(d, x, y, i) < Blocks(d)
  {
    DigitsBound(i, y, d.h, 6);
    DigitsBound(i * d.h + y, x, d.w, 6 * d.h);
    assert 6 * d.h * d.w == 6 * (d.w * d.h) by { assert d.h * d.w == d.w * d.h; }
  }

  lemma SlotParts(d: Size, x: nat, y: nat, i: nat)
    requires IsVisit(d, x, y, i)
    ensures d.w > 0 && d.h > 0
    ensures Slot(d, x, y, i) % d.w == x && Slot(d, x, y, i) / d.w % d.h == y && Slot(d, x, y, i) / d.w / d.h == i
  {
    hide *;
    SlotIs(d, x, y, i);
    QuotientIs(Slot(d, x, y, i), i * d.h + y, x, d.w);
    QuotientIs(i * d.h + y, i, y, d.h);
  }

  lemma SlotIs(d: Size, x: nat, y: nat, i: nat)
    requires IsVisit(d, x, y, i)
    ensures x < d.w && y < d.h && Slot(d, x, y, i) == (i * d.h + y) * d.w + x
  {}

  /** Two visits reach blocks that do not overlap, inside the lists. */
  lemma PlacesApart(d: Size, o: Order, k: nat, l: nat)
    requires k < Blocks(d) && l < Blocks(d)
    ensures At(d, o, k) + 64 <= 64 * Blocks(d)
    ensures k != l ==> At(d, o, k) + 64 <= At(d, o, l) || At(d, o, l) + 64 <= At(d, o, k)
  {
    hide Slot, Visit, ColumnOf, RowOfVisit, Blocks;
    PartsVisit(d, k);
    PartsVisit(d, l);
    SlotBound(d, ColumnOf(d, k), RowOfVisit(d, k), ListOf(o, k % 6));
    SlotParts(d, ColumnOf(d, k), RowOfVisit(d, k), ListOf(o, k % 6));
    SlotParts(d, ColumnOf(d, l), RowOfVisit(d, l), ListOf(o, l % 6));
  }

  /** Column, row and list of a block. */
  function SlotColumn(d: Size, slot: nat): nat
    requires d.w > 0
  {
    slot % d.w
  }

  function SlotRow(d: Size, slot: nat): nat
    requires d.w > 0 && d.h > 0
  {
    slot / d.w % d.h
  }

  function SlotList(d: Size, slot: nat): nat
    requires d.w > 0 && d.h > 0
  {
    slot / d.w / d.h
  }

  lemma SlotDigits(d: Size, slot: nat)
    requires slot < Blocks(d)
    ensures d.w > 0 && d.h > 0 && IsVisit(d, SlotColumn(d, slot), SlotRow(d, slot), SlotList(d, slot))
    ensures Slot(d, SlotColumn(d, slot), SlotRow(d, slot), SlotList(d, slot)) == slot
  {
    hide Blocks, IsVisit, Slot, SlotColumn, SlotRow, SlotList;
    NotEmpty(d, slot);
    BlocksAre(d);
    Undigit(slot, d.w, 6 * d.h);
    Undigit(slot / d.w, d.h, 6);
    SlotFromDigits(d, slot, slot / d.w);
  }

  lemma BlocksAre(d: Size)
    ensures Blocks(d) == 6 * d.h * d.w
  {
    assert d.h * d.w == d.w * d.h;
  }

  lemma SlotFromDigits(d: Size, slot: nat, z: nat)
    requires d.w > 0 && d.h > 0 && z == slot / d.w && slot % d.w < d.w && z % d.h < d.h && z / d.h < 6
    requires slot == z * d.w + slot % d.w && z == z / d.h * d.h + z % d.h
    ensures IsVisit(d, SlotColumn(d, slot), SlotRow(d, slot), SlotList(d, slot))
    ensures Slot(d, SlotColumn(d, slot), SlotRow(d, slot), SlotList(d, slot)) == slot
  {}

  /** The visit that reaches a block. */
  function VisitOfSlot(d: Size, o: Order, slot: nat): nat
    requires slot < Blocks(d)
  {
    SlotDigits(d, slot);
    Visit(d, SlotColumn(d, slot), SlotRow(d, slot), ListOf(o, SlotList(d, slot)))
  }

  /** Every block is visited. */
  lemma SlotVisited(d: Size, o: Order, slot: nat)
    requires slot < Blocks(d)
    ensures VisitOfSlot(d, o, slot) < Blocks(d) && At(d, o, VisitOfSlot(d, o, slot)) == 64 * slot
  {
    hide Visit, ColumnOf, RowOfVisit, Blocks, SlotColumn, SlotRow, SlotList, Slot;
    SlotDigits(d, slot);
    VisitParts(d, SlotColumn(d, slot), SlotRow(d, slot), ListOf(o, SlotList(d, slot)));
  }

  lemma VisitOfPlace(d: Size, o: Order, k: nat)
    requires k < Blocks(d)
    ensures At(d, o, k) % 64 == 0 && At(d, o, k) / 64 < Blocks(d) && VisitOfSlot(d, o, At(d, o, k) / 64) == k
  {
    hide Slot, Visit, ColumnOf, RowOfVisit, Blocks;
    PartsVisit(d, k);
    var x, y, i := ColumnOf(d, k), RowOfVisit(d, k), ListOf(o, k % 6);
    SlotBound(d, x, y, i);
    SlotParts(d, x, y, i);
    QuotientIs(64 * Slot(d, x, y, i), Slot(d, x, y, i), 0, 64);
  }

  // ----- a frame's coefficients

  predicate IsFrame(coefs: seq<int>, d: Size) {
    |coefs| == 64 * Blocks(d)
  }

  function BlockIn(coefs: seq<int>, at: nat): (b: seq<int>)
    requires at + 64 <= |coefs|
    ensures |b| == 64
  {
    coefs[at..at + 64]
  }

  /** All but the first coefficient of a block. */
  function AcIn(coefs: seq<int>, at: nat): (b: seq<int>)
    requires at + 64 <= |coefs|
    ensures |b| == 63
  {
    coefs[at + 1..at + 64]
  }

  function AcAt(coefs: seq<int>, d: Size, o: Order, k: nat): (b: seq<int>)
    requires IsFrame(coefs, d) && k < Blocks(d)
  {
    PlacesApart(d, o, k, k);
    AcIn(coefs, At(d, o, k))
  }

  function BlockAt(coefs: seq<int>, d: Size, o: Order, k: nat): (b: seq<int>)
    requires IsFrame(coefs, d) && k < Blocks(d)
    ensures |b| == 64
  {
    PlacesApart(d, o, k, k);
    BlockIn(coefs, At(d, o, k))
  }

  lemma BlockParts(coefs: seq<int>, d: Size, o: Order, k: nat)
    requires IsFrame(coefs, d) && k < Blocks(d)
    ensures At(d, o, k) + 64 <= |coefs|
    ensures AcAt(coefs, d, o, k) == AcIn(coefs, At(d, o, k)) == BlockAt(coefs, d, o, k)[1..]
    ensures BlockAt(coefs, d, o, k) == BlockIn(coefs, At(d, o, k))
    ensures coefs[At(d, o, k)] == BlockAt(coefs, d, o, k)[0]
  {
    PlacesApart(d, o, k, k);
    hide At, Blocks;
  }

  /** The block that a coding visit reaches. */
  lemma VisitPlace(t: seq<int>, d: Size, fx: nat, fy: nat, i: nat)
    requires IsFrame(t, d) && IsVisit(d, fx, fy, i)
    ensures var k, at := Visit(d, fx, fy, i), 64 * Slot(d, fx, fy, i);
      && k < Blocks(d) && Visit(d, fx, fy, i + 1) == k + 1
      && At(d, Coding, k) == at && at + 64 <= |t| && BlockAt(t, d, Coding, k) == BlockIn(t, at)
  {
    hide Slot;
    VisitParts(d, fx, fy, i);
    BlockParts(t, d, Coding, Visit(d, fx, fy, i));
  }

  /** The AC coefficients of the first `n` visits. */
  function Acs(coefs: seq<int>, d: Size, o: Order, n: nat): (cs: seq<int>)
    requires IsFrame(coefs, d) && n <= Blocks(d)
  {
    if n == 0 then []
    else Acs(coefs, d, o, n - 1) + AcAt(coefs, d, o, n - 1)
  }

  lemma {:induction false} AcsSame(s: seq<int>, t: seq<int>, d: Size, o: Order, n: nat)
    requires IsFrame(s, d) && IsFrame(t, d) && n <= Blocks(d)
    requires forall k :: 0 <= k < n ==> SameAc(s, t, d, o, k)
    ensures Acs(s, d, o, n) == Acs(t, d, o, n)
    decreases n
  {
    if n > 0 {
      AcsSame(s, t, d, o, n - 1);
      assert SameAc(s, t, d, o, n - 1);
    }
  }

  predicate SameAc(s: seq<int>, t: seq<int>, d: Size, o: Order, k: nat)
    requires IsFrame(s, d) && IsFrame(t, d) && k < Blocks(d)
  {
    AcAt(s, d, o, k) == AcAt(t, d, o, k)
  }

  predicate SameBlock(s: seq<int>, t: seq<int>, d: Size, o: Order, k: nat)
    requires IsFrame(s, d) && IsFrame(t, d) && k < Blocks(d)
  {
    BlockAt(s, d, o, k) == BlockAt(t, d, o, k)
  }

  /** Only the 64 places from `at` may differ. */
  predicate OnlyBlock(s: seq<int>, t: seq<int>, at: nat) {
    |s| == |t| && at + 64 <= |s| && s[..at] == t[..at] && s[at + 64..] == t[at + 64..]
  }

  lemma OthersSame(s: seq<int>, t: seq<int>, d: Size, o: Order, n: nat, k: nat)
    requires IsFrame(s, d) && IsFrame(t, d) && n < Blocks(d) && k < Blocks(d) && k != n
    requires OnlyBlock(s, t, At(d, o, n))
    ensures SameBlock(s, t, d, o, k) && SameAc(s, t, d, o, k)
  {
    hide At, Blocks;
    PlacesApart(d, o, n, k);
    PlacesApart(d, o, k, n);
    var at, b := At(d, o, n), At(d, o, k);
    forall i | b <= i < b + 64
      ensures s[i] == t[i]
    {
      if i < at {
        assert s[..at][i] == t[..at][i];
      } else {
        assert s[at + 64..][i - at - 64] == t[at + 64..][i - at - 64];
      }
    }
  }

  // ----- a shedding pass, block by block

  /** The first `n` visits of a pass are done, the others' blocks are as
      before, and no block's first coefficient has changed. */
  ghost predicate PassUpTo(s: seq<int>, t: seq<int>, d: Size, n: nat, minVal: int, shed: nat, left: nat, accum: int) {
    && IsFrame(s, d) && IsFrame(t, d) && n <= Blocks(d) && accum >= 2 * n
    && Reduce(Acs(s, d, Shedding, n), minVal, shed) == Pass(Acs(t, d, Shedding, n), left, accum - 2 * n)
    && (forall k :: n <= k < Blocks(d) ==> SameBlock(s, t, d, Shedding, k))
    && FirstsKept(s, t, d)
  }

  predicate FirstsKept(s: seq<int>, t: seq<int>, d: Size)
    requires IsFrame(s, d) && IsFrame(t, d)
  {
    forall k :: 0 <= k < Blocks(d) ==> SameFirst(s, t, d, k)
  }

  predicate SameFirst(s: seq<int>, t: seq<int>, d: Size, k: nat)
    requires IsFrame(s, d) && IsFrame(t, d) && k < Blocks(d)
  {
    BlockAt(s, d, Shedding, k)[0] == BlockAt(t, d, Shedding, k)[0]
  }

  lemma PassStarts(s: seq<int>, d: Size, minVal: int, shed: nat)
    requires IsFrame(s, d)
    ensures PassUpTo(s, s, d, 0, minVal, shed, shed, 0)
  {}

  lemma PassStep(s: seq<int>, t: seq<int>, u: seq<int>, d: Size, n: nat, minVal: int, shed: nat, left: nat, accum: int)
    requires PassUpTo(s, t, d, n, minVal, shed, left, accum) && n < Blocks(d)
    requires IsFrame(u, d) && OnlyBlock(t, u, At(d, Shedding, n))
    requires BlockAt(u, d, Shedding, n)[0] == BlockAt(t, d, Shedding, n)[0]
    requires AcAt(u, d, Shedding, n) == Reduce(AcAt(t, d, Shedding, n), minVal, left).cs
    ensures var q := Reduce(AcAt(t, d, Shedding, n), minVal, left);
      PassUpTo(s, u, d, n + 1, minVal, shed, q.shed, accum + q.kept + 2)
  {
    hide At, Blocks, Reduce, BlockAt, AcAt, OnlyBlock;
    assert SameBlock(s, t, d, Shedding, n);
    BlockParts(s, d, Shedding, n);
    BlockParts(t, d, Shedding, n);
    ReduceConcat(Acs(s, d, Shedding, n), AcAt(s, d, Shedding, n), minVal, shed);
    forall k | 0 <= k < Blocks(d) && k != n
      ensures SameBlock(t, u, d, Shedding, k) && SameAc(t, u, d, Shedding, k)
    {
      OthersSame(t, u, d, Shedding, n, k);
    }
    AcsSame(t, u, d, Shedding, n);
    FirstsStay(s, t, u, d, n);
    forall k | n + 1 <= k < Blocks(d)
      ensures SameBlock(s, u, d, Shedding, k)
    {
      assert SameBlock(s, t, d, Shedding, k);
      assert SameBlock(t, u, d, Shedding, k);
    }
  }

  lemma FirstsStay(s: seq<int>, t: seq<int>, u: seq<int>, d: Size, n: nat)
    requires IsFrame(s, d) && IsFrame(t, d) && IsFrame(u, d) && n < Blocks(d) && FirstsKept(s, t, d)
    requires BlockAt(u, d, Shedding, n)[0] == BlockAt(t, d, Shedding, n)[0]
    requires forall k :: 0 <= k < Blocks(d) && k != n ==> SameBlock(t, u, d, Shedding, k)
    ensures FirstsKept(s, u, d)
  {
    hide BlockAt, Blocks;
    forall k | 0 <= k < Blocks(d)
      ensures SameFirst(s, u, d, k)
    {
      assert SameFirst(s, t, d, k);
      if k != n { assert SameBlock(t, u, d, Shedding, k); }
    }
  }

  // ----- the order does not matter for the count

  function CountAt(coefs: seq<int>, d: Size, o: Order, k: nat): nat
    requires IsFrame(coefs, d) && k < Blocks(d)
  {
    NonZeroes(AcAt(coefs, d, o, k))
  }

  function Count(coefs: seq<int>, d: Size, o: Order, n: nat): nat
    requires IsFrame(coefs, d) && n <= Blocks(d)
  {
    if n == 0 then 0 else Count(coefs, d, o, n - 1) + CountAt(coefs, d, o, n - 1)
  }

  lemma {:induction false} CountIs(coefs: seq<int>, d: Size, o: Order, n: nat)
    requires IsFrame(coefs, d) && n <= Blocks(d)
    ensures NonZeroes(Acs(coefs, d, o, n)) == Count(coefs, d, o, n)
  {
    hide NonZeroes, AcAt, Blocks;
    if n > 0 {
      CountIs(coefs, d, o, n - 1);
      NonZeroesConcat(Acs(coefs, d, o, n - 1), AcAt(coefs, d, o, n - 1));
    } else {
      NoNonZeroes();
    }
  }

  lemma NoNonZeroes()
    ensures NonZeroes([]) == 0
  {}

  lemma Mirrored(coefs: seq<int>, d: Size, t: nat, j: nat)
    requires IsFrame(coefs, d) && t < d.w * d.h && j < 6
    ensures CountAt(coefs, d, Coding, 6 * t + j) == CountAt(coefs, d, Shedding, 6 * t + 5 - j)
  {
    assert (6 * t + j) / 6 == t == (6 * t + 5 - j) / 6;
    assert At(d, Coding, 6 * t + j) == At(d, Shedding, 6 * t + 5 - j);
    hide At, NonZeroes;
  }

  lemma SixMore(coefs: seq<int>, d: Size, o: Order, n: nat)
    requires IsFrame(coefs, d) && n + 6 <= Blocks(d)
    ensures Count(coefs, d, o, n + 6) == Count(coefs, d, o, n)
      + CountAt(coefs, d, o, n) + CountAt(coefs, d, o, n + 1) + CountAt(coefs, d, o, n + 2)
      + CountAt(coefs, d, o, n + 3) + CountAt(coefs, d, o, n + 4) + CountAt(coefs, d, o, n + 5)
  {
    hide *;
    CountStep(coefs, d, o, n);
    CountStep(coefs, d, o, n + 1);
    CountStep(coefs, d, o, n + 2);
    CountStep(coefs, d, o, n + 3);
    CountStep(coefs, d, o, n + 4);
    CountStep(coefs, d, o, n + 5);
  }

  lemma CountStep(coefs: seq<int>, d: Size, o: Order, n: nat)
    requires IsFrame(coefs, d) && n < Blocks(d)
    ensures Count(coefs, d, o, n + 1) == Count(coefs, d, o, n) + CountAt(coefs, d, o, n)
  {}

  lemma NoCount(coefs: seq<int>, d: Size, o: Order)
    requires IsFrame(coefs, d)
    ensures Count(coefs, d, o, 0) == 0
  {}

  lemma {:induction false} CountsAgree(coefs: seq<int>, d: Size, t: nat)
    requires IsFrame(coefs, d) && t <= d.w * d.h
    ensures Count(coefs, d, Coding, 6 * t) == Count(coefs, d, Shedding, 6 * t)
    decreases t
  {
    hide CountAt, Count;
    if t == 0 {
      NoCount(coefs, d, Coding);
      NoCount(coefs, d, Shedding);
    } else {
      CountsAgree(coefs, d, t - 1);
      SixMore(coefs, d, Coding, 6 * t - 6);
      SixMore(coefs, d, Shedding, 6 * t - 6);
      Mirrored(coefs, d, t - 1, 0);
      Mirrored(coefs, d, t - 1, 1);
      Mirrored(coefs, d, t - 1, 2);
      Mirrored(coefs, d, t - 1, 3);
      Mirrored(coefs, d, t - 1, 4);
      Mirrored(coefs, d, t - 1, 5);
    }
  }
}
