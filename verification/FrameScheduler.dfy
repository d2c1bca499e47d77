/** Spreading frames over sectors at a fractional rate: each frame gets a whole
    number of sectors, and the fraction is carried to the next. */
module FrameScheduler {
  import opened Arithmetic

  // ----- the closed form

  /** Sectors of the first `n` frames. */
  function Total(base: nat, den: nat, n: nat): nat
    requires den > 0
  {
    n * base / den
  }

  /** The fraction carried behind frame `n`, in parts of `den`. */
  function Carry(base: nat, den: nat, n: nat): nat
    requires den > 0
  {
    n * base % den
  }

  /** Sectors of frame `f`, counted from 1. */
  function SectorsOf(base: nat, den: nat, f: nat): int
    requires den > 0 && f > 0
  {
    Total(base, den, f) - Total(base, den, f - 1)
  }

  lemma DivideSum(a: nat, b: nat, den: nat)
    requires den > 0
    ensures (a + b) / den == a / den + (a % den + b) / den
    ensures (a + b) % den == (a % den + b) % den
  {
    var q, r := a / den, a % den;
    assert a == q * den + r;
    var s := r + b;
    QuotientIs(a + b, q + s / den, s % den, den);
    assert (q + s / den) * den == q * den + s / den * den;
  }

  /** The carried fraction and the next frame's sectors. */
  lemma NextTotal(base: nat, den: nat, n: nat)
    requires den > 0
    ensures Total(base, den, n + 1) == Total(base, den, n) + (Carry(base, den, n) + base) / den
    ensures Carry(base, den, n + 1) == (Carry(base, den, n) + base) % den
  {
    assert (n + 1) * base == n * base + base;
    DivideSum(n * base, base, den);
  }

  /** A frame gets the rate rounded down or up. */
  lemma FloorOrCeiling(base: nat, den: nat, f: nat)
    requires den > 0 && f > 0
    ensures SectorsOf(base, den, f) == base / den || SectorsOf(base, den, f) == base / den + 1
    ensures base % den == 0 ==> SectorsOf(base, den, f) == base / den
  {
    NextTotal(base, den, f - 1);
    var r := Carry(base, den, f - 1);
    DivideSum(base, r, den);
    var s := base % den + r;
    if s < den { QuotientIs(s, 0, s, den); } else { QuotientIs(s, 1, s - den, den); }
  }

  lemma {:induction false} TotalsGrow(base: nat, den: nat, m: nat, n: nat)
    requires den > 0 && m <= n
    ensures Total(base, den, m) <= Total(base, den, n)
    decreases n
  {
    if m < n {
      TotalsGrow(base, den, m, n - 1);
      NextTotal(base, den, n - 1);
    }
  }

  /** Sector `q` belongs to frame `f`. */
  predicate InFrame(base: nat, den: nat, q: nat, f: nat)
    requires den > 0
  {
    f > 0 && Total(base, den, f - 1) <= q < Total(base, den, f)
  }

  /** No sector belongs to two frames. */
  lemma OneFrame(base: nat, den: nat, q: nat, f: nat, g: nat)
    requires den > 0 && InFrame(base, den, q, f) && InFrame(base, den, q, g)
    ensures f == g
  {
    if f < g { TotalsGrow(base, den, f, g - 1); }
    if g < f { TotalsGrow(base, den, g, f - 1); }
  }

  /** Every sector belongs to a frame. */
  lemma SomeFrame(base: nat, den: nat, q: nat) returns (f: nat)
    requires base > 0 && den > 0
    ensures InFrame(base, den, q, f)
  {
    NoneYet(base, den);
    f := FrameBehind(base, den, q, 0);
  }

  lemma {:induction false} FrameBehind(base: nat, den: nat, q: nat, n: nat) returns (f: nat)
    requires base > 0 && den > 0 && Total(base, den, n) <= q
    ensures InFrame(base, den, q, f)
    decreases Ahead(base, den, n, q)
  {
    hide Total, Ahead;
    if Total(base, den, n + 1) > q {
      f := n + 1;
    } else {
      StillBelow(base, den, n, q);
      f := FrameBehind(base, den, q, n + 1);
    }
  }

  const MAX_UNMUXED_BLOCKS := 9

  /** The frame buffer holds every frame just when the rate is at most nine
      sectors a frame. */
  lemma BufferSuffices(base: nat, den: nat)
    requires den > 0
    ensures (forall f :: f > 0 ==> SectorsOf(base, den, f) <= MAX_UNMUXED_BLOCKS) <==> base <= 9 * den
  {
    if base <= 9 * den {
      forall f | f > 0
        ensures SectorsOf(base, den, f) <= MAX_UNMUXED_BLOCKS
      {
        FloorOrCeiling(base, den, f);
        assert base == base / den * den + base % den;
        if base / den >= 9 { ProductStep(8, base / den, den); AtMostNine(base, den); }
      }
    } else {
      var f := SomeFrameOver(base, den, 9);
    }
  }

  lemma AtMostNine(base: nat, den: nat)
    requires den > 0 && base <= 9 * den && base / den >= 9
    ensures base / den == 9 && base % den == 0
  {
    var q := base / den;
    assert base == q * den + base % den;
    if q > 9 { ProductStep(9, q, den); assert false; }
  }

  /** Above `k` sectors a frame the fraction builds up to one more. */
  lemma SomeFrameOver(base: nat, den: nat, k: nat) returns (f: nat)
    requires den > 0 && base > k * den
    ensures f > 0 && SectorsOf(base, den, f) > k
  {
    f := den;
    if forall g :: 0 < g <= den ==> SectorsOf(base, den, g) <= k {
      AllSmall(base, den, k, den);
      QuotientIs(den * base, base, 0, den);
      assert false;
    } else {
      f :| 0 < f <= den && SectorsOf(base, den, f) > k;
    }
  }

  lemma {:induction false} AllSmall(base: nat, den: nat, k: nat, n: nat)
    requires den > 0 && forall g :: 0 < g <= n ==> SectorsOf(base, den, g) <= k
    ensures Total(base, den, n) <= k * n
  {
    if n > 0 {
      AllSmall(base, den, k, n - 1);
      assert SectorsOf(base, den, n) <= k;
      assert k * n == k * (n - 1) + k;
    } else {
      QuotientIs(0, 0, 0, den);
    }
  }

  /** The first frame gets the rate rounded down. */
  lemma FirstIsFloor(base: nat, den: nat)
    requires den > 0
    ensures SectorsOf(base, den, 1) == base / den
  {
    NoneYet(base, den);
    assert 1 * base == base;
  }

  /** Some frame gets it rounded up, unless it is whole. */
  lemma SomeCeiling(base: nat, den: nat) returns (f: nat)
    requires den > 0 && base % den != 0
    ensures f > 0 && SectorsOf(base, den, f) == base / den + 1
  {
    assert base == base / den * den + base % den;
    f := SomeFrameOver(base, den, base / den);
    FloorOrCeiling(base, den, f);
  }

  // ----- reaching a sector

  /** How far the end of sector `q` is ahead of frame `n`. */
  function Ahead(base: nat, den: nat, n: nat, q: nat): int {
    (q + 1) * den - n * base
  }

  lemma StillBelow(base: nat, den: nat, n: nat, q: nat)
    requires base > 0 && den > 0 && Total(base, den, n) <= q
    ensures Ahead(base, den, n, q) > 0 && Ahead(base, den, n + 1, q) < Ahead(base, den, n, q)
  {
    assert n * base == n * base / den * den + n * base % den;
    MulMonotone(n * base / den, q, den);
    assert (q + 1) * den == q * den + den;
    assert (n + 1) * base == n * base + base;
  }

  lemma SectorsOfIs(base: nat, den: nat, f: nat)
    requires den > 0 && f > 0
    ensures SectorsOf(base, den, f) == Total(base, den, f) - Total(base, den, f - 1)
  {}

  lemma NoneYet(base: nat, den: nat)
    requires den > 0
    ensures Total(base, den, 0) == 0
  {}
}
