/** The generator of the parity field has order 255, so its powers are all the
    nonzero bytes and every nonzero byte has one logarithm below 255. */
module DiscreteLog {
  import opened Bits
  import opened FiniteSets
  import opened GaloisField

  // ----- climbing the powers of a, on bytes spelt out as bits

  datatype Octet = Octet(b7: bool, b6: bool, b5: bool, b4: bool, b3: bool, b2: bool, b1: bool, b0: bool)

  const ONE := Octet(false, false, false, false, false, false, false, true)

  function Next(o: Octet): Octet {
    Octet(o.b6, o.b5, o.b4, o.b3 != o.b7, o.b2 != o.b7, o.b1 != o.b7, o.b0, o.b7)
  }

  /** `n` multiplications by a lead from `o` to `goal`, none of them starting
      from 1. */
  predicate Climbs(o: Octet, n: nat, goal: Octet)
    decreases n
  {
    if n == 0 then o == goal else o != ONE && Climbs(Next(o), n - 1, goal)
  }

  function Waypoint1(k: nat): Octet {
    var T, F := true, false;
    match k
    case 0 => Octet(F, F, F, F, T, F, F, F)
    case 1 => Octet(F, F, T, F, F, T, T, F)
    case 2 => Octet(F, F, F, F, T, T, F, F)
    case 3 => Octet(F, F, T, T, F, T, F, T)
    case 4 => Octet(F, F, F, F, T, F, T, F)
    case 5 => Octet(T, F, T, F, F, F, F, T)
    case _ => Octet(F, F, F, F, T, T, T, T)
  }

  function Waypoint2(k: nat): Octet {
    var T, F := true, false;
    match k
    case 7 => Octet(F, T, T, T, T, T, T, T)
    case 8 => Octet(T, F, F, F, F, T, T, F)
    case 9 => Octet(T, T, F, F, T, T, T, F)
    case 10 => Octet(T, T, F, F, F, T, F, T)
    case 11 => Octet(T, F, T, F, T, F, F, T)
    case 12 => Octet(F, F, T, F, T, F, F, T)
    case _ => Octet(F, T, T, T, F, F, T, T)
  }

  function Waypoint3(k: nat): Octet {
    var T, F := true, false;
    match k
    case 14 => Octet(T, F, T, T, F, F, T, T)
    case 15 => Octet(T, T, F, F, F, T, F, F)
    case 16 => Octet(F, T, T, F, F, T, F, F)
    case 17 => Octet(T, F, T, F, F, T, T, F)
    case 18 => Octet(F, T, F, T, F, T, T, F)
    case 19 => Octet(T, T, T, T, F, T, F, T)
    case _ => Octet(F, T, T, T, T, T, F, T)
  }

  /** a^(3 + 12 * k) */
  function Waypoint(k: nat): Octet {
    if k < 7 then Waypoint1(k) else if k < 14 then Waypoint2(k) else if k < 21 then Waypoint3(k) else ONE
  }

  lemma Legs1(k: nat)
    requires 0 <= k < 3
    ensures Climbs(Waypoint(k), 12, Waypoint(k + 1))
  {
    assert Climbs(Waypoint(0), 12, Waypoint(1));
    assert Climbs(Waypoint(1), 12, Waypoint(2));
    assert Climbs(Waypoint(2), 12, Waypoint(3));
  }

  lemma Legs2(k: nat)
    requires 3 <= k < 6
    ensures Climbs(Waypoint(k), 12, Waypoint(k + 1))
  {
    assert Climbs(Waypoint(3), 12, Waypoint(4));
    assert Climbs(Waypoint(4), 12, Waypoint(5));
    assert Climbs(Waypoint(5), 12, Waypoint(6));
  }

  lemma Legs3(k: nat)
    requires 6 <= k < 9
    ensures Climbs(Waypoint(k), 12, Waypoint(k + 1))
  {
    assert Climbs(Waypoint(6), 12, Waypoint(7));
    assert Climbs(Waypoint(7), 12, Waypoint(8));
    assert Climbs(Waypoint(8), 12, Waypoint(9));
  }

  lemma Legs4(k: nat)
    requires 9 <= k < 12
    ensures Climbs(Waypoint(k), 12, Waypoint(k + 1))
  {
    assert Climbs(Waypoint(9), 12, Waypoint(10));
    assert Climbs(Waypoint(10), 12, Waypoint(11));
    assert Climbs(Waypoint(11), 12, Waypoint(12));
  }

  lemma Legs5(k: nat)
    requires 12 <= k < 15
    ensures Climbs(Waypoint(k), 12, Waypoint(k + 1))
  {
    assert Climbs(Waypoint(12), 12, Waypoint(13));
    assert Climbs(Waypoint(13), 12, Waypoint(14));
    assert Climbs(Waypoint(14), 12, Waypoint(15));
  }

  lemma Legs6(k: nat)
    requires 15 <= k < 18
    ensures Climbs(Waypoint(k), 12, Waypoint(k + 1))
  {
    assert Climbs(Waypoint(15), 12, Waypoint(16));
    assert Climbs(Waypoint(16), 12, Waypoint(17));
    assert Climbs(Waypoint(17), 12, Waypoint(18));
  }

  lemma Legs7(k: nat)
    requires 18 <= k < 21
    ensures Climbs(Waypoint(k), 12, Waypoint(k + 1))
  {
    assert Climbs(Waypoint(18), 12, Waypoint(19));
    assert Climbs(Waypoint(19), 12, Waypoint(20));
    assert Climbs(Waypoint(20), 12, Waypoint(21));
  }

  lemma Leg(k: nat)
    requires k < 21
    ensures Climbs(Waypoint(k), 12, Waypoint(k + 1))
  {
    if k < 3 { Legs1(k); } else if k < 6 { Legs2(k); } else if k < 9 { Legs3(k); }
    else if k < 12 { Legs4(k); } else if k < 15 { Legs5(k); }
    else if k < 18 { Legs6(k); } else { Legs7(k); }
  }

  // ----- an octet and the byte it spells

  function Bit(b: bool): (r: nat)
    ensures r <= 1
  {
    if b then 1 else 0
  }

  function High(o: Octet): nat {
    Bit(o.b4) + 2 * (Bit(o.b5) + 2 * Bit(o.b6))
  }

  function Low(b0: bool, b1: bool, b2: bool, b3: bool, h: nat): nat {
    Bit(b0) + 2 * (Bit(b1) + 2 * (Bit(b2) + 2 * (Bit(b3) + 2 * h)))
  }

  function Low7(o: Octet): (r: nat)
    ensures r < 0x80
  {
    Low(o.b0, o.b1, o.b2, o.b3, High(o))
  }

  function Value(o: Octet): byte {
    Low7(o) + 0x80 * Bit(o.b7)
  }

  lemma XorBit(x: nat, b: bool, h: nat, y: nat, c: bool, r: nat)
    requires x == Bit(b) + 2 * h && y == Bit(c) + 2 * r
    ensures Xor(x, y) == Bit(b != c) + 2 * Xor(h, r)
  {
    assert x / 2 == h && y / 2 == r;
    XorHalf(x, y);
  }

  lemma XorReduction(c0: nat, c1: nat, c2: nat, c3: nat, c4: nat, h: nat, b0: bool, b1: bool, b2: bool, b3: bool)
    requires c0 == 2 * c1 && c1 == Bit(b0) + 2 * c2 && c2 == Bit(b1) + 2 * c3
    requires c3 == Bit(b2) + 2 * c4 && c4 == Bit(b3) + 2 * h
    ensures Xor(c0, 0x1D)
         == 1 + 2 * Low(b0, !b1, !b2, !b3, h)
  {
    XorZero(h);
    XorBit(c4, b3, h, 1, true, 0);
    XorBit(c3, b2, c4, 3, true, 1);
    XorBit(c2, b1, c3, 7, true, 3);
    XorBit(c1, b0, c2, 14, false, 7);
    XorBit(c0, false, c1, 0x1D, true, 14);
  }

  lemma Times2OfTop(l: byte)
    requires l < 0x80
    ensures Times2(l + 0x80) == Xor(2 * l, 0x1D)
  {}

  lemma CarryOf(c1: nat, c2: nat, c3: nat, c4: nat, h: nat, b0: bool, b1: bool, b2: bool, b3: bool)
    requires c1 < 0x80 && c1 == Bit(b0) + 2 * c2 && c2 == Bit(b1) + 2 * c3
    requires c3 == Bit(b2) + 2 * c4 && c4 == Bit(b3) + 2 * h
    ensures Times2(c1 + 0x80)
         == 1 + 2 * Low(b0, !b1, !b2, !b3, h)
  {
    Times2OfTop(c1);
    XorReduction(2 * c1, c1, c2, c3, c4, h, b0, b1, b2, b3);
  }

  lemma ValueWithoutCarry(o: Octet)
    requires !o.b7
    ensures Value(o) == Low7(o) && Value(Next(o)) == 2 * Low7(o)
  {}

  lemma ValueWithCarry(o: Octet)
    requires o.b7
    ensures Value(o) == Low(o.b0, o.b1, o.b2, o.b3, High(o)) + 0x80
    ensures Value(Next(o)) == 1 + 2 * Low(o.b0, !o.b1, !o.b2, !o.b3, High(o))
  {}

  lemma NextIsTimes2(o: Octet)
    ensures Value(Next(o)) == Times2(Value(o))
  {
    if o.b7 {
      ValueWithCarry(o);
      var h := High(o);
      var c4 := Bit(o.b3) + 2 * h;
      var c3 := Bit(o.b2) + 2 * c4;
      var c2 := Bit(o.b1) + 2 * c3;
      CarryOf(Bit(o.b0) + 2 * c2, c2, c3, c4, h, o.b0, o.b1, o.b2, o.b3);
    } else {
      ValueWithoutCarry(o);
    }
  }

  lemma {:induction false} ClimbIsAlpha(o: Octet, n: nat, goal: Octet, i: nat)
    requires Climbs(o, n, goal) && Value(o) == Alpha(i)
    ensures Alpha(i + n) == Value(goal)
    ensures forall k :: i <= k < i + n ==> Alpha(k) != 1
    decreases n
  {
    if n > 0 {
      NextIsTimes2(o);
      ClimbIsAlpha(Next(o), n - 1, goal, i + 1);
      ValueOne(o);
    }
  }

  lemma ValueOne(o: Octet)
    ensures Value(o) == 1 <==> o == ONE
  {}

  lemma FirstWaypoint()
    ensures Alpha(1) == 2 && Alpha(2) == 4 && Alpha(3) == Value(Waypoint(0))
  {
    assert Value(Waypoint(0)) == 8;
  }

  lemma LegIsAlpha(k: nat, i: nat)
    requires k < 21 && Value(Waypoint(k)) == Alpha(i)
    requires forall j :: 0 < j < i ==> Alpha(j) != 1
    ensures Alpha(i + 12) == Value(Waypoint(k + 1))
    ensures forall j :: 0 < j < i + 12 ==> Alpha(j) != 1
  {
    Leg(k);
    ClimbIsAlpha(Waypoint(k), 12, Waypoint(k + 1), i);
  }

  lemma {:induction false} WaypointIsAlpha(k: nat)
    requires k <= 21
    ensures Alpha(3 + 12 * k) == Value(Waypoint(k))
    ensures forall i :: 0 < i < 3 + 12 * k ==> Alpha(i) != 1
  {
    hide *;
    if k == 0 {
      FirstWaypoint();
    } else {
      WaypointIsAlpha(k - 1);
      LegIsAlpha(k - 1, 3 + 12 * (k - 1));
    }
  }

  /** The range of `k` is 21 alone: a literal would have the solver unfold the
      way points. */
  lemma LastWaypoint(k: nat, n: nat)
    requires 21 <= k < 22 && n == 3 + 12 * k
    ensures Alpha(n) == 1
    ensures forall i :: 0 < i < n ==> Alpha(i) != 1
  {
    WaypointIsAlpha(k);
    ValueOne(ONE);
  }

  /** The order of a is 255. */
  lemma Order()
    ensures Alpha(255) == 1
    ensures forall i :: 0 < i < 255 ==> Alpha(i) != 1
  {
    LastWaypoint(21, 255);
  }

  // ----- logarithms

  lemma {:induction false} AlphaNonZero(n: nat)
    ensures Alpha(n) != 0
  {
    if n > 0 {
      AlphaNonZero(n - 1);
      Times2NonZero(Alpha(n - 1));
    }
  }

  lemma {:induction false} AlphaInjective(m: nat, n: nat)
    requires m < 255 && n < 255
    requires Alpha(m) == Alpha(n)
    ensures m == n
  {
    if m == 0 || n == 0 {
      Order();
    } else {
      Times2Injective(Alpha(m - 1), Alpha(n - 1));
      AlphaInjective(m - 1, n - 1);
    }
  }

  ghost function Powers(k: nat): set<int> {
    set n | 0 <= n < k :: Alpha(n) as int
  }

  lemma {:induction false} PowersCount(k: nat)
    requires k <= 255
    ensures |Powers(k)| == k
  {
    if k > 0 {
      PowersCount(k - 1);
      var a := Alpha(k - 1) as int;
      assert Powers(k) == Powers(k - 1) + {a};
      if a in Powers(k - 1) {
        var n :| 0 <= n < k - 1 && Alpha(n) as int == a;
        AlphaInjective(n, k - 1);
      }
    }
  }

  /** Every nonzero byte is a power of a. */
  lemma LogExists(x: byte)
    requires x != 0
    ensures exists n :: 0 <= n < 255 && Alpha(n) == x
  {
    PowersCount(255);
    RangeContents(255);
    forall n | 0 <= n < 255
      ensures Alpha(n) as int in Range(255)
    {
      AlphaNonZero(n);
    }
    FullSubset(Powers(255), Range(255));
    assert x as int in Range(255);
  }

  ghost function Log(x: byte): (n: nat)
    requires x != 0
    ensures n < 255 && Alpha(n) == x
  {
    LogExists(x);
    var n :| 0 <= n < 255 && Alpha(n) == x;
    n
  }

  lemma LogOfAlpha(n: nat)
    requires n < 255
    ensures Alpha(n) != 0 && Log(Alpha(n)) == n
  {
    AlphaNonZero(n);
    AlphaInjective(Log(Alpha(n)), n);
  }

  lemma Period(n: nat)
    ensures Alpha(n + 255) == Alpha(n)
  {
    Order();
    MulAlpha(255, n);
    MulOne(Alpha(n));
  }

  /** The field has no zero divisors. */
  lemma MulNonZero(c: byte, d: byte)
    requires c != 0 && d != 0
    ensures Mul(c, d) != 0
  {
    MulAlpha(Log(c), Log(d));
    AlphaNonZero(Log(c) + Log(d));
  }

  /** Multiplication by a nonzero byte is injective on the other factor. */
  lemma MulCancel(c: byte, e: byte, d: byte)
    requires d != 0 && Mul(c, d) == Mul(e, d)
    ensures c == e
  {
    MulAddLeft(c, e, d);
    XorIsZero(Mul(c, d), Mul(e, d));
    XorIsZero(c, e);
    if c != e {
      MulNonZero(Xor8(c, e), d);
    }
  }
}
