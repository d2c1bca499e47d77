/** The Reed-Solomon code behind sector parity (ECMA-130, Annex A).

    A word of n bytes is a codeword when its plain sum and its sum weighted by
    a^(n-1), ..., a, 1 both vanish.  Any two codewords differ in at least three
    bytes, and one wrong byte can be located and repaired. */
module ReedSolomon {
  import opened Bits
  import opened GaloisField
  import opened DiscreteLog

  /** The sum of all bytes of a word. */
  function Sum(w: seq<byte>): byte {
    if w == [] then 0 else Xor8(w[0], Sum(w[1..]))
  }

  /** The sum of all bytes, the last weighted by a^e, the one before it by
      a^(e+1) and so on. */
  function Weighted(w: seq<byte>, e: nat): byte {
    if w == [] then 0 else Xor8(Mul(Alpha(|w| - 1 + e), w[0]), Weighted(w[1..], e))
  }

  predicate Codeword(w: seq<byte>) {
    Sum(w) == 0 && Weighted(w, 0) == 0
  }

  // ----- the two parity bytes

  ghost predicate IsQuotient(q: byte, x: byte) {
    Xor(Times2(q), q) == x
  }

  lemma QuotientOfPower(m: nat, p: nat)
    requires p < 255 && Alpha(p) == 3
    ensures exists q :: IsQuotient(q, Alpha(m))
  {
    DivideByThree(m, p, 255 - p);
  }

  lemma QuotientExists(x: byte)
    ensures exists q :: IsQuotient(q, x)
  {
    if x == 0 {
      assert IsQuotient(0, 0);
    } else {
      QuotientOfPower(Log(x), Log(3));
    }
  }

  /** x / (a + 1) */
  ghost function Quotient(x: byte): (q: byte)
    ensures IsQuotient(q, x)
  {
    QuotientExists(x);
    var q :| IsQuotient(q, x);
    q
  }

  lemma DivideByThree(m: nat, p: nat, r: nat)
    requires p + r == 255 && Alpha(p) == 3
    ensures IsQuotient(Alpha(m + r), Alpha(m))
  {
    var q := Alpha(m + r);
    MulAlpha(p, m + r);
    MulByThree(q);
    Period(m);
  }

  lemma MulByThree(q: byte)
    ensures Mul(3, q) == Xor(Times2(q), q)
  {
    assert Mul(1, Times2(q)) == Times2(q) by { MulOne(Times2(q)); }
    XorComm(q, Times2(q));
  }

  /** a^25 = a + 1, with `k` the range of 2 alone: a literal would have the solver
      unfold the way points. */
  lemma TwentyFifth(k: nat, n: nat)
    requires 1 < k < 3 && n + 2 == 3 + 12 * k
    ensures Alpha(n) == 3
  {
    WaypointIsAlpha(k);
    assert Value(Waypoint(k)) == 12;
    assert Alpha(n + 2) == Times2(Times2(Alpha(n)));
    Times2Injective(Times2(Alpha(n)), 6);
    Times2Injective(Alpha(n), 3);
  }

  lemma QuotientUnique(q: byte, r: byte, x: byte)
    requires IsQuotient(q, x) && IsQuotient(r, x)
    ensures q == r
  {
    MulByThree(q);
    MulByThree(r);
    MulAddRight(3, q, r);
    XorIsZero(Mul(3, q), Mul(3, r));
    XorIsZero(q, r);
    if q != r {
      MulNonZero(3, Xor8(q, r));
    }
  }

  lemma QuotientAdd(q: byte, x: byte, r: byte, y: byte)
    requires IsQuotient(q, x) && IsQuotient(r, y)
    ensures IsQuotient(Xor8(q, r), Xor8(x, y))
  {
    Times2Add(q, r);
    Xor4(Times2(q), q, Times2(r), r);
    Xor4(Times2(q), Times2(r), q, r);
  }

  /** What the data byte of weight a^e adds to the first parity byte. */
  ghost function HighFactor(e: nat): byte {
    Quotient(Xor8(Alpha(e), 1))
  }

  /** What it adds to the second. */
  ghost function LowFactor(e: nat): byte {
    Quotient(Xor8(Alpha(e), 2))
  }

  lemma FactorSum(e: nat)
    ensures Xor(HighFactor(e), LowFactor(e)) == 1
  {
    var h, l, a := HighFactor(e), LowFactor(e), Alpha(e);
    QuotientAdd(h, Xor8(a, 1), l, Xor8(a, 2));
    assert Xor(Xor(a, 1), Xor(a, 2)) == 3 by {
      Xor4(a, 1, a, 2); XorSelf(a); XorZero(3); assert Xor(1, 2) == 3;
    }
    assert IsQuotient(1, 3);
    QuotientUnique(Xor8(h, l), 1, 3);
  }

  lemma FactorWeight(e: nat)
    ensures Xor(Times2(HighFactor(e)), LowFactor(e)) == Alpha(e)
  {
    var h, l, a := HighFactor(e), LowFactor(e), Alpha(e);
    FactorSum(e);
    XorCancel(h, l);
    XorAssoc(Times2(h), h, 1);
    XorCancel(1, a);
  }

  ghost function ParityHigh(d: seq<byte>, e: nat): byte
    requires |d| <= e
  {
    if d == [] then 0 else Xor8(Mul(HighFactor(e), d[0]), ParityHigh(d[1..], e - 1))
  }

  ghost function ParityLow(d: seq<byte>, e: nat): byte
    requires |d| <= e
  {
    if d == [] then 0 else Xor8(Mul(LowFactor(e), d[0]), ParityLow(d[1..], e - 1))
  }

  lemma {:induction false} ParitySum(d: seq<byte>, e: nat)
    requires |d| <= e
    ensures Xor(ParityHigh(d, e), ParityLow(d, e)) == Sum(d)
  {
    if d == [] {
      XorZero(0);
    } else {
      var h, l := HighFactor(e), LowFactor(e);
      ParitySum(d[1..], e - 1);
      FactorSum(e);
      MulAddLeft(h, l, d[0]);
      MulOne(d[0]);
      Xor4(Mul(h, d[0]), ParityHigh(d[1..], e - 1), Mul(l, d[0]), ParityLow(d[1..], e - 1));
    }
  }

  lemma {:induction false} ParityWeight(d: seq<byte>, e: nat)
    requires e == |d| + 1
    ensures Xor(Times2(ParityHigh(d, e)), ParityLow(d, e)) == Weighted(d, 2)
  {
    if d == [] {
      XorZero(0);
    } else {
      var h, l := HighFactor(e), LowFactor(e);
      var p, q := ParityHigh(d[1..], e - 1), ParityLow(d[1..], e - 1);
      ParityWeight(d[1..], e - 1);
      FactorWeight(e);
      MulAddLeft(Times2(h), l, d[0]);
      MulTimes2(h, d[0]);
      Times2Add(Mul(h, d[0]), p);
      Xor4(Times2(Mul(h, d[0])), Times2(p), Mul(l, d[0]), q);
    }
  }

  lemma {:induction false} SumConcat(u: seq<byte>, v: seq<byte>)
    ensures Sum(u + v) == Xor(Sum(u), Sum(v))
  {
    if u == [] {
      assert u + v == v;
      XorZero(Sum(v));
    } else {
      assert (u + v)[1..] == u[1..] + v;
      SumConcat(u[1..], v);
      XorAssoc(u[0], Sum(u[1..]), Sum(v));
    }
  }

  lemma {:induction false} WeightedConcat(u: seq<byte>, v: seq<byte>, e: nat)
    ensures Weighted(u + v, e) == Xor(Weighted(u, |v| + e), Weighted(v, e))
  {
    if u == [] {
      assert u + v == v;
      XorZero(Weighted(v, e));
    } else {
      assert (u + v)[1..] == u[1..] + v;
      WeightedConcat(u[1..], v, e);
      XorAssoc(Mul(Alpha(|u| - 1 + |v| + e), u[0]), Weighted(u[1..], |v| + e), Weighted(v, e));
    }
  }

  /** The range of `n` is 1 alone: a literal would have the solver unfold the
      power. */
  lemma TimesAlphaOne(n: nat, h: byte)
    requires 0 < n < 2
    ensures Mul(Alpha(n), h) == Times2(h)
  {
    assert Alpha(n - 1) == 1;
    MulTimes2(Alpha(n - 1), h);
    MulOne(h);
  }

  lemma TailSums(t: seq<byte>, e: nat)
    requires |t| == 2 && e == 0
    ensures Sum(t) == Xor(t[0], t[1])
    ensures Weighted(t, e) == Xor(Times2(t[0]), t[1])
  {
    var r := t[1..];
    assert r[1..] == [];
    XorZero(t[1]);
    MulOne(t[1]);
    assert Sum(r) == t[1];
    assert Mul(Alpha(e), t[1]) == t[1];
    assert Weighted(r, e) == Xor(Mul(Alpha(e), t[1]), Weighted(r[1..], e));
    TimesAlphaOne(|t| - 1 + e, t[0]);
  }

  lemma CompletedBy(d: seq<byte>, t: seq<byte>, e: nat)
    requires |t| == 2 && e == 0
    ensures Sum(d + t) == 0 <==> Xor(t[0], t[1]) == Sum(d)
    ensures Weighted(d + t, e) == 0 <==> Xor(Times2(t[0]), t[1]) == Weighted(d, |t| + e)
  {
    SumConcat(d, t);
    WeightedConcat(d, t, e);
    TailSums(t, e);
    XorIsZero(Sum(d), Sum(t));
    XorIsZero(Weighted(d, |t| + e), Weighted(t, e));
  }

  /** Data and two further bytes form a codeword exactly when those bytes are
      its parity. */
  lemma ParityIsTheCompletion(d: seq<byte>, h: byte, l: byte)
    ensures Codeword(d + [h, l]) <==> h == ParityHigh(d, |d| + 1) && l == ParityLow(d, |d| + 1)
  {
    hide Xor, ParityHigh, ParityLow, Times2, Sum, Weighted;
    var p, q := ParityHigh(d, |d| + 1), ParityLow(d, |d| + 1);
    ParitySum(d, |d| + 1);
    ParityWeight(d, |d| + 1);
    CompletedBy(d, [h, l], 0);
    if Codeword(d + [h, l]) {
      SameParity(h, l, p, q);
    }
  }

  lemma SameParity(h: byte, l: byte, p: byte, q: byte)
    requires Xor(h, l) == Xor(p, q) && Xor(Times2(h), l) == Xor(Times2(p), q)
    ensures h == p && l == q
  {
    ThriceFromParity(h, l);
    ThriceFromParity(p, q);
    QuotientUnique(h, p, Xor8(Times2(h), h));
    XorCancel(h, l);
    XorCancel(p, q);
  }

  lemma ThriceFromParity(h: byte, l: byte)
    ensures Xor(Xor(Times2(h), l), Xor(h, l)) == Xor(Times2(h), h)
  {
    Xor4(Times2(h), l, h, l);
    XorSelf(l);
    XorZero(Xor(Times2(h), h));
  }

  // ----- distance and repair

  lemma ReplaceTerm(p: nat, q: nat, r: nat)
    ensures Xor(q, r) == Xor(Xor(p, r), Xor(p, q))
  {
    XorComm(p, r);
    XorAssoc(r, p, Xor(p, q));
    XorCancel(p, q);
    XorComm(r, q);
  }

  lemma {:induction false} SumUpdate(w: seq<byte>, i: nat, x: byte)
    requires i < |w|
    ensures Sum(w[i := x]) == Xor(Sum(w), Xor(w[i], x))
  {
    if i == 0 {
      assert w[0 := x][1..] == w[1..];
      ReplaceTerm(w[0], x, Sum(w[1..]));
    } else {
      assert w[i := x][1..] == w[1..][i - 1 := x];
      SumUpdate(w[1..], i - 1, x);
      XorAssoc(w[0], Sum(w[1..]), Xor(w[i], x));
    }
  }

  /** The weighted sum moves by the change, times the weight of its place. */
  lemma {:induction false} WeightedUpdate(w: seq<byte>, i: nat, x: byte)
    requires i < |w|
    ensures Weighted(w[i := x], 0) == Xor(Weighted(w, 0), Mul(Alpha(|w| - 1 - i), Xor8(w[i], x)))
  {
    var a := Alpha(|w| - 1 - i);
    if i == 0 {
      assert w[0 := x][1..] == w[1..];
      MulAddRight(a, w[0], x);
      ReplaceTerm(Mul(a, w[0]), Mul(a, x), Weighted(w[1..], 0));
    } else {
      assert w[i := x][1..] == w[1..][i - 1 := x];
      WeightedUpdate(w[1..], i - 1, x);
      XorAssoc(Mul(Alpha(|w| - 1), w[0]), Weighted(w[1..], 0), Mul(a, Xor8(w[i], x)));
    }
  }

  /** Minimum distance: distinct codewords never agree outside two places. */
  lemma MinimumDistance(u: seq<byte>, v: seq<byte>, i: nat, j: nat)
    requires |u| == |v| <= 255 && i < j < |u|
    requires Codeword(u) && Codeword(v) && u != v
    ensures exists k :: 0 <= k < |u| && k != i && k != j && u[k] != v[k]
  {
    if forall k :: 0 <= k < |u| && k != i && k != j ==> u[k] == v[k] {
      var t := u[i := v[i]];
      assert v == t[j := v[j]];
      var x, y := Xor8(u[i], v[i]), Xor8(u[j], v[j]);
      var a, b := Alpha(|u| - 1 - i), Alpha(|u| - 1 - j);
      SumUpdate(u, i, v[i]);
      SumUpdate(t, j, v[j]);
      WeightedUpdate(u, i, v[i]);
      WeightedUpdate(t, j, v[j]);
      XorZero(x);
      XorZero(Mul(a, x));
      XorIsZero(x, y);
      XorIsZero(Mul(a, x), Mul(b, y));
      if x != 0 {
        MulCancel(a, b, x);
        AlphaInjective(|u| - 1 - i, |u| - 1 - j);
      } else {
        XorIsZero(u[i], v[i]);
        XorIsZero(u[j], v[j]);
      }
      assert false;
    }
  }

  datatype Repair = Clean | Fixed(place: nat, value: byte) | Uncorrectable

  /** What a reader does with a word of `n` bytes whose two sums are given. */
  ghost function Diagnose(n: nat, sum: byte, weighted: byte): Repair {
    if sum == 0 && weighted == 0 then Clean
    else if sum == 0 || weighted == 0 then Uncorrectable
    else
      var e := if Log(weighted) >= Log(sum) then Log(weighted) - Log(sum) else Log(weighted) + 255 - Log(sum);
      if e < n then Fixed(n - 1 - e, sum) else Uncorrectable
  }

  /** One wrong byte of a codeword, wherever it is and whatever it was
      replaced with, is located and its change recovered. */
  lemma SingleByteRepair(u: seq<byte>, i: nat, x: byte)
    requires i < |u| <= 255 && Codeword(u)
    ensures var w := u[i := x];
      Diagnose(|w|, Sum(w), Weighted(w, 0))
      == if x == u[i] then Clean else Fixed(i, Xor8(x, u[i]))
  {
    var w := u[i := x];
    var d, e := Xor8(u[i], x), |u| - 1 - i;
    SumUpdate(u, i, x);
    WeightedUpdate(u, i, x);
    XorZero(d);
    XorZero(Mul(Alpha(e), d));
    XorIsZero(u[i], x);
    XorComm(u[i], x);
    if x == u[i] {
      MulZero(Alpha(e));
    } else {
      LogOfProduct(e, d);
    }
  }

  lemma LogOfProduct(e: nat, d: byte)
    requires e < 255 && d != 0
    ensures Mul(Alpha(e), d) != 0
    ensures Log(Mul(Alpha(e), d)) == if e + Log(d) < 255 then e + Log(d) else e + Log(d) - 255
  {
    var n := e + Log(d);
    MulAlpha(e, Log(d));
    if n < 255 {
      LogOfAlpha(n);
    } else {
      Period(n - 255);
      LogOfAlpha(n - 255);
    }
  }
}
