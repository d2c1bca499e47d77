/** What the encoder's logarithm arithmetic computes: the two factors with
    which a data byte enters the two parity bytes. */
module ParityTables {
  import opened Bits
  import opened GaloisField
  import opened DiscreteLog
  import opened ReedSolomon

  /** x divided by a^b, by subtracting logarithms modulo 255. */
  ghost function DivideAlpha(x: byte, b: nat): byte
    requires b <= 255
  {
    if x == 0 then 0 else Alpha(Log(x) + 255 - b)
  }

  lemma DivideAlphaInverse(x: byte, b: nat)
    requires b <= 255
    ensures Mul(Alpha(b), DivideAlpha(x, b)) == x
  {
    if x == 0 {
      MulZero(Alpha(b));
    } else {
      MulAlpha(b, Log(x) + 255 - b);
      Period(Log(x));
    }
  }

  lemma AlphaReduced(n: nat)
    ensures n >= 255 ==> Alpha(n) == Alpha(n - 255)
  {
    if n >= 255 { Period(n - 255); }
  }

  /** The same quotient with the exponent reduced below 255. */
  lemma DivideAlphaReduced(x: byte, b: nat)
    requires b <= 255 && x != 0
    ensures DivideAlpha(x, b) == Alpha(if Log(x) - b < 0 then Log(x) - b + 255 else Log(x) - b)
  {
    if Log(x) - b >= 0 { Period(Log(x) - b); }
  }

  /** Dividing by a^25 divides by a + 1.  Here and below an exponent is given as
      a range: a literal would have the solver unfold the powers. */
  lemma DivideBy25(x: byte, b: nat)
    requires 24 < b < 26
    ensures DivideAlpha(x, b) == Quotient(x)
  {
    if x == 0 {
      assert IsQuotient(0, 0);
      QuotientUnique(0, Quotient(x), 0);
    } else {
      TwentyFifth(2, b);
      DivideByThree(Log(x), b, 255 - b);
      QuotientUnique(DivideAlpha(x, b), Quotient(x), x);
    }
  }

  lemma QuotientDouble(x: byte)
    ensures Times2(Quotient(x)) == Quotient(Times2(x))
  {
    Times2Add(Times2(Quotient(x)), Quotient(x));
    QuotientUnique(Times2(Quotient(x)), Quotient(Times2(x)), Times2(x));
  }

  lemma XorOneDoubled(x: byte)
    ensures Times2(Xor8(x, 1)) == Xor(Times2(x), 2)
  {
    Times2Add(x, 1);
  }

  /** Dividing by a^24 divides by a + 1 and doubles. */
  lemma DivideBy24(x: byte, b: nat)
    requires 23 < b < 25 && x != 0
    ensures DivideAlpha(x, b) == Times2(Quotient(x))
  {
    DivideBy25(x, b + 1);
    assert Log(x) + 255 - b == Log(x) + 255 - (b + 1) + 1;
  }

  /** The first factor, as the table set-up reaches it. */
  lemma HighFactorByLogs(e: nat, x: byte, b: nat)
    requires 24 < b < 26 && x == Xor(Alpha(e), 1)
    ensures DivideAlpha(x, b) == HighFactor(e)
  {
    DivideBy25(x, b);
  }

  /** The second factor, as the table set-up reaches it. */
  lemma LowFactorByLogs(e: nat, x: byte, b: nat)
    requires 23 < b < 25 && 0 < e && x == Xor(Alpha(e - 1), 1) && x != 0
    ensures DivideAlpha(x, b) == LowFactor(e)
  {
    DivideBy24(x, b);
    QuotientDouble(x);
    XorOneDoubled(Alpha(e - 1));
  }

  lemma PowerIsNotOne(e: nat)
    requires 0 < e < 255
    ensures Xor(Alpha(e), 1) != 0
  {
    Order();
    XorIsZero(Alpha(e), 1);
  }

  /** A product through logarithms. */
  lemma MulByLogs(c: byte, d: byte)
    requires c != 0 && d != 0
    ensures Mul(c, d) == Alpha(if Log(c) + Log(d) >= 255 then Log(c) + Log(d) - 255 else Log(c) + Log(d))
  {
    MulAlpha(Log(c), Log(d));
    AlphaReduced(Log(c) + Log(d));
  }

  lemma QuotientNonZero(x: byte)
    requires x != 0
    ensures Quotient(x) != 0
  {
    XorZero(0);
    assert IsQuotient(Quotient(x), x);
  }

  /** Both factors are nonzero for the weights in use. */
  lemma FactorsNonZero(e: nat)
    requires 1 < e < 255
    ensures HighFactor(e) != 0 && LowFactor(e) != 0
  {
    PowerIsNotOne(e);
    PowerIsNotOne(e - 1);
    QuotientNonZero(Xor8(Alpha(e), 1));
    XorOneDoubled(Alpha(e - 1));
    Times2NonZero(Xor8(Alpha(e - 1), 1));
    QuotientNonZero(Xor8(Alpha(e), 2));
  }

  // ----- running sums of both parity bytes in one 16-bit word

  lemma Xor16Halves(l: byte, h: byte, m: byte, g: byte)
    ensures Xor(l + 0x100 * h, m + 0x100 * g) == Xor(l, m) + 0x100 * Xor(h, g)
  {
    Pow2Values();
    XorJoin(l + 0x100 * h, h, l, m + 0x100 * g, g, m, 8);
  }

  lemma ParityHighOne(v: byte, e: nat)
    requires 1 <= e
    ensures ParityHigh([v], e) == Mul(HighFactor(e), v)
  {
    assert [v][1..] == [];
    XorZero(Mul(HighFactor(e), v));
  }

  lemma {:induction false} ParityHighNext(d: seq<byte>, v: byte, e: nat)
    requires |d| < e
    ensures ParityHigh(d + [v], e) == Xor(ParityHigh(d, e), Mul(HighFactor(e - |d|), v))
    decreases |d|
  {
    var p := Mul(HighFactor(e - |d|), v);
    if d == [] {
      ParityHighOne(v, e);
      assert d + [v] == [v];
      XorZero(p);
    } else {
      var t := d + [v];
      assert t[1..] == d[1..] + [v];
      ParityHighNext(d[1..], v, e - 1);
      XorAssoc(Mul(HighFactor(e), d[0]), ParityHigh(d[1..], e - 1), p);
    }
  }

  lemma ParityLowOne(v: byte, e: nat)
    requires 1 <= e
    ensures ParityLow([v], e) == Mul(LowFactor(e), v)
  {
    assert [v][1..] == [];
    XorZero(Mul(LowFactor(e), v));
  }

  lemma {:induction false} ParityLowNext(d: seq<byte>, v: byte, e: nat)
    requires |d| < e
    ensures ParityLow(d + [v], e) == Xor(ParityLow(d, e), Mul(LowFactor(e - |d|), v))
    decreases |d|
  {
    var p := Mul(LowFactor(e - |d|), v);
    if d == [] {
      ParityLowOne(v, e);
      assert d + [v] == [v];
      XorZero(p);
    } else {
      var t := d + [v];
      assert t[1..] == d[1..] + [v];
      ParityLowNext(d[1..], v, e - 1);
      XorAssoc(Mul(LowFactor(e), d[0]), ParityLow(d[1..], e - 1), p);
    }
  }

  ghost function Both(d: seq<byte>, e: nat): word16
    requires |d| <= e
  {
    ParityLow(d, e) + 0x100 * ParityHigh(d, e)
  }

  lemma BothHalves(d: seq<byte>, e: nat)
    requires |d| <= e
    ensures Both(d, e) / 0x100 == ParityHigh(d, e) && Both(d, e) % 0x100 == ParityLow(d, e)
  {
    hide ParityHigh, ParityLow;
  }

  ghost function Product(e: nat, v: byte): word16 {
    Mul(LowFactor(e), v) + 0x100 * Mul(HighFactor(e), v)
  }

  lemma BothNext(d: seq<byte>, v: byte, e: nat)
    requires |d| < e
    ensures Both(d + [v], e) == Xor(Both(d, e), Product(e - |d|, v))
  {
    hide Mul, ParityHigh, ParityLow, Xor, HighFactor, LowFactor;
    ParityHighNext(d, v, e);
    ParityLowNext(d, v, e);
    Xor16Halves(ParityLow(d, e), ParityHigh(d, e), Mul(LowFactor(e - |d|), v), Mul(HighFactor(e - |d|), v));
  }

  /** One more term of a running sum. */
  lemma BothStep(p: seq<byte>, k: nat, e: nat)
    requires k < |p| <= e
    ensures Both(p[..k + 1], e) == Xor(Both(p[..k], e), Product(e - k, p[k]))
  {
    hide Both, Product, Xor;
    assert p[..k + 1] == p[..k] + [p[k]];
    BothNext(p[..k], p[k], e);
  }
}
