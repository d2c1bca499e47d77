/** The field of 256 elements in which sector parity is computed: polynomials
    over GF(2) modulo x^8 + x^4 + x^3 + x^2 + 1, as Annex A of ECMA-130 defines
    it.  Addition is `Xor`; multiplication is the schoolbook one, and the
    logarithms that the encoder's tables hold are derived from it. */
module GaloisField {
  import opened Bits

  /** Multiplication by the generator a = x. */
  function Times2(x: byte): byte {
    if x < 0x80 then 2 * x else Xor8(2 * x - 0x100, 0x1D)
  }

  function Alpha(n: nat): byte {
    if n == 0 then 1 else Times2(Alpha(n - 1))
  }

  /** The product, one bit of `c` at a time. */
  function Mul(c: nat, d: byte): byte {
    if c == 0 then 0 else Xor8(if c % 2 == 1 then d else 0, Mul(c / 2, Times2(d)))
  }

  // ----- the generator

  lemma XorTopBits(u: nat, v: nat)
    requires u < 0x80 && v < 0x80
    ensures Xor(u, v) < 0x80
    ensures Xor(u + 0x80, v + 0x80) == Xor(u, v)
    ensures Xor(u + 0x80, v) == Xor(u, v) + 0x80
    ensures Xor(u, v + 0x80) == Xor(u, v) + 0x80
  {
    Pow2Values();
    XorBound(u, v, 7);
    XorJoin(u + 0x80, 1, u, v + 0x80, 1, v, 7);
    XorJoin(u + 0x80, 1, u, v, 0, v, 7);
    XorJoin(u, 0, u, v + 0x80, 1, v, 7);
  }

  lemma XorDouble(u: nat, v: nat)
    ensures Xor(2 * u, 2 * v) == 2 * Xor(u, v)
  {}

  lemma CarryBoth(p: nat, q: nat, c: nat)
    ensures Xor(Xor(p, c), Xor(q, c)) == Xor(p, q)
    ensures Xor(Xor(p, c), q) == Xor(Xor(p, q), c) == Xor(p, Xor(q, c))
  {
    Xor4(p, c, q, c);
    XorSelf(c);
    XorZero(Xor(p, q));
    XorAssoc(p, c, q);
    XorComm(c, q);
    XorAssoc(p, q, c);
  }

  lemma Times2AddSmall(x: byte, y: byte)
    requires x < 0x80
    ensures Times2(Xor8(x, y)) == Xor8(Times2(x), Times2(y))
  {
    if y < 0x80 {
      XorTopBits(x, y);
      XorDouble(x, y);
    } else {
      var v := y - 0x80;
      XorTopBits(x, v);
      XorDouble(x, v);
      CarryBoth(2 * x, 2 * v, 0x1D);
    }
  }

  lemma Times2AddLarge(x: byte, y: byte)
    requires x >= 0x80 && y >= 0x80
    ensures Times2(Xor8(x, y)) == Xor8(Times2(x), Times2(y))
  {
    var u, v := x - 0x80, y - 0x80;
    XorTopBits(u, v);
    XorDouble(u, v);
    CarryBoth(2 * u, 2 * v, 0x1D);
  }

  lemma Times2Add(x: byte, y: byte)
    ensures Times2(Xor8(x, y)) == Xor8(Times2(x), Times2(y))
  {
    if x < 0x80 {
      Times2AddSmall(x, y);
    } else if y < 0x80 {
      Times2AddSmall(y, x);
      XorComm(x, y);
      XorComm(Times2(x), Times2(y));
    } else {
      Times2AddLarge(x, y);
    }
  }

  lemma Times2NonZero(x: byte)
    requires x != 0
    ensures Times2(x) != 0
  {
    if x >= 0x80 {
      XorHalf(2 * x - 0x100, 0x1D);
    }
  }

  lemma Times2Injective(x: byte, y: byte)
    requires Times2(x) == Times2(y)
    ensures x == y
  {
    XorIsZero(x, y);
    XorIsZero(Times2(x), Times2(y));
    Times2Add(x, y);
    if x != y {
      Times2NonZero(Xor8(x, y));
    }
  }

  // ----- multiplication

  lemma {:induction false} MulAddLeft(c: nat, e: nat, d: byte)
    ensures Mul(Xor(c, e), d) == Xor(Mul(c, d), Mul(e, d))
    decreases c + e
  {
    if c == 0 {
      XorZero(e); XorZero(Mul(e, d));
    } else if e == 0 {
      XorZero(c); XorZero(Mul(c, d));
    } else {
      XorHalf(c, e);
      MulAddLeft(c / 2, e / 2, Times2(d));
      var p, q := Mul(c / 2, Times2(d)), Mul(e / 2, Times2(d));
      PickAdd(c, e, d);
      Xor4(if c % 2 == 1 then d else 0, p, if e % 2 == 1 then d else 0, q);
      XorZero(0);
    }
  }

  lemma PickAdd(c: nat, e: nat, d: byte)
    ensures (if Xor(c, e) % 2 == 1 then d else 0)
      == Xor(if c % 2 == 1 then d else 0, if e % 2 == 1 then d else 0)
  {
    XorHalf(c, e);
    XorSelf(d);
    XorSelf(0);
    XorZero(d);
  }

  lemma {:induction false} MulAddRight(c: nat, d: byte, e: byte)
    ensures Mul(c, Xor8(d, e)) == Xor(Mul(c, d), Mul(c, e))
  {
    XorZero(0);
    if c > 0 {
      Times2Add(d, e);
      MulAddRight(c / 2, Times2(d), Times2(e));
      var p, q := Mul(c / 2, Times2(d)), Mul(c / 2, Times2(e));
      if c % 2 == 1 {
        Xor4(d, p, e, q);
      } else {
        XorZero(p); XorZero(q); XorZero(Xor(p, q));
      }
    }
  }

  lemma {:induction false} MulTimes2Right(c: nat, d: byte)
    ensures Mul(c, Times2(d)) == Times2(Mul(c, d))
  {
    if c > 0 {
      MulTimes2Right(c / 2, Times2(d));
      Times2Add(if c % 2 == 1 then d else 0, Mul(c / 2, Times2(d)));
    }
  }

  lemma MulDouble(c: nat, d: byte)
    ensures Mul(2 * c, d) == Mul(c, Times2(d))
  {
    XorZero(Mul(c, Times2(d)));
  }

  lemma MulOne(d: byte)
    ensures Mul(1, d) == d
  {
    XorZero(d);
  }

  lemma {:induction false} MulZero(c: nat)
    ensures Mul(c, 0) == 0
  {
    XorZero(0);
    if c > 0 { MulZero(c / 2); }
  }

  /** d * a^n, by n applications of `Times2`. */
  function TimesAlpha(d: byte, n: nat): byte {
    if n == 0 then d else Times2(TimesAlpha(d, n - 1))
  }

  lemma {:induction false} TimesAlphaNext(d: byte, n: nat)
    ensures TimesAlpha(Times2(d), n) == Times2(TimesAlpha(d, n))
  {
    if n > 0 { TimesAlphaNext(d, n - 1); }
  }

  lemma {:induction false} TimesAlphaAdd(d: byte, e: byte, n: nat)
    ensures TimesAlpha(Xor8(d, e), n) == Xor(TimesAlpha(d, n), TimesAlpha(e, n))
  {
    if n > 0 {
      TimesAlphaAdd(d, e, n - 1);
      Times2Add(TimesAlpha(d, n - 1), TimesAlpha(e, n - 1));
    }
  }

  lemma {:induction false} TimesAlphaZero(n: nat)
    ensures TimesAlpha(0, n) == 0
  {
    if n > 0 { TimesAlphaZero(n - 1); }
  }

  /** Two linear maps that commute with `Times2` and agree on 1 agree
      everywhere. */
  lemma {:induction false} AgreeOnOne(c: nat, n: nat, d: byte)
    requires Mul(c, 1) == TimesAlpha(1, n)
    ensures Mul(c, d) == TimesAlpha(d, n)
  {
    if d == 0 {
      MulZero(c);
      TimesAlphaZero(n);
    } else if d > 1 {
      var h: byte := d / 2;
      AgreeOnOne(c, n, h);
      MulTimes2Right(c, h);
      TimesAlphaNext(h, n);
      if d % 2 == 1 {
        XorWithOne(h);
        MulAddRight(c, 2 * h, 1);
        TimesAlphaAdd(2 * h, 1, n);
      }
    }
  }

  lemma XorWithOne(h: nat)
    ensures Xor(2 * h, 1) == 2 * h + 1
  {
    XorFromHalves(2 * h, 1, 0, 1);
    XorZero(h);
  }

  /** The modulus: a^8 = a^4 + a^3 + a^2 + 1. */
  lemma EighthPower()
    ensures Mul(0x1D, 1) == TimesAlpha(1, 8)
  {
    assert Mul(3, 8) == 0x18 by { XorZero(0x10); }
    assert Mul(7, 4) == 0x1C;
    assert Mul(0xE, 2) == 0x1C by { XorZero(0x1C); }
    assert Mul(0x1D, 1) == 0x1D;
    assert TimesAlpha(1, 7) == 0x80;
    assert Times2(0x80) == 0x1D by { XorZero(0x1D); }
  }

  lemma SeventhPower()
    ensures Mul(0x80, 1) == TimesAlpha(1, 7)
  {
    MulDouble(0x40, 1); MulDouble(0x20, 2); MulDouble(0x10, 4); MulDouble(8, 8);
    MulDouble(4, 0x10); MulDouble(2, 0x20); MulDouble(1, 0x40); MulOne(0x80);
  }

  lemma TopBitReduces(d: byte)
    ensures Mul(0x80, Times2(d)) == Mul(0x1D, d)
  {
    EighthPower();
    AgreeOnOne(0x1D, 8, d);
    SeventhPower();
    AgreeOnOne(0x80, 7, Times2(d));
    TimesAlphaNext(d, 7);
  }

  lemma TopBitSplit(l: byte, c: byte)
    requires l < 0x80 && c == l + 0x80
    ensures c == Xor(l, 0x80) && Times2(c) == Xor(2 * l, 0x1D)
  {
    XorTopBits(l, 0);
    XorZero(l);
  }

  lemma MulTimes2Large(l: byte, top: byte, red: byte, d: byte)
    requires Mul(top, Times2(d)) == Mul(red, d)
    ensures Mul(Xor(2 * l, red), d) == Mul(Xor(l, top), Times2(d))
  {
    MulDouble(l, d);
    MulAddLeft(2 * l, red, d);
    MulAddLeft(l, top, Times2(d));
  }

  lemma MulTimes2(c: byte, d: byte)
    ensures Mul(Times2(c), d) == Times2(Mul(c, d)) == Mul(c, Times2(d))
  {
    MulTimes2Right(c, d);
    if c < 0x80 {
      MulDouble(c, d);
    } else {
      TopBitReduces(d);
      TopBitSplit(c - 0x80, c);
      MulTimes2Large(c - 0x80, 0x80, 0x1D, d);
    }
  }

  /** Powers of a multiply by adding their exponents. */
  lemma {:induction false} MulAlpha(m: nat, n: nat)
    ensures Mul(Alpha(m), Alpha(n)) == Alpha(m + n)
  {
    if m == 0 {
      MulOne(Alpha(n));
    } else {
      MulAlpha(m - 1, n);
      MulTimes2(Alpha(m - 1), Alpha(n));
    }
  }
}
