/** Unsigned machine words as naturals.

    A `uint8_t` is a `byte`, a `uint32_t` a `word32`; a shift is a
    multiplication or division by a power of two and a low mask a remainder,
    so only exclusive-or, or and and need definitions of their own.  They are
    defined one bit at a time. */
module Bits {
  type byte = x: nat | x < 0x100
  type word16 = x: nat | x < 0x1_0000
  type word32 = x: nat | x < 0x1_0000_0000

  function Pow2(k: nat): (p: nat)
    ensures p >= 1
  {
    if k == 0 then 1 else 2 * Pow2(k - 1)
  }

  lemma Pow2Values()
    ensures Pow2(7) == 0x80 && Pow2(8) == 0x100 && Pow2(16) == 0x1_0000
    ensures Pow2(31) == 0x8000_0000 && Pow2(32) == 0x1_0000_0000
  {
    assert Pow2(7) == 0x80;
    Pow2Add(8, 8);
    Pow2Add(16, 8);
    Pow2Add(24, 7);
    Pow2Add(16, 16);
  }

  lemma {:induction false} Pow2Add(m: nat, n: nat)
    ensures Pow2(m + n) == Pow2(m) * Pow2(n)
  {
    if m > 0 { Pow2Add(m - 1, n); }
  }

  lemma {:induction false} Pow2Monotone(m: nat, n: nat)
    requires m <= n
    ensures Pow2(m) <= Pow2(n)
  {
    if m < n { Pow2Monotone(m, n - 1); }
  }

  function Xor(a: nat, b: nat): nat
    decreases a + b
  {
    if a == 0 && b == 0 then 0
    else if a % 2 == b % 2 then 2 * Xor(a / 2, b / 2)
    else 2 * Xor(a / 2, b / 2) + 1
  }

  lemma XorHalf(a: nat, b: nat)
    ensures Xor(a, b) / 2 == Xor(a / 2, b / 2)
    ensures Xor(a, b) % 2 == if a % 2 == b % 2 then 0 else 1
  {}

  lemma {:induction false} XorBound(a: nat, b: nat, k: nat)
    requires a < Pow2(k) && b < Pow2(k)
    ensures Xor(a, b) < Pow2(k)
    decreases k
  {
    if k > 0 { XorBound(a / 2, b / 2, k - 1); }
  }

  function Xor8(a: byte, b: byte): (r: byte)
    ensures r == Xor(a, b)
  {
    Pow2Values(); XorBound(a, b, 8); Xor(a, b)
  }

  function Xor16(a: word16, b: word16): (r: word16)
    ensures r == Xor(a, b)
  {
    Pow2Values(); XorBound(a, b, 16); Xor(a, b)
  }

  function Xor32(a: word32, b: word32): (r: word32)
    ensures r == Xor(a, b)
  {
    Pow2Values(); XorBound(a, b, 32); Xor(a, b)
  }

  lemma {:induction false} XorComm(a: nat, b: nat)
    ensures Xor(a, b) == Xor(b, a)
    decreases a + b
  {
    if a + b > 0 { XorComm(a / 2, b / 2); }
  }

  lemma {:induction false} XorZero(a: nat)
    ensures Xor(a, 0) == a && Xor(0, a) == a
  {
    if a > 0 { XorZero(a / 2); }
  }

  lemma {:induction false} XorSelf(a: nat)
    ensures Xor(a, a) == 0
  {
    if a > 0 { XorSelf(a / 2); }
  }

  lemma {:induction false} XorAssoc(a: nat, b: nat, c: nat)
    ensures Xor(Xor(a, b), c) == Xor(a, Xor(b, c))
    decreases a + b + c
  {
    if a + b + c > 0 {
      XorAssoc(a / 2, b / 2, c / 2);
      var l := Xor(Xor(a, b), c);
      var r := Xor(a, Xor(b, c));
      assert l % 2 == r % 2 by {
        XorHalf(a, b); XorHalf(Xor(a, b), c);
        XorHalf(b, c); XorHalf(a, Xor(b, c));
      }
      assert l / 2 == Xor(Xor(a / 2, b / 2), c / 2) by { XorHalf(a, b); XorHalf(Xor(a, b), c); }
      assert r / 2 == Xor(a / 2, Xor(b / 2, c / 2)) by { XorHalf(b, c); XorHalf(a, Xor(b, c)); }
    }
  }

  lemma Xor4(a: nat, b: nat, c: nat, d: nat)
    ensures Xor(Xor(a, b), Xor(c, d)) == Xor(Xor(a, c), Xor(b, d))
  {
    XorAssoc(Xor(a, b), c, d);
    XorAssoc(a, b, c);
    XorComm(b, c);
    XorAssoc(a, c, b);
    XorAssoc(Xor(a, c), b, d);
  }

  /** Exclusive-or by a fixed word is its own inverse. */
  lemma XorCancel(a: nat, b: nat)
    ensures Xor(a, Xor(a, b)) == b && Xor(Xor(b, a), a) == b
  {
    XorAssoc(a, a, b);
    XorAssoc(b, a, a);
    XorSelf(a);
    XorZero(b);
  }

  lemma XorIsZero(a: nat, b: nat)
    ensures Xor(a, b) == 0 <==> a == b
  {
    XorSelf(a);
    if Xor(a, b) == 0 {
      XorCancel(a, b);
      XorZero(a);
    }
  }

  /** Exclusive-or acts on the bits above and below any position
      separately. */
  lemma {:induction false} XorJoin(x: nat, h: nat, l: nat, y: nat, g: nat, m: nat, k: nat)
    requires l < Pow2(k) && m < Pow2(k)
    requires x == h * Pow2(k) + l && y == g * Pow2(k) + m
    ensures Xor(x, y) == Xor(h, g) * Pow2(k) + Xor(l, m)
    decreases k
  {
    if k > 0 {
      var p := Pow2(k - 1);
      Halve(h, l, p);
      Halve(g, m, p);
      XorJoin(x / 2, h, l / 2, y / 2, g, m / 2, k - 1);
      XorFromHalves(x, y, l, m);
      XorHalf(l, m);
      JoinStep(Xor(x, y), Xor(h, g), Xor(l / 2, m / 2), Xor(l, m), p);
    }
  }

  lemma JoinStep(r: nat, u: nat, w: nat, v: nat, p: nat)
    requires r == 2 * (u * p + w) + v % 2
    requires w == v / 2
    ensures r == u * (2 * p) + v
  {
    assert 2 * (u * p) == u * (2 * p);
  }

  lemma XorFromHalves(x: nat, y: nat, l: nat, m: nat)
    requires x % 2 == l % 2 && y % 2 == m % 2
    ensures Xor(x, y) == 2 * Xor(x / 2, y / 2) + Xor(l, m) % 2
  {
    XorHalf(x, y);
    XorHalf(l, m);
  }

  lemma Halve(h: nat, l: nat, p: nat)
    ensures (h * (2 * p) + l) / 2 == h * p + l / 2
    ensures (h * (2 * p) + l) % 2 == l % 2
  {
    assert h * (2 * p) == 2 * (h * p);
  }
}
