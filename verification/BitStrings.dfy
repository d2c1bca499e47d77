/** Numbers as bit strings, most significant bit first. */
module BitStrings {
  import opened Arithmetic
  import opened Bits

  /** The low `w` bits of `v`. */
  function BitsOf(v: nat, w: nat): (s: seq<bool>)
    ensures |s| == w
    decreases w, v
  {
    if w == 0 then [] else BitsOf(v / 2, w - 1) + [v % 2 == 1]
  }

  function ValueOf(s: seq<bool>): nat {
    if s == [] then 0 else 2 * ValueOf(s[..|s| - 1]) + (if s[|s| - 1] then 1 else 0)
  }

  lemma {:induction false} ValueOfBits(v: nat, w: nat)
    requires v < Pow2(w)
    ensures ValueOf(BitsOf(v, w)) == v
    decreases w
  {
    if w > 0 {
      ValueOfBits(v / 2, w - 1);
      assert BitsOf(v, w)[..w - 1] == BitsOf(v / 2, w - 1);
    }
  }

  /** A number's bits are those of its high part followed by its low part. */
  lemma {:induction false} SplitBits(a: nat, b: nat, w: nat, k: nat)
    requires b < Pow2(k)
    ensures BitsOf(a * Pow2(k) + b, w + k) == BitsOf(a, w) + BitsOf(b, k)
    decreases k
  {
    if k > 0 {
      Halve(a, b, Pow2(k - 1));
      SplitBits(a, b / 2, w, k - 1);
      assert BitsOf(a * Pow2(k) + b, w + k) == BitsOf(a * Pow2(k - 1) + b / 2, w + k - 1) + [b % 2 == 1];
    } else {
      assert BitsOf(b, 0) == [];
      assert a * Pow2(k) + b == a;
      assert BitsOf(a, w) + [] == BitsOf(a, w);
    }
  }

  function Zeros(n: nat): (s: seq<bool>)
    ensures |s| == n
  {
    seq(n, _ => false)
  }

  lemma {:induction false} ZeroBits(w: nat)
    ensures BitsOf(0, w) == Zeros(w)
    decreases w
  {
    if w > 0 { ZeroBits(w - 1); }
  }

  // ----- shifts and masks

  /** `v >> k` */
  function Shr(v: nat, k: nat): nat
    decreases k, v
  {
    if k == 0 then v else Shr(v / 2, k - 1)
  }

  /** `v & ((1 << k) - 1)` */
  function Low(v: nat, k: nat): (r: nat)
    ensures r < Pow2(k)
    decreases k, v
  {
    if k == 0 then 0 else 2 * Low(v / 2, k - 1) + v % 2
  }

  lemma {:induction false} ShrLow(v: nat, k: nat)
    ensures v == Shr(v, k) * Pow2(k) + Low(v, k)
    decreases k
  {
    if k > 0 {
      ShrLow(v / 2, k - 1);
      assert 2 * (Shr(v / 2, k - 1) * Pow2(k - 1)) == Shr(v, k) * Pow2(k);
    } else {
      assert v * Pow2(0) == v;
    }
  }

  lemma {:induction false} ShrOfJoin(h: nat, l: nat, k: nat)
    requires l < Pow2(k)
    ensures Shr(h * Pow2(k) + l, k) == h && Low(h * Pow2(k) + l, k) == l
    decreases k
  {
    if k > 0 {
      Halve(h, l, Pow2(k - 1));
      ShrOfJoin(h, l / 2, k - 1);
    } else {
      assert h * Pow2(0) == h;
    }
  }

  lemma ShrBound(v: nat, n: nat, k: nat)
    requires k <= n && v < Pow2(n)
    ensures Shr(v, k) < Pow2(n - k)
  {
    ShrLow(v, k);
    Pow2Add(n - k, k);
    if Shr(v, k) >= Pow2(n - k) {
      MulMonotone(Pow2(n - k), Shr(v, k), Pow2(k));
      assert false;
    }
  }

  lemma ProductBelow(a: nat, b: nat, c: nat)
    requires a < b && c > 0
    ensures a * c < b * c
  {}

  // ----- looking ahead

  /** The first `n` bits as a number, zeros standing in for what is missing. */
  function Peek(s: seq<bool>, n: nat): (v: nat)
    ensures v < Pow2(n)
    decreases n, |s|
  {
    if n == 0 then 0
    else if s == [] then Peek(s, n - 1)
    else (if s[0] then Pow2(n - 1) else 0) + Peek(s[1..], n - 1)
  }

  /** A field of `b` bits fixes the high part of what is seen. */
  lemma {:induction false} PeekField(v: nat, b: nat, rest: seq<bool>, n: nat)
    requires v < Pow2(b) && b <= n
    ensures Peek(BitsOf(v, b) + rest, n) == v * Pow2(n - b) + Peek(rest, n - b)
    decreases b
  {
    if b == 0 {
      assert BitsOf(v, 0) + rest == rest;
    } else {
      var bit := v % 2 == 1;
      assert BitsOf(v, b) + rest == BitsOf(v / 2, b - 1) + ([bit] + rest);
      PeekField(v / 2, b - 1, [bit] + rest, n);
      assert ([bit] + rest)[1..] == rest;
      Spread(v, Pow2(n - b));
      assert Pow2(n - b + 1) == 2 * Pow2(n - b);
    }
  }

  lemma Spread(v: nat, p: nat)
    ensures v / 2 * (2 * p) + (if v % 2 == 1 then p else 0) == v * p
  {
    assert v == 2 * (v / 2) + v % 2;
    assert v / 2 * (2 * p) == (2 * (v / 2)) * p;
    if v % 2 == 1 {
      assert v * p == (2 * (v / 2) + 1) * p == (2 * (v / 2)) * p + p;
    }
  }

  // ----- bitwise or and and

  function Or(a: nat, b: nat): nat
    decreases a + b
  {
    if a == 0 && b == 0 then 0
    else 2 * Or(a / 2, b / 2) + (if a % 2 == 1 || b % 2 == 1 then 1 else 0)
  }

  function And(a: nat, b: nat): nat
    decreases a + b
  {
    if a == 0 && b == 0 then 0
    else 2 * And(a / 2, b / 2) + (if a % 2 == 1 && b % 2 == 1 then 1 else 0)
  }

  lemma {:induction false} OrZero(a: nat)
    ensures Or(a, 0) == a && And(a, 0) == 0
  {
    if a > 0 { OrZero(a / 2); }
  }

  /** Fields that do not overlap: or joins them. */
  lemma {:induction false} OrJoins(h: nat, b: nat, k: nat)
    requires b < Pow2(k)
    ensures Or(h * Pow2(k), b) == h * Pow2(k) + b
    ensures And(h * Pow2(k), b) == 0
    decreases k
  {
    if k == 0 {
      OrZero(h);
      assert h * Pow2(0) == h;
    } else {
      var x := h * Pow2(k);
      Halve(h, 0, Pow2(k - 1));
      assert x / 2 == h * Pow2(k - 1) && x % 2 == 0;
      OrJoins(h, b / 2, k - 1);
      OrAndHalves(x, b);
    }
  }

  lemma OrAndHalves(a: nat, b: nat)
    requires a % 2 == 0
    ensures Or(a, b) == 2 * Or(a / 2, b / 2) + b % 2
    ensures And(a, b) == 2 * And(a / 2, b / 2)
  {}
}
