/** Integer arithmetic as C does it, and facts about products and quotients
    that the solver does not find on its own. */
module Arithmetic {
  /** C division and remainder, which truncate toward zero. */
  function CDiv(a: int, b: int): int
    requires b > 0
  {
    if a >= 0 then a / b else -(-a / b)
  }

  function CMod(a: int, b: int): int
    requires b > 0
  {
    a - b * CDiv(a, b)
  }

  function Clamp(x: int, lo: int, hi: int): (r: int)
    requires lo <= hi
    ensures lo <= r <= hi
    ensures lo <= x <= hi ==> r == x
  {
    if x < lo then lo else if x > hi then hi else x
  }

  lemma MulMonotone(a: int, b: int, c: nat)
    requires a <= b
    ensures a * c <= b * c
  {}

  lemma ProductStep(a: nat, b: nat, den: nat)
    requires a < b
    ensures a * den + den <= b * den
  {
    MulMonotone(a + 1, b, den);
    assert (a + 1) * den == a * den + den;
  }

  lemma QuotientIs(z: nat, q: nat, r: nat, den: nat)
    requires den > 0 && r < den && z == q * den + r
    ensures z / den == q && z % den == r
  {
    var d := z / den;
    assert z == d * den + z % den;
    if d < q { ProductStep(d, q, den); assert false; }
    if d > q { ProductStep(q, d, den); assert false; }
  }

  lemma QuotientAtLeast(z: nat, q: nat, den: nat)
    requires den > 0
    ensures z / den >= q <==> z >= q * den
  {
    var d := z / den;
    assert z == d * den + z % den;
    if d < q { ProductStep(d, q, den); } else { MulMonotone(q, d, den); }
  }
}
