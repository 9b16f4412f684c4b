/** Small facts of arithmetic shared by the models. */
module Arith {

  lemma {:induction false} MultipleMod(k: nat, y: nat)
    requires y > 0
    ensures (k * y) % y == 0 && (k * y) / y == k
  {
    DivUnique(k * y, y, k, 0);
  }

  /** Quotient and remainder are determined by x == q * y + r. */
  lemma DivUnique(x: nat, y: nat, q: int, r: nat)
    requires r < y && x == q * y + r
    ensures x / y == q && x % y == r
  {
    var q', r' := x / y, x % y;
    assert x == q' * y + r';
    assert (q - q') * y == r' - r;
    if q - q' >= 1 {
      MulGrows(q - q', y);
    } else if q' - q >= 1 {
      MulGrows(q' - q, y);
    }
  }

  lemma DivMod(x: nat, y: nat)
    requires y > 0
    ensures x == x / y * y + x % y && 0 <= x % y < y && 0 <= x / y
  {
  }

  lemma MulGrows(k: nat, y: nat)
    requires k >= 1
    ensures k * y >= y
  {
  }

  lemma MulMono(a: nat, b: nat, c: nat)
    requires a <= b
    ensures a * c <= b * c && c * a <= c * b
  {
    assert b * c - a * c == (b - a) * c;
  }

  lemma MultipleBelow(p: nat, q: nat, y: nat)
    requires p * y < q * y + y
    ensures p <= q && p * y <= q * y
  {
    assert (q + 1) * y == q * y + y;
    if p > q {
      MulMono(q + 1, p, y);
    } else {
      MulMono(p, q, y);
    }
  }

  /** roundup(x, y) */
  function RoundUp(x: nat, y: nat): (r: nat)
    requires y > 0
    ensures x <= r < x + y && r % y == 0
  {
    var z := x + (y - 1);
    assert z == z / y * y + z % y;
    MultipleMod(z / y, y);
    z / y * y
  }

  function Quot(x: nat, y: nat): (q: nat)
    requires y > 0
    ensures q == x / y
  {
    DivMod(x, y);
    x / y
  }

  function Rem(x: nat, y: nat): (r: nat)
    requires y > 0
    ensures r == x % y && r < y && x == Quot(x, y) * y + r
  {
    DivMod(x, y);
    x % y
  }
}
