/**
 Double-cell arithmetic of boot/ficl/math64.c for 32-bit cells: helpers on pairs of
 cells, shift-and-add multiplication, shift-and-subtract division, and the signed
 and mixed forms built on them.
 */
module Math64 {
  import opened Arith

  const CELL: int := 0x1_0000_0000
  const HI_BIT: int := 0x8000_0000
  const DOUBLE: int := 0x1_0000_0000_0000_0000

  type Uns = x: int | 0 <= x < 0x1_0000_0000
  type Int = x: int | -0x8000_0000 <= x < 0x8000_0000

  datatype Dpuns = Dpuns(hi: Uns, lo: Uns) {
    function Val(): (v: nat)
      ensures v < DOUBLE
    {
      hi * CELL + lo
    }
  }

  datatype Dpint = Dpint(hi: Int, lo: Uns) {
    function Val(): int { hi * CELL + lo }
  }

  datatype Unsqr = Unsqr(quot: Uns, rem: Uns)
  datatype Intqr = Intqr(quot: Int, rem: Int)

  /** The bits of a cell, read as signed. */
  function ToInt(x: int): (r: int)
    ensures -HI_BIT <= r < HI_BIT
  {
    var u := x % CELL;
    if u < HI_BIT then u else u - CELL
  }

  // ----- Bitwise or -----

  function Pow2(k: nat): (p: nat)
    ensures p >= 1
  {
    if k == 0 then 1 else 2 * Pow2(k - 1)
  }

  function Or(x: nat, y: nat): nat
    decreases x + y
  {
    if x == 0 && y == 0 then 0
    else 2 * Or(x / 2, y / 2) + if x % 2 == 1 || y % 2 == 1 then 1 else 0
  }

  lemma {:induction false} OrZero(x: nat)
    ensures Or(x, 0) == x && Or(0, x) == x
  {
    if x > 0 {
      OrZero(x / 2);
    }
  }

  lemma {:induction false} OrBound(x: nat, y: nat, k: nat)
    requires x < Pow2(k) && y < Pow2(k)
    ensures Or(x, y) < Pow2(k)
  {
    if k == 0 {
    } else {
      OrBound(x / 2, y / 2, k - 1);
    }
  }

  lemma HalfOfShifted(h: nat, p: nat, l: nat)
    requires p >= 1 && l < 2 * p
    ensures (h * (2 * p) + l) / 2 == h * p + l / 2 && (h * (2 * p) + l) % 2 == l % 2
  {
    assert h * (2 * p) == 2 * (h * p);
  }

  lemma OrStep(x: nat, y: nat)
    ensures Or(x, y) == 2 * Or(x / 2, y / 2) + if x % 2 == 1 || y % 2 == 1 then 1 else 0
  {
  }

  lemma Distribute(o: nat, p: nat, c: nat, bit: nat)
    ensures 2 * (o * p + c) + bit == o * (2 * p) + (2 * c + bit)
  {
  }

  /** A high and a low part. */
  function Joined(h: nat, p: nat, l: nat): nat {
    h * p + l
  }

  lemma OrPartsStep(p: nat, h: nat, l: nat, h': nat, l': nat)
    requires p >= 1 && l < 2 * p && l' < 2 * p
    requires Or(Joined(h, p, l / 2), Joined(h', p, l' / 2)) == Joined(Or(h, h'), p, Or(l / 2, l' / 2))
    ensures Or(Joined(h, 2 * p, l), Joined(h', 2 * p, l')) == Joined(Or(h, h'), 2 * p, Or(l, l'))
  {
    hide Or;
    HalfOfShifted(h, p, l);
    HalfOfShifted(h', p, l');
    OrStep(Joined(h, 2 * p, l), Joined(h', 2 * p, l'));
    OrStep(l, l');
    Distribute(Or(h, h'), p, Or(l / 2, l' / 2), if l % 2 == 1 || l' % 2 == 1 then 1 else 0);
  }

  /** Or works on high and low parts apart. */
  lemma {:induction false} OrParts(k: nat, h: nat, l: nat, h': nat, l': nat)
    requires l < Pow2(k) && l' < Pow2(k)
    ensures Or(h * Pow2(k) + l, h' * Pow2(k) + l') == Or(h, h') * Pow2(k) + Or(l, l')
  {
    if k == 0 {
      assert l == 0 && l' == 0 && Or(0, 0) == 0;
    } else {
      OrParts(k - 1, h, l / 2, h', l' / 2);
      OrPartsStep(Pow2(k - 1), h, l, h', l');
    }
  }

  /** Disjoint bits add. */
  lemma OrDisjoint(k: nat, a: nat, b: nat)
    requires b < Pow2(k)
    ensures Or(a * Pow2(k), b) == a * Pow2(k) + b && Or(b, a * Pow2(k)) == a * Pow2(k) + b
  {
    hide Or, Pow2;
    OrParts(k, a, 0, 0, b);
    OrParts(k, 0, b, a, 0);
    OrZero(a);
    OrZero(b);
    assert 0 * Pow2(k) == 0;
  }

  lemma Pow2Values()
    ensures Pow2(16) == 0x1_0000 && Pow2(31) == HI_BIT && Pow2(32) == CELL && Pow2(64) == DOUBLE
  {
    assert Pow2(8) == 256;
    assert Pow2(16) == 0x1_0000;
    assert Pow2(24) == 0x100_0000;
    assert Pow2(31) == HI_BIT;
    assert Pow2(40) == 0x100_0000_0000;
    assert Pow2(48) == 0x1_0000_0000_0000;
    assert Pow2(56) == 0x100_0000_0000_0000;
  }

  // ----- Helpers on pairs of cells -----

  predicate HiBit(x: Uns) { x >= HI_BIT }

  /** A cell's worth of a sum or difference of two cells. */
  function Wrap(x: int): (r: Uns)
    requires -CELL <= x < 2 * CELL
    ensures r == x % CELL
  {
    if x < 0 then x + CELL else if x >= CELL then x - CELL else x
  }

  /** m64Add: the sum, modulo 2^64 */
  function Add(x: Dpuns, y: Dpuns): (r: Dpuns)
    ensures r.Val() == x.Val() + y.Val() - if x.Val() + y.Val() < DOUBLE then 0 else DOUBLE
  {
    var hi := Wrap(x.hi + y.hi);
    var lo := Wrap(x.lo + y.lo);
    var carry := ((HiBit(x.lo) || HiBit(y.lo)) && !HiBit(lo)) || (HiBit(x.lo) && HiBit(y.lo));
    Dpuns(if carry then Wrap(hi + 1) else hi, lo)
  }

  /** m64Sub: the difference, modulo 2^64 */
  function Sub(x: Dpuns, y: Dpuns): (r: Dpuns)
    ensures r.Val() == x.Val() - y.Val() + if x.Val() < y.Val() then DOUBLE else 0
  {
    var hi := Wrap(x.hi - y.hi);
    var lo := Wrap(x.lo - y.lo);
    Dpuns(if x.lo < y.lo then Wrap(hi - 1) else hi, lo)
  }

  /** m64ASL: twice the value, modulo 2^64 */
  function Asl(x: Dpuns): (r: Dpuns)
    ensures r.Val() == 2 * x.Val() - if 2 * x.Val() < DOUBLE then 0 else DOUBLE
  {
    var hi := Wrap(2 * x.hi);
    Dpuns(if HiBit(x.lo) then Wrap(hi + 1) else hi, Wrap(2 * x.lo))
  }

  /** m64ASR */
  function Asr(x: Dpuns): (r: Dpuns)
    ensures r.Val() == x.Val() / 2
  {
    Pow2Values();
    OrDisjoint(31, 1, x.lo / 2);
    Dpuns(x.hi / 2, if x.hi % 2 == 1 then Or(x.lo / 2, HI_BIT) else x.lo / 2)
  }

  /** m64Or */
  function Or64(x: Dpuns, y: Dpuns): (r: Dpuns)
    ensures r.Val() == Or(x.Val(), y.Val())
  {
    OrCells(x, y);
    Dpuns(Or(x.hi, y.hi), Or(x.lo, y.lo))
  }

  lemma OrCells(x: Dpuns, y: Dpuns)
    ensures Or(x.hi, y.hi) < CELL && Or(x.lo, y.lo) < CELL
    ensures Or(x.hi, y.hi) * CELL + Or(x.lo, y.lo) == Or(x.Val(), y.Val())
  {
    hide Or, Pow2;
    Pow2Values();
    OrBound(x.hi, y.hi, 32);
    OrBound(x.lo, y.lo, 32);
    OrParts(32, x.hi, x.lo, y.hi, y.lo);
  }

  /** m64Compare */
  function Compare(x: Dpuns, y: Dpuns): (r: int)
    ensures r == if x.Val() < y.Val() then -1 else if x.Val() == y.Val() then 0 else 1
  {
    if x.hi > y.hi then 1
    else if x.hi < y.hi then -1
    else if x.lo > y.lo then 1
    else if x.lo < y.lo then -1
    else 0
  }

  // ----- Multiplication and division -----

  lemma MulHalf(x: nat, a: nat)
    ensures x * a == (x / 2) * (2 * a) + (x % 2) * a
  {
    assert x == 2 * (x / 2) + x % 2;
  }

  lemma ProductFits(x: Uns, y: Uns)
    ensures x * y < DOUBLE
  {
    MulMono(x, CELL, y);
    assert CELL * y < CELL * CELL;
  }

  /** One turn of the multiplication loop: `x` still to be multiplied by `a`. */
  lemma MulStep(r: nat, x: nat, a: nat, n: nat)
    requires x > 0 && r + x * a == n
    ensures r + x % 2 * a <= n
    ensures x / 2 > 0 ==> 2 * a <= n && r + x % 2 * a + x / 2 * (2 * a) == n
    ensures x / 2 == 0 ==> r + x % 2 * a == n
  {
    MulHalf(x, a);
    if x / 2 > 0 {
      MulMono(1, x / 2, 2 * a);
    }
  }

  lemma SmallVal(x: Uns)
    ensures Dpuns(0, x).Val() == x
  {
  }

  /** ficlLongMul: the exact product */
  method LongMul(x: Uns, y: Uns) returns (r: Dpuns)
    ensures r.Val() == x * y
  {
    hide Dpuns.Val;
    SmallVal(0);
    SmallVal(y);
    ProductFits(x, y);
    r := Dpuns(0, 0);
    var addend := Dpuns(0, y);
    var x': Uns := x;
    while x' != 0
      invariant if x' == 0 then r.Val() == x * y else r.Val() + x' * addend.Val() == x * y
    {
      MulStep(r.Val(), x', addend.Val(), x * y);
      if x' % 2 == 1 {
        r := Add(r, addend);
      }
      x' := x' / 2;
      addend := Asl(addend);
    }
  }

  /** How far a division has come: `q0` is `quot` times `y` plus the rest `q`; the bits of
      `quot` still to be found are those of 2^k and below. */
  ghost predicate Dividing(q0: nat, y: nat, quot: nat, q: nat, mask: nat, sub: nat, k: int, m: nat) {
    && q0 == quot * y + q && -1 <= k
    && (k >= 0 ==> mask == Pow2(k) && sub == y * Pow2(k) && q < 2 * sub && quot == m * (2 * Pow2(k)))
    && (k == -1 ==> mask == 0 && q < y)
  }

  lemma Pow2Half(k: nat, y: nat)
    requires k > 0
    ensures Pow2(k) == 2 * Pow2(k - 1) && Pow2(k) / 2 == Pow2(k - 1)
    ensures (y * Pow2(k)) / 2 == y * Pow2(k - 1) && y * Pow2(k) == 2 * (y * Pow2(k - 1))
  {
    var p := Pow2(k - 1);
    assert y * (2 * p) == 2 * (y * p);
  }

  lemma QuotBits(m: nat, p: nat)
    ensures (2 * m + 1) * p == m * (2 * p) + p && (2 * m) * p == m * (2 * p)
  {
  }

  lemma DivideOr(quot: nat, k: nat, m: nat)
    requires quot == m * (2 * Pow2(k))
    ensures Or(quot, Pow2(k)) == quot + Pow2(k)
  {
    assert Pow2(k + 1) == 2 * Pow2(k);
    OrDisjoint(k + 1, m, Pow2(k));
  }

  /** One turn of the second loop: the bit 2^k of the quotient is found. */
  lemma DivideBit(q0: nat, y: nat, quot: nat, q: nat, mask: nat, sub: nat, k: nat, m: nat)
    requires y > 0 && Dividing(q0, y, quot, q, mask, sub, k, m)
    ensures Or(quot, mask) == quot + mask
    ensures sub <= q ==> Dividing(q0, y, quot + mask, q - sub, mask / 2, sub / 2, k - 1, 2 * m + 1)
    ensures q < sub ==> Dividing(q0, y, quot, q, mask / 2, sub / 2, k - 1, 2 * m)
  {
    DivideOr(quot, k, m);
    QuotBits(m, mask);
    MulDistributes(quot, mask, y);
    if k > 0 {
      Pow2Half(k, y);
      hide Or, Pow2;
    }
  }

  lemma MulDistributes(a: nat, b: nat, y: nat)
    ensures (a + b) * y == a * y + y * b
  {
  }

  lemma ScaleDoubles(y: nat, k: nat)
    ensures y * Pow2(k + 1) == 2 * (y * Pow2(k)) && (y > 0 ==> Pow2(k) <= y * Pow2(k))
  {
    if y > 0 {
      MulMono(1, y, Pow2(k));
    }
  }

  lemma LowCell(v: Dpuns)
    ensures v.lo == v.Val() % CELL && (v.Val() < CELL ==> v.lo == v.Val())
  {
  }

  /** ficlLongDiv, first loop: scale the divisor up */
  method ScaleUp(q: Dpuns, y: Uns) returns (mask: Dpuns, sub: Dpuns, ghost k: nat)
    requires y > 0
    ensures mask.Val() == Pow2(k) && sub.Val() == y * Pow2(k) && q.Val() < 2 * sub.Val()
  {
    mask, sub, k := Dpuns(0, 1), Dpuns(0, y), 0;
    while Compare(sub, q) < 0 && !HiBit(sub.hi)
      invariant mask.Val() == Pow2(k) && sub.Val() == y * Pow2(k)
      decreases DOUBLE - sub.Val()
    {
      ScaleDoubles(y, k);
      assert 2 * sub.Val() < DOUBLE;
      mask, sub, k := Asl(mask), Asl(sub), k + 1;
    }
    ScaleDoubles(y, k);
  }

  /** ficlLongDiv: remainder, and the low cell of the quotient */
  method LongDiv(q: Dpuns, y: Uns) returns (r: Unsqr)
    requires y > 0
    ensures r.quot == (q.Val() / y) % CELL && r.rem == q.Val() % y
  {
    hide Dpuns.Val, Or, Pow2;
    var quotient := Dpuns(0, 0);
    var rest := q;
    ghost var k: int, m: nat := 0, 0;
    var mask, sub;
    mask, sub, k := ScaleUp(q, y);
    ZeroVal();
    while mask.lo != 0 || mask.hi != 0
      invariant Dividing(q.Val(), y, quotient.Val(), rest.Val(), mask.Val(), sub.Val(), k, m)
      decreases mask.Val()
    {
      NonZeroVal(mask);
      DivideBit(q.Val(), y, quotient.Val(), rest.Val(), mask.Val(), sub.Val(), k, m);
      if Compare(sub, rest) <= 0 {
        rest := Sub(rest, sub);
        quotient := Or64(quotient, mask);
        m := 2 * m + 1;
      } else {
        m := 2 * m;
      }
      mask, sub, k := Asr(mask), Asr(sub), k - 1;
    }
    ZeroVal();
    assert mask == Dpuns(0, 0);
    NoneLeft(q.Val(), y, quotient.Val(), rest.Val(), sub.Val(), k, m);
    LowCell(quotient);
    LowCell(rest);
    r := Unsqr(quotient.lo, rest.lo);
  }

  lemma ZeroVal()
    ensures Dpuns(0, 0).Val() == 0
  {
  }

  lemma NonZeroVal(x: Dpuns)
    requires x.lo != 0 || x.hi != 0
    ensures x.Val() > 0
  {
  }

  lemma NoneLeft(q0: nat, y: nat, quot: nat, q: nat, sub: nat, k: int, m: nat)
    requires y > 0 && Dividing(q0, y, quot, q, 0, sub, k, m)
    ensures q0 / y == quot && q0 % y == q
  {
    DivUnique(q0, y, quot, q);
  }

  // ----- Number building and number printing -----

  /** m64Mac: u * mul + add, modulo 2^64 */
  method Mac(u: Dpuns, mul: Uns, add: Uns) returns (r: Dpuns)
    ensures r.Val() == (u.Val() * mul + add) % DOUBLE
  {
    var resultLo := LongMul(u.lo, mul);
    var resultHi := LongMul(u.hi, mul);
    var hi: int := Wrap(resultLo.hi + resultHi.lo);
    var lo := Wrap(resultLo.lo + add);
    if lo < resultLo.lo {
      hi := Wrap(hi + 1);
    }
    r := Dpuns(hi, lo);
    MacExact(u, mul, add, resultLo, resultHi, r);
  }

  lemma MacExact(u: Dpuns, mul: Uns, add: Uns, low: Dpuns, high: Dpuns, r: Dpuns)
    requires low.Val() == u.lo * mul && high.Val() == u.hi * mul
    requires r.lo == Wrap(low.lo + add)
    requires var hi := Wrap(low.hi + high.lo); r.hi == if r.lo < low.lo then Wrap(hi + 1) else hi
    ensures r.Val() == (u.Val() * mul + add) % DOUBLE
  {
    var carry := if low.lo + add >= CELL then 1 else 0;
    assert r.lo == low.lo + add - carry * CELL && (r.lo < low.lo <==> carry == 1);
    var over := if low.hi + high.lo + carry >= CELL then 1 else 0;
    assert r.hi == low.hi + high.lo + carry - over * CELL;
    assert u.Val() * mul == (u.hi * mul) * CELL + u.lo * mul;
    assert u.Val() * mul + add == (high.hi + over) * DOUBLE + r.Val();
    DivUnique(u.Val() * mul + add, DOUBLE, high.hi + over, r.Val());
  }

  /** One step of schoolbook division by `b` in base 2^16. */
  lemma DivStep(b: nat, n: nat, q: nat, r: nat, d: nat, q': nat, r': nat)
    requires n == q * b + r && r * 0x1_0000 + d == q' * b + r'
    ensures n * 0x1_0000 + d == (q * 0x1_0000 + q') * b + r'
  {
    assert (q * 0x1_0000 + q') * b == q * b * 0x1_0000 + q' * b;
  }

  /** One of m64UMod's four divisions: the remainder so far with the next 16 bits. */
  method UModStep(rem: Uns, d: Uns, base: Uns) returns (r: Unsqr)
    requires 0 < base < 0x1_0000 && rem < base && d < 0x1_0000
    ensures rem * 0x1_0000 + d == r.quot * base + r.rem && r.rem < base && r.quot < 0x1_0000
  {
    Pow2Values();
    OrDisjoint(16, rem, d);
    var lo: Uns := Or(rem * 0x1_0000, d);
    r := LongDiv(Dpuns(0, lo), base);
    QuotSmall(lo, base, rem, d);
  }

  lemma QuotSmall(v: nat, base: nat, rem: nat, d: nat)
    requires 0 < base < 0x1_0000 && rem < base && d < 0x1_0000 && v == rem * 0x1_0000 + d
    ensures v / base < 0x1_0000 && (v / base) % CELL == v / base && v == v / base * base + v % base
  {
    var q := v / base;
    assert v == q * base + v % base;
    if q >= 0x1_0000 {
      MulMono(0x1_0000, q, base);
      assert false;
    }
  }

  /** m64UMod: quotient written back, remainder returned */
  method UMod(ud: Dpuns, base: Uns) returns (result: Dpuns, rem: Uns)
    requires 0 < base < 0x1_0000
    ensures result.Val() == ud.Val() / base && rem == ud.Val() % base
  {
    hide Or, Pow2;
    var d1, d2, d3, d4 := ud.hi / 0x1_0000, ud.hi % 0x1_0000, ud.lo / 0x1_0000, ud.lo % 0x1_0000;
    var q1 := UModStep(0, d1, base);
    var q2 := UModStep(q1.rem, d2, base);
    var q3 := UModStep(q2.rem, d3, base);
    var q4 := UModStep(q3.rem, d4, base);
    Pow2Values();
    OrDisjoint(16, q1.quot, q2.quot);
    OrDisjoint(16, q3.quot, q4.quot);
    result := Dpuns(Or(q1.quot * 0x1_0000, q2.quot), Or(q3.quot * 0x1_0000, q4.quot));
    rem := q4.rem;
    DivStep(base, d1, q1.quot, q1.rem, d2, q2.quot, q2.rem);
    DivStep(base, ud.hi, result.hi, q2.rem, d3, q3.quot, q3.rem);
    DivStep(base, ud.hi * 0x1_0000 + d3, result.hi * 0x1_0000 + q3.quot, q3.rem, d4, q4.quot, q4.rem);
    DivUnique(ud.Val(), base, result.Val(), rem);
  }

  /** The number a digit string stands for, most significant digit first. */
  function Number(ds: seq<nat>, base: nat): nat {
    if ds == [] then 0 else Number(ds[..|ds| - 1], base) * base + ds[|ds| - 1]
  }

  ghost predicate DigitsOk(ds: seq<nat>, base: nat) {
    forall i :: 0 <= i < |ds| ==> ds[i] < base
  }

  /** The `n` lowest digits of `v`, least significant first. */
  function Digits(v: nat, base: nat, n: nat): (ds: seq<nat>)
    requires base > 0
    ensures |ds| == n
    decreases n
  {
    if n == 0 then [] else [v % base] + Digits(v / base, base, n - 1)
  }

  function Reverse(ds: seq<nat>): (r: seq<nat>)
    ensures |r| == |ds|
  {
    if ds == [] then [] else [ds[|ds| - 1]] + Reverse(ds[..|ds| - 1])
  }

  /** What is left of `v` when its `n` lowest digits are off. */
  function Quotient(v: nat, base: nat, n: nat): nat
    requires base > 0
    decreases n
  {
    if n == 0 then v else Quotient(v / base, base, n - 1)
  }

  /** Taking as many digits off a number as it was built from gives them back in reverse, any
      leading zeros included, and leaves nothing. */
  lemma {:induction false} DigitsOfNumber(ds: seq<nat>, base: nat)
    requires base > 0 && DigitsOk(ds, base)
    ensures Digits(Number(ds, base), base, |ds|) == Reverse(ds)
    ensures Quotient(Number(ds, base), base, |ds|) == 0
  {
    if ds != [] {
      var front, last := ds[..|ds| - 1], ds[|ds| - 1];
      DigitsOfNumber(front, base);
      DivUnique(Number(ds, base), base, Number(front, base), last);
    }
  }

  lemma {:induction false} NumberPrefix(ds: seq<nat>, base: nat, i: nat)
    requires base > 0 && i <= |ds|
    ensures Number(ds[..i], base) <= Number(ds, base)
  {
    if i < |ds| {
      var front := ds[..|ds| - 1];
      NumberPrefix(front, base, i);
      assert front[..i] == ds[..i];
      MulMono(1, base, Number(front, base));
    } else {
      assert ds[..i] == ds;
    }
  }

  /** A character, signed as on the machines the loader is built for. */
  type Char = c: int | -128 <= c < 128

  /** `ch < '0'` in unsigned arithmetic, where negative characters are large. */
  predicate BelowDigits(c: Char) { 0 <= c < 48 }

  /** The digit a character stands for, in unsigned arithmetic: a character between the decimal
      digits and the upper-case letters, or a negative one, becomes very large. */
  function DigitOf(c: Char): Uns
    requires !BelowDigits(c)
  {
    if 48 <= c <= 57 then c - 48
    else
      var lower := if 65 <= c <= 90 then c + 32 else c;
      Wrap(lower - 97 + 10)
  }

  predicate IsDigit(c: Char, base: Uns) {
    !BelowDigits(c) && DigitOf(c) < base
  }

  predicate AllDigitChars(text: seq<Char>, base: Uns) {
    forall i :: 0 <= i < |text| ==> IsDigit(text[i], base)
  }

  function Decoded(text: seq<Char>, base: Uns): (ds: seq<nat>)
    requires AllDigitChars(text, base)
    ensures |ds| == |text| && DigitsOk(ds, base)
  {
    seq(|text|, i requires 0 <= i < |text| => DigitOf(text[i]))
  }

  /** Digits added into `a`, each after a multiplication by the base, in 64 bits. */
  function Accumulated(a: nat, ds: seq<nat>, base: nat): nat {
    if ds == [] then a else (Accumulated(a, ds[..|ds| - 1], base) * base + ds[|ds| - 1]) % DOUBLE
  }

  /** From nothing, that is the number the digits stand for, if it fits. */
  lemma {:induction false} AccumulatedIsNumber(ds: seq<nat>, base: nat)
    requires base > 0 && Number(ds, base) < DOUBLE
    ensures Accumulated(0, ds, base) == Number(ds, base)
  {
    if ds != [] {
      NumberPrefix(ds, base, |ds| - 1);
      AccumulatedIsNumber(ds[..|ds| - 1], base);
    }
  }

  /** toNumber: converts up to the first character that is no digit */
  method ToNumber(ud: Dpuns, text: seq<Char>, base: Uns) returns (accum: Dpuns, k: nat)
    ensures k <= |text| && AllDigitChars(text[..k], base) && (k < |text| ==> !IsDigit(text[k], base))
    ensures accum.Val() == Accumulated(ud.Val(), Decoded(text[..k], base), base)
  {
    hide Dpuns.Val, DigitOf;
    accum, k := ud, 0;
    while k < |text|
      invariant k <= |text| && AllDigitChars(text[..k], base)
      invariant accum.Val() == Accumulated(ud.Val(), Decoded(text[..k], base), base)
    {
      if BelowDigits(text[k]) {
        return;
      }
      var digit := DigitOf(text[k]);
      if digit >= base {
        return;
      }
      DecodedPush(text, base, k);
      accum := Mac(accum, base, digit);
      k := k + 1;
    }
  }

  lemma DecodedPush(text: seq<Char>, base: Uns, k: nat)
    requires k < |text| && AllDigitChars(text[..k], base) && IsDigit(text[k], base)
    ensures AllDigitChars(text[..k + 1], base)
    ensures Decoded(text[..k + 1], base)[..k] == Decoded(text[..k], base)
            && Decoded(text[..k + 1], base)[k] == DigitOf(text[k])
  {
    hide DigitOf;
  }

  /** numberSign, `n` times: one digit off each time */
  method NumberSign(u: Dpuns, base: Uns, n: nat) returns (text: seq<nat>, u': Dpuns)
    requires 2 <= base < 0x1_0000
    ensures text == Digits(u.Val(), base, n) && u'.Val() == Quotient(u.Val(), base, n)
  {
    hide Dpuns.Val;
    u', text := u, [];
    var i := 0;
    while i < n
      invariant 0 <= i <= n
      invariant text + Digits(u'.Val(), base, n - i) == Digits(u.Val(), base, n)
      invariant Quotient(u'.Val(), base, n - i) == Quotient(u.Val(), base, n)
    {
      var rem;
      u', rem := UMod(u', base);
      text := text + [rem];
      i := i + 1;
    }
  }

  /** m64Mac over digits, most significant first */
  method BuildDigits(ds: seq<Uns>, base: Uns) returns (accum: Dpuns)
    ensures accum.Val() == Accumulated(0, ds, base)
  {
    hide Dpuns.Val;
    ZeroVal();
    accum := Dpuns(0, 0);
    var i := 0;
    while i < |ds|
      invariant 0 <= i <= |ds| && accum.Val() == Accumulated(0, ds[..i], base)
    {
      assert ds[..i + 1][..i] == ds[..i];
      accum := Mac(accum, base, ds[i]);
      i := i + 1;
    }
    assert ds[..i] == ds;
  }

  /** Number building and number printing undo each other: for every base and every sequence of
      digits whose value fits, as many digits are printed, in reverse, and nothing is left. */
  method BuildAndPrint(ds: seq<Uns>, base: Uns) returns (out: seq<nat>, left: Dpuns)
    requires 2 <= base < 0x1_0000 && DigitsOk(ds, base) && Number(ds, base) < DOUBLE
    ensures out == Reverse(ds) && left == Dpuns(0, 0)
  {
    hide Dpuns.Val, Number, Digits, Quotient, Reverse, Accumulated;
    var accum := BuildDigits(ds, base);
    out, left := PrintBuilt(accum, |ds|, ds, base);
  }

  /** The same from text. */
  method BuildAndPrintText(text: seq<Char>, base: Uns) returns (out: seq<nat>, left: Dpuns)
    requires 2 <= base < 0x1_0000 && AllDigitChars(text, base) && Number(Decoded(text, base), base) < DOUBLE
    ensures out == Reverse(Decoded(text, base)) && left == Dpuns(0, 0)
  {
    hide Dpuns.Val, DigitOf, Number, Digits, Quotient, Reverse, Accumulated;
    ZeroVal();
    var accum, k := ToNumber(Dpuns(0, 0), text, base);
    assert text[..k] == text;
    out, left := PrintBuilt(accum, |text|, Decoded(text, base), base);
  }

  /** Takes as many digits off a number as it was built from. */
  method PrintBuilt(accum: Dpuns, n: nat, ghost ds: seq<nat>, base: Uns) returns (out: seq<nat>, left: Dpuns)
    requires 2 <= base < 0x1_0000 && DigitsOk(ds, base) && Number(ds, base) < DOUBLE
    requires n == |ds| && accum.Val() == Accumulated(0, ds, base)
    ensures out == Reverse(ds) && left == Dpuns(0, 0)
  {
    hide Dpuns.Val, Number, Digits, Quotient, Reverse, Accumulated;
    AccumulatedIsNumber(ds, base);
    DigitsOfNumber(ds, base);
    out, left := NumberSign(accum, base, n);
    if left.lo != 0 || left.hi != 0 {
      NonZeroVal(left);
      assert false;
    }
  }

  /** The digits of `v`, least significant first, at least one. */
  function AllDigits(v: nat, base: nat): (ds: seq<nat>)
    requires base >= 2
    ensures |ds| >= 1
    decreases v
  {
    if v == 0 then [0]
    else
      DivShrinks(v, base);
      [v % base] + if v / base == 0 then [] else AllDigits(v / base, base)
  }

  lemma DivShrinks(v: nat, base: nat)
    requires v > 0 && base >= 2
    ensures v / base < v
  {
    var q := v / base;
    assert v == q * base + v % base;
    if q >= v {
      MulMono(v, q, base);
      MulMono(2, base, v);
      assert false;
    }
  }

  lemma AllDigitsStep(v: nat, base: nat)
    requires base >= 2
    ensures v / base < v || v == 0
    ensures AllDigits(v, base) == [v % base] + if v / base == 0 then [] else AllDigits(v / base, base)
    ensures v == v / base * base + v % base
  {
    DivMod(v, base);
    if v > 0 {
      DivShrinks(v, base);
    } else {
      DivUnique(0, base, 0, 0);
    }
  }

  /** numberSignS: digits until nothing is left */
  method NumberSignS(u: Dpuns, base: Uns) returns (text: seq<nat>, u': Dpuns)
    requires 2 <= base < 0x1_0000
    ensures text == AllDigits(u.Val(), base) && u' == Dpuns(0, 0)
  {
    hide Dpuns.Val, AllDigits;
    var rem;
    AllDigitsStep(u.Val(), base);
    u', rem := UMod(u, base);
    text := [rem];
    while u'.hi != 0 || u'.lo != 0
      invariant text + (if u'.Val() == 0 then [] else AllDigits(u'.Val(), base)) == AllDigits(u.Val(), base)
      decreases u'.Val()
    {
      NonZeroVal(u');
      AllDigitsStep(u'.Val(), base);
      u', rem := UMod(u', base);
      text := text + [rem];
    }
    ZeroVal();
    assert u' == Dpuns(0, 0);
  }

  lemma {:induction false} NumberPositive(ds: seq<nat>, base: nat)
    requires ds != [] && ds[0] != 0 && base > 0
    ensures Number(ds, base) > 0
  {
    if |ds| > 1 {
      NumberPositive(ds[..|ds| - 1], base);
      MulMono(1, base, Number(ds[..|ds| - 1], base));
    }
  }

  /** Printing a number built from digits, the first of them not a leading zero, gives those
      digits in reverse. */
  lemma {:induction false} PrintsWhatWasBuilt(ds: seq<nat>, base: nat)
    requires base >= 2 && DigitsOk(ds, base) && ds != [] && (|ds| == 1 || ds[0] != 0)
    ensures AllDigits(Number(ds, base), base) == Reverse(ds)
  {
    var front, last := ds[..|ds| - 1], ds[|ds| - 1];
    DivUnique(Number(ds, base), base, Number(front, base), last);
    if front == [] {
      assert Reverse(front) == [];
    } else {
      NumberPositive(front, base);
      PrintsWhatWasBuilt(front, base);
    }
  }

  lemma {:induction false} ReverseCons(d: nat, ds: seq<nat>)
    ensures Reverse([d] + ds) == Reverse(ds) + [d]
  {
    if ds == [] {
      assert [d] + ds == [d];
      assert Reverse([d]) == [d] + Reverse([]);
    } else {
      var front, last := ds[..|ds| - 1], ds[|ds| - 1];
      ReverseCons(d, front);
      assert ([d] + ds)[..|ds|] == [d] + front;
      assert [last] + (Reverse(front) + [d]) == Reverse(ds) + [d];
    }
  }

  lemma NumberAppend(ds: seq<nat>, d: nat, base: nat)
    ensures Number(ds + [d], base) == Number(ds, base) * base + d
  {
    assert (ds + [d])[..|ds|] == ds;
  }

  /** Reading back what was printed gives the number. */
  lemma {:induction false} BuildsWhatWasPrinted(v: nat, base: nat)
    requires base >= 2
    ensures DigitsOk(AllDigits(v, base), base) && Number(Reverse(AllDigits(v, base)), base) == v
    decreases v
  {
    AllDigitsStep(v, base);
    ReverseCons(v % base, []);
    NumberAppend([], v % base, base);
    assert Number([], base) == 0 && Reverse([]) == [];
    hide Number, Reverse, AllDigits;
    if v / base != 0 {
      BuildsWhatWasPrinted(v / base, base);
      ReverseCons(v % base, AllDigits(v / base, base));
      NumberAppend(Reverse(AllDigits(v / base, base)), v % base, base);
    }
  }

  // ----- Characters for digits -----

  /** The characters printed for digits, '0' to '9' and 'A' to 'Z'. */
  const DIGITS: seq<Char> := [
    48, 49, 50, 51, 52, 53, 54, 55, 56, 57,
    65, 66, 67, 68, 69, 70, 71, 72, 73, 74, 75, 76, 77,
    78, 79, 80, 81, 82, 83, 84, 85, 86, 87, 88, 89, 90]

  const MAX_BASE := 36

  /** digit_to_char */
  function DigitToChar(d: nat): (c: Char)
    requires d < MAX_BASE
  {
    DIGITS[d]
  }

  lemma DigitToCharIs(d: nat)
    requires d < MAX_BASE
    ensures DigitToChar(d) == if d < 10 then 48 + d else 55 + d
  {
  }

  /** `c` is the character of digit `d`, a letter in either case. */
  predicate Stands(c: Char, d: nat)
    requires d < MAX_BASE
  {
    c == DigitToChar(d) || (d >= 10 && c == DigitToChar(d) + 32)
  }

  /** The characters between the upper-case letters and the lower-case ones. */
  predicate BetweenCases(c: Char) { 91 <= c <= 96 }

  /** Every digit is read as itself, a letter in either case. */
  lemma DigitIsRead(c: Char, d: nat)
    requires d < MAX_BASE && Stands(c, d)
    ensures !BelowDigits(c) && DigitOf(c) == d
  {
    hide DigitToChar;
    DigitToCharIs(d);
  }

  /** The characters read as digits are the digits of the base and those between the two cases,
      which pass for the digits 4 to 9. */
  lemma DigitChars(c: Char, base: Uns)
    requires base <= MAX_BASE
    ensures IsDigit(c, base) <==>
              (exists d: nat :: d < base && Stands(c, d)) || (BetweenCases(c) && c - 87 < base)
  {
    hide DigitToChar;
    if d: nat :| d < base && Stands(c, d) {
      DigitIsRead(c, d);
    } else if IsDigit(c, base) && !BetweenCases(c) {
      DigitToCharIs(DigitOf(c));
      assert Stands(c, DigitOf(c));
    }
  }

  /** Nothing but the digits of the base is read as one if and only if the base is at most 4. */
  lemma OnlyDigitsRead(base: Uns)
    requires base <= MAX_BASE
    ensures (forall c: Char :: IsDigit(c, base) ==> exists d: nat :: d < base && Stands(c, d)) <==> base <= 4
  {
    forall c: Char
      ensures IsDigit(c, base) <==>
                (exists d: nat :: d < base && Stands(c, d)) || (BetweenCases(c) && c - 87 < base)
    {
      DigitChars(c, base);
    }
    if base > 4 {
      var c: Char := 91;
      assert IsDigit(c, base);
      forall d: nat | d < base ensures !Stands(c, d) {
        DigitToCharIs(d);
      }
    }
  }

  /** The text of printed digits, which the source turns around. */
  function Printed(ds: seq<nat>, base: Uns): (text: seq<Char>)
    requires base <= MAX_BASE && DigitsOk(ds, base)
    ensures |text| == |ds|
  {
    seq(|ds|, i requires 0 <= i < |ds| => DigitToChar(ds[|ds| - 1 - i]))
  }

  lemma {:induction false} ReverseAt(ds: seq<nat>, k: nat)
    requires k < |ds|
    ensures |Reverse(ds)| == |ds| && Reverse(ds)[k] == ds[|ds| - 1 - k]
  {
    if k > 0 {
      ReverseAt(ds[..|ds| - 1], k - 1);
    } else if |ds| > 1 {
      ReverseAt(ds[..|ds| - 1], 0);
    } else {
      assert Reverse(ds[..0]) == [];
    }
  }

  lemma PrintedIsDecoded(ds: seq<nat>, base: Uns)
    requires base <= MAX_BASE && DigitsOk(ds, base)
    ensures AllDigitChars(Printed(ds, base), base) && Decoded(Printed(ds, base), base) == Reverse(ds)
  {
    hide DigitToChar, DigitOf;
    var text := Printed(ds, base);
    forall i | 0 <= i < |ds| ensures !BelowDigits(text[i]) && DigitOf(text[i]) == ds[|ds| - 1 - i] {
      DigitIsRead(text[i], ds[|ds| - 1 - i]);
    }
    assert Reverse([]) == [];
    forall k: nat | k < |ds| ensures |Reverse(ds)| == |ds| && Reverse(ds)[k] == ds[|ds| - 1 - k] {
      ReverseAt(ds, k);
    }
  }

  /** Whatever number is printed, in whatever base, its text reads back as that number, to the
      last character. */
  method PrintAndRead(u: Dpuns, base: Uns) returns (text: seq<Char>, accum: Dpuns)
    requires 2 <= base <= MAX_BASE
    ensures AllDigitChars(text, base) && Number(Decoded(text, base), base) == u.Val() == accum.Val()
    ensures forall i :: 0 <= i < |text| ==> exists d :: 0 <= d < base && text[i] == DigitToChar(d)
  {
    assert u.Val() < DOUBLE;
    hide Dpuns.Val, DigitOf, Number, Reverse, Accumulated, AllDigits, DigitToChar;
    var digits, none := NumberSignS(u, base);
    BuildsWhatWasPrinted(u.Val(), base);
    text := Printed(digits, base);
    PrintedIsDecoded(digits, base);
    ZeroVal();
    AccumulatedIsNumber(Decoded(text, base), base);
    var k;
    accum, k := ToNumber(Dpuns(0, 0), text, base);
    assert text[..k] == text;
  }

  // ----- Signed operations -----

  const MOST_NEGATIVE: int := -0x8000_0000_0000_0000

  /** m64Negate: exact but for the most negative number, which it leaves as it is */
  function Negate(x: Dpint): (r: Dpint)
    ensures r.Val() == if x.Val() == MOST_NEGATIVE then x.Val() else -x.Val()
  {
    var hi: int := -1 - x.hi;
    var lo: int := CELL - 1 - x.lo;
    if lo == CELL - 1 then Dpint(if hi == HI_BIT - 1 then -HI_BIT else hi + 1, 0) else Dpint(hi, lo + 1)
  }

  /** m64CastIU */
  function CastIU(x: Dpint): (r: Dpuns)
    ensures r.Val() == if x.Val() < 0 then x.Val() + DOUBLE else x.Val()
  {
    Dpuns(if x.hi < 0 then x.hi + CELL else x.hi, x.lo)
  }

  /** m64CastUI */
  function CastUI(x: Dpuns): (r: Dpint)
    ensures x.Val() < -MOST_NEGATIVE ==> r.Val() == x.Val()
  {
    Dpint(ToInt(x.hi), x.lo)
  }

  /** The magnitude as the source computes it: negate if negative, then read as unsigned. */
  function Magnitude(x: Dpint): (r: Dpuns)
    ensures r.Val() == if x.Val() < 0 then -x.Val() else x.Val()
  {
    CastIU(if x.hi < 0 then Negate(x) else x)
  }

  function CellMagnitude(x: Int): (r: Uns)
    ensures r == if x < 0 then 0 - x else x
  {
    var y: int := if x < 0 then ToInt(0 - x) else x;
    if y < 0 then y + CELL else y
  }

  /** m64MulI: the exact signed product */
  method MulI(x: Int, y: Int) returns (r: Dpint)
    ensures r.Val() == x * y
  {
    var ax, ay := CellMagnitude(x), CellMagnitude(y);
    var prod := LongMul(ax, ay);
    MulMono(ax, HI_BIT, ay);
    MulMono(ay, HI_BIT, HI_BIT);
    Signs(x, y);
    r := if (x < 0) == (y < 0) then CastUI(prod) else Negate(CastUI(prod));
  }

  lemma Signs(x: int, y: int)
    ensures var ax, ay := if x < 0 then -x else x, if y < 0 then -y else y;
            x * y == if (x < 0) == (y < 0) then ax * ay else -(ax * ay)
  {
  }

  lemma {:induction false} ToIntShift(x: int, k: int)
    ensures ToInt(x + k * CELL) == ToInt(x)
  {
    var q, r := x / CELL, x % CELL;
    assert x == q * CELL + r;
    assert x + k * CELL == (q + k) * CELL + r;
    assert (x + k * CELL) % CELL == r;
  }

  lemma ToIntIs(x: int)
    ensures exists k :: ToInt(x) == x + k * CELL
  {
    var q, r := x / CELL, x % CELL;
    assert x == q * CELL + r;
    assert ToInt(x) == x + (-q) * CELL || ToInt(x) == x + (-q - 1) * CELL;
  }

  /** Cell arithmetic on a cell of `x` is cell arithmetic on `x`. */
  lemma ToIntOps(x: int)
    ensures ToInt(ToInt(x)) == ToInt(x) && ToInt(-ToInt(x)) == ToInt(-x) && ToInt(ToInt(x) - 1) == ToInt(x - 1)
    ensures ToInt(x % CELL) == ToInt(x)
  {
    ToIntIs(x);
    var k :| ToInt(x) == x + k * CELL;
    ToIntShift(x, k);
    ToIntShift(-x, -k);
    ToIntShift(x - 1, k);
    assert -ToInt(x) == -x + (-k) * CELL && ToInt(x) - 1 == (x - 1) + k * CELL;
  }

  /** Floored quotient and remainder: section 3.2.2.1 of ANS X3.215-1994. */
  ghost predicate Floored(num: int, den: int, quot: int, rem: int) {
    num == quot * den + rem && (if den > 0 then 0 <= rem < den else den < rem <= 0)
  }

  /** Symmetric ones: rounded toward zero, the remainder with the sign of the dividend. */
  ghost predicate Symmetric(num: int, den: int, quot: int, rem: int) {
    && num == quot * den + rem
    && (if den > 0 then -den < rem < den else den < rem < -den)
    && (if num < 0 then rem <= 0 else rem >= 0)
  }

  /** The unsigned division both signed ones start from. */
  method DivMagnitudes(num: Dpint, den: Int) returns (r: Unsqr, ghost q: int)
    requires den != 0 && den != -0x8000_0000
    ensures 0 <= q && r.quot == q % CELL
    ensures var m, d := Abs(num.Val()), Abs(den); m == q * d + r.rem && r.rem < d
  {
    hide Dpuns.Val, Dpint.Val, Magnitude, CellMagnitude;
    var d: Uns := CellMagnitude(den);
    var m := Magnitude(num);
    r := LongDiv(m, d);
    q := m.Val() / d;
    DivMod(m.Val(), d);
  }

  function Abs(x: int): int { if x < 0 then -x else x }

  /** m64FlooredDivI.  The remainder is exact; the quotient is the exact one, as far as a cell
      can hold it. */
  method FlooredDivI(num: Dpint, den: Int) returns (qr: Intqr)
    requires den != 0 && den != -0x8000_0000
    ensures exists quot :: Floored(num.Val(), den, quot, qr.rem) && qr.quot == ToInt(quot)
    ensures forall q, r :: Floored(num.Val(), den, q, r) && -HI_BIT <= q < HI_BIT ==> qr.quot == q && qr.rem == r
  {
    hide ToInt, Floored;
    ghost var q, quot;
    var uqr;
    uqr, q := DivMagnitudes(num, den);
    ToIntOps(q);
    ToIntOps(-q);
    FlooredCases(num.Val(), den, q, uqr.rem);
    IsNegative(num);
    var qq: int, r: int := ToInt(uqr.quot), uqr.rem;
    quot := q;
    if (num.hi < 0) != (den < 0) {
      qq := ToInt(-qq);
      quot := -q;
      if r != 0 {
        qq := ToInt(qq - 1);
        quot := -q - 1;
        r := Abs(den) - r;
      }
    }
    if den < 0 {
      r := -r;
    }
    qr := Intqr(qq, r);
    forall q', r' | Floored(num.Val(), den, q', r') && -HI_BIT <= q' < HI_BIT ensures qr.quot == q' && qr.rem == r' {
      FlooredUnique(num.Val(), den, quot, qr.rem, q', r');
      ToIntFits(q');
    }
  }

  /** m64IsNegative */
  lemma IsNegative(x: Dpint)
    ensures x.hi < 0 <==> x.Val() < 0
  {
  }

  lemma FlooredCases(num: int, den: int, q: int, r: int)
    requires den != 0 && 0 <= q && 0 <= r < Abs(den) && Abs(num) == q * Abs(den) + r
    ensures (num < 0) == (den < 0) ==> Floored(num, den, q, if den < 0 then -r else r)
    ensures (num < 0) != (den < 0) && r == 0 ==> Floored(num, den, -q, 0)
    ensures (num < 0) != (den < 0) && r != 0 ==>
              Floored(num, den, -q - 1, if den < 0 then -(Abs(den) - r) else Abs(den) - r)
  {
    var d := Abs(den);
    assert (-q) * d == -(q * d) && (-q - 1) * d == -(q * d) - d;
    if den < 0 {
      assert q * den == -(q * d) && (-q) * den == q * d && (-q - 1) * den == q * d + d;
    }
  }

  /** m64SymmetricDivI */
  method SymmetricDivI(num: Dpint, den: Int) returns (qr: Intqr)
    requires den != 0 && den != -0x8000_0000
    ensures exists quot :: Symmetric(num.Val(), den, quot, qr.rem) && qr.quot == ToInt(quot)
    ensures forall q, r :: Symmetric(num.Val(), den, q, r) && -HI_BIT <= q < HI_BIT ==> qr.quot == q && qr.rem == r
  {
    hide ToInt, Symmetric;
    ghost var q, quot;
    var uqr;
    uqr, q := DivMagnitudes(num, den);
    ToIntOps(q);
    SymmetricCases(num.Val(), den, q, uqr.rem);
    IsNegative(num);
    var qq: int, r: int := ToInt(uqr.quot), uqr.rem;
    quot := q;
    if num.hi < 0 {
      r := -r;
    }
    if (num.hi < 0) != (den < 0) {
      qq := ToInt(-qq);
      quot := -q;
    }
    qr := Intqr(qq, r);
    forall q', r' | Symmetric(num.Val(), den, q', r') && -HI_BIT <= q' < HI_BIT ensures qr.quot == q' && qr.rem == r' {
      SymmetricUnique(num.Val(), den, quot, qr.rem, q', r');
      ToIntFits(q');
    }
  }

  lemma SymmetricCases(num: int, den: int, q: int, r: int)
    requires den != 0 && 0 <= q && 0 <= r < Abs(den) && Abs(num) == q * Abs(den) + r
    ensures Symmetric(num, den, if (num < 0) == (den < 0) then q else -q, if num < 0 then -r else r)
  {
    var d := Abs(den);
    assert (-q) * d == -(q * d);
    if den < 0 {
      assert q * den == -(q * d) && (-q) * den == q * d;
    }
  }

  /** A quotient that fits a cell comes back as it is. */
  lemma ToIntFits(x: int)
    ensures ToInt(x) == x <==> -HI_BIT <= x < HI_BIT
  {
  }

  /** Multiples of `den` that lie less than `den` apart are the same. */
  lemma SameMultiple(den: int, q: int, q': int)
    requires den != 0 && -Abs(den) < (q - q') * den < Abs(den)
    ensures q == q'
  {
    var d := Abs(den);
    assert den < 0 ==> (q - q') * den == (q' - q) * d;
    assert (q' - q) * d == -((q - q') * d);
    if q > q' {
      MulGrows(q - q', d);
    } else if q < q' {
      MulGrows(q' - q, d);
    }
  }

  /** The definition of floored division leaves no choice. */
  lemma FlooredUnique(num: int, den: int, q: int, r: int, q': int, r': int)
    requires den != 0 && Floored(num, den, q, r) && Floored(num, den, q', r')
    ensures q == q' && r == r'
  {
    assert (q - q') * den == r' - r;
    SameMultiple(den, q, q');
  }

  /** Nor does that of symmetric division. */
  lemma SymmetricUnique(num: int, den: int, q: int, r: int, q': int, r': int)
    requires den != 0 && Symmetric(num, den, q, r) && Symmetric(num, den, q', r')
    ensures q == q' && r == r'
  {
    assert (q - q') * den == r' - r;
    SameMultiple(den, q, q');
  }
}
