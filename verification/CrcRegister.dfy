/**
 The shift register behind the checksum of boot/common/crc32.c: one bit at a
 time, reflected polynomial 0xedb88320 (section 8 of RFC 1952).
 */
module CrcRegister {

  const POLY: bv32 := 0xedb88320

  /** One shift of the register. */
  function Shift1(x: bv32): bv32 {
    if x & 1 == 1 then (x >> 1) ^ POLY else x >> 1
  }

  function Shift8(x: bv32): bv32 {
    Shift1(Shift1(Shift1(Shift1(Shift1(Shift1(Shift1(Shift1(x))))))))
  }

  /** `n` shifts of the register. */
  function Shifts(x: bv32, n: nat): bv32
    decreases n
  {
    if n == 0 then x else Shifts(Shift1(x), n - 1)
  }

  /** `n` shifts of a register that never feeds back. */
  function Drops(x: bv32, n: nat): bv32
    decreases n
  {
    if n == 0 then x else Drops(x >> 1, n - 1)
  }

  predicate IsXor(z: bv32, x: bv32, y: bv32) {
    z == x ^ y
  }

  /** The low `n` bits of `x` are clear. */
  predicate LowClear(x: bv32, n: nat)
    decreases n
  {
    n == 0 || (x & 1 == 0 && LowClear(x >> 1, n - 1))
  }

  lemma Shift8IsShifts(x: bv32)
    ensures Shift8(x) == Shifts(x, 8)
  {
    var x4 := Shift1(Shift1(Shift1(Shift1(x))));
    assert Shifts(x, 8) == Shifts(Shift1(Shift1(x)), 6) == Shifts(x4, 4);
    assert Shifts(x4, 4) == Shifts(Shift1(Shift1(x4)), 2);
  }

  // The operations of a shift under names of their own, so that the next lemmas can leave
  // the bits out of sight.

  predicate Low(x: bv32) { x & 1 == 1 }
  function Half(x: bv32): bv32 { x >> 1 }
  function Feedback(x: bv32): bv32 { x ^ POLY }

  lemma Shift1Is(x: bv32)
    ensures Shift1(x) == if Low(x) then Feedback(Half(x)) else Half(x)
  {
  }

  lemma HalfIs(x: bv32)
    ensures Half(x) == x >> 1
  {
  }

  lemma SameLow(z: bv32, x: bv32, y: bv32)
    requires IsXor(z, x, y) && LowClear(y, 1)
    ensures Low(z) == Low(x)
  {
  }

  lemma HalfOfXor(z: bv32, x: bv32, y: bv32)
    requires IsXor(z, x, y)
    ensures IsXor(Half(z), Half(x), Half(y))
  {
  }

  lemma FeedbackOfXor(z: bv32, x: bv32, y: bv32)
    requires IsXor(z, x, y)
    ensures IsXor(Feedback(z), Feedback(x), y)
  {
  }

  lemma Shift1OfXor(z: bv32, x: bv32, y: bv32)
    requires IsXor(z, x, y) && LowClear(y, 1)
    ensures IsXor(Shift1(z), Shift1(x), y >> 1)
  {
    hide Shift1, Low, Half, Feedback, IsXor, LowClear;
    Shift1Is(z);
    Shift1Is(x);
    HalfIs(y);
    SameLow(z, x, y);
    HalfOfXor(z, x, y);
    FeedbackOfXor(Half(z), Half(x), Half(y));
  }

  /** Bits that are not yet due to leave the register shift along unchanged. */
  lemma {:induction false} ShiftsOfXor(z: bv32, x: bv32, y: bv32, n: nat)
    requires IsXor(z, x, y) && LowClear(y, n)
    ensures IsXor(Shifts(z, n), Shifts(x, n), Drops(y, n))
    decreases n
  {
    if n == 0 {
    } else {
      Shift1OfXor(z, x, y);
      ShiftsOfXor(Shift1(z), Shift1(x), y >> 1, n - 1);
    }
  }

  lemma Drops8(y: bv32)
    ensures Drops(y, 8) == y >> 8
  {
    assert Drops(y, 8) == Drops(y >> 1, 7);
    assert Drops(y, 8) == Drops(y >> 2, 6);
    assert Drops(y, 8) == Drops(y >> 3, 5);
    assert Drops(y, 8) == Drops(y >> 4, 4);
    assert Drops(y, 8) == Drops(y >> 5, 3);
    assert Drops(y, 8) == Drops(y >> 6, 2);
    assert Drops(y, 8) == Drops(y >> 7, 1);
    assert Drops(y, 8) == Drops(y >> 8, 0);
  }

  lemma LowClear8(y: bv32)
    requires y & 0xff == 0
    ensures LowClear(y, 8)
  {
    assert LowClear(y >> 7, 1);
    assert LowClear(y >> 6, 2);
    assert LowClear(y >> 5, 3);
    assert LowClear(y >> 4, 4);
    assert LowClear(y >> 3, 5);
    assert LowClear(y >> 2, 6);
    assert LowClear(y >> 1, 7);
  }

  lemma Parts(z: bv32)
    ensures IsXor(z, z & 0xff, z & 0xffff_ff00)
    ensures (z & 0xffff_ff00) & 0xff == 0 && (z & 0xffff_ff00) >> 8 == z >> 8
  {
  }

  /** The step behind table lookup: only the low byte feeds back. */
  lemma Shift8Splits(z: bv32)
    ensures IsXor(Shift8(z), Shift8(z & 0xff), z >> 8)
  {
    var x, y := z & 0xff, z & 0xffff_ff00;
    Parts(z);
    Drops8(y);
    LowClear8(y);
    Shift8IsShifts(z);
    Shift8IsShifts(x);
    ShiftsOfXor(z, x, y, 8);
  }

  lemma Shift1Injective(x: bv32, y: bv32)
    requires Shift1(x) == Shift1(y)
    ensures x == y
  {
  }

  /** The register loses nothing: equal after `n` shifts, equal before. */
  lemma {:induction false} ShiftsInjective(x: bv32, y: bv32, n: nat)
    requires Shifts(x, n) == Shifts(y, n)
    ensures x == y
    decreases n
  {
    if n == 0 {
    } else {
      ShiftsInjective(Shift1(x), Shift1(y), n - 1);
      Shift1Injective(x, y);
    }
  }
}
