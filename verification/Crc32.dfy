/**
 The checksum of boot/common/crc32.c: a byte-at-a-time loop over a table of 256
 words, against the bit-serial code of section 8 of RFC 1952 (register preset to
 ones, complemented at the end).
 */
module Fold {

  /** Feeds `s` into the register `r`, one element at a time. */
  function Feed<R, B>(step: (R, B) -> R, r: R, s: seq<B>): R
    decreases |s|
  {
    if s == [] then r else Feed(step, step(r, s[0]), s[1..])
  }

  ghost predicate KeepsRegister<R(!new), B(!new)>(step: (R, B) -> R) {
    forall r, r', b :: step(r, b) == step(r', b) ==> r == r'
  }

  ghost predicate KeepsByte<R(!new), B(!new)>(step: (R, B) -> R) {
    forall r, b, b' :: step(r, b) == step(r, b') ==> b == b'
  }

  lemma {:induction false} FeedConcat<R, B>(step: (R, B) -> R, r: R, s: seq<B>, t: seq<B>)
    ensures Feed(step, r, s + t) == Feed(step, Feed(step, r, s), t)
    decreases |s|
  {
    if s == [] {
      assert s + t == t;
    } else {
      assert (s + t)[1..] == s[1..] + t;
      FeedConcat(step, step(r, s[0]), s[1..], t);
    }
  }

  lemma {:induction false} FeedInjective<R(!new), B(!new)>(step: (R, B) -> R, r: R, r': R, s: seq<B>)
    requires KeepsRegister(step) && Feed(step, r, s) == Feed(step, r', s)
    ensures r == r'
    decreases |s|
  {
    if s == [] {
    } else {
      FeedInjective(step, step(r, s[0]), step(r', s[0]), s[1..]);
    }
  }

  /** A step that forgets neither register nor byte shows every change of one byte. */
  lemma OneChangeShows<R(!new), B(!new)>(step: (R, B) -> R, r: R, pre: seq<B>, b: B, b': B, post: seq<B>)
    requires KeepsRegister(step) && KeepsByte(step)
    requires Feed(step, r, pre + [b] + post) == Feed(step, r, pre + [b'] + post)
    ensures b == b'
  {
    FeedConcat(step, r, pre + [b], post);
    FeedConcat(step, r, pre + [b'], post);
    FeedInjective(step, Feed(step, r, pre + [b]), Feed(step, r, pre + [b']), post);
    FeedConcat(step, r, pre, [b]);
    FeedConcat(step, r, pre, [b']);
    var q := Feed(step, r, pre);
    assert Feed(step, q, [b]) == step(q, b);
    assert Feed(step, q, [b']) == step(q, b');
  }

  lemma {:induction false} FeedCongruent<R(!new), B(!new)>(step: (R, B) -> R, step': (R, B) -> R, r: R, s: seq<B>)
    requires forall r, b :: step(r, b) == step'(r, b)
    ensures Feed(step, r, s) == Feed(step', r, s)
    decreases |s|
  {
    if s == [] {
    } else {
      FeedCongruent(step, step', step(r, s[0]), s[1..]);
    }
  }
}

module Crc32 {
  import opened CrcRegister
  import opened Crc32Table
  import opened Fold

  const ONES: bv32 := 0xffff_ffff

  /** The byte meets the low end of the register. */
  function Absorb(crc: bv32, b: bv8): bv32 {
    crc ^ (b as bv32)
  }

  /** Bit-serial: absorb the byte, then eight shifts. */
  function FeedByte(crc: bv32, b: bv8): bv32 {
    Shifts(Absorb(crc, b), 8)
  }

  /** The CRC of a byte string, bit by bit. */
  function Crc(s: seq<bv8>): bv32 {
    Feed(FeedByte, ONES, s) ^ ONES
  }

  // ----- Table lookup computes the bit-serial code -----

  /** What the source's loop body makes of the register. */
  function Lookup(crc: bv32, b: bv8): bv32 {
    Table((Absorb(crc, b) & 0xff) as bv8) ^ (crc >> 8)
  }

  lemma LowByteIndex(crc: bv32, b: bv8)
    ensures ((Absorb(crc, b) & 0xff) as bv8) as bv32 == Absorb(crc, b) & 0xff
    ensures Absorb(crc, b) >> 8 == crc >> 8
  {
  }

  lemma LookupIsShift8(crc: bv32, b: bv8)
    ensures IsXor(Shift8(Absorb(crc, b)), Table((Absorb(crc, b) & 0xff) as bv8), crc >> 8)
  {
    Shift8Splits(Absorb(crc, b));
    LowByteIndex(crc, b);
    TableShifts((Absorb(crc, b) & 0xff) as bv8);
  }

  lemma FeedByteIsLookup(crc: bv32, b: bv8)
    ensures IsXor(FeedByte(crc, b), Table((Absorb(crc, b) & 0xff) as bv8), crc >> 8)
  {
    LookupIsShift8(crc, b);
    Shift8IsShifts(Absorb(crc, b));
  }

  lemma LookupIsFeedByte(crc: bv32, b: bv8)
    ensures Lookup(crc, b) == FeedByte(crc, b)
  {
    FeedByteIsLookup(crc, b);
  }

  /** crc32 */
  method Compute(buf: seq<bv8>) returns (r: bv32)
    ensures r == Crc(buf)
  {
    var crc := ONES;
    var i := 0;
    while i < |buf|
      invariant 0 <= i <= |buf|
      invariant Feed(Lookup, crc, buf[i..]) == Feed(Lookup, ONES, buf)
    {
      assert buf[i..][1..] == buf[i + 1..];
      crc := Lookup(crc, buf[i]);
      i := i + 1;
    }
    forall crc, b ensures Lookup(crc, b) == FeedByte(crc, b) {
      LookupIsFeedByte(crc, b);
    }
    FeedCongruent(Lookup, FeedByte, ONES, buf);
    r := crc ^ ONES;
  }

  // ----- A change of one byte always shows -----

  lemma XorInjective(x: bv32, y: bv32, b: bv32)
    requires x ^ b == y ^ b
    ensures x == y
  {
  }

  lemma AbsorbKeepsRegister(x: bv32, y: bv32, b: bv8)
    requires Absorb(x, b) == Absorb(y, b)
    ensures x == y
  {
  }

  lemma AbsorbKeepsByte(x: bv32, b: bv8, c: bv8)
    requires Absorb(x, b) == Absorb(x, c)
    ensures b == c
  {
  }

  lemma FeedByteKeepsRegister(x: bv32, y: bv32, b: bv8)
    requires FeedByte(x, b) == FeedByte(y, b)
    ensures x == y
  {
    ShiftsInjective(Absorb(x, b), Absorb(y, b), 8);
    AbsorbKeepsRegister(x, y, b);
  }

  lemma FeedByteKeepsByte(x: bv32, b: bv8, c: bv8)
    requires FeedByte(x, b) == FeedByte(x, c)
    ensures b == c
  {
    ShiftsInjective(Absorb(x, b), Absorb(x, c), 8);
    AbsorbKeepsByte(x, b, c);
  }

  lemma FeedByteForgetsNothing()
    ensures KeepsRegister(FeedByte) && KeepsByte(FeedByte)
  {
    forall r, r', b | FeedByte(r, b) == FeedByte(r', b) ensures r == r' {
      FeedByteKeepsRegister(r, r', b);
    }
    forall r, b, b' | FeedByte(r, b) == FeedByte(r, b') ensures b == b' {
      FeedByteKeepsByte(r, b, b');
    }
  }

  /** Strings of equal length that differ in exactly one byte have different checksums. */
  lemma OneByteChangesCrc(pre: seq<bv8>, b: bv8, c: bv8, post: seq<bv8>)
    requires Crc(pre + [b] + post) == Crc(pre + [c] + post)
    ensures b == c
  {
    XorInjective(Feed(FeedByte, ONES, pre + [b] + post), Feed(FeedByte, ONES, pre + [c] + post), ONES);
    FeedByteForgetsNothing();
    OneChangeShows(FeedByte, ONES, pre, b, c, post);
  }

  // ----- A known value -----

  /** The digits 1 to 9 in ASCII, over which check values are given. */
  const CHECK: seq<bv8> := [0x31, 0x32, 0x33, 0x34, 0x35, 0x36, 0x37, 0x38, 0x39]

  /** The register before each of them and at the end. */
  const REGISTERS: seq<bv32> := [
    0xffff_ffff, 0x7c23_1048, 0xb0ac_bb32, 0x77b7_9c2d, 0x641c_1f5c,
    0x340a_c5e3, 0xf68d_2c9e, 0xaffc_9660, 0x651f_2550, 0x340b_c6d9]

  lemma CheckStep(k: nat)
    requires k < 9
    ensures FeedByte(REGISTERS[k], CHECK[k]) == REGISTERS[k + 1]
  {
    Shift8IsShifts(Absorb(REGISTERS[k], CHECK[k]));
    assert Shift8(REGISTERS[k] ^ (CHECK[k] as bv32)) == REGISTERS[k + 1];
  }

  lemma {:induction false} CheckRegister(k: nat)
    requires k <= 9
    ensures Feed(FeedByte, ONES, CHECK[..k]) == REGISTERS[k]
  {
    hide FeedByte;
    if k > 0 {
      CheckRegister(k - 1);
      CheckStep(k - 1);
      var b := CHECK[k - 1];
      assert CHECK[..k] == CHECK[..k - 1] + [b];
      FeedConcat(FeedByte, ONES, CHECK[..k - 1], [b]);
      assert Feed(FeedByte, REGISTERS[k - 1], [b]) == Feed(FeedByte, FeedByte(REGISTERS[k - 1], b), []);
    }
  }

  /** The check value of this CRC, and that of no bytes. */
  lemma CheckValue()
    ensures Crc(CHECK) == 0xcbf4_3926 && Crc([]) == 0
  {
    hide FeedByte;
    CheckRegister(9);
    assert CHECK[..9] == CHECK;
  }
}
