/**
 Loading program segments: the loop over PT_LOAD headers in loadimage of
 boot/common/load_elf.c.
 */
module ElfSegments {
  import opened Arith
  import opened ElfImage

  datatype Phdr = Phdr(load: bool, offset: nat, vaddr: nat, filesz: nat, memsz: nat)

  /** What the loop works from: the headers, the file, how much of it is in the first page,
      and the distance between linked and load addresses. */
  datatype Input = Input(ph: seq<Phdr>, file: Bytes, firstlen: nat, off: int) {
    /** The first page is the start of the file, and load addresses do not wrap. */
    ghost predicate Valid() {
      firstlen <= |file| && forall i :: 0 <= i < |ph| ==> 0 <= ph[i].vaddr + off
    }

    function Base(p: Phdr): int { p.vaddr + off }

    /** The bytes the first page offers, whether or not they belong to the segment. */
    function FirstCopy(p: Phdr): nat {
      if firstlen > p.offset then firstlen - p.offset else 0
    }

    /** How far from its base a segment writes. */
    function Extent(p: Phdr): (n: nat)
      ensures n >= p.filesz && n >= p.memsz && n >= FirstCopy(p)
    {
      var n := if p.filesz > FirstCopy(p) then p.filesz else FirstCopy(p);
      if p.memsz > n then p.memsz else n
    }

    predicate InFile(p: Phdr) {
      p.filesz == 0 || p.offset + p.filesz <= |file|
    }

    /** Address `a`, holding `v` before, once segment `p` has been loaded. */
    function ByteAfter(p: Phdr, a: nat, v: bv8): bv8
      requires firstlen <= |file| && (p.load ==> InFile(p))
    {
      var d := a - Base(p);
      if !p.load then v
      else if p.filesz <= d < p.memsz then 0
      else if 0 <= d < p.filesz || 0 <= d < FirstCopy(p) then file[p.offset + d]
      else v
    }

    /** The same after the first `n` headers. */
    ghost function Final(n: nat, a: nat, v: bv8): bv8
      requires n <= |ph| && firstlen <= |file| && Readable(n)
    {
      if n == 0 then v
      else assert Readable(n - 1) && (ph[n - 1].load ==> InFile(ph[n - 1])); ByteAfter(ph[n - 1], a, Final(n - 1, a, v))
    }

    /** Each of the first `n` segments lies in the file. */
    ghost predicate Readable(n: nat)
      requires n <= |ph|
    {
      forall i :: 0 <= i < n && ph[i].load ==> InFile(ph[i])
    }

    predicate HoldsAt(p: Phdr, a: nat, v: bv8)
      requires Base(p) <= a
    {
      var d := a - Base(p);
      if d < p.filesz then p.offset + d < |file| && v == file[p.offset + d] else v == 0
    }

    /** Memory once all segments have been loaded over `m0`. */
    ghost predicate Loaded(m0: nat -> bv8, mem: nat -> bv8)
      requires firstlen <= |file| && Readable(|ph|)
    {
      forall a: nat :: mem(a) == Final(|ph|, a, m0(a))
    }

    /** The segment as chapter 5 of the System V gABI defines it: its file bytes, then zeros. */
    ghost predicate Holds(p: Phdr, mem: nat -> bv8)
      requires Base(p) >= 0
    {
      forall a: nat :: Base(p) <= a < Base(p) + p.memsz ==> HoldsAt(p, a, mem(a))
    }

    /** The same by the fields of the header: at `vaddr` and the offset between linked and load
        addresses, `filesz` bytes of the file from `offset` on and zeros up to `memsz`. */
    ghost predicate AtItsPlace(p: Phdr, mem: nat -> bv8) {
      forall a: nat :: p.vaddr + off <= a < p.vaddr + off + p.memsz ==>
        if a < p.vaddr + off + p.filesz
        then p.offset + (a - (p.vaddr + off)) < |file| && mem(a) == file[p.offset + (a - (p.vaddr + off))]
        else mem(a) == 0
    }

    lemma HoldsAtItsPlace(p: Phdr, mem: nat -> bv8)
      requires Base(p) >= 0
      ensures Base(p) == p.vaddr + off && (Holds(p, mem) <==> AtItsPlace(p, mem))
    {
      if AtItsPlace(p, mem) {
        forall a: nat | Base(p) <= a < Base(p) + p.memsz ensures HoldsAt(p, a, mem(a)) {
        }
      } else {
        var a: nat :| p.vaddr + off <= a < p.vaddr + off + p.memsz && !HoldsAt(p, a, mem(a));
      }
    }

    /** Segments in ascending, non-overlapping address order. */
    ghost predicate Ascending() {
      && (forall i :: 0 <= i < |ph| && ph[i].load ==> ph[i].filesz <= ph[i].memsz)
      && (forall i, j :: 0 <= i < j < |ph| && ph[i].load && ph[j].load ==> ph[i].vaddr + ph[i].memsz <= ph[j].vaddr)
    }

    // ----- firstaddr and lastaddr -----

    /** The lowest address; 0 stands for none, so a segment at 0 is forgotten by the next. */
    ghost function First(n: nat): int
      requires n <= |ph|
    {
      if n == 0 then 0
      else
        var f, p := First(n - 1), ph[n - 1];
        if p.load && (f == 0 || f > Base(p)) then Base(p) else f
    }

    ghost function Last(n: nat): int
      requires n <= |ph|
    {
      if n == 0 then 0
      else
        var l, p := Last(n - 1), ph[n - 1];
        if p.load && (l == 0 || l < Base(p) + p.memsz) then Base(p) + p.memsz else l
    }
  }

  // ----- Which segments survive -----

  /** What a byte of memory was taken from. */
  datatype Source = Zero | FromFile(at: nat)

  /** Loading `p` writes address `a`. */
  predicate Writes(x: Input, p: Phdr, a: nat) {
    p.load && x.Base(p) <= a < x.Base(p) + x.Extent(p)
  }

  /** What loading `p` writes there.  Only the layout decides, not the file's contents. */
  function SourceOf(x: Input, p: Phdr, a: nat): Source
    requires Writes(x, p, a)
  {
    var d := a - x.Base(p);
    if p.filesz <= d < p.memsz then Zero else FromFile(p.offset + d)
  }

  /** The last of segments [k, n) to write address `a`, which segment `k` writes. */
  function LastWriter(x: Input, k: nat, n: nat, a: nat): (j: nat)
    requires k < n <= |x.ph| && Writes(x, x.ph[k], a)
    ensures k <= j < n && Writes(x, x.ph[j], a)
  {
    if n == k + 1 then k
    else if Writes(x, x.ph[n - 1], a) then n - 1
    else LastWriter(x, k, n - 1, a)
  }

  predicate IsFrom(file: Bytes, s: Source, v: bv8) {
    if s.Zero? then v == 0 else s.at < |file| && v == file[s.at]
  }

  lemma {:induction false} FinalIsLastWriters(x: Input, k: nat, n: nat, a: nat, v: bv8)
    requires k < n <= |x.ph| && x.firstlen <= |x.file| && x.Readable(n) && Writes(x, x.ph[k], a)
    ensures IsFrom(x.file, SourceOf(x, x.ph[LastWriter(x, k, n, a)], a), x.Final(n, a, v))
  {
    if n > k + 1 && !Writes(x, x.ph[n - 1], a) {
      FinalIsLastWriters(x, k, n - 1, a, v);
    }
  }

  /** Each address of segment `k` is last written with what segment `k` has there. */
  ghost predicate Survives(x: Input, k: nat)
    requires k < |x.ph| && x.ph[k].load
  {
    var p := x.ph[k];
    forall a: nat :: x.Base(p) <= a < x.Base(p) + p.memsz ==>
                       SourceOf(x, x.ph[LastWriter(x, k, |x.ph|, a)], a) == SourceOf(x, p, a)
  }

  /** The layout of `x` with another file of the same length. */
  ghost predicate SameLength(x: Input, file: Bytes) {
    |file| == |x.file|
  }

  lemma SurvivorHolds(x: Input, k: nat, m0: nat -> bv8, mem: nat -> bv8)
    requires x.Valid() && x.Readable(|x.ph|) && k < |x.ph| && x.ph[k].load && Survives(x, k) && x.Loaded(m0, mem)
    ensures x.Holds(x.ph[k], mem)
  {
    var p := x.ph[k];
    forall a: nat | x.Base(p) <= a < x.Base(p) + p.memsz ensures x.HoldsAt(p, a, mem(a)) {
      FinalIsLastWriters(x, k, |x.ph|, a, m0(a));
    }
  }

  /** Segment `k` is intact in memory at the end, for every file of that length and whatever
      memory held, if and only if each of its addresses is last written with the byte at the
      same place of the file, or with zero where it has zero. */
  lemma SegmentHolds(x: Input, k: nat)
    requires x.Valid() && x.Readable(|x.ph|) && k < |x.ph| && x.ph[k].load
    ensures (forall file, m0: nat -> bv8, mem: nat -> bv8 ::
               SameLength(x, file) && x.(file := file).Loaded(m0, mem) ==> x.(file := file).Holds(x.ph[k], mem))
            <==> Survives(x, k)
  {
    if Survives(x, k) {
      forall file, m0: nat -> bv8, mem: nat -> bv8 | SameLength(x, file) && x.(file := file).Loaded(m0, mem)
        ensures x.(file := file).Holds(x.ph[k], mem)
      {
        SameSurvives(x, file, k);
        SurvivorHolds(x.(file := file), k, m0, mem);
      }
    } else {
      var p := x.ph[k];
      var a: nat :| x.Base(p) <= a < x.Base(p) + p.memsz
        && SourceOf(x, x.ph[LastWriter(x, k, |x.ph|, a)], a) != SourceOf(x, p, a);
      TellsApart(x, k, a);
    }
  }

  /** A file that shows which of two places, or zero, a byte came from. */
  function Marked(n: nat, s: Source): (b: Bytes)
    ensures |b| == n
  {
    seq(n, i requires 0 <= i < n => if s == FromFile(i) then 1 else 0)
  }

  lemma MarkedDiffers(n: nat, own: Source, last: Source, v: bv8)
    requires own != last && (own.FromFile? ==> own.at < n)
    requires var file := Marked(n, if own.Zero? then last else own); IsFrom(file, last, v)
    ensures var file := Marked(n, if own.Zero? then last else own); !IsFrom(file, own, v)
  {
  }

  /** A segment holds what it wrote itself. */
  lemma HoldsOwn(x: Input, p: Phdr, a: nat, v: bv8)
    requires Writes(x, p, a) && a < x.Base(p) + p.memsz
    ensures x.HoldsAt(p, a, v) <==> IsFrom(x.file, SourceOf(x, p, a), v)
  {
  }

  lemma SameLastWriter(x: Input, file: Bytes, k: nat, n: nat, a: nat)
    requires k < n <= |x.ph| && Writes(x, x.ph[k], a)
    ensures var y := x.(file := file);
            && Writes(y, x.ph[k], a) && LastWriter(y, k, n, a) == LastWriter(x, k, n, a)
            && SourceOf(y, x.ph[k], a) == SourceOf(x, x.ph[k], a)
            && SourceOf(y, x.ph[LastWriter(x, k, n, a)], a) == SourceOf(x, x.ph[LastWriter(x, k, n, a)], a)
  {
  }

  lemma OwnInFile(x: Input, k: nat, a: nat)
    requires x.Readable(|x.ph|) && k < |x.ph| && Writes(x, x.ph[k], a) && a < x.Base(x.ph[k]) + x.ph[k].memsz
    ensures var own := SourceOf(x, x.ph[k], a); own.FromFile? ==> own.at < |x.file|
  {
  }

  lemma SameSurvives(x: Input, file: Bytes, k: nat)
    requires k < |x.ph| && x.ph[k].load && Survives(x, k)
    ensures Survives(x.(file := file), k)
  {
    var p := x.ph[k];
    forall a: nat | x.Base(p) <= a < x.Base(p) + p.memsz
      ensures SourceOf(x.(file := file), x.ph[LastWriter(x.(file := file), k, |x.ph|, a)], a)
              == SourceOf(x.(file := file), p, a)
    {
      SameLastWriter(x, file, k, |x.ph|, a);
    }
  }

  lemma NotHeld(x: Input, p: Phdr, mem: nat -> bv8, a: nat)
    requires 0 <= x.Base(p) <= a < x.Base(p) + p.memsz && !x.HoldsAt(p, a, mem(a))
    ensures !x.Holds(p, mem)
  {
    hide Input.HoldsAt;
  }

  lemma SomeMemory(x: Input) returns (m0: nat -> bv8, mem: nat -> bv8)
    requires x.firstlen <= |x.file| && x.Readable(|x.ph|)
    ensures x.Loaded(m0, mem)
  {
    hide Input.Final;
    m0 := _ => 0;
    mem := (b: nat) => x.Final(|x.ph|, b, 0);
  }

  /** An address last written with something else is told apart by some file. */
  lemma TellsApart(x: Input, k: nat, a: nat)
    requires x.Valid() && x.Readable(|x.ph|) && k < |x.ph| && Writes(x, x.ph[k], a)
             && a < x.Base(x.ph[k]) + x.ph[k].memsz
    requires SourceOf(x, x.ph[LastWriter(x, k, |x.ph|, a)], a) != SourceOf(x, x.ph[k], a)
    ensures exists file, m0: nat -> bv8, mem: nat -> bv8 ::
              SameLength(x, file) && x.(file := file).Loaded(m0, mem) && !x.(file := file).Holds(x.ph[k], mem)
  {
    hide IsFrom, Marked, LastWriter, SourceOf, Input.Final, Input.HoldsAt, Input.Holds, Input.Extent;
    var own, last := SourceOf(x, x.ph[k], a), SourceOf(x, x.ph[LastWriter(x, k, |x.ph|, a)], a);
    var file := Marked(|x.file|, if own.Zero? then last else own);
    var y := x.(file := file);
    assert y.Readable(|y.ph|);
    var m0, mem := SomeMemory(y);
    SameLastWriter(x, file, k, |x.ph|, a);
    FinalIsLastWriters(y, k, |y.ph|, a, m0(a));
    HoldsOwn(y, x.ph[k], a, mem(a));
    OwnInFile(x, k, a);
    assert y.Loaded(m0, mem) && SameLength(x, file);
    MarkedDiffers(|x.file|, own, last, mem(a));
    NotHeld(y, x.ph[k], mem, a);
  }

  /** No later segment writes into segment `k`: the way segments in address order survive. */
  lemma ApartSurvives(x: Input, k: nat)
    requires k < |x.ph| && x.ph[k].load
    requires forall j, a: nat :: k < j < |x.ph| && x.Base(x.ph[k]) <= a < x.Base(x.ph[k]) + x.ph[k].memsz ==>
             !Writes(x, x.ph[j], a)
    ensures Survives(x, k)
  {
    var p := x.ph[k];
    forall a: nat | x.Base(p) <= a < x.Base(p) + p.memsz ensures LastWriter(x, k, |x.ph|, a) == k {
      var j := LastWriter(x, k, |x.ph|, a);
    }
  }

  /** In ascending order every segment holds its file bytes and then zeros. */
  lemma AllHold(x: Input, m0: nat -> bv8, mem: nat -> bv8)
    requires x.Valid() && x.Readable(|x.ph|) && x.Ascending()
    requires x.Loaded(m0, mem)
    ensures forall k :: 0 <= k < |x.ph| && x.ph[k].load ==> x.Holds(x.ph[k], mem)
  {
    forall k | 0 <= k < |x.ph| && x.ph[k].load ensures x.Holds(x.ph[k], mem) {
      ApartSurvives(x, k);
      SurvivorHolds(x, k, m0, mem);
    }
  }

  /** The order matters.  With a first page of 4096 bytes, a segment of 2048 bytes from the
      start of the file spills over one that was loaded just above it. */
  const SPILL_LOW := Phdr(true, 0, 0x40_0000, 0x800, 0x800)
  const SPILL_HIGH := Phdr(true, 0x1000, 0x40_0800, 16, 16)

  lemma OutOfOrderSpills(file: Bytes, m0: nat -> bv8, mem: nat -> bv8)
    requires |file| == 0x2000 && file[0x800] != file[0x1000]
    ensures var x := Input([SPILL_HIGH, SPILL_LOW], file, 0x1000, 0);
            && x.Valid() && x.Readable(2) && !Survives(x, 0)
            && x.Base(SPILL_LOW) + SPILL_LOW.memsz <= x.Base(SPILL_HIGH)
            && (x.Loaded(m0, mem) ==> !x.Holds(SPILL_HIGH, mem))
  {
    var x := Input([SPILL_HIGH, SPILL_LOW], file, 0x1000, 0);
    assert x.Readable(2);
    assert Writes(x, SPILL_HIGH, 0x40_0800) && Writes(x, SPILL_LOW, 0x40_0800);
    assert LastWriter(x, 0, 2, 0x40_0800) == 1;
    FinalIsLastWriters(x, 0, 2, 0x40_0800, m0(0x40_0800));
    if x.Loaded(m0, mem) {
      assert mem(0x40_0800) == file[0x800];
      assert !x.HoldsAt(SPILL_HIGH, 0x40_0800, mem(0x40_0800));
    }
  }

  /** No address outside the segments and the first-page copies changes. */
  lemma {:induction false} ElsewhereKept(x: Input, n: nat, a: nat, v: bv8)
    requires n <= |x.ph| && x.firstlen <= |x.file| && x.Readable(n)
    requires forall j :: 0 <= j < n && x.ph[j].load ==> a < x.Base(x.ph[j]) || x.Base(x.ph[j]) + x.Extent(x.ph[j]) <= a
    ensures x.Final(n, a, v) == v
  {
    if n > 0 {
      ElsewhereKept(x, n - 1, a, v);
    }
  }

  /** lastaddr is the highest end of a segment. */
  lemma {:induction false} LastIsHighest(x: Input, n: nat)
    requires n <= |x.ph| && x.Valid()
    ensures forall i :: 0 <= i < n && x.ph[i].load ==> x.Base(x.ph[i]) + x.ph[i].memsz <= x.Last(n)
    ensures x.Last(n) == 0 || exists i :: 0 <= i < n && x.ph[i].load && x.Base(x.ph[i]) + x.ph[i].memsz == x.Last(n)
  {
    if n > 0 {
      LastIsHighest(x, n - 1);
    }
  }

  /** The lowest base of the first `n` segments is `b`. */
  ghost predicate Lowest(x: Input, n: nat, b: int)
    requires n <= |x.ph|
  {
    && (exists i :: 0 <= i < n && x.ph[i].load && x.Base(x.ph[i]) == b)
    && (forall i :: 0 <= i < n && x.ph[i].load ==> b <= x.Base(x.ph[i]))
  }

  /** The last of the first `n` segments is loaded at address 0. */
  predicate EndsAtZero(x: Input, n: nat)
    requires n <= |x.ph|
  {
    n > 0 && if x.ph[n - 1].load then x.Base(x.ph[n - 1]) == 0 else EndsAtZero(x, n - 1)
  }

  ghost predicate NoneAtZero(x: Input, n: nat)
    requires n <= |x.ph|
  {
    forall i :: 0 <= i < n && x.ph[i].load ==> x.Base(x.ph[i]) != 0
  }

  /** firstaddr after the first `n` headers is 0 exactly when nothing was loaded or the last
      segment was loaded at 0; otherwise it is the base of a segment. */
  lemma {:induction false} FirstCases(x: Input, n: nat)
    requires n <= |x.ph| && x.Valid()
    ensures x.First(n) >= 0
    ensures x.First(n) == 0 <==> EndsAtZero(x, n) || forall i :: 0 <= i < n ==> !x.ph[i].load
    ensures x.First(n) != 0 ==> exists i :: 0 <= i < n && x.ph[i].load && x.Base(x.ph[i]) == x.First(n)
    ensures NoneAtZero(x, n) ==> forall i :: 0 <= i < n && x.ph[i].load ==> x.First(n) <= x.Base(x.ph[i])
  {
    if n > 0 {
      FirstCases(x, n - 1);
      if EndsAtZero(x, n - 1) {
        EndsAtZeroHas(x, n - 1);
      }
    }
  }

  lemma {:induction false} EndsAtZeroHas(x: Input, n: nat)
    requires n <= |x.ph| && EndsAtZero(x, n)
    ensures !NoneAtZero(x, n)
  {
    if !x.ph[n - 1].load {
      EndsAtZeroHas(x, n - 1);
    }
  }

  /** firstaddr is the lowest base if and only if no segment is loaded at address 0 or the
      last one is: 0 stands for "not set", so a segment there is forgotten by the next. */
  lemma FirstIsLowest(x: Input, n: nat)
    requires n <= |x.ph| && x.Valid() && exists i :: 0 <= i < n && x.ph[i].load
    ensures Lowest(x, n, x.First(n)) <==> NoneAtZero(x, n) || EndsAtZero(x, n)
  {
    FirstCases(x, n);
    if EndsAtZero(x, n) {
      EndsAtZeroHas(x, n);
    }
  }

  /** A segment at address 0 and one above it: firstaddr is the upper one. */
  lemma FirstForgotten()
    ensures var x := Input([Phdr(true, 0x1000, 0, 16, 16), Phdr(true, 0x1010, 0x1000, 16, 16)], seq(0x2000, _ => 0),
            0x1000, 0);
            x.Valid() && x.Readable(2) && x.Ascending() && x.First(2) == 0x1000 && !Lowest(x, 2, x.First(2))
  {
    var x := Input([Phdr(true, 0x1000, 0, 16, 16), Phdr(true, 0x1010, 0x1000, 16, 16)], seq(0x2000, _ => 0), 0x1000, 0);
    assert x.First(1) == 0;
    assert x.Base(x.ph[0]) == 0;
  }

  /** sizeof(long) */
  const LONG_SIZE := 8

  class SegmentLoader {
    const m: Memory
    const x: Input

    constructor (m: Memory, x: Input)
      ensures this.m == m && this.x == x
    {
      this.m, this.x := m, x;
    }

    /** One pass of the loop, up to the address bounds. */
    method LoadSegment(p: Phdr) returns (ok: bool)
      requires x.Valid() && p.load && 0 <= x.Base(p)
      modifies m
      ensures ok <==> x.InFile(p)
      ensures ok ==> forall a: nat :: m.mem(a) == x.ByteAfter(p, a, old(m.mem)(a))
    {
      var fpcopy := 0;
      if x.firstlen > p.offset {
        fpcopy := x.firstlen - p.offset;
        m.CopyIn(x.file[..x.firstlen][p.offset..], x.Base(p));
      }
      if p.filesz > fpcopy {
        ok := m.Pread(x.file, x.Base(p) + fpcopy, p.filesz - fpcopy, p.offset + fpcopy);
        if !ok {
          return;
        }
      }
      if p.filesz < p.memsz {
        m.Bzero(x.Base(p) + p.filesz, p.memsz - p.filesz);
      }
      ok := true;
    }

    /** The whole loop: it fails exactly when a segment runs past the end of the file, and
        otherwise memory and the bounds are as specified. */
    method LoadSegments() returns (ok: bool, firstaddr: int, lastaddr: int)
      requires x.Valid()
      modifies m
      ensures ok <==> x.Readable(|x.ph|)
      ensures ok ==> x.Loaded(old(m.mem), m.mem)
      ensures ok && x.Ascending() ==> forall k :: 0 <= k < |x.ph| && x.ph[k].load ==> x.Holds(x.ph[k], m.mem)
      ensures ok && x.Ascending() ==> forall k :: 0 <= k < |x.ph| && x.ph[k].load ==> x.AtItsPlace(x.ph[k], m.mem)
      ensures ok ==> forall k :: 0 <= k < |x.ph| && x.ph[k].load ==>
                x.ph[k].vaddr + x.off + x.ph[k].memsz <= lastaddr
      ensures ok ==> firstaddr == x.First(|x.ph|)
      ensures ok ==> x.Last(|x.ph|) <= lastaddr < x.Last(|x.ph|) + LONG_SIZE && lastaddr % LONG_SIZE == 0
    {
      ok, firstaddr, lastaddr := true, 0, 0;
      var i := 0;
      while i < |x.ph|
        invariant 0 <= i <= |x.ph| && x.Readable(i)
        invariant forall a: nat :: m.mem(a) == x.Final(i, a, old(m.mem)(a))
        invariant firstaddr == x.First(i) && lastaddr == x.Last(i) >= 0
      {
        var p := x.ph[i];
        if p.load {
          ok := LoadSegment(p);
          if !ok {
            return;
          }
          if firstaddr == 0 || firstaddr > x.Base(p) {
            firstaddr := x.Base(p);
          }
          if lastaddr == 0 || lastaddr < x.Base(p) + p.memsz {
            lastaddr := x.Base(p) + p.memsz;
          }
        }
        i := i + 1;
      }
      ok := true;
      lastaddr := RoundUp(lastaddr, LONG_SIZE);
      LastIsHighest(x, |x.ph|);
      if x.Ascending() {
        AllHold(x, old(m.mem), m.mem);
        forall k | 0 <= k < |x.ph| && x.ph[k].load ensures x.AtItsPlace(x.ph[k], m.mem) {
          x.HoldsAtItsPlace(x.ph[k], m.mem);
        }
      }
    }
  }
}
