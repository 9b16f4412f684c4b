/**
 The loader's block cache, boot/common/bcache.c, in front of block devices.
 */
module BlockCache {
  import opened Options

  type Block = seq<bv8>
  /** Device contents by unit and block number. */
  type Devices = (int, int) -> Block

  datatype Ctl = Ctl(blkno: int, stamp: int, count: int)
  datatype Rw = FRead | FWrite

  const BCACHE_TIMEOUT: int := 2
  const ENOENT: int := 2
  const EIO: int := 5

  /** The value of an unsigned 32-bit counter stored in an int. */
  function ToInt32(u: nat): (r: int)
    requires u < 0x1_0000_0000
    ensures -0x8000_0000 <= r < 0x8000_0000 && (u - r) % 0x1_0000_0000 == 0
  {
    if u < 0x8000_0000 then u else u - 0x1_0000_0000
  }

  /** An unsigned 32-bit counter. */
  function Wrapped(c: nat): (u: nat)
    ensures u < 0x1_0000_0000 && (c < 0x1_0000_0000 ==> u == c)
  {
    c % 0x1_0000_0000
  }

  lemma WrappedNext(c: nat)
    ensures Wrapped(Wrapped(c) + 1) == Wrapped(c + 1)
  {
  }

  // ----- Coherence -----

  /** Slots other than slot 0 hold distinct blocks. */
  ghost predicate Unique(ctl: seq<Ctl>) {
    forall i, j :: 1 <= i < j < |ctl| && ctl[i].blkno >= 0 ==> ctl[i].blkno != ctl[j].blkno
  }

  /** Slot `i` holds the device's contents of its block, or a block of [lo, hi) that a write
      in progress has yet to put in; slot 0 never holds such a block. */
  ghost predicate SlotOk(ctl: seq<Ctl>, data: seq<Block>, dev: int -> Block, lo: int, hi: int, i: nat)
    requires |ctl| == |data| && i < |ctl|
  {
    var b := ctl[i].blkno;
    if lo <= b < hi then i != 0 else b >= 0 ==> data[i] == dev(b)
  }

  ghost predicate Coherent(ctl: seq<Ctl>, data: seq<Block>, dev: int -> Block, lo: int, hi: int) {
    |ctl| == |data| && Unique(ctl) && forall i: nat :: i < |ctl| ==> SlotOk(ctl, data, dev, lo, hi, i)
  }

  /** No slot after slot 0 holds `b`. */
  ghost predicate Absent(ctl: seq<Ctl>, b: int) {
    forall i :: 1 <= i < |ctl| ==> ctl[i].blkno != b
  }

  /** Slot `k` has the lowest count, and is the first to. */
  ghost predicate Lowest(ctl: seq<Ctl>, k: nat) {
    && k < |ctl| && (forall i :: 0 <= i < |ctl| ==> ctl[k].count <= ctl[i].count)
    && forall i :: 0 <= i < k ==> ctl[k].count < ctl[i].count
  }

  /** The slot an insertion of `b` takes: the one after slot 0 that holds `b`; if there is none,
      the oldest one. */
  ghost predicate MayTake(ctl: seq<Ctl>, b: int, k: nat) {
    k < |ctl| && if Absent(ctl, b) then Lowest(ctl, k) else 1 <= k && ctl[k].blkno == b
  }

  /** Inserting the device's contents of `b` leaves one block fewer to be put in. */
  lemma InsertCoherent(ctl: seq<Ctl>, data: seq<Block>, dev: int -> Block, lo: int, hi: int, k: nat, c: Ctl, d: Block)
    requires Coherent(ctl, data, dev, lo, hi) && MayTake(ctl, c.blkno, k)
    requires c.blkno >= 0 && d == dev(c.blkno) && (c.blkno == lo || !(lo <= c.blkno < hi))
    ensures Coherent(ctl[k := c], data[k := d], dev, if c.blkno == lo then lo + 1 else lo, hi)
  {
    var ctl', data' := ctl[k := c], data[k := d];
    var lo' := if c.blkno == lo then lo + 1 else lo;
    forall i: nat | i < |ctl'| ensures SlotOk(ctl', data', dev, lo', hi, i) {
      assert SlotOk(ctl, data, dev, lo, hi, i);
    }
  }

  /** What invalidating `b` does: the first slot that holds it is cleared. */
  ghost predicate Invalidated(ctl: seq<Ctl>, ctl': seq<Ctl>, b: int) {
    if forall i :: 0 <= i < |ctl| ==> ctl[i].blkno != b then ctl' == ctl
    else exists i: nat :: i < |ctl| && ctl[i].blkno == b && (forall j :: 0 <= j < i ==> ctl[j].blkno != b)
           && ctl' == ctl[i := ctl[i].(blkno := -1, count := -1)]
  }

  /** The cache agrees with the device, and slot 0 holds no block of [lo, hi). */
  ghost predicate Cleared(ctl: seq<Ctl>, data: seq<Block>, dev: int -> Block, lo: int, hi: int) {
    Coherent(ctl, data, dev, 0, 0) && (|ctl| > 0 ==> !(lo <= ctl[0].blkno < hi))
  }

  lemma InvalidateClears(ctl: seq<Ctl>, ctl': seq<Ctl>, data: seq<Block>, dev: int -> Block, lo: int, b: int)
    requires Cleared(ctl, data, dev, lo, b) && Invalidated(ctl, ctl', b) && 0 <= lo <= b
    ensures Cleared(ctl', data, dev, lo, b + 1)
  {
    forall i: nat | i < |ctl'| ensures SlotOk(ctl', data, dev, 0, 0, i) {
      assert SlotOk(ctl, data, dev, 0, 0, i);
    }
  }

  lemma ClearedAgrees(ctl: seq<Ctl>, data: seq<Block>, dev: int -> Block, lo: int, hi: int)
    requires Cleared(ctl, data, dev, lo, hi)
    ensures Coherent(ctl, data, dev, 0, 0)
  {
  }

  /** After the device changed in [lo, hi) only, exactly those blocks are still to be put in. */
  lemma WriteLeaves(ctl: seq<Ctl>, data: seq<Block>, dev: int -> Block, dev': int -> Block, lo: int, hi: int)
    requires Cleared(ctl, data, dev, lo, hi) && forall b :: !(lo <= b < hi) ==> dev'(b) == dev(b)
    ensures Coherent(ctl, data, dev', lo, hi)
  {
    forall i: nat | i < |ctl| ensures SlotOk(ctl, data, dev', lo, hi, i) {
      assert SlotOk(ctl, data, dev, 0, 0, i);
    }
  }

  /** A write that goes around the cache leaves it in agreement exactly when no slot holds
      an overwritten block with other contents than those written. */
  lemma BypassedWrite(ctl: seq<Ctl>, data: seq<Block>, dev: int -> Block, dev': int -> Block, lo: int, hi: int)
    requires Coherent(ctl, data, dev, 0, 0) && 0 <= lo && forall b :: !(lo <= b < hi) ==> dev'(b) == dev(b)
    ensures Coherent(ctl, data, dev', 0, 0) <==>
            forall i: nat :: i < |ctl| && lo <= ctl[i].blkno < hi ==> data[i] == dev'(ctl[i].blkno)
  {
    forall i: nat | i < |ctl|
      ensures SlotOk(ctl, data, dev', 0, 0, i) <==> (lo <= ctl[i].blkno < hi ==> data[i] == dev'(ctl[i].blkno))
    {
      assert SlotOk(ctl, data, dev, 0, 0, i);
    }
  }

  /** Some slot holds block `b`. */
  ghost predicate Cached(ctl: seq<Ctl>, b: int) {
    exists i :: 0 <= i < |ctl| && ctl[i].blkno == b
  }

  /** Some slot holds `v` for block `b`. */
  ghost predicate HoldsAs(ctl: seq<Ctl>, data: seq<Block>, b: int, v: Block) {
    exists i :: 0 <= i < |ctl| && i < |data| && ctl[i].blkno == b && data[i] == v
  }

  /** A cached block is held as the device has it, in a cache that agrees with the device. */
  lemma CachedHolds(ctl: seq<Ctl>, data: seq<Block>, dev: int -> Block, b: int)
    requires Coherent(ctl, data, dev, 0, 0) && Cached(ctl, b) && b >= 0
    ensures HoldsAs(ctl, data, b, dev(b))
  {
    var i :| 0 <= i < |ctl| && ctl[i].blkno == b;
    assert SlotOk(ctl, data, dev, 0, 0, i);
  }

  lemma HeldOtherwise(ctl: seq<Ctl>, data: seq<Block>, dev: int -> Block, b: int, v: Block)
    requires HoldsAs(ctl, data, b, v) && b >= 0 && v != dev(b)
    ensures !Coherent(ctl, data, dev, 0, 0)
  {
    var i :| 0 <= i < |ctl| && i < |data| && ctl[i].blkno == b && data[i] == v;
    assert |ctl| == |data| ==> !SlotOk(ctl, data, dev, 0, 0, i);
  }

  // ----- What is asked of the device -----

  /** A transfer, with what the device's strategy routine returned. */
  datatype Xfer = Xfer(rw: Rw, unit: int, blk: int, n: nat, err: int)

  predicate Covers(x: Xfer, b: int) { x.blk <= b < x.blk + x.n }

  ghost predicate Covered(xs: seq<Xfer>, b: int) {
    exists k :: 0 <= k < |xs| && Covers(xs[k], b)
  }

  /** Every transfer reads some blocks of `bs` and no other. */
  ghost predicate ReadsOnly(xs: seq<Xfer>, u: int, bs: set<int>) {
    forall k :: 0 <= k < |xs| ==>
                  xs[k].rw.FRead? && xs[k].unit == u && xs[k].n > 0 && forall b :: Covers(xs[k], b) ==> b in bs
  }

  /** No transfer failed. */
  predicate AllOk(xs: seq<Xfer>) {
    forall k :: 0 <= k < |xs| ==> xs[k].err == 0
  }

  /** The error of the one transfer that failed, the last; 0 if none did. */
  ghost predicate ErrorOf(xs: seq<Xfer>, err: int) {
    if xs == [] then err == 0 else AllOk(xs[..|xs| - 1]) && err == xs[|xs| - 1].err
  }

  lemma OneMore(xs: seq<Xfer>, x: Xfer, u: int, bs: set<int>)
    requires ReadsOnly(xs, u, bs) && x.rw.FRead? && x.unit == u && x.n > 0 && forall b :: Covers(x, b) ==> b in bs
    ensures ReadsOnly(xs + [x], u, bs)
    ensures AllOk(xs) ==> ErrorOf(xs + [x], x.err) && (x.err == 0 ==> AllOk(xs + [x]))
  {
  }

  /** Some slot holds the block and is not too old at time `now`. */
  ghost predicate Fresh(ctl: seq<Ctl>, b: int, now: int) {
    exists i :: 0 <= i < |ctl| && ctl[i].blkno == b && ctl[i].stamp + 2 >= now
  }

  lemma IsCached(ctl: seq<Ctl>, b: int, i: nat)
    requires i < |ctl| && ctl[i].blkno == b
    ensures Cached(ctl, b)
  {
  }

  lemma OneTransfer(x: Xfer)
    ensures ErrorOf([x], x.err)
  {
  }

  lemma FreshEarlier(ctl: seq<Ctl>, b: int, now: int, now': int)
    requires now <= now'
    ensures Fresh(ctl, b, now') ==> Fresh(ctl, b, now)
  {
  }

  // ----- The oldest block makes room -----

  const WRAP := 0x8000_0000

  /** Counts from before insertion `c`, none of which has come out negative. */
  ghost predicate InOrder(ctl: seq<Ctl>, c: int) {
    c <= WRAP && forall i :: 0 <= i < |ctl| ==> ctl[i].count < c
  }

  /** The slots filled by insertion `from` or a later one. */
  ghost function Since(ctl: seq<Ctl>, from: int): set<int> {
    set i | 0 <= i < |ctl| && ctl[i].count >= from
  }

  /** Blocks `bs` were inserted from insertion `from` on, at time `t` or later, and are in the cache
      when insertion `c` comes. */
  ghost predicate Kept(ctl: seq<Ctl>, from: int, c: int, t: int, bs: set<int>) {
    && InOrder(ctl, c) && from <= c && |Since(ctl, from)| <= c - from
    && forall b <- bs :: HeldSince(ctl, b, from, t)
  }

  ghost predicate HeldSince(ctl: seq<Ctl>, b: int, from: int, t: int) {
    exists i :: 0 <= i < |ctl| && ctl[i].blkno == b && ctl[i].count >= from && ctl[i].stamp >= t
  }

  ghost predicate AllFreshAt(ctl: seq<Ctl>, t: int, bs: set<int>) {
    forall b <- bs :: Fresh(ctl, b, t + 2)
  }

  lemma {:induction false} AllSince(ctl: seq<Ctl>, from: int)
    requires forall i :: 0 <= i < |ctl| ==> ctl[i].count >= from
    ensures |Since(ctl, from)| == |ctl|
  {
    if ctl != [] {
      var n := |ctl| - 1;
      AllSince(ctl[..n], from);
      assert Since(ctl, from) == Since(ctl[..n], from) + {n};
    }
  }

  /** With room left an insertion takes no slot filled since. */
  lemma TakesOlder(ctl: seq<Ctl>, from: int, c: int, b: int, k: nat)
    requires MayTake(ctl, b, k) && |Since(ctl, from)| <= c - from < |ctl|
    ensures k < |ctl| && (ctl[k].count < from || ctl[k].blkno == b)
  {
    if Absent(ctl, b) && ctl[k].count >= from {
      AllSince(ctl, from);
    }
  }

  lemma InsertKept(ctl: seq<Ctl>, from: int, c: nat, t: int, bs: set<int>, b: int, k: nat, stamp: int)
    requires Kept(ctl, from, c, t, bs) && MayTake(ctl, b, k) && c - from < |ctl| && b !in bs && stamp >= t
    ensures var ctl' := ctl[k := Ctl(b, stamp, ToInt32(c))];
            AllFreshAt(ctl', t, bs + {b}) && (c < WRAP ==> Kept(ctl', from, c + 1, t, bs + {b}))
  {
    hide MayTake, Fresh;
    TakesOlder(ctl, from, c, b, k);
    var ctl' := ctl[k := Ctl(b, stamp, ToInt32(c))];
    forall x <- bs + {b} ensures Fresh(ctl', x, t + 2) && (c < WRAP ==> HeldSince(ctl', x, from, t)) {
      var i := k;
      if x != b {
        assert HeldSince(ctl, x, from, t);
        i :| 0 <= i < |ctl| && ctl[i].blkno == x && ctl[i].count >= from && ctl[i].stamp >= t;
      }
      assert ctl'[i].blkno == x && ctl'[i].stamp >= t;
      IsFresh(ctl', x, t, i);
    }
    var slots := Since(ctl, from) + {k};
    assert slots == Since(ctl', from) + (slots - Since(ctl', from));
  }

  lemma IsFresh(ctl: seq<Ctl>, b: int, t: int, i: nat)
    requires i < |ctl| && ctl[i].blkno == b && ctl[i].stamp >= t
    ensures Fresh(ctl, b, t + 2)
  {
  }

  lemma NothingKept(ctl: seq<Ctl>, c: int, t: int)
    requires InOrder(ctl, c)
    ensures Kept(ctl, c, c, t, {})
  {
    assert Since(ctl, c) == {};
  }

  lemma KeptIsFresh(ctl: seq<Ctl>, from: int, c: int, t: int, bs: set<int>)
    requires Kept(ctl, from, c, t, bs)
    ensures AllFreshAt(ctl, t, bs)
  {
    forall b <- bs ensures Fresh(ctl, b, t + 2) {
      assert HeldSince(ctl, b, from, t);
    }
  }

  /** The blocks [blk, blk + n). */
  ghost function Range(blk: int, n: nat): (bs: set<int>)
    ensures forall b :: b in bs <==> blk <= b < blk + n
  {
    if n == 0 then {} else Range(blk, n - 1) + {blk + (n - 1)}
  }

  /** Before insertion `c`: nothing has been lost, the last insertion possibly counted as negative. */
  ghost predicate KeptAfter(ctl: seq<Ctl>, from: int, c: int, t: int, bs: set<int>) {
    (c <= WRAP ==> Kept(ctl, from, c, t, bs)) && (c <= WRAP + 1 ==> AllFreshAt(ctl, t, bs))
  }

  lemma InsertKeptAfter(ctl: seq<Ctl>, from: int, c: nat, t: int, bs: set<int>, b: int, k: nat, stamp: int)
    requires KeptAfter(ctl, from, c, t, bs) && MayTake(ctl, b, k) && c - from < |ctl| && b !in bs && stamp >= t
    ensures var ctl' := ctl[k := Ctl(b, stamp, ToInt32(Wrapped(c)))]; KeptAfter(ctl', from, c + 1, t, bs + {b})
  {
    hide Kept, AllFreshAt, MayTake;
    if c <= WRAP {
      InsertKept(ctl, from, c, t, bs, b, k, stamp);
    }
  }

  ghost predicate Emptied(ctl: seq<Ctl>) {
    forall i :: 0 <= i < |ctl| ==> ctl[i].blkno == -1 && ctl[i].count == -1
  }

  /** Of insertions from `c` on the first that is counted as negative: its block is the oldest at
      once, and makes room for the next. */
  function FirstLost(c: nat): nat {
    if c < WRAP then WRAP - c else 0
  }

  /** In a cache that was empty before insertion `c`, after `j` insertions of the blocks from `blk` on:
      the one first counted as negative is the next to go, or is gone. */
  ghost predicate Losing(ctl: seq<Ctl>, blk: int, c: nat, j: nat) {
    var lost := FirstLost(c);
    && (forall i :: 0 <= i < |ctl| ==> ctl[i].blkno == -1 || blk <= ctl[i].blkno < blk + j)
    && if j <= lost then forall i :: 0 <= i < |ctl| ==> ctl[i].count >= -1 && (j == 0 ==> ctl[i].count == -1)
       else if j == lost + 1 then exists k :: Lowest(ctl, k) && forall i ::
         0 <= i < |ctl| && ctl[i].blkno == blk + lost ==> i == k
       else !Cached(ctl, blk + lost)
  }

  lemma InsertLosing(ctl: seq<Ctl>, blk: nat, c: nat, j: nat, k: nat, stamp: int)
    requires Losing(ctl, blk, c, j) && MayTake(ctl, blk + j, k) && c < 0x1_0000_0000
    ensures Losing(ctl[k := Ctl(blk + j, stamp, ToInt32(Wrapped(c + j)))], blk, c, j + 1)
  {
    var ctl' := ctl[k := Ctl(blk + j, stamp, ToInt32(Wrapped(c + j)))];
    assert Absent(ctl, blk + j) && Lowest(ctl, k);
    if j == FirstLost(c) {
      assert Lowest(ctl', k);
    } else if j == FirstLost(c) + 1 {
      var k' :| Lowest(ctl, k') && forall i :: 0 <= i < |ctl| && ctl[i].blkno == blk + FirstLost(c) ==> i == k';
      assert k == k';
    }
  }

  lemma LosingEnds(ctl: seq<Ctl>, blk: int, c: nat, n: nat)
    requires Losing(ctl, blk, c, n) && n >= 2 && c + n > WRAP + 1
    ensures blk + FirstLost(c) in Range(blk, n) && !Cached(ctl, blk + FirstLost(c))
  {
  }

  /** Insertions of `n` blocks from `blk` on into the cache `ctl`, the first of them insertion `c`,
      when blocks `bs` have been inserted since insertion `from` and time `t`. */
  datatype Insertions =
    Insertions(ctl: seq<Ctl>, from: int, c: nat, t: int, bs: set<int>, blk: nat, n: nat)

  /** After `j` of them, from time `now` on, all these blocks are in the cache, if the counts allow. */
  ghost predicate Going(g: Insertions, now: int, ctl: seq<Ctl>, j: nat) {
    && |ctl| == |g.ctl|
    && (KeptAfter(g.ctl, g.from, g.c, g.t, g.bs) && g.t <= now && g.bs !! Range(g.blk, g.n)
        && g.c + g.n - g.from <= |g.ctl| ==>
          KeptAfter(ctl, g.from, g.c + j, g.t, g.bs + Range(g.blk, j)))
    && (Emptied(g.ctl) ==> Losing(ctl, g.blk, g.c, j))
  }

  lemma GoingStarts(g: Insertions, now: int)
    ensures Going(g, now, g.ctl, 0)
  {
    hide KeptAfter;
    assert g.bs + Range(g.blk, 0) == g.bs;
  }

  lemma GoingOn(g: Insertions, now: int, ctl: seq<Ctl>, j: nat, k: nat, stamp: int)
    requires Going(g, now, ctl, j) && j < g.n && MayTake(ctl, g.blk + j, k) && now <= stamp && g.c < 0x1_0000_0000
    ensures Going(g, now, ctl[k := Ctl(g.blk + j, stamp, ToInt32(Wrapped(g.c + j)))], j + 1)
  {
    hide KeptAfter, Losing, Absent, Lowest;
    if Emptied(g.ctl) {
      InsertLosing(ctl, g.blk, g.c, j, k, stamp);
    }
    if KeptAfter(g.ctl, g.from, g.c, g.t, g.bs) && g.t <= now && g.bs !! Range(g.blk, g.n)
       && g.c + g.n - g.from <= |g.ctl| {
      assert g.blk + j in Range(g.blk, g.n);
      InsertKeptAfter(ctl, g.from, g.c + j, g.t, g.bs + Range(g.blk, j), g.blk + j, k, stamp);
      assert g.bs + Range(g.blk, j + 1) == g.bs + Range(g.blk, j) + {g.blk + j};
    }
  }

  // ----- The cache -----

  class BCache {
    const nblks: nat
    const ctl: array<Ctl>
    const data: array<Block>
    const miss: array<bool>
    /** bcache_data is allocated */
    var on: bool
    /** u_int bcache_bcount */
    var bcount: nat
    /** the unit the cache stands for; -1 before the first request */
    var unit: int
    /** the devices behind the cache, and what was asked of them */
    var devices: Devices
    ghost var log: seq<Xfer>
    /** what time() returned last */
    var clock: int

    ghost predicate Valid()
      reads this, ctl, data
    {
      && ctl.Length == nblks && data.Length == nblks && miss.Length == (nblks + 1) / 2
      && bcount < 0x1_0000_0000
      && (unit != -1 ==> Agrees(0, 0))
    }

    ghost predicate Agrees(lo: int, hi: int)
      reads this, ctl, data
    {
      Coherent(ctl[..], data[..], Device(), lo, hi)
    }

    ghost function Device(): int -> Block
      reads this
    {
      var f, u := devices, unit;
      b => f(u, b)
    }

    /** bcache_init: the control blocks are not initialised. */
    constructor (nblks: nat, devices: Devices)
      ensures Valid() && this.nblks == nblks && unit == -1 && on && this.devices == devices && fresh(ctl)
              && fresh(data) && fresh(miss)
    {
      this.nblks := nblks;
      ctl := new Ctl[nblks];
      data := new Block[nblks];
      miss := new bool[(nblks + 1) / 2];
      on, bcount, unit, this.devices, log, clock := true, 0, -1, devices, [], 0;
    }

    /** A device's strategy routine, reading: it may fail. */
    method DevRead(u: int, blk: int, n: nat, buf: array<Block>, off: nat) returns (err: int)
      requires off + n <= buf.Length
      modifies buf, this`log
      ensures log == old(log) + [Xfer(FRead, u, blk, n, err)]
      ensures err == 0 ==> forall i :: off <= i < off + n ==> buf[i] == devices(u, blk + i - off)
      ensures forall i :: 0 <= i < buf.Length && !(off <= i < off + n) ==> buf[i] == old(buf[i])
    {
      var fail: bool := *;
      log := log + [Xfer(FRead, u, blk, n, if fail then EIO else 0)];
      if fail {
        return EIO;
      }
      var i := 0;
      while i < n
        invariant 0 <= i <= n && log == old(log) + [Xfer(FRead, u, blk, n, 0)]
        invariant forall j :: off <= j < off + i ==> buf[j] == devices(u, blk + j - off)
        invariant forall j :: 0 <= j < buf.Length && !(off <= j < off + i) ==> buf[j] == old(buf[j])
      {
        buf[off + i] := devices(u, blk + i);
        i := i + 1;
      }
      return 0;
    }

    /** Writing: all or nothing. */
    method DevWrite(u: int, blk: int, blocks: seq<Block>) returns (err: int)
      modifies this`devices, this`log
      ensures log == old(log) + [Xfer(FWrite, u, blk, |blocks|, err)]
      ensures err != 0 ==> devices == old(devices)
      ensures err == 0 ==> forall v, b :: devices(v, b) == if v == u && blk <= b < blk + |blocks| then blocks[b - blk]
              else old(devices)(v, b)
    {
      var fail: bool := *;
      log := log + [Xfer(FWrite, u, blk, |blocks|, if fail then EIO else 0)];
      if fail {
        return EIO;
      }
      var before := devices;
      devices := (v, b) => if v == u && blk <= b < blk + |blocks| then blocks[b - blk] else before(v, b);
      return 0;
    }

    /** time */
    method Time() returns (now: int)
      modifies this`clock
      ensures now == clock >= old(clock)
    {
      var passed: int := *;
      if passed > 0 {
        clock := clock + passed;
      }
      now := clock;
    }

    /** bcache_flush */
    method Flush()
      requires ctl.Length == nblks && data.Length == nblks
      modifies ctl
      ensures forall i :: 0 <= i < nblks ==> ctl[i].blkno == -1 && ctl[i].count == -1
      ensures Agrees(0, 0)
    {
      var i := 0;
      while i < nblks
        invariant 0 <= i <= nblks
        invariant forall j :: 0 <= j < i ==> ctl[j].blkno == -1 && ctl[j].count == -1
      {
        ctl[i] := ctl[i].(count := -1, blkno := -1);
        i := i + 1;
      }
      forall j: nat | j < nblks ensures SlotOk(ctl[..], data[..], Device(), 0, 0, j) {
      }
    }

    /** bcache_insert */
    method Insert(buf: Block, blkno: int) returns (cand: nat)
      requires 0 < nblks == ctl.Length == data.Length && bcount < 0x1_0000_0000
      modifies ctl, data, this`bcount, this`clock
      ensures clock >= old(clock) && MayTake(old(ctl[..]), blkno, cand)
      ensures ctl[..] == old(ctl[..])[cand := Ctl(blkno, clock, ToInt32(old(bcount)))]
      ensures data[..] == old(data[..])[cand := buf]
      ensures bcount == Wrapped(old(bcount) + 1)
    {
      var now := Time();
      cand := 0;
      var ocount := ctl[0].count;
      var i := 1;
      while i < nblks
        invariant 1 <= i <= nblks && cand < nblks && cand < i && ocount == ctl[cand].count
        invariant forall j :: 1 <= j < i ==> ctl[j].blkno != blkno
        invariant forall j :: 0 <= j < i ==> ocount <= ctl[j].count && (j < cand ==> ocount < ctl[j].count)
      {
        if ctl[i].blkno == blkno {
          cand := i;
          break;
        }
        if ctl[i].count < ocount {
          ocount := ctl[i].count;
          cand := i;
        }
        i := i + 1;
      }
      assert MayTake(ctl[..], blkno, cand) by {
        if i < nblks {
          assert !Absent(ctl[..], blkno) by { assert ctl[..][i].blkno == blkno; }
        }
      }
      data[cand] := buf;
      ctl[cand] := Ctl(blkno, now, ToInt32(bcount));
      bcount := (bcount + 1) % 0x1_0000_0000;
      assert ctl[..] == old(ctl[..])[cand := Ctl(blkno, now, ToInt32(old(bcount)))];
    }

    /** bcache_lookup: the block, if a slot holds it that is not too old */
    method Lookup(blkno: int) returns (r: Option<Block>, now: int)
      requires ctl.Length == nblks && data.Length == nblks
      modifies this`clock
      ensures now == clock >= old(clock)
      ensures r.Some? ==>
                exists i :: && 0 <= i < nblks && ctl[i].blkno == blkno && r.value == data[i]
                            && ctl[i].stamp + BCACHE_TIMEOUT >= now
      ensures r.None? ==> forall i :: 0 <= i < nblks && ctl[i].blkno == blkno ==> ctl[i].stamp + BCACHE_TIMEOUT < now
      ensures r.Some? <==> Fresh(ctl[..], blkno, now)
    {
      now := Time();
      var i := 0;
      while i < nblks
        invariant 0 <= i <= nblks
        invariant forall j :: 0 <= j < i && ctl[j].blkno == blkno ==> ctl[j].stamp + BCACHE_TIMEOUT < now
      {
        if ctl[i].blkno == blkno && ctl[i].stamp + BCACHE_TIMEOUT >= now {
          assert ctl[..][i].blkno == blkno;
          return Some(data[i]), now;
        }
        i := i + 1;
      }
      return None, now;
    }

    /** bcache_invalidate */
    method Invalidate(blkno: int)
      requires ctl.Length == nblks
      modifies ctl
      ensures Invalidated(old(ctl[..]), ctl[..], blkno)
    {
      var i := 0;
      while i < nblks
        invariant 0 <= i <= nblks && ctl[..] == old(ctl[..])
        invariant forall j :: 0 <= j < i ==> ctl[j].blkno != blkno
      {
        if ctl[i].blkno == blkno {
          ctl[i] := ctl[i].(count := -1, blkno := -1);
          assert ctl[..] == old(ctl[..])[i := old(ctl[..])[i].(blkno := -1, count := -1)];
          return;
        }
        i := i + 1;
      }
    }

    /** Inserts blocks that are the device's contents from `blk` on. */
    method InsertAll(blocks: seq<Block>, blk: int, ghost hi: int, ghost from: int, ghost t: int, ghost bs: set<int>)
      requires nblks == ctl.Length == data.Length && bcount < 0x1_0000_0000 && 0 <= blk && |blocks| <= nblks
      requires forall j :: 0 <= j < |blocks| ==> blocks[j] == Device()(blk + j)
      requires hi == 0 || hi == blk + |blocks|
      requires if hi == 0 then Agrees(0, 0) else Agrees(blk, hi)
      modifies ctl, data, this`bcount, this`clock
      ensures Agrees(0, 0) && bcount < 0x1_0000_0000 && clock >= old(clock)
      ensures |blocks| > 0 ==> Cached(ctl[..], blk + |blocks| - 1)
      ensures bcount == Wrapped(old(bcount) + |blocks|)
      ensures Going(Insertions(old(ctl[..]), from, old(bcount), t, bs, blk, |blocks|), old(clock), ctl[..], |blocks|)
    {
      hide Going, Coherent, MayTake, Wrapped, Cached, ToInt32;
      ghost var dev, g := Device(), Insertions(ctl[..], from, bcount, t, bs, blk, |blocks|);
      GoingStarts(g, clock);
      var j := 0;
      while j < |blocks|
        invariant 0 <= j <= |blocks| && bcount < 0x1_0000_0000 && Device() == dev && clock >= old(clock)
        invariant j > 0 ==> Cached(ctl[..], blk + j - 1)
        invariant bcount == Wrapped(old(bcount) + j)
        invariant Going(g, old(clock), ctl[..], j)
        invariant if hi == 0 then Coherent(ctl[..], data[..], dev, 0, 0)
                  else Coherent(ctl[..], data[..], dev, blk + j, hi)
      {
        ghost var ctl0, data0 := ctl[..], data[..];
        var cand := Insert(blocks[j], blk + j);
        ghost var c := ctl[cand];
        assert ctl[..] == ctl0[cand := c];
        IsCached(ctl[..], blk + j, cand);
        WrappedNext(old(bcount) + j);
        InsertCoherent(ctl0, data0, dev, if hi == 0 then 0 else blk + j, hi, cand, c, blocks[j]);
        if hi == 0 {
          NoneLeft(ctl[..], data[..], dev, if c.blkno == 0 then 1 else 0, 0);
        }
        GoingOn(g, old(clock), ctl0, j, cand, clock);
        j := j + 1;
      }
      if hi != 0 {
        NoneLeft(ctl[..], data[..], dev, hi, hi);
      }
    }

    /** write_strategy */
    method WriteStrategy(blk: int, buf: array<Block>) returns (err: int)
      requires Valid() && unit != -1 && 0 <= blk && 2 * buf.Length <= nblks
      modifies ctl, data, this`bcount, this`clock, this`devices, this`log
      ensures Valid() && log == old(log) + [Xfer(FWrite, unit, blk, buf.Length, err)]
      ensures err != 0 ==> devices == old(devices)
      ensures err == 0 ==> forall v, b :: devices(v, b) == if v == unit && blk <= b < blk + buf.Length then
              old(buf[..])[b - blk] else old(devices)(v, b)
      ensures InOrder(old(ctl[..]), old(bcount)) && old(bcount) + buf.Length <= WRAP ==>
                && InOrder(ctl[..], bcount) && old(bcount) <= bcount <= old(bcount) + buf.Length
                && (err == 0 ==> AllFreshAt(ctl[..], old(clock), Range(blk, buf.Length)))
    {
      hide Coherent, Cleared, Cached, InOrder, AllFreshAt, Going;
      ghost var dev := Device();
      InvalidateAll(blk, buf.Length);
      var blocks := buf[..];
      err := DevWrite(unit, blk, blocks);
      if err == 0 {
        WriteLeaves(ctl[..], data[..], dev, Device(), blk, blk + |blocks|);
        ghost var g := Insertions(ctl[..], bcount, bcount, clock, {}, blk, |blocks|);
        InsertAll(blocks, blk, blk + |blocks|, bcount, clock, {});
        if InOrder(g.ctl, g.c) && g.c + g.n <= WRAP {
          AllKept(g, old(clock), ctl[..]);
        }
      } else {
        ClearedAgrees(ctl[..], data[..], dev, blk, blk + |blocks|);
      }
    }

    /** Its first loop: no slot is left that insertion would not find. */
    method InvalidateAll(blk: int, n: nat)
      requires Valid() && unit != -1 && 0 <= blk
      modifies ctl
      ensures ctl.Length == data.Length && Cleared(ctl[..], data[..], Device(), blk, blk + n)
      ensures InOrder(old(ctl[..]), bcount) ==> InOrder(ctl[..], bcount)
    {
      hide InOrder;
      ghost var dev := Device();
      assert Cleared(ctl[..], data[..], dev, blk, blk);
      var i := 0;
      while i < n
        invariant 0 <= i <= n && Cleared(ctl[..], data[..], dev, blk, blk + i)
        invariant InOrder(old(ctl[..]), bcount) ==> InOrder(ctl[..], bcount)
      {
        ghost var before := ctl[..];
        Invalidate(blk + i);
        InvalidateClears(before, ctl[..], data[..], dev, blk, blk + i);
        InvalidateInOrder(before, ctl[..], blk + i, bcount);
        i := i + 1;
      }
    }

    /** read_strategy, first loop: satisfy the hits */
    method ReadHits(blk: int, buf: array<Block>)
      requires Valid() && unit != -1 && 0 <= blk && 2 * buf.Length <= nblks && buf != data
      modifies buf, miss, this`clock
      ensures clock >= old(clock)
      ensures forall i: nat :: i < buf.Length ==>
                if miss[i] then !Fresh(ctl[..], blk + i, clock) else Fresh(ctl[..], blk + i, old(clock))
      ensures forall i: nat :: i < buf.Length && !miss[i] ==>
                buf[i] == devices(unit, blk + i) && Cached(ctl[..], blk + i)
    {
      hide Fresh, Cached, Unique;
      var i := 0;
      while i < buf.Length
        invariant 0 <= i <= buf.Length && clock >= old(clock)
        invariant forall j: nat :: j < i && !miss[j] ==> buf[j] == devices(unit, blk + j) && Cached(ctl[..], blk + j)
        invariant forall j: nat :: j < i ==>
                    if miss[j] then !Fresh(ctl[..], blk + j, clock) else Fresh(ctl[..], blk + j, old(clock))
      {
        ghost var before := clock;
        var r, now := Lookup(blk + i);
        forall j: nat | j < i && miss[j] ensures !Fresh(ctl[..], blk + j, clock) {
          FreshEarlier(ctl[..], blk + j, before, clock);
        }
        if r.None? {
          miss[i] := true;
        } else {
          ghost var k :| 0 <= k < nblks && ctl[k].blkno == blk + i && r.value == data[k];
          assert SlotOk(ctl[..], data[..], Device(), 0, 0, k);
          IsCached(ctl[..], blk + i, k);
          FreshEarlier(ctl[..], blk + i, old(clock), clock);
          buf[i] := r.value;
          miss[i] := false;
        }
        i := i + 1;
      }
    }

    /** Completes a pending transfer of the blocks from `off` to `end`, all of them misses, and
        caches them. */
    method Transfer(blk: int, off: nat, end: nat, buf: array<Block>, ghost r: Run, ghost done: seq<Xfer>)
      returns (err: int)
      requires Valid() && unit != -1 && 0 <= blk && off < end <= buf.Length && 2 * buf.Length <= nblks && buf != data
      requires r.unit == unit && r.blk == blk && |r.miss| == buf.Length && forall i :: off <= i < end ==> r.miss[i]
      requires RunOk(r, done, ctl[..], bcount, off) && r.t <= clock && (off == 0 ==> bcount == r.b0)
      requires Delivered(buf[..], devices, r, off)
      modifies buf, ctl, data, this`bcount, this`clock, this`log
      ensures Valid() && log == old(log) + [Xfer(FRead, unit, blk + off, end - off, err)] && clock >= old(clock)
      ensures var did := done + [Xfer(FRead, unit, blk + off, end - off, err)];
              if err == 0 then RunOk(r, did, ctl[..], bcount, end) else RunFailed(r, did, err, ctl[..], bcount)
      ensures err == 0 && off == 0 && Emptied(old(ctl[..])) ==> AllOrLost(ctl[..], blk + off, end - off, old(bcount))
      ensures err == 0 ==> Delivered(buf[..], devices, r, end) && Cached(ctl[..], blk + end - 1)
      ensures err != 0 ==> ctl[..] == old(ctl[..]) && bcount == old(bcount)
    {
      hide RunOk, RunFailed, AllOrLost, Missed, Going, Cached, Coherent, Emptied, Wrapped;
      var n := end - off;
      ghost var ctl0, c, now := ctl[..], bcount, clock;
      err := DevRead(unit, blk + off, n, buf, off);
      ghost var x := Xfer(FRead, unit, blk + off, n, err);
      if err != 0 {
        RunFails(r, done, x, ctl0, c, off, end);
        return;
      }
      assert forall i: nat :: off <= i < end ==> buf[i] == devices(unit, blk + i);
      var blocks := buf[off..end];
      assert forall j :: 0 <= j < |blocks| ==> blocks[j] == buf[off + j];
      InsertAll(blocks, blk + off, 0, r.b0, r.t, Missed(r.miss, blk, off));
      RunGoes(r, done, x, ctl0, c, off, end, now, ctl[..]);
      if off == 0 && Emptied(ctl0) {
        NoneMissed(r.miss, blk);
        AllGo(Insertions(ctl0, r.b0, c, r.t, Missed(r.miss, blk, off), blk + off, n), now, ctl[..]);
      }
    }

    /** read_strategy.  It reads from the device the blocks of which no slot is fresh, and fails
        exactly when the device does. */
    method ReadStrategy(blk: int, buf: array<Block>) returns (err: int)
      requires Valid() && unit != -1 && 0 <= blk && 2 * buf.Length <= nblks && buf != data
      modifies buf, miss, ctl, data, this`bcount, this`clock, this`log
      ensures Valid() && clock >= old(clock)
      ensures err == 0 ==> forall i: nat :: i < buf.Length ==> buf[i] == devices(unit, blk + i)
      ensures err == 0 && buf.Length == 1 ==> Cached(ctl[..], blk)
      ensures |log| >= |old(log)| && log[..|old(log)|] == old(log) && ErrorOf(log[|old(log)|..], err)
      ensures ReadsOnly(log[|old(log)|..], unit, NotFresh(old(ctl[..]), blk, buf.Length, clock))
      ensures err == 0 ==>
                forall b :: b in NotFresh(old(ctl[..]), blk, buf.Length, old(clock)) ==> Covered(log[|old(log)|..], b)
      ensures InOrder(old(ctl[..]), old(bcount)) && old(bcount) + buf.Length <= WRAP ==>
                && InOrder(ctl[..], bcount) && old(bcount) <= bcount <= old(bcount) + buf.Length
                && (err == 0 ==> AllFreshAt(ctl[..], old(clock), NotFresh(old(ctl[..]), blk, buf.Length, old(clock))))
      ensures err == 0 && Emptied(old(ctl[..])) ==> AllOrLost(ctl[..], blk, buf.Length, old(bcount))
    {
      hide Covered, ReadsOnly, ErrorOf, Fresh, Cached, Coherent, RunOk, RunFailed, InOrder, AllFreshAt, Emptied,
           AllOrLost, Missed, NotFresh;
      ReadHits(blk, buf);
      ghost var missed, t := Missed(miss[..buf.Length], blk, buf.Length), clock;
      MissedIsNotFresh(ctl[..], miss[..buf.Length], blk, buf.Length, old(clock), t);
      ghost var r := Run(unit, miss[..buf.Length], blk, bcount, t,
        InOrder(ctl[..], bcount) && bcount + buf.Length <= WRAP);
      RunStarts(r, ctl[..]);
      if Emptied(ctl[..]) {
        AllMissed(ctl[..], r.miss, blk, old(clock));
      }
      err := ReadMisses(blk, buf, r);
      if err == 0 {
        RunEnds(r, log[|old(log)|..], ctl[..], bcount);
        FreshAtEarlier(ctl[..], old(clock), t, NotFresh(old(ctl[..]), blk, buf.Length, old(clock)), missed);
      } else {
        RunFailure(r, log[|old(log)|..], err, ctl[..], bcount);
      }
      Wider(log[|old(log)|..], unit, old(ctl[..]), missed, blk, buf.Length, t, clock);
    }

    /** Its second loop: each run of misses is one transfer. */
    method ReadMisses(blk: int, buf: array<Block>, ghost r: Run) returns (err: int)
      requires Valid() && unit != -1 && 0 <= blk && 2 * buf.Length <= nblks && buf != data
      requires forall i: nat :: i < buf.Length && !miss[i] ==> Cached(ctl[..], blk + i)
      requires r.unit == unit && r.miss == miss[..buf.Length] && r.blk == blk && r.b0 == bcount && r.t == clock
      requires RunOk(r, [], ctl[..], bcount, 0) && Delivered(buf[..], devices, r, 0)
      modifies buf, ctl, data, this`bcount, this`clock, this`log
      ensures Valid() && clock >= old(clock)
      ensures err == 0 ==> Delivered(buf[..], devices, r, buf.Length)
      ensures err == 0 && buf.Length == 1 ==> Cached(ctl[..], blk)
      ensures |log| >= |old(log)| && log[..|old(log)|] == old(log)
      ensures if err == 0 then RunOk(r, log[|old(log)|..], ctl[..], bcount, buf.Length)
              else RunFailed(r, log[|old(log)|..], err, ctl[..], bcount)
      ensures err == 0 && Emptied(old(ctl[..])) && (forall i: nat :: i < buf.Length ==> miss[i]) ==>
                AllOrLost(ctl[..], blk, buf.Length, old(bcount))
    {
      hide Covered, ReadsOnly, ErrorOf, Cached, Coherent, Missed, RunOk, RunFailed, InOrder, AllFreshAt, Emptied,
           AllOrLost, Delivered;
      ghost var log0, done: seq<Xfer> := log, [];
      assert forall j: nat :: j < buf.Length ==> r.miss[j] == miss[j];
      var start, pending := 0, false;
      var i := 0;
      while i < buf.Length
        invariant 0 <= i <= buf.Length && Valid() && clock >= old(clock)
        invariant log == log0 + done && RunOk(r, done, ctl[..], bcount, if pending then start else i)
        invariant pending ==> 0 <= start < i && forall j :: start <= j < i ==> r.miss[j]
        invariant i > 0 && !pending ==> !r.miss[i - 1]
        invariant i <= 1 || (pending && start == 0) ==> ctl[..] == old(ctl[..]) && bcount == r.b0
        invariant pending && start > 0 ==> !r.miss[start - 1]
        invariant Delivered(buf[..], devices, r, if pending then start else i)
      {
        if miss[i] {
          if !pending {
            start, pending := i, true;
          }
        } else {
          if pending {
            err := Transfer(blk, start, i, buf, r, done);
            done := done + [Xfer(FRead, unit, blk + start, i - start, err)];
            if err != 0 {
              assert log[|log0|..] == done;
              return;
            }
            pending := false;
          }
          RunSkips(r, done, ctl[..], bcount, i);
          DeliveredSkips(buf[..], devices, r, i);
        }
        i := i + 1;
      }
      err := 0;
      if pending {
        err := Transfer(blk, start, i, buf, r, done);
        done := done + [Xfer(FRead, unit, blk + start, i - start, err)];
      }
      assert log[|log0|..] == done;
      NoneLost(ctl[..], blk, bcount);
    }

    /** bcache_strategy.  A read that succeeds fills the buffer as the device itself would.
        Only a successful write too large for the cache can leave the two in disagreement,
        and it does exactly when some slot holds an overwritten block as it was. */
    method Strategy(u: int, rw: Rw, blk: int, buf: array<Block>) returns (err: int)
      requires Valid() && u != -1 && 0 <= blk && buf != data
      modifies this, buf, miss, ctl, data
      ensures unit == u && on == old(on) && (Valid() || (rw.FWrite? && err == 0 && (!on || 2 * buf.Length > nblks)))
      ensures rw.FRead? && err == 0 ==> forall i: nat :: i < buf.Length ==> buf[i] == old(devices)(u, blk + i)
      ensures rw.FRead? && err == 0 && buf.Length == 1 && !Bypass(1) ==> Cached(ctl[..], blk)
      ensures |log| >= |old(log)| && log[..|old(log)|] == old(log) && ErrorOf(log[|old(log)|..], err)
      ensures rw.FWrite? || !on || 2 * buf.Length > nblks ==> log[|old(log)|..] == [Xfer(rw, u, blk, buf.Length, err)]
      ensures rw.FRead? && on && 2 * buf.Length <= nblks && old(unit) == u ==>
                ReadsOnly(log[|old(log)|..], u, NotFresh(old(ctl[..]), blk, buf.Length, clock))
      ensures rw.FRead? && on && 2 * buf.Length <= nblks && old(unit) == u && err == 0 ==>
                forall b :: b in NotFresh(old(ctl[..]), blk, buf.Length, old(clock)) ==> Covered(log[|old(log)|..], b)
      ensures rw.FRead? && on && 2 * buf.Length <= nblks && old(unit) != u && err == 0 ==>
                forall b :: blk <= b < blk + buf.Length ==> Covered(log[|old(log)|..], b)
      ensures rw.FRead? && on && 2 * buf.Length <= nblks && old(unit) == u ==>
                (forall b :: blk <= b < blk + buf.Length ==> Fresh(old(ctl[..]), b, clock)) ==>
                err == 0 && log == old(log)
      ensures Bypass(buf.Length) && old(unit) == u ==> ctl[..] == old(ctl[..]) && data[..] == old(data[..])
      ensures (old(unit) != u || InOrder(old(ctl[..]), old(bcount))) && old(bcount) + buf.Length <= WRAP ==>
                && InOrder(ctl[..], bcount) && old(bcount) <= bcount <= old(bcount) + buf.Length
                && (on && 2 * buf.Length <= nblks && old(unit) == u && err == 0 ==>
                      AllFreshAt(ctl[..], old(clock), if rw.FWrite? then Range(blk, buf.Length)
                                                      else NotFresh(old(ctl[..]), blk, buf.Length, old(clock))))
      ensures rw.FRead? && on && 2 * buf.Length <= nblks && old(unit) != u && err == 0 ==>
                AllOrLost(ctl[..], blk, buf.Length, old(bcount))
      ensures rw.FRead? || err != 0 ==> devices == old(devices)
      ensures rw.FWrite? && err == 0 ==> forall v, b :: devices(v, b) == if v == u && blk <= b < blk + buf.Length then
              old(buf[..])[b - blk] else old(devices)(v, b)
      ensures rw.FWrite? && Bypass(buf.Length) && err == 0 ==>
                (Agrees(0, 0) <==> forall i: nat :: i < nblks && blk <= ctl[i].blkno < blk + buf.Length ==>
                  data[i] == old(buf[..])[ctl[i].blkno - blk])
    {
      hide Fresh, Covered, ReadsOnly, NotFresh, Cached, Coherent, AllOk, ErrorOf, InOrder, AllFreshAt, AllOrLost,
           Emptied;
      if unit != u {
        Flush();
        unit := u;
        FlushedAgrees();
        EmptiedInOrder(ctl[..], bcount);
      }
      ghost var log0 := log;
      if Bypass(buf.Length) {
        if rw.FRead? {
          err := DevRead(u, blk, buf.Length, buf, 0);
        } else {
          ghost var dev := Device();
          err := DevWrite(u, blk, buf[..]);
          if err == 0 {
            BypassedWrite(ctl[..], data[..], dev, Device(), blk, blk + buf.Length);
          }
        }
      } else if rw.FRead? {
        ghost var slots, n0, from := ctl[..], |log|, clock;
        err := ReadStrategy(blk, buf);
        if old(unit) != u {
          NoneFresh(slots, blk, buf.Length, from);
        }
        if forall b :: blk <= b < blk + buf.Length ==> Fresh(slots, b, clock) {
          AllFresh(slots, blk, buf.Length, clock);
          NothingToRead(log[n0..], u, NotFresh(slots, blk, buf.Length, clock), err);
        }
      } else {
        err := WriteStrategy(blk, buf);
      }
      if rw.FWrite? || Bypass(buf.Length) {
        assert log[|log0|..] == [Xfer(rw, u, blk, buf.Length, err)];
        OneTransfer(Xfer(rw, u, blk, buf.Length, err));
      }
    }

    /** Requests that go around the cache. */
    predicate Bypass(n: nat)
      reads this`on
    {
      !on || 2 * n > nblks
    }

    lemma FlushedAgrees()
      requires ctl.Length == nblks && data.Length == nblks && forall i :: 0 <= i < nblks ==> ctl[i].blkno == -1
      ensures Agrees(0, 0)
    {
      forall j: nat | j < nblks ensures SlotOk(ctl[..], data[..], Device(), 0, 0, j) {
      }
    }
  }

  /** The blocks of a request of which no slot is fresh at `now`. */
  ghost function NotFresh(ctl: seq<Ctl>, blk: int, n: nat, now: int): set<int> {
    set b | blk <= b < blk + n && !Fresh(ctl, b, now)
  }

  lemma AllFresh(ctl: seq<Ctl>, blk: int, n: nat, now: int)
    requires forall b :: blk <= b < blk + n ==> Fresh(ctl, b, now)
    ensures NotFresh(ctl, blk, n, now) == {}
  {
    hide Fresh;
  }

  lemma NoneFresh(ctl: seq<Ctl>, blk: int, n: nat, now: int)
    requires 0 <= blk && forall i :: 0 <= i < |ctl| ==> ctl[i].blkno == -1
    ensures forall b :: blk <= b < blk + n ==> b in NotFresh(ctl, blk, n, now)
  {
  }

  ghost function Missed(miss: seq<bool>, blk: int, n: nat): set<int>
    requires n <= |miss|
  {
    set i | 0 <= i < n && miss[i] :: blk + i
  }

  lemma MissedIsNotFresh(ctl: seq<Ctl>, miss: seq<bool>, blk: int, n: nat, from: int, to: int)
    requires n <= |miss| && from <= to
    requires forall i: nat :: i < n ==> if miss[i] then !Fresh(ctl, blk + i, to) else Fresh(ctl, blk + i, from)
    ensures NotFresh(ctl, blk, n, from) <= Missed(miss, blk, n) <= NotFresh(ctl, blk, n, to)
  {
    hide Fresh;
    forall b | b in NotFresh(ctl, blk, n, from) ensures b in Missed(miss, blk, n) {
      var i: nat := b - blk;
      assert miss[i];
    }
  }

  /** Of the first `k` blocks those missed have been transferred. */
  ghost predicate Caught(xs: seq<Xfer>, miss: seq<bool>, blk: int, k: nat)
    requires k <= |miss|
  {
    forall j: nat :: j < k && miss[j] ==> Covered(xs, blk + j)
  }

  lemma RunOfMisses(xs: seq<Xfer>, x: Xfer, miss: seq<bool>, blk: int, n: nat, from: nat, to: nat)
    requires from < to <= n <= |miss| && x.blk == blk + from && x.n == to - from
    requires Caught(xs, miss, blk, from) && forall j :: from <= j < to ==> miss[j]
    ensures forall b :: Covers(x, b) ==> b in Missed(miss, blk, n)
    ensures Caught(xs + [x], miss, blk, to)
  {
    forall b | Covers(x, b) ensures b in Missed(miss, blk, n) {
      var j: nat := b - blk;
      assert miss[j];
    }
    assert (xs + [x])[|xs|] == x;
    forall j: nat | j < to && miss[j] ensures Covered(xs + [x], blk + j) {
      if j < from {
        assert Covered(xs, blk + j);
        var k :| 0 <= k < |xs| && Covers(xs[k], blk + j);
        assert Covers((xs + [x])[k], blk + j);
      }
    }
  }

  /** Every block of a request is cached, if the counts allow; if not, one is not. */
  ghost predicate AllOrLost(ctl: seq<Ctl>, blk: int, n: nat, c: int) {
    (forall b :: blk <= b < blk + n ==> Cached(ctl, b)) <==> n <= 1 || c + n <= WRAP + 1
  }

  /** The second loop of a read: the misses of a request, the count and the time at its start, and
      whether counts are and stay in order. */
  datatype Run = Run(unit: int, miss: seq<bool>, blk: int, b0: nat, t: int, inOrder: bool)

  /** The blocks missed among the first `k` have been transferred, and no other, and they are in the
      cache. */
  ghost predicate RunOk(r: Run, done: seq<Xfer>, ctl: seq<Ctl>, c: int, k: nat) {
    && k <= |r.miss| && AllOk(done) && ErrorOf(done, 0)
    && ReadsOnly(done, r.unit, Missed(r.miss, r.blk, |r.miss|)) && Caught(done, r.miss, r.blk, k)
    && (r.inOrder ==> r.b0 <= c <= r.b0 + k && r.b0 + |r.miss| <= WRAP
                      && Kept(ctl, r.b0, c, r.t, Missed(r.miss, r.blk, k)))
  }

  ghost predicate RunFailed(r: Run, done: seq<Xfer>, err: int, ctl: seq<Ctl>, c: int) {
    && ErrorOf(done, err) && ReadsOnly(done, r.unit, Missed(r.miss, r.blk, |r.miss|))
    && (r.inOrder ==> r.b0 <= c <= r.b0 + |r.miss| && InOrder(ctl, c))
  }

  lemma RunStarts(r: Run, ctl: seq<Ctl>)
    requires r.inOrder ==> InOrder(ctl, r.b0) && r.b0 + |r.miss| <= WRAP
    ensures RunOk(r, [], ctl, r.b0, 0)
  {
    if r.inOrder {
      NothingKept(ctl, r.b0, r.t);
      assert Missed(r.miss, r.blk, 0) == {};
    }
  }

  /** A transfer of the misses from `off` to `end`. */
  ghost predicate RunNext(r: Run, done: seq<Xfer>, x: Xfer, ctl: seq<Ctl>, c: int, off: nat, end: nat) {
    && off < end <= |r.miss| && (forall j :: off <= j < end ==> r.miss[j]) && RunOk(r, done, ctl, c, off)
    && x.rw.FRead? && x.unit == r.unit && x.blk == r.blk + off && x.n == end - off
  }

  lemma RunFails(r: Run, done: seq<Xfer>, x: Xfer, ctl: seq<Ctl>, c: int, off: nat, end: nat)
    requires RunNext(r, done, x, ctl, c, off, end) && x.err != 0
    ensures RunFailed(r, done + [x], x.err, ctl, c)
  {
    hide Caught, ReadsOnly, AllOk, ErrorOf, Missed;
    RunOfMisses(done, x, r.miss, r.blk, |r.miss|, off, end);
    OneMore(done, x, r.unit, Missed(r.miss, r.blk, |r.miss|));
  }

  lemma RunGoes(r: Run, done: seq<Xfer>, x: Xfer, ctl: seq<Ctl>, c: nat, off: nat, end: nat, now: int,
                ctl': seq<Ctl>)
    requires RunNext(r, done, x, ctl, c, off, end) && x.err == 0 && r.t <= now && r.blk >= 0 && end <= |ctl|
    requires var g := Insertions(ctl, r.b0, c, r.t, Missed(r.miss, r.blk, off), r.blk + off, end - off);
             Going(g, now, ctl', g.n)
    ensures RunOk(r, done + [x], ctl', Wrapped(c + (end - off)), end)
  {
    hide Caught, ReadsOnly, AllOk, ErrorOf, Missed, Kept, AllFreshAt;
    RunOfMisses(done, x, r.miss, r.blk, |r.miss|, off, end);
    OneMore(done, x, r.unit, Missed(r.miss, r.blk, |r.miss|));
    MissedRun(r.miss, r.blk, off, end);
    if r.inOrder {
      KeptIsFresh(ctl, r.b0, c, r.t, Missed(r.miss, r.blk, off));
    }
  }

  lemma InvalidateInOrder(ctl: seq<Ctl>, ctl': seq<Ctl>, b: int, c: nat)
    requires Invalidated(ctl, ctl', b)
    ensures InOrder(ctl, c) ==> InOrder(ctl', c)
  {
  }

  /** Insertions into a cache whose counts are in order. */
  lemma AllKept(g: Insertions, now: int, ctl: seq<Ctl>)
    requires InOrder(g.ctl, g.c) && g.from == g.c && g.bs == {} && Going(g, now, ctl, g.n) && g.t == now
    requires g.n <= |g.ctl| && g.c + g.n <= WRAP
    ensures InOrder(ctl, g.c + g.n) && AllFreshAt(ctl, now, Range(g.blk, g.n))
  {
    NothingKept(g.ctl, g.c, g.t);
    assert g.bs + Range(g.blk, g.n) == Range(g.blk, g.n);
  }

  lemma EmptiedInOrder(ctl: seq<Ctl>, c: nat)
    requires forall i :: 0 <= i < |ctl| ==> ctl[i].blkno == -1 && ctl[i].count == -1
    ensures Emptied(ctl) && (c <= WRAP ==> InOrder(ctl, c))
  {
  }

  /** One transfer of a whole request into an empty cache. */
  lemma AllGo(g: Insertions, now: int, ctl: seq<Ctl>)
    requires Emptied(g.ctl) && g.from == g.c && g.bs == {} && Going(g, now, ctl, g.n) && g.t <= now
    requires 0 < g.n <= |g.ctl| && Cached(ctl, g.blk + g.n - 1)
    ensures AllOrLost(ctl, g.blk, g.n, g.c)
  {
    hide Losing, Kept;
    if g.c <= WRAP {
      NothingKept(g.ctl, g.c, g.t);
    }
    if g.n > 1 && g.c + g.n <= WRAP + 1 {
      FreshAreCached(ctl, g.t, g.bs + Range(g.blk, g.n));
    } else if g.n > 1 {
      LosingEnds(ctl, g.blk, g.c, g.n);
    }
  }

  lemma NoneLost(ctl: seq<Ctl>, blk: int, c: int)
    ensures AllOrLost(ctl, blk, 0, c)
  {
  }

  lemma FreshAtEarlier(ctl: seq<Ctl>, t: int, t': int, bs: set<int>, bs': set<int>)
    requires t <= t' && bs <= bs'
    ensures AllFreshAt(ctl, t', bs') ==> AllFreshAt(ctl, t, bs)
  {
    hide Fresh;
    if AllFreshAt(ctl, t', bs') {
      forall b <- bs ensures Fresh(ctl, b, t + 2) {
        FreshEarlier(ctl, b, t + 2, t' + 2);
      }
    }
  }

  lemma AllMissed(ctl: seq<Ctl>, miss: seq<bool>, blk: int, from: int)
    requires Emptied(ctl) && blk >= 0 && NotFresh(ctl, blk, |miss|, from) <= Missed(miss, blk, |miss|)
    ensures forall i: nat :: i < |miss| ==> miss[i]
  {
    NoneFresh(ctl, blk, |miss|, from);
    forall i: nat | i < |miss| ensures miss[i] {
      assert blk + i in NotFresh(ctl, blk, |miss|, from);
    }
  }

  lemma FreshAreCached(ctl: seq<Ctl>, t: int, bs: set<int>)
    requires AllFreshAt(ctl, t, bs)
    ensures forall b <- bs :: Cached(ctl, b)
  {
    forall b <- bs ensures Cached(ctl, b) {
      assert Fresh(ctl, b, t + 2);
    }
  }

  /** Blocks below `k` and those not missed are in the buffer. */
  ghost predicate Delivered(buf: seq<Block>, devices: Devices, r: Run, k: nat) {
    |buf| == |r.miss| && forall i :: 0 <= i < |buf| && (i < k || !r.miss[i]) ==> buf[i] == devices(r.unit, r.blk + i)
  }

  lemma DeliveredSkips(buf: seq<Block>, devices: Devices, r: Run, k: nat)
    requires Delivered(buf, devices, r, k) && k < |r.miss| && !r.miss[k]
    ensures Delivered(buf, devices, r, k + 1)
  {
  }

  lemma RunSkips(r: Run, done: seq<Xfer>, ctl: seq<Ctl>, c: int, k: nat)
    requires RunOk(r, done, ctl, c, k) && k < |r.miss| && !r.miss[k]
    ensures RunOk(r, done, ctl, c, k + 1)
  {
    hide ReadsOnly, AllOk, ErrorOf, Covered;
    assert Missed(r.miss, r.blk, k + 1) == Missed(r.miss, r.blk, k);
  }

  lemma RunEnds(r: Run, done: seq<Xfer>, ctl: seq<Ctl>, c: int)
    requires RunOk(r, done, ctl, c, |r.miss|)
    ensures var missed := Missed(r.miss, r.blk, |r.miss|);
            && ErrorOf(done, 0) && ReadsOnly(done, r.unit, missed) && (forall b :: b in missed ==> Covered(done, b))
            && (r.inOrder ==> r.b0 <= c <= r.b0 + |r.miss| && InOrder(ctl, c) && AllFreshAt(ctl, r.t, missed))
  {
    hide ReadsOnly, AllOk, ErrorOf, Covered;
    if r.inOrder {
      KeptIsFresh(ctl, r.b0, c, r.t, Missed(r.miss, r.blk, |r.miss|));
    }
  }

  lemma RunFailure(r: Run, done: seq<Xfer>, err: int, ctl: seq<Ctl>, c: int)
    requires RunFailed(r, done, err, ctl, c)
    ensures ErrorOf(done, err) && ReadsOnly(done, r.unit, Missed(r.miss, r.blk, |r.miss|))
    ensures r.inOrder ==> r.b0 <= c <= r.b0 + |r.miss| && InOrder(ctl, c)
  {
  }

  lemma NoneMissed(miss: seq<bool>, blk: int)
    ensures Missed(miss, blk, 0) == {}
  {
  }

  lemma MissedRun(miss: seq<bool>, blk: int, from: nat, to: nat)
    requires from <= to <= |miss| && forall j :: from <= j < to ==> miss[j]
    ensures Missed(miss, blk, to) == Missed(miss, blk, from) + Range(blk + from, to - from)
    ensures Missed(miss, blk, from) !! Range(blk + from, to - from)
  {
    forall b | b in Range(blk + from, to - from) ensures b in Missed(miss, blk, to) {
      var j: nat := b - blk;
      assert miss[j];
    }
  }

  /** Blocks that were not fresh are not so later. */
  lemma Wider(xs: seq<Xfer>, u: int, ctl: seq<Ctl>, bs: set<int>, blk: int, n: nat, now: int, now': int)
    requires ReadsOnly(xs, u, bs) && bs <= NotFresh(ctl, blk, n, now) && now <= now'
    ensures ReadsOnly(xs, u, NotFresh(ctl, blk, n, now'))
  {
    hide Fresh;
    forall b | b in bs ensures b in NotFresh(ctl, blk, n, now') {
      FreshEarlier(ctl, b, now, now');
    }
  }

  /** Reads of no block at all are no reads. */
  lemma NothingToRead(xs: seq<Xfer>, u: int, bs: set<int>, err: int)
    requires ReadsOnly(xs, u, bs) && bs == {} && ErrorOf(xs, err)
    ensures xs == [] && err == 0
  {
    if xs != [] {
      assert Covers(xs[0], xs[0].blk);
    }
  }

  /** An empty range is as good as any other. */
  lemma NoneLeft(ctl: seq<Ctl>, data: seq<Block>, dev: int -> Block, lo: int, hi: int)
    requires Coherent(ctl, data, dev, lo, hi) && hi <= lo
    ensures Coherent(ctl, data, dev, 0, 0)
  {
    forall i: nat | i < |ctl| ensures SlotOk(ctl, data, dev, 0, 0, i) {
      assert SlotOk(ctl, data, dev, lo, hi, i);
    }
  }

  /** A run that leaves a stale block behind: two slots, block 0 cached by a read of one
      block, and then rewritten by a write of two blocks, which goes around the cache. */
  method BypassedWriteStale() returns (c: BCache, err: int, err': int)
    ensures fresh(c) && c.nblks == 2 && !c.Bypass(1) && c.Bypass(2)
    ensures err == 0 && err' == 0 ==>
              c.devices(0, 0) == [2] && HoldsAs(c.ctl[..], c.data[..], 0, [1]) && c.unit == 0 && !c.Agrees(0, 0)
  {
    hide Coherent, Cached, HoldsAs;
    c := new BCache(2, (_, _) => [1]);
    var one := new Block[1](_ => []);
    err := c.Strategy(0, FRead, 0, one);
    if err == 0 {
      CachedHolds(c.ctl[..], c.data[..], c.Device(), 0);
    }
    var two := new Block[2](_ => [2]);
    err' := c.Strategy(0, FWrite, 0, two);
    if err == 0 && err' == 0 {
      OneIsNotTwo();
      HeldOtherwise(c.ctl[..], c.data[..], c.Device(), 0, [1]);
    }
  }

  /** Blocks written are read back without a transfer, if the read ends before the time-out and
      fewer than 2^31 blocks have been inserted. */
  method ReadBack(c: BCache, u: int, blk: int, buf: array<Block>, into: array<Block>) returns (err: int, err': int)
    requires c.Valid() && c.unit == u != -1 && 0 <= blk && c.on && 2 * buf.Length <= c.nblks
    requires buf != c.data && into != c.data && into != buf && into.Length == buf.Length
    requires InOrder(c.ctl[..], c.bcount) && c.bcount + buf.Length <= WRAP
    modifies c, buf, into, c.miss, c.ctl, c.data
    ensures err == 0 && c.clock <= old(c.clock) + 2 ==>
              err' == 0 && into[..] == old(buf[..]) && c.log == old(c.log) + [Xfer(FWrite, u, blk, buf.Length, 0)]
  {
    hide Fresh, Coherent, Covered, ErrorOf, InOrder, NotFresh;
    ghost var log0, blocks, t := c.log, buf[..], c.clock;
    err := c.Strategy(u, FWrite, blk, buf);
    if err != 0 {
      return err, 0;
    }
    assert c.log == log0 + c.log[|log0|..];
    ghost var slots := c.ctl[..];
    err' := c.Strategy(u, FRead, blk, into);
    if c.clock <= t + 2 {
      forall b | blk <= b < blk + buf.Length ensures Fresh(slots, b, c.clock) {
        assert b in Range(blk, buf.Length);
        FreshEarlier(slots, b, c.clock, t + 2);
      }
    }
  }

  lemma OneIsNotTwo()
    ensures var one: Block, two: Block := [1], [2]; one != two
  {
    var one: Block, two: Block := [1], [2];
    assert one[0] != two[0];
  }
}
