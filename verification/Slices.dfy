/**
 The walk over extended partitions in boot/common/disk.c.
 */
module Slices {

  const NDOSPART := 4
  const NEXTDOSPART := 32
  const DOSPTYP_EXT := 5

  /** struct dos_partition */
  datatype Part = Part(flag: nat, typ: nat, start: nat, size: nat)

  /** A sector as the loader sees it: its partition table and whether the magic is there. */
  datatype Sector = Unreadable | Sector(magic: bool, part: seq<Part>)

  type Table = s: seq<Part> | |s| == NDOSPART witness seq(NDOSPART, _ => Part(0, 0, 0, 0))

  type Disk = nat -> Sector

  /** The entries of a partition table that are in use, moved by `base` in 32 bits. */
  function InUse(part: seq<Part>, base: nat): seq<Part> {
    if part == [] then []
    else
      var rest := InUse(part[1..], base);
      if part[0].size == 0 then rest else [part[0].(start := (part[0].start + base) % 0x1_0000_0000)] + rest
  }

  lemma {:induction false} InUsePush(part: seq<Part>, base: nat, i: nat)
    requires i < |part|
    ensures InUse(part[..i + 1], base) == InUse(part[..i], base) + InUse([part[i]], base)
  {
    if i > 0 {
      assert part[..i + 1][1..] == part[1..][..i] && part[..i][1..] == part[1..][..i - 1];
      InUsePush(part[1..], base, i - 1);
    } else {
      assert part[..1] == [part[0]];
    }
  }

  lemma {:induction false} InUseGrows(part: seq<Part>, base: nat, i: nat)
    requires i <= |part|
    ensures |InUse(part[..i], base)| <= |InUse(part, base)|
    ensures InUse(part, base)[..|InUse(part[..i], base)|] == InUse(part[..i], base)
    decreases |part| - i
  {
    if i < |part| {
      InUsePush(part, base, i);
      InUseGrows(part, base, i + 1);
    } else {
      assert part[..i] == part;
    }
  }

  /** How many of the first `i` entries of a partition table are not empty. */
  ghost function Used(part: seq<Part>, i: nat): nat
    requires i <= |part|
  {
    |set j | 0 <= j < i && part[j].size != 0|
  }

  lemma UsedNext(part: seq<Part>, i: nat)
    requires i < |part|
    ensures Used(part, i + 1) == Used(part, i) + if part[i].size != 0 then 1 else 0
  {
    var before, after := set j | 0 <= j < i && part[j].size != 0, set j | 0 <= j < i + 1 && part[j].size != 0;
    assert after == if part[i].size != 0 then before + {i} else before;
  }

  /** Where each entry goes and what becomes of it. */
  lemma {:induction false} InUseAt(part: seq<Part>, base: nat, n: nat, i: nat)
    requires i <= n <= |part|
    ensures |InUse(part[..n], base)| == Used(part, n)
    ensures i < n && part[i].size != 0 ==>
              && Used(part, i) < Used(part, n)
              && InUse(part[..n], base)[Used(part, i)]
                 == Part(part[i].flag, part[i].typ, (part[i].start + base) % 0x1_0000_0000, part[i].size)
  {
    if n > 0 {
      InUsePush(part, base, n - 1);
      InUseAt(part, base, n - 1, if i < n then i else n - 1);
      UsedNext(part, n - 1);
    }
  }

  /** The slices inside a slice are those of the entries in use of the table that starts it, at
      32-bit addresses counted from that start, provided it is extended and has a table. */
  lemma InsideExact(disk: Disk, p: Part, q: Part)
    ensures q in Inside(disk, p) <==>
              && p.size != 0 && p.typ == 5 && disk(p.start).Sector? && disk(p.start).magic
              && exists i :: 0 <= i < |disk(p.start).part| && var e := disk(p.start).part[i];
                   e.size != 0 && q == Part(e.flag, e.typ, (e.start + p.start) % 0x1_0000_0000, e.size)
  {
    if disk(p.start).Sector? {
      InUseFrom(disk(p.start).part, p.start, q);
    }
  }

  lemma {:induction false} InUseFrom(part: seq<Part>, base: nat, q: Part)
    ensures q in InUse(part, base) <==>
              exists i :: 0 <= i < |part| && part[i].size != 0
                && q == Part(part[i].flag, part[i].typ, (part[i].start + base) % 0x1_0000_0000, part[i].size)
  {
    if part != [] {
      InUseFrom(part[1..], base, q);
      assert forall i :: 1 <= i < |part| ==> part[i] == part[1..][i - 1];
    }
  }

  /** The slices inside slice `p`: those of its table, if it is extended and has one. */
  function Inside(disk: Disk, p: Part): seq<Part> {
    if p.size == 0 || p.typ != DOSPTYP_EXT then []
    else
      match disk(p.start)
      case Unreadable => []
      case Sector(magic, part) => if magic then InUse(part, p.start) else []
  }

  lemma InsideIs(disk: Disk, p: Part)
    ensures p.size == 0 || p.typ != DOSPTYP_EXT || disk(p.start).Unreadable? || !disk(p.start).magic ==>
              Inside(disk, p) == []
    ensures p.size != 0 && p.typ == DOSPTYP_EXT && disk(p.start).Sector? && disk(p.start).magic ==>
              Inside(disk, p) == InUse(disk(p.start).part, p.start)
  {
    hide InUse;
  }

  // ----- The walk as a function -----

  /** The slice table so far, the slots examined, in order, and whether a slice found no room. */
  datatype Walk = Walk(tab: seq<Part>, trace: seq<nat>, dropped: bool)

  /** disk_checkextended: the slices inside slot `i` are added, and examined if all fitted. */
  function Check(disk: Disk, w: Walk, i: nat): (w': Walk)
    requires i < |w.tab| <= NEXTDOSPART
    ensures |w.tab| <= |w'.tab| <= NEXTDOSPART
    decreases NEXTDOSPART - |w.tab|, 0
  {
    var add := Inside(disk, w.tab[i]);
    var trace := w.trace + [i];
    if add == [] then w.(trace := trace)
    else if |w.tab| + |add| > NEXTDOSPART then Walk(w.tab + add[..NEXTDOSPART - |w.tab|], trace, true)
    else CheckRange(disk, Walk(w.tab + add, trace, w.dropped), |w.tab|, |w.tab| + |add|)
  }

  function CheckRange(disk: Disk, w: Walk, i: nat, end: nat): (w': Walk)
    requires i <= end <= |w.tab| <= NEXTDOSPART
    ensures |w.tab| <= |w'.tab| <= NEXTDOSPART
    decreases NEXTDOSPART - |w.tab|, end - i
  {
    if i == end then w else CheckRange(disk, Check(disk, w, i), i + 1, end)
  }

  lemma NothingAdded(disk: Disk, w: Walk, i: nat)
    requires i <= |w.tab| <= NEXTDOSPART
    ensures CheckRange(disk, w, i, i) == w
  {
  }

  lemma RangeStep(disk: Disk, w: Walk, i: nat, end: nat)
    requires i < end <= |w.tab| <= NEXTDOSPART
    ensures CheckRange(disk, w, i, end) == CheckRange(disk, Check(disk, w, i), i + 1, end)
  {
  }

  // ----- What a walk does -----

  /** From `w` to `w'`, slots [i, end) and those added were examined: none twice, every one if
      every slice found room. */
  ghost predicate Traced(w: Walk, w': Walk, i: nat, end: nat) {
    && |w.trace| <= |w'.trace| && w.trace == w'.trace[..|w.trace|]
    && var more := w'.trace[|w.trace|..];
    && (forall a, b :: 0 <= a < b < |more| ==> more[a] != more[b])
    && (forall k :: k in more ==> Due(|w.tab|, |w'.tab|, i, end, k))
    && (!w'.dropped ==> forall k :: Due(|w.tab|, |w'.tab|, i, end, k) ==> k in more)
  }

  predicate Due(n: nat, n': nat, i: nat, end: nat, k: int) {
    i <= k < end || n <= k < n'
  }

  /** All slices inside slot `k` are in the table. */
  ghost predicate Closed(disk: Disk, tab: seq<Part>, k: int)
    requires 0 <= k < |tab|
  {
    forall p :: p in Inside(disk, tab[k]) ==> p in tab
  }

  /** Slot `k` is inside a lower slot. */
  ghost predicate HasParent(disk: Disk, tab: seq<Part>, k: int)
    requires 0 <= k < |tab|
  {
    exists j :: 0 <= j < k && tab[k] in Inside(disk, tab[j])
  }

  /** Slots added are inside slots examined, which have all their slices in the table unless one
      found no room. */
  ghost predicate Examines(disk: Disk, w: Walk, w': Walk, i: nat, end: nat)
    requires i <= end <= |w.tab|
  {
    var n, n' := |w.tab|, |w'.tab|;
    && n <= n' <= NEXTDOSPART && w.tab == w'.tab[..n] && Traced(w, w', i, end)
    && (w.dropped ==> w'.dropped) && (w'.dropped ==> w.dropped || n' == NEXTDOSPART)
    && (!w'.dropped ==> forall k :: Due(n, n', i, end, k) ==> Closed(disk, w'.tab, k))
    && (forall k :: n <= k < n' ==> HasParent(disk, w'.tab, k))
  }

  /** What a slot was found to be stays so when slots are added. */
  lemma MoreSlots(disk: Disk, tab: seq<Part>, tab': seq<Part>, k: nat)
    requires k < |tab| <= |tab'| && tab == tab'[..|tab|]
    ensures Closed(disk, tab, k) ==> Closed(disk, tab', k)
    ensures HasParent(disk, tab, k) ==> HasParent(disk, tab', k)
  {
    hide Inside;
    assert forall j :: 0 <= j < |tab| ==> tab[j] == tab'[j];
  }

  lemma TracedThen(w: Walk, w1: Walk, w2: Walk, i: nat, end: nat)
    requires i < end <= |w.tab| <= |w1.tab| <= |w2.tab| && (w1.dropped ==> w2.dropped)
    requires Traced(w, w1, i, i + 1) && Traced(w1, w2, i + 1, end)
    ensures Traced(w, w2, i, end)
  {
    var more1, more2, more := w1.trace[|w.trace|..], w2.trace[|w1.trace|..], w2.trace[|w.trace|..];
    var n, n1, n2 := |w.tab|, |w1.tab|, |w2.tab|;
    assert more == more1 + more2;
    assert forall k :: k in more <==> k in more1 || k in more2;
    assert forall k :: Due(n, n2, i, end, k) <==> Due(n, n1, i, i + 1, k) || Due(n1, n2, i + 1, end, k);
    forall a, b | 0 <= a < b < |more| ensures more[a] != more[b] {
      assert a < |more1| ==> more1[a] in more1 && Due(n, n1, i, i + 1, more[a]);
      assert b >= |more1| ==> more2[b - |more1|] in more2 && Due(n1, n2, i + 1, end, more[b]);
    }
  }

  lemma ExaminesThen(disk: Disk, w: Walk, w1: Walk, w2: Walk, i: nat, end: nat)
    requires i < end <= |w.tab| && Examines(disk, w, w1, i, i + 1) && Examines(disk, w1, w2, i + 1, end)
    ensures Examines(disk, w, w2, i, end)
  {
    hide Traced, Closed, HasParent;
    TracedThen(w, w1, w2, i, end);
    var n, n1, n2 := |w.tab|, |w1.tab|, |w2.tab|;
    assert w2.tab[..n] == w1.tab[..n];
    forall k | 0 <= k < n1
      ensures Closed(disk, w1.tab, k) ==> Closed(disk, w2.tab, k)
      ensures HasParent(disk, w1.tab, k) ==> HasParent(disk, w2.tab, k)
    {
      MoreSlots(disk, w1.tab, w2.tab, k);
    }
    assert forall k :: Due(n, n2, i, end, k) <==> Due(n, n1, i, i + 1, k) || Due(n1, n2, i + 1, end, k);
  }

  lemma {:induction false} CheckExamines(disk: Disk, w: Walk, i: nat)
    requires i < |w.tab| <= NEXTDOSPART
    ensures Examines(disk, w, Check(disk, w, i), i, i + 1)
    decreases NEXTDOSPART - |w.tab|, 0
  {
    var add, w' := Inside(disk, w.tab[i]), Check(disk, w, i);
    var n := |w.tab|;
    if add == [] || n + |add| > NEXTDOSPART {
      assert w'.trace[|w.trace|..] == [i];
    } else {
      var w1 := Walk(w.tab + add, w.trace + [i], w.dropped);
      RangeExamines(disk, w1, n, n + |add|);
      AddedExamines(disk, w, w', i);
    }
  }

  lemma AddedTraced(w: Walk, w1: Walk, w': Walk, i: nat)
    requires i < |w.tab| <= |w1.tab| <= |w'.tab| && w1.trace == w.trace + [i] && Traced(w1, w', |w.tab|, |w1.tab|)
    ensures Traced(w, w', i, i + 1)
  {
    var n, n', more1, more := |w.tab|, |w'.tab|, w'.trace[|w1.trace|..], w'.trace[|w.trace|..];
    assert w'.trace[|w.trace|] == w1.trace[|w.trace|] == i;
    assert more == [i] + more1;
    assert w'.trace[..|w.trace|] == w1.trace[..|w.trace|];
    forall k ensures Due(n, n', i, i + 1, k) <==> k == i || Due(|w1.tab|, n', n, |w1.tab|, k) {
    }
    forall k ensures k in more <==> k == i || k in more1 {
      assert k in [i] + more1 <==> k in [i] || k in more1;
    }
    forall a, b | 0 <= a < b < |more| ensures more[a] != more[b] {
      assert more1[b - 1] in more1 && more[b] == more1[b - 1];
      assert a > 0 ==> more[a] == more1[a - 1];
    }
  }

  /** Examining the slots just added completes the examination of the slot they came from. */
  lemma AddedExamines(disk: Disk, w: Walk, w': Walk, i: nat)
    requires i < |w.tab|
    requires var add := Inside(disk, w.tab[i]);
             Examines(disk, Walk(w.tab + add, w.trace + [i], w.dropped), w', |w.tab|, |w.tab| + |add|)
    ensures Examines(disk, w, w', i, i + 1)
  {
    hide Traced, Inside;
    var add, n, n' := Inside(disk, w.tab[i]), |w.tab|, |w'.tab|;
    var w1 := Walk(w.tab + add, w.trace + [i], w.dropped);
    AddedTraced(w, w1, w', i);
    assert forall k :: 0 <= k < |w1.tab| ==> w'.tab[k] == w1.tab[k];
    assert w'.tab[..n] == w.tab;
    forall k | n <= k < n' ensures HasParent(disk, w'.tab, k) {
      if k < n + |add| {
        assert w'.tab[k] == add[k - n];
      }
    }
    assert Closed(disk, w'.tab, i) by {
      forall p | p in add ensures p in w'.tab {
        var k :| 0 <= k < |add| && add[k] == p;
        assert w'.tab[n + k] == p;
      }
    }
    forall k | Due(n, n', i, i + 1, k) && !w'.dropped ensures Closed(disk, w'.tab, k) {
      assert k == i || Due(|w1.tab|, n', n, n + |add|, k);
    }
  }

  lemma {:induction false} RangeExamines(disk: Disk, w: Walk, i: nat, end: nat)
    requires i <= end <= |w.tab| <= NEXTDOSPART
    ensures Examines(disk, w, CheckRange(disk, w, i, end), i, end)
    decreases NEXTDOSPART - |w.tab|, end - i
  {
    if i < end {
      var w1 := Check(disk, w, i);
      CheckExamines(disk, w, i);
      RangeExamines(disk, w1, i + 1, end);
      ExaminesThen(disk, w, w1, CheckRange(disk, w1, i + 1, end), i, end);
    }
  }

  // ----- Reachability -----

  /** A chain of slices, the first in the boot record's table and each inside the one before. */
  ghost predicate Path(disk: Disk, mbr: seq<Part>, path: seq<Part>) {
    && path != [] && path[0] in mbr
    && forall k :: 0 < k < |path| ==> path[k] in Inside(disk, path[k - 1])
  }

  ghost predicate Reachable(disk: Disk, mbr: seq<Part>, p: Part) {
    exists path :: Path(disk, mbr, path) && path[|path| - 1] == p
  }

  /** The whole walk of disk_readslicetab */
  function Slicetab(disk: Disk, mbr: Table): Walk {
    CheckRange(disk, Walk(mbr, [], false), 0, NDOSPART)
  }

  /** Whatever the disk holds, cyclic chains included, no slot is examined twice; only slots of
      the table are; and every slice found is one the boot record leads to. */
  lemma EachSlotAtMostOnce(disk: Disk, mbr: Table)
    ensures var w := Slicetab(disk, mbr);
            && |w.tab| <= NEXTDOSPART && w.tab[..NDOSPART] == mbr
            && (forall a, b :: 0 <= a < b < |w.trace| ==> w.trace[a] != w.trace[b])
            && (forall k :: k in w.trace ==> k < |w.tab|)
            && (w.dropped ==> |w.tab| == NEXTDOSPART)
            && forall p :: p in w.tab ==> Reachable(disk, mbr, p)
  {
    var w := Slicetab(disk, mbr);
    RangeExamines(disk, Walk(mbr, [], false), 0, NDOSPART);
    assert w.trace[|Walk(mbr, [], false).trace|..] == w.trace;
    assert forall k :: k in w.trace ==> Due(NDOSPART, |w.tab|, 0, NDOSPART, k);
    forall p | p in w.tab ensures Reachable(disk, mbr, p) {
      var k :| 0 <= k < |w.tab| && w.tab[k] == p;
      SlotReachable(disk, mbr, k);
    }
  }

  lemma {:induction false} SlotReachable(disk: Disk, mbr: Table, k: nat)
    requires k < |Slicetab(disk, mbr).tab|
    ensures Reachable(disk, mbr, Slicetab(disk, mbr).tab[k])
  {
    hide Traced, Closed, Inside, CheckRange;
    var w := Slicetab(disk, mbr);
    RangeExamines(disk, Walk(mbr, [], false), 0, NDOSPART);
    if k < NDOSPART {
      assert w.tab[k] == w.tab[..NDOSPART][k];
      assert Path(disk, mbr, [w.tab[k]]);
    } else {
      assert HasParent(disk, w.tab, k);
      var j :| 0 <= j < k && w.tab[k] in Inside(disk, w.tab[j]);
      SlotReachable(disk, mbr, j);
      var path :| Path(disk, mbr, path) && path[|path| - 1] == w.tab[j];
      assert Path(disk, mbr, path + [w.tab[k]]);
    }
  }

  /** If every slice found room, every slot is examined and the slices found are exactly those
      the boot record leads to. */
  lemma FindsExactlyTheReachable(disk: Disk, mbr: Table, p: Part)
    requires !Slicetab(disk, mbr).dropped
    ensures forall k :: 0 <= k < |Slicetab(disk, mbr).tab| ==> k in Slicetab(disk, mbr).trace
    ensures p in Slicetab(disk, mbr).tab <==> Reachable(disk, mbr, p)
  {
    var w := Slicetab(disk, mbr);
    EachSlotAtMostOnce(disk, mbr);
    RangeExamines(disk, Walk(mbr, [], false), 0, NDOSPART);
    assert w.trace[|Walk(mbr, [], false).trace|..] == w.trace;
    assert forall k :: 0 <= k < |w.tab| ==> Due(NDOSPART, |w.tab|, 0, NDOSPART, k);
    if Reachable(disk, mbr, p) {
      var path :| Path(disk, mbr, path) && path[|path| - 1] == p;
      PathInTable(disk, mbr, path, |path| - 1);
    }
  }

  lemma {:induction false} PathInTable(disk: Disk, mbr: Table, path: seq<Part>, k: nat)
    requires !Slicetab(disk, mbr).dropped && Path(disk, mbr, path) && k < |path|
    ensures path[k] in Slicetab(disk, mbr).tab
  {
    var w := Slicetab(disk, mbr);
    RangeExamines(disk, Walk(mbr, [], false), 0, NDOSPART);
    if k == 0 {
      var j :| 0 <= j < NDOSPART && mbr[j] == path[0];
      assert w.tab[j] == w.tab[..NDOSPART][j];
    } else {
      PathInTable(disk, mbr, path, k - 1);
      var j :| 0 <= j < |w.tab| && w.tab[j] == path[k - 1];
      assert Due(NDOSPART, |w.tab|, 0, NDOSPART, j);
    }
  }

  // ----- disk_checkextended and disk_readslicetab -----

  class SliceReader {
    const disk: Disk
    const slicetab: array<Part>
    var nslices: nat
    /** The slots examined so far, and whether a slice found no room. */
    ghost var trace: seq<nat>
    ghost var dropped: bool

    ghost predicate Valid()
      reads this
    {
      slicetab.Length == NEXTDOSPART && nslices <= NEXTDOSPART && forall s :: disk(s).Sector? ==>
        |disk(s).part| == NDOSPART
    }

    ghost function State(): Walk
      requires Valid()
      reads this, slicetab
    {
      Walk(slicetab[..nslices], trace, dropped)
    }

    constructor (disk: Disk)
      requires forall s :: disk(s).Sector? ==> |disk(s).part| == NDOSPART
      ensures Valid() && this.disk == disk && nslices == 0 && trace == [] && !dropped && fresh(slicetab)
    {
      this.disk := disk;
      slicetab := new Part[NEXTDOSPART](_ => Part(0, 0, 0, 0));
      nslices, trace, dropped := 0, [], false;
    }

    /** The loop that copies a table's entries behind the slices already there; false when
        there is no room for one. */
    method AddSlices(part: seq<Part>, base: nat) returns (fits: bool)
      requires Valid() && |part| == NDOSPART
      modifies this`nslices, slicetab
      ensures Valid()
      ensures fits <==> old(nslices) + |InUse(part, base)| <= NEXTDOSPART
      ensures fits ==> slicetab[..nslices] == old(slicetab[..nslices]) + InUse(part, base)
      ensures !fits ==>
                slicetab[..nslices] == old(slicetab[..nslices]) + InUse(part, base)[..NEXTDOSPART - old(nslices)]
    {
      var i := 0;
      while i < NDOSPART
        invariant 0 <= i <= NDOSPART && Valid()
        invariant slicetab[..nslices] == old(slicetab[..nslices]) + InUse(part[..i], base)
      {
        InUsePush(part, base, i);
        InUseGrows(part, base, i);
        InUseGrows(part, base, i + 1);
        if part[i].size != 0 {
          if nslices == NEXTDOSPART {
            return false;
          }
          slicetab[nslices] := part[i].(start := (part[i].start + base) % 0x1_0000_0000);
          nslices := nslices + 1;
        }
        i := i + 1;
      }
      assert part[..NDOSPART] == part;
      return true;
    }

    /** disk_checkextended */
    method CheckExtended(slicenum: nat)
      requires Valid() && slicenum < nslices
      modifies this`nslices, this`trace, this`dropped, slicetab
      ensures Valid() && State() == old(Check(disk, State(), slicenum))
      decreases NEXTDOSPART - nslices
    {
      hide InUse, Inside, CheckRange;
      var dp, start := slicetab[slicenum], nslices;
      InsideIs(disk, dp);
      trace := trace + [slicenum];
      if dp.size == 0 || dp.typ != DOSPTYP_EXT {
        return;
      }
      var buf := disk(dp.start);
      if buf.Unreadable? || !buf.magic {
        return;
      }
      ghost var w1 := Walk(slicetab[..nslices] + Inside(disk, dp), trace, dropped);
      var fits := AddSlices(buf.part, dp.start);
      if !fits {
        dropped := true;
        return;
      }
      var end, i := nslices, start;
      NothingAdded(disk, w1, start);
      while i < end
        invariant start <= i <= end <= nslices && Valid()
        invariant CheckRange(disk, State(), i, end) == CheckRange(disk, w1, start, end)
      {
        RangeStep(disk, State(), i, end);
        CheckExtended(i);
        i := i + 1;
      }
      NothingAdded(disk, State(), end);
    }

    /** disk_readslicetab, with -1 for a read error */
    method ReadSlicetab() returns (rc: int, found: bool)
      requires Valid() && nslices == 0 && trace == [] && !dropped
      modifies this`nslices, this`trace, this`dropped, slicetab
      ensures Valid() && (rc == 0 <==> disk(0).Sector?) && (found <==> disk(0).Sector? && disk(0).magic)
      ensures found ==> State() == Slicetab(disk, disk(0).part)
    {
      var buf := disk(0);
      if buf.Unreadable? {
        return -1, false;
      }
      if !buf.magic {
        return 0, false;
      }
      forall k | 0 <= k < NDOSPART {
        slicetab[k] := buf.part[k];
      }
      nslices := NDOSPART;
      assert slicetab[..nslices] == buf.part;
      var i := 0;
      while i < NDOSPART
        invariant 0 <= i <= NDOSPART <= nslices && Valid()
        invariant CheckRange(disk, State(), i, NDOSPART) == Slicetab(disk, buf.part)
      {
        CheckExtended(i);
        i := i + 1;
      }
      return 0, true;
    }
  }
}
