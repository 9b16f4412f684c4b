/**
 The boot-once protocol as a state machine over single sector writes: gptread,
 gptfind and gptbootfailed queue their writes, each write reaches the drive in
 turn, and a crash may come before any of them.
 */
module GptProtocol {
  import opened Options
  import opened GptFormat
  import opened GptSpec
  import opened GptGeometry
  import opened GptCopy

  // ----- The machine -----

  /** `returning` is the partition a running gptfind selected with both BOOTME and
      BOOTONCE; it joins `fired` when that gptfind returns.  `boots` records which
      copies each gptread accepted.  `trying`: a selected partition is being tried. */
  datatype St = St(disk: Disk, mem: Option<Mem>, pending: seq<Write>, returning: Option<nat>,
                   fired: seq<nat>, boots: seq<(bool, bool)>, trying: bool)

  function Start(d: Disk): St {
    St(d, None, [], None, [], [], false)
  }

  datatype Step =
    | Read(staleP: seq<Ent>, staleB: seq<Ent>)
    | Find(uuid: Bytes, part: int)
    | Fail
    | DoWrite
    | Return
    | Crash

  predicate Idle(s: St) {
    s.pending == [] && s.returning.None?
  }

  predicate Enabled(s: St, step: Step) {
    match step
    case Read(staleP, staleB) => Idle(s) && GoodTable(staleP) && GoodTable(staleB)
    case Find(_, _) => Idle(s) && s.mem.Some? && s.mem.value.Usable() && -1 <= s.mem.value.curent
    case Fail => Idle(s) && s.mem.Some? && s.mem.value.Selected()
    case DoWrite => s.pending != []
    case Return => s.pending == [] && s.returning.Some?
    case Crash => true
  }

  /** The selection a gptfind makes is of an entry that still has both flags. */
  predicate Fires(m: Mem, c: Choice)
    requires m.Usable()
  {
    BootsOnce(m, c) && m.Active().tab[c.curent].me
  }

  function Take(sum: Checksum, s: St, step: Step): St
    requires Enabled(s, step)
  {
    match step
    case Read(staleP, staleB) =>
      var m := GptRead(sum, s.disk, staleP, staleB);
      s.(mem := Some(m), pending := GptReadWrites(sum, s.disk, staleP, staleB),
         boots := s.boots + [(m.pri.Some?, m.bak.Some?)], trying := false)
    case Find(uuid, part) =>
      var m := s.mem.value;
      var c := Choose(m, uuid, part);
      s.(mem := Some(GptFind(sum, m, uuid, part)), pending := GptFindWrites(sum, m, uuid, part),
         returning := if Fires(m, c) then Some(c.curent) else None, trying := c.found)
    case Fail =>
      var m := s.mem.value;
      s.(mem := Some(GptBootFailed(sum, m)), pending := GptBootFailedWrites(sum, m), trying := false)
    case DoWrite => s.(disk := Put(s.disk, s.pending[0]), pending := s.pending[1..])
    case Return => s.(fired := s.fired + [s.returning.value], returning := None)
    case Crash => s.(mem := None, pending := [], returning := None, trying := false)
  }

  predicate CanRun(sum: Checksum, s: St, steps: seq<Step>)
    decreases |steps|
  {
    steps == [] || (Enabled(s, steps[0]) && CanRun(sum, Take(sum, s, steps[0]), steps[1..]))
  }

  function Run(sum: Checksum, s: St, steps: seq<Step>): St
    requires CanRun(sum, s, steps)
    decreases |steps|
  {
    if steps == [] then s else Run(sum, Take(sum, s, steps[0]), steps[1..])
  }

  // ----- Invariant -----

  ghost function Dis(s: St): set<nat> {
    set k | k in s.fired
  }

  ghost predicate SideSync(d: Disk, g: Geo, s: Side, o: Option<Copy>, dis: set<nat>)
    requires Sized(d, g)
  {
    o.Some? ==> Sync(d, g, s, o.value) && NoMe(o.value, dis)
  }

  /** The drive holds the copies in memory. */
  ghost predicate LiveSync(d: Disk, g: Geo, m: Mem, dis: set<nat>)
    requires Sized(d, g)
  {
    m.Good() && SideSync(d, g, P, m.pri, dis) && SideSync(d, g, B, m.bak, dis)
  }

  /** The write is for a copy in use, and safe there. */
  ghost predicate SafeWrite(w: Write, g: Geo, pri: bool, bak: bool, dis: set<nat>)
    requires g.Ok()
  {
    (pri && Safe(w, g, P, dis)) || (bak && Safe(w, g, B, dis))
  }

  ghost predicate LiveSafe(ws: seq<Write>, g: Geo, m: Mem, dis: set<nat>)
    requires g.Ok()
  {
    forall i :: 0 <= i < |ws| ==> SafeWrite(ws[i], g, m.pri.Some?, m.bak.Some?, dis)
  }

  /** A copy that is in use has `dis` disarmed on the drive; one that is not stays invalid. */
  ghost predicate SideQuiet(d: Disk, g: Geo, s: Side, live: bool, dis: set<nat>)
    requires Sized(d, g)
  {
    if live then Disarmed(d, g, s, dis) else !Valid(d, g, s)
  }

  ghost predicate Rest(d: Disk, g: Geo, s: Side, dis: set<nat>)
    requires Sized(d, g)
  {
    Valid(d, g, s) ==> Disarmed(d, g, s, dis)
  }

  ghost predicate MemInv(s: St, g: Geo, m: Mem)
    requires Sized(s.disk, g)
  {
    && -1 <= m.curent && s.boots != [] && s.boots[|s.boots| - 1] == (m.pri.Some?, m.bak.Some?)
    && LiveSync(Apply(s.disk, s.pending), g, m, Dis(s)) && LiveSafe(s.pending, g, m, Dis(s))
    && SideQuiet(s.disk, g, P, m.pri.Some?, Dis(s)) && SideQuiet(s.disk, g, B, m.bak.Some?, Dis(s))
    && (s.returning.Some? ==>
          && s.returning.value !in s.fired
          && LiveSync(Apply(s.disk, s.pending), g, m, Dis(s) + {s.returning.value}))
  }

  /** Copies rejected at the last boot are still invalid. */
  ghost predicate BootsInv(s: St, g: Geo)
    requires Sized(s.disk, g)
  {
    s.boots != [] ==>
      (!s.boots[|s.boots| - 1].0 ==> !Valid(s.disk, g, P)) && (!s.boots[|s.boots| - 1].1 ==> !Valid(s.disk, g, B))
  }

  ghost predicate Descending(boots: seq<(bool, bool)>) {
    forall i, j :: 0 <= i < j < |boots| ==> (boots[j].0 ==> boots[i].0) && (boots[j].1 ==> boots[i].1)
  }

  ghost predicate Distinct(fired: seq<nat>) {
    forall i, j :: 0 <= i < j < |fired| ==> fired[i] != fired[j]
  }

  ghost predicate Inv(s: St, g: Geo) {
    && Fits(s.disk, g) && Distinct(s.fired) && Descending(s.boots) && BootsInv(s, g)
    && match s.mem
       case None => Idle(s) && Rest(s.disk, g, P, Dis(s)) && Rest(s.disk, g, B, Dis(s))
       case Some(m) => MemInv(s, g, m)
  }

  // ----- What the operations do to both copies -----

  /** Writes for one side leave what the drive holds for the other. */
  lemma OtherSideKept(d: Disk, g: Geo, s: Side, ws: seq<Write>, o: Option<Copy>, dis: set<nat>)
    requires Fits(d, g) && AllSafe(ws, g, s, dis) && SideSync(d, g, Other(s), o, dis)
    ensures Fits(Apply(d, ws), g) && SideSync(Apply(d, ws), g, Other(s), o, dis)
  {
    hide Sync, Safe, Fits;
    ApplySafe(d, g, s, ws, dis);
    assert Sized(d, g) && Sized(Apply(d, ws), g) by { FitsSized(d, g); FitsSized(Apply(d, ws), g); }
    if o.Some? {
      SameFootSameSync(d, Apply(d, ws), g, Other(s), o.value);
    }
  }

  lemma FitsSized(d: Disk, g: Geo)
    requires Fits(d, g)
    ensures Sized(d, g)
  {
  }

  lemma EditSide(d: Disk, g: Geo, s: Side, o: Option<Copy>, k: nat, x: Edit, dis: set<nat>)
    requires Fits(d, g) && SideSync(d, g, s, o, dis) && k < 128 && (o.Some? ==> o.value.Good())
    ensures var ws := MapEditWrites(g.sum, o, k, x);
            && (o.None? ==> ws == []) && AllSafe(ws, g, s, dis)
            && Fits(Apply(d, ws), g) && SideSync(Apply(d, ws), g, s, MapEdit(g.sum, o, k, x), dis)
  {
    hide Sync, Safe, Fits, Sealed, UpdateWrites;
    if o.Some? {
      UpdateSyncs(d, g, s, o.value, k, x, dis);
      EditKeepsNoMe(o.value, k, x, dis);
    }
  }

  lemma EditBothInv(d: Disk, g: Geo, m: Mem, k: nat, x: Edit, dis: set<nat>)
    requires Fits(d, g) && LiveSync(d, g, m, dis) && k < 128
    ensures var ws, m' := EditBothWrites(g.sum, m, k, x), EditBoth(g.sum, m, k, x);
            && LiveSafe(ws, g, m, dis)
            && Fits(Apply(d, ws), g) && LiveSync(Apply(d, ws), g, m', dis)
  {
    hide Sync, Safe, Fits, MapEdit, MapEditWrites, NoMe;
    var ws1 := MapEditWrites(g.sum, m.pri, k, x);
    EditSide(d, g, P, m.pri, k, x, dis);
    OtherSideKept(d, g, P, ws1, m.bak, dis);
    var d1 := Apply(d, ws1);
    var ws2 := MapEditWrites(g.sum, m.bak, k, x);
    EditSide(d1, g, B, m.bak, k, x, dis);
    OtherSideKept(d1, g, B, ws2, MapEdit(g.sum, m.pri, k, x), dis);
    ApplyConcat(d, ws1, ws2);
  }

  lemma ConvSide(d: Disk, g: Geo, s: Side, o: Option<Copy>, dis: set<nat>)
    requires Fits(d, g) && SideSync(d, g, s, o, dis) && (o.Some? ==> o.value.Good())
    ensures var ws := MapConvWrites(g.sum, o);
            && (o.None? ==> ws == []) && AllSafe(ws, g, s, dis)
            && Fits(Apply(d, ws), g) && SideSync(Apply(d, ws), g, s, MapConv(g.sum, o), dis)
  {
    hide Sync, Safe, Fits, BootConvWrites, Sealed;
    if o.Some? {
      BootConvSyncs(d, g, s, o.value, dis);
      var c := BootConv(g.sum, o.value);
      forall i: nat | i < Entries(c.hdr) && i in dis ensures !c.tab[i].me {
        BootConvEnts(g, o.value, i);
      }
    }
  }

  lemma ReadSide(d: Disk, g: Geo, s: Side, stale: seq<Ent>, dis: set<nat>)
    requires Fits(d, g) && GoodTable(stale) && Rest(d, g, s, dis)
    ensures var o := ReadCopy(g.sum, d, g.Home(s), stale);
            o.Some? == Valid(d, g, s) && SideSync(d, g, s, o, dis)
  {
    hide EntAt, HeadOk;
    ReadCopyIs(d, g, s, stale);
    if Valid(d, g, s) {
      ReadSyncs(d, g, s, stale);
    }
  }

  lemma BackupHome(d: Disk, g: Geo, stale: seq<Ent>)
    requires Fits(d, g) && GoodTable(stale)
    ensures AltLba(d, ReadPrimary(g.sum, d, stale)) == g.Home(B) != 0
  {
    assert HeadOk(d, g, P);
    ReadCopyIs(d, g, P, stale);
  }

  lemma GptReadInv(d: Disk, g: Geo, staleP: seq<Ent>, staleB: seq<Ent>, dis: set<nat>)
    requires Fits(d, g) && GoodTable(staleP) && GoodTable(staleB) && Rest(d, g, P, dis) && Rest(d, g, B, dis)
    ensures var ws, m := GptReadWrites(g.sum, d, staleP, staleB), GptRead(g.sum, d, staleP, staleB);
            && m.curent == -1 && m.pri.Some? == Valid(d, g, P) && m.bak.Some? == Valid(d, g, B)
            && LiveSafe(ws, g, m, dis)
            && Fits(Apply(d, ws), g) && LiveSync(Apply(d, ws), g, m, dis)
  {
    hide Sync, Safe, Fits, MapConvWrites, NoMe, ReadCopy, Valid, Rest;
    BackupHome(d, g, staleP);
    ReadSide(d, g, P, staleP, dis);
    ReadSide(d, g, B, staleB, dis);
    var pri := ReadPrimary(g.sum, d, staleP);
    var bak := ReadBackup(g.sum, d, pri, staleB);
    var ws1 := MapConvWrites(g.sum, pri);
    ConvSide(d, g, P, pri, dis);
    OtherSideKept(d, g, P, ws1, bak, dis);
    var d1 := Apply(d, ws1);
    var ws2 := MapConvWrites(g.sum, bak);
    ConvSide(d1, g, B, bak, dis);
    OtherSideKept(d1, g, B, ws2, MapConv(g.sum, pri), dis);
    ApplyConcat(d, ws1, ws2);
  }

  // ----- Every step keeps the invariant -----

  /** Whatever happens next, a reboot is safe. */
  lemma InvRests(s: St, g: Geo)
    requires Inv(s, g)
    ensures Rest(s.disk, g, P, Dis(s)) && Rest(s.disk, g, B, Dis(s))
  {
    hide Valid, Disarmed, Fits, LiveSync, LiveSafe;
  }

  lemma KeepsRead(s: St, g: Geo, step: Step)
    requires Inv(s, g) && Enabled(s, step) && step.Read?
    ensures Inv(Take(g.sum, s, step), g)
  {
    hide Valid, Disarmed, LiveSync, LiveSafe, GptRead, GptReadWrites;
    InvRests(s, g);
    GptReadInv(s.disk, g, step.staleP, step.staleB, Dis(s));
    var s' := Take(g.sum, s, step);
    assert Dis(s') == Dis(s);
    assert forall i :: 0 <= i < |s.boots| ==> s'.boots[i] == s.boots[i];
  }

  lemma ClearedStaysClear(d: Disk, g: Geo, m: Mem, k: nat, dis: set<nat>)
    requires Sized(d, g) && m.Good() && k < 128 && LiveSync(d, g, EditBoth(g.sum, m, k, ClearMe), dis)
    ensures LiveSync(d, g, EditBoth(g.sum, m, k, ClearMe), dis + {k})
  {
    hide Sync, Seal;
  }

  lemma FiresIsNew(d: Disk, g: Geo, m: Mem, c: Choice, dis: set<nat>)
    requires Sized(d, g) && LiveSync(d, g, m, dis) && m.Usable()
    requires Fires(m, c) && c.curent < Entries(m.Active().hdr)
    ensures c.curent !in dis
  {
    hide Sync;
  }

  lemma KeepsFind(s: St, g: Geo, step: Step)
    requires Inv(s, g) && Enabled(s, step) && step.Find?
    ensures Inv(Take(g.sum, s, step), g)
  {
    hide Valid, Disarmed, LiveSync, LiveSafe, ChooseAuto, EditBoth, EditBothWrites, Fits;
    FitsSized(s.disk, g);
    var m := s.mem.value;
    var c := Choose(m, step.uuid, step.part);
    var s' := Take(g.sum, s, step);
    assert Dis(s') == Dis(s);
    ChoiceInRange(m, step.uuid, step.part);
    var m1 := if BootsOnce(m, c) then EditBoth(g.sum, m, c.curent, ClearMe) else m;
    if BootsOnce(m, c) {
      EditBothInv(s.disk, g, m, c.curent, ClearMe, Dis(s));
      EditKeepsLive(g.sum, m, c.curent, ClearMe);
      if Fires(m, c) {
        FiresIsNew(s.disk, g, m, c, Dis(s));
        FitsSized(Apply(s.disk, s'.pending), g);
        ClearedStaysClear(Apply(s.disk, s'.pending), g, m, c.curent, Dis(s));
        LiveSyncCursor(Apply(s.disk, s'.pending), g, m1, s'.mem.value, Dis(s) + {c.curent});
      }
    }
    LiveSyncCursor(Apply(s.disk, s'.pending), g, m1, s'.mem.value, Dis(s));
    LiveSafeCursor(s'.pending, g, m, s'.mem.value, Dis(s));
  }

  lemma ChoiceInRange(m: Mem, uuid: Bytes, part: int)
    requires m.Usable() && -1 <= m.curent
    ensures -1 <= Choose(m, uuid, part).curent
  {
  }

  lemma EditKeepsLive(sum: Checksum, m: Mem, k: nat, x: Edit)
    requires m.Good() && k < 128
    ensures var m' := EditBoth(sum, m, k, x);
            m'.pri.Some? == m.pri.Some? && m'.bak.Some? == m.bak.Some? && m'.curent == m.curent
  {
    hide Sealed, EditEnt;
  }

  /** `curent` and `bootonce` are no part of the copies. */
  lemma LiveSyncCursor(d: Disk, g: Geo, m: Mem, m': Mem, dis: set<nat>)
    requires Sized(d, g) && LiveSync(d, g, m, dis) && m.pri == m'.pri && m.bak == m'.bak
    ensures LiveSync(d, g, m', dis)
  {
  }

  lemma LiveSafeCursor(ws: seq<Write>, g: Geo, m: Mem, m': Mem, dis: set<nat>)
    requires g.Ok() && (|ws| == 0 || LiveSafe(ws, g, m, dis))
    requires m.pri.Some? == m'.pri.Some? && m.bak.Some? == m'.bak.Some?
    ensures LiveSafe(ws, g, m', dis)
  {
  }

  lemma KeepsFail(s: St, g: Geo, step: Step)
    requires Inv(s, g) && Enabled(s, step) && step.Fail?
    ensures Inv(Take(g.sum, s, step), g)
  {
    hide Valid, Disarmed, LiveSync, LiveSafe, EditBoth, EditBothWrites, Fits;
    FitsSized(s.disk, g);
    var m := s.mem.value;
    var s' := Take(g.sum, s, step);
    assert Dis(s') == Dis(s);
    if m.Active().tab[m.curent].once {
      EditBothInv(s.disk, g, m, m.curent, MarkFailed, Dis(s));
      EditKeepsLive(g.sum, m, m.curent, MarkFailed);
    }
    LiveSafeCursor(s'.pending, g, m, s'.mem.value, Dis(s));
  }

  lemma PutQuiet(d: Disk, g: Geo, s: Side, w: Write, live: bool, dis: set<nat>)
    requires Fits(d, g) && Safe(w, g, s, dis)
    requires Disarmed(d, g, s, dis) && SideQuiet(d, g, Other(s), live, dis)
    ensures Fits(Put(d, w), g) && Disarmed(Put(d, w), g, s, dis) && SideQuiet(Put(d, w), g, Other(s), live, dis)
  {
    hide Safe, Valid, EntAt, HeadOk;
    PutSafe(d, g, s, w, dis);
    PutSafeDisarmed(d, g, s, w, dis);
    SameFootSameValid(d, Put(d, w), g, Other(s));
    if g.Has(Other(s)) {
      SameFootSameTable(d, Put(d, w), g, Other(s));
    }
  }

  lemma KeepsWrite(s: St, g: Geo, step: Step)
    requires Inv(s, g) && Enabled(s, step) && step.DoWrite?
    ensures Inv(Take(g.sum, s, step), g)
  {
    hide Valid, Disarmed, LiveSync, Safe, Fits;
    FitsSized(s.disk, g);
    var m, w := s.mem.value, s.pending[0];
    var s' := Take(g.sum, s, step);
    assert Dis(s') == Dis(s);
    assert Apply(s'.disk, s'.pending) == Apply(s.disk, s.pending);
    if m.pri.Some? && Safe(w, g, P, Dis(s)) {
      PutQuiet(s.disk, g, P, w, m.bak.Some?, Dis(s));
    } else {
      PutQuiet(s.disk, g, B, w, m.pri.Some?, Dis(s));
    }
    FitsSized(s'.disk, g);
  }

  lemma SyncDisarmed(d: Disk, g: Geo, s: Side, o: Option<Copy>, dis: set<nat>)
    requires Sized(d, g) && SideSync(d, g, s, o, dis) && o.Some?
    ensures Disarmed(d, g, s, dis)
  {
    hide EntAt;
  }

  lemma KeepsReturn(s: St, g: Geo, step: Step)
    requires Inv(s, g) && Enabled(s, step) && step.Return?
    ensures Inv(Take(g.sum, s, step), g)
  {
    hide Valid, Disarmed, Safe, Fits, Sync, NoMe;
    FitsSized(s.disk, g);
    var m, k := s.mem.value, s.returning.value;
    var s' := Take(g.sum, s, step);
    assert Dis(s') == Dis(s) + {k};
    if m.pri.Some? {
      SyncDisarmed(s.disk, g, P, m.pri, Dis(s'));
    }
    if m.bak.Some? {
      SyncDisarmed(s.disk, g, B, m.bak, Dis(s'));
    }
  }

  lemma KeepsCrash(s: St, g: Geo, step: Step)
    requires Inv(s, g) && Enabled(s, step) && step.Crash?
    ensures Inv(Take(g.sum, s, step), g)
  {
    hide Valid, Disarmed, LiveSync, LiveSafe, Fits;
    InvRests(s, g);
    assert Dis(Take(g.sum, s, step)) == Dis(s);
  }

  lemma KeepsInv(s: St, g: Geo, step: Step)
    requires Inv(s, g) && Enabled(s, step)
    ensures Inv(Take(g.sum, s, step), g)
  {
    hide Inv;
    match step
    case Read(_, _) => KeepsRead(s, g, step);
    case Find(_, _) => KeepsFind(s, g, step);
    case Fail => KeepsFail(s, g, step);
    case DoWrite => KeepsWrite(s, g, step);
    case Return => KeepsReturn(s, g, step);
    case Crash => KeepsCrash(s, g, step);
  }

  // ----- Whole runs -----

  /** The drive is laid out as the protocol needs it: both headers, where present, have
      the standard sizes and places and their copies are disjoint. */
  ghost predicate LayoutOk(sum: Checksum, d: Disk) {
    Fits(d, GeoOf(sum, d))
  }

  lemma StartInv(sum: Checksum, d: Disk)
    requires LayoutOk(sum, d)
    ensures Inv(Start(d), GeoOf(sum, d))
  {
    hide Fits, GeoOf;
    FitsSized(d, GeoOf(sum, d));
  }

  lemma {:induction false} RunInv(s: St, g: Geo, steps: seq<Step>)
    requires Inv(s, g) && CanRun(g.sum, s, steps)
    ensures Inv(Run(g.sum, s, steps), g)
    decreases |steps|
  {
    hide Inv, Take, Enabled;
    if steps == [] {
    } else {
      KeepsInv(s, g, steps[0]);
      RunInv(Take(g.sum, s, steps[0]), g, steps[1..]);
    }
  }

  /** Over any run of boots and crashes, whatever the checksum, no partition is ever
      returned twice while it carries both BOOTME and BOOTONCE; and a copy rejected at
      one boot is rejected at every later one. */
  lemma BootsOnceOnly(sum: Checksum, d: Disk, steps: seq<Step>)
    requires LayoutOk(sum, d) && CanRun(sum, Start(d), steps)
    ensures var s := Run(sum, Start(d), steps); Distinct(s.fired) && Descending(s.boots)
  {
    hide Fits, CanRun, Run, GeoOf, MemInv, Rest, BootsInv;
    StartInv(sum, d);
    GeoSum(sum, d);
    RunInv(Start(d), GeoOf(sum, d), steps);
  }

  lemma GeoSum(sum: Checksum, d: Disk)
    ensures GeoOf(sum, d).sum == sum
  {
  }

  /** When no call is in progress, gptread of either place returns what memory holds:
      the very header and entries of a copy in use, nothing for a rejected one. */
  lemma RereadsMemory(sum: Checksum, d: Disk, steps: seq<Step>, stale: seq<Ent>)
    requires LayoutOk(sum, d) && CanRun(sum, Start(d), steps) && GoodTable(stale)
    ensures var s := Run(sum, Start(d), steps);
            s.mem.Some? && Idle(s) ==>
              && SameUsed(ReadCopy(sum, s.disk, 1, stale), s.mem.value.pri)
              && SameUsed(ReadCopy(sum, s.disk, LastLba(s.disk), stale), s.mem.value.bak)
  {
    hide Fits, CanRun, Run, GeoOf, Rest, ReadCopy, SameUsed, BootsInv;
    var g := GeoOf(sum, d);
    StartInv(sum, d);
    GeoSum(sum, d);
    RunInv(Start(d), g, steps);
    var s := Run(sum, Start(d), steps);
    if s.mem.Some? && Idle(s) {
      FitsSized(s.disk, g);
      RereadSide(s.disk, g, P, s.mem.value.pri, Dis(s), stale);
      RereadSide(s.disk, g, B, s.mem.value.bak, Dis(s), stale);
    }
  }

  ghost predicate SameUsed(r: Option<Copy>, o: Option<Copy>)
    requires r.Some? ==> r.value.Good()
  {
    match o
    case None => r == None
    case Some(c) => c.Good() && r.Some? && r.value.hdr == c.hdr && r.value.Used() == c.Used()
  }

  lemma RereadSide(d: Disk, g: Geo, s: Side, o: Option<Copy>, dis: set<nat>, stale: seq<Ent>)
    requires Fits(d, g) && GoodTable(stale) && SideSync(d, g, s, o, dis) && SideQuiet(d, g, s, o.Some?, dis)
    ensures SameUsed(ReadCopy(g.sum, d, g.Home(s), stale), o)
  {
    hide EntAt, HeadOk, Intact;
    if o.Some? {
      SyncReads(d, g, s, o.value, stale);
      var r := ReadCopy(g.sum, d, g.Home(s), stale).value;
      assert r.Used() == o.value.Used();
    } else {
      ReadCopyIs(d, g, s, stale);
    }
  }

  // ----- BOOTONCE alone marks the partition that is being booted -----

  /** No new selection before the last one was reported failed. */
  predicate Disciplined(sum: Checksum, s: St, steps: seq<Step>)
    requires CanRun(sum, s, steps)
    decreases |steps|
  {
    steps == [] ||
    ((steps[0].Find? ==> !s.trying) && Disciplined(sum, Take(sum, s, steps[0]), steps[1..]))
  }

  /** Entries with BOOTONCE alone, in whole sectors of the used table, are all in `ok`. */
  ghost predicate OnceOnlyIn(o: Option<Copy>, ok: set<int>)
    requires o.Some? ==> o.value.Good()
  {
    o.Some? ==> forall i: nat :: i < Entries(o.value.hdr) / 4 * 4 && o.value.tab[i].OnceOnly() ==> i in ok
  }

  /** The partition being tried, if it is to be booted once. */
  function Tried(m: Mem, trying: bool): set<int> {
    if trying && m.Usable() && 0 <= m.curent < 128 && m.Active().tab[m.curent].once then {m.curent} else {}
  }

  ghost predicate OnceInv(s: St) {
    s.mem.Some? ==>
      var m := s.mem.value;
      m.Good() && OnceOnlyIn(m.pri, Tried(m, s.trying)) && OnceOnlyIn(m.bak, Tried(m, s.trying))
  }

  lemma EditOnce(sum: Checksum, o: Option<Copy>, k: nat, x: Edit, ok: set<int>)
    requires (o.Some? ==> o.value.Good()) && k < 128 && OnceOnlyIn(o, ok)
    ensures OnceOnlyIn(MapEdit(sum, o, k, x), if x.ClearMe? then ok + {k} else ok - {k})
    ensures o.Some? ==> MapEdit(sum, o, k, x).value.tab[k].once == (x.ClearMe? && o.value.tab[k].once)
  {
    hide Seal;
  }

  lemma ConvOnce(sum: Checksum, o: Option<Copy>)
    requires o.Some? ==> o.value.Good()
    ensures OnceOnlyIn(MapConv(sum, o), {})
  {
    if o.Some? {
      var c := BootConv(sum, o.value);
      var g := Geo(sum, 0, None, None);
      SealSeals(sum, Converted(o.value).hdr, Converted(o.value).Used());
      SameFields(Seal(sum, Converted(o.value).hdr, Converted(o.value).Used()), o.value.hdr);
      forall i: nat | i < Entries(c.hdr) / 4 * 4 ensures !c.tab[i].OnceOnly() {
        BootConvEnts(g, o.value, i);
      }
    }
  }

  lemma KeepsOnceRead(sum: Checksum, s: St, step: Step)
    requires Enabled(s, step) && step.Read?
    ensures OnceInv(Take(sum, s, step))
  {
    hide ReadCopy, MapConv, OnceOnlyIn;
    var pri := ReadPrimary(sum, s.disk, step.staleP);
    ConvOnce(sum, pri);
    ConvOnce(sum, ReadBackup(sum, s.disk, pri, step.staleB));
  }

  lemma KeepsOnceFind(sum: Checksum, s: St, step: Step)
    requires OnceInv(s) && Enabled(s, step) && step.Find? && !s.trying
    ensures OnceInv(Take(sum, s, step))
  {
    hide ChooseAuto, MapEdit, OnceOnlyIn;
    var m := s.mem.value;
    var c := Choose(m, step.uuid, step.part);
    if BootsOnce(m, c) {
      EditOnce(sum, m.pri, c.curent, ClearMe, {});
      EditOnce(sum, m.bak, c.curent, ClearMe, {});
      assert {} + {c.curent as int} == {c.curent};
    } else {
      OnceOnlyMore(m.pri, {}, Tried(Take(sum, s, step).mem.value, c.found));
      OnceOnlyMore(m.bak, {}, Tried(Take(sum, s, step).mem.value, c.found));
    }
  }

  lemma OnceOnlyMore(o: Option<Copy>, ok: set<int>, ok': set<int>)
    requires (o.Some? ==> o.value.Good()) && OnceOnlyIn(o, ok) && ok <= ok'
    ensures OnceOnlyIn(o, ok')
  {
  }

  lemma KeepsOnceFail(sum: Checksum, s: St, step: Step)
    requires OnceInv(s) && Enabled(s, step) && step.Fail?
    ensures OnceInv(Take(sum, s, step))
  {
    hide MapEdit, OnceOnlyIn;
    var m := s.mem.value;
    if m.Active().tab[m.curent].once {
      OnceOnlyMore(m.pri, Tried(m, s.trying), {m.curent});
      OnceOnlyMore(m.bak, Tried(m, s.trying), {m.curent});
      EditOnce(sum, m.pri, m.curent, MarkFailed, {m.curent});
      EditOnce(sum, m.bak, m.curent, MarkFailed, {m.curent});
      assert {m.curent} - {m.curent} == {};
    }
  }

  lemma KeepsOnce(sum: Checksum, s: St, step: Step)
    requires OnceInv(s) && Enabled(s, step) && (step.Find? ==> !s.trying)
    ensures OnceInv(Take(sum, s, step))
  {
    match step
    case Read(_, _) => KeepsOnceRead(sum, s, step);
    case Find(_, _) => KeepsOnceFind(sum, s, step);
    case Fail => KeepsOnceFail(sum, s, step);
    case DoWrite =>
    case Return =>
    case Crash =>
  }

  lemma {:induction false} RunOnce(sum: Checksum, s: St, steps: seq<Step>)
    requires OnceInv(s) && CanRun(sum, s, steps) && Disciplined(sum, s, steps)
    ensures OnceInv(Run(sum, s, steps))
    decreases |steps|
  {
    hide OnceInv, Take, Enabled;
    if steps == [] {
    } else {
      KeepsOnce(sum, s, steps[0]);
      RunOnce(sum, Take(sum, s, steps[0]), steps[1..]);
    }
  }

  /** What start-up scripts see.  After any run in which each failed selection was
      reported, an entry with BOOTONCE alone in a valid copy on the drive is the
      partition selected last, and that partition is being tried. */
  lemma OnceOnlyIsBooted(sum: Checksum, d: Disk, steps: seq<Step>, s: St, backup: bool, stale: seq<Ent>, i: nat)
    requires LayoutOk(sum, d) && CanRun(sum, Start(d), steps) && Disciplined(sum, Start(d), steps)
    requires s == Run(sum, Start(d), steps) && s.mem.Some? && Idle(s) && GoodTable(stale)
    requires var r := ReadCopy(sum, s.disk, if backup then LastLba(s.disk) else 1, stale);
             r.Some? && i < Entries(r.value.hdr) / 4 * 4 && r.value.tab[i].OnceOnly()
    ensures s.trying && s.mem.value.curent == i
  {
    hide Fits, CanRun, Run, GeoOf, ReadCopy, Disciplined;
    RunOnce(sum, Start(d), steps);
    RereadsMemory(sum, d, steps, stale);
    var r := ReadCopy(sum, s.disk, if backup then LastLba(s.disk) else 1, stale);
    var o := if backup then s.mem.value.bak else s.mem.value.pri;
    assert r.value.Used()[i] == o.value.Used()[i];
  }

  /** A disciplined run has come to rest, and of the copy looked at `n` entries are in use. */
  ghost predicate Observed(sum: Checksum, d: Disk, steps: seq<Step>, backup: bool, stale: seq<Ent>, n: nat) {
    && LayoutOk(sum, d) && CanRun(sum, Start(d), steps) && Disciplined(sum, Start(d), steps) && GoodTable(stale)
    && var s := Run(sum, Start(d), steps);
    && s.mem.Some? && Idle(s)
    && var r := ReadCopy(sum, s.disk, if backup then LastLba(s.disk) else 1, stale);
    && r.Some? && Entries(r.value.hdr) == n
  }

  /** Each of the first `n` entries that has BOOTONCE alone is the partition being tried. */
  ghost predicate Marks(s: St, t: seq<Ent>, n: nat)
    requires n <= |t|
  {
    forall i: nat :: i < n && t[i].OnceOnly() ==> s.trying && s.mem.Some? && s.mem.value.curent == i
  }

  /** Every entry in use that has BOOTONCE alone is the partition being tried. */
  ghost predicate OnlyBooted(sum: Checksum, d: Disk, steps: seq<Step>, backup: bool, stale: seq<Ent>, n: nat)
    requires Observed(sum, d, steps, backup, stale, n)
  {
    var s := Run(sum, Start(d), steps);
    Marks(s, ReadCopy(sum, s.disk, if backup then LastLba(s.disk) else 1, stale).value.tab, n)
  }

  /** With whole sectors of entries that holds after every such run. */
  lemma WholeSectorsOnlyBooted(sum: Checksum, d: Disk, steps: seq<Step>, backup: bool, stale: seq<Ent>, n: nat)
    requires Observed(sum, d, steps, backup, stale, n) && n % 4 == 0
    ensures OnlyBooted(sum, d, steps, backup, stale, n)
  {
    hide LayoutOk, CanRun, Run, ReadCopy, Disciplined;
    var s := Run(sum, Start(d), steps);
    var r := ReadCopy(sum, s.disk, if backup then LastLba(s.disk) else 1, stale);
    forall i: nat | i < n && r.value.tab[i].OnceOnly() ensures s.trying && s.mem.value.curent == i {
      OnceOnlyIsBooted(sum, d, steps, s, backup, stale, i);
    }
  }
}
