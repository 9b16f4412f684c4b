/**
 A drive for each number of entries that is no multiple of four, and a run of the
 boot-once protocol on it after which an entry has BOOTONCE alone although nothing
 is being tried.
 */
module GptWitness {
  import opened Options
  import opened GptFormat
  import opened GptSpec
  import opened GptGeometry
  import opened GptCopy
  import opened GptProtocol
  import GptSession

  // ----- The drive -----

  function Zeros(n: nat): (b: Bytes)
    ensures |b| == n && forall i :: 0 <= i < n ==> b[i] == 0
  {
    seq(n, _ => 0)
  }

  const BLANK: Ent := Ent(Zeros(55), false, false, false, 0, Zeros(72))
  const ARMED: Ent := BLANK.(me := true, once := true)
  const NO_TYPE: Bytes := Zeros(16)

  /** Entry `n - 1` has BOOTME and BOOTONCE, the others have no flag. */
  function Tab(n: nat): (t: seq<Ent>)
    requires 0 < n <= 128
    ensures GoodTable(t) && forall i :: 0 <= i < 128 ==> t[i] == if i == n - 1 then ARMED else BLANK
  {
    assert BLANK.Good() && ARMED.Good();
    seq(128, i => if i == n - 1 then ARMED else BLANK)
  }

  /** The primary header before its checksums: revision 1.0, 92 bytes, at LBA 1, alternate at
      the last LBA, table at LBA 2, `n` entries of 128 bytes. */
  function Bare(n: nat): (h: Hdr)
    requires n <= 128
  {
    SIGNATURE + [0, 0, 1, 0] + Field(92, 4) + Zeros(8) + Field(1, 8) + Field(39, 8) + Zeros(32)
    + Field(2, 8) + Field(ByteOf(n), 4) + Field(128, 4) + Zeros(8)
  }

  /** A byte, and zeros up to `k` bytes. */
  function Field(b: bv8, k: nat): (f: Bytes)
    requires k > 0
    ensures |f| == k
  {
    [b] + Zeros(k - 1)
  }

  lemma {:induction false} ValueOfZeros(k: nat)
    ensures Value(Zeros(k)) == 0
  {
    if k > 0 {
      assert Zeros(k)[1..] == Zeros(k - 1);
      ValueOfZeros(k - 1);
    }
  }

  /** The byte of a number. */
  function ByteOf(x: nat): (b: bv8)
    requires x < 256
    ensures b as nat == x
  {
    if x == 0 then 0
    else
      var b := ByteOf(x - 1);
      NextByte(b);
      b + 1
  }

  lemma NextByte(b: bv8)
    requires b as nat != 255
    ensures (b + 1) as nat == (b as nat) + 1
  {
  }

  lemma ValueOfField(b: bv8, k: nat)
    requires k > 0
    ensures Value(Field(b, k)) == b as nat
  {
    assert Field(b, k)[1..] == Zeros(k - 1);
    ValueOfZeros(k - 1);
  }

  lemma BareFields(n: nat)
    requires n <= 128
    ensures var h := Bare(n);
            && h[..8] == SIGNATURE && Revision(h) == 0x10000 && Size(h) == 92 && LbaSelf(h) == 1 && LbaAlt(h) == 39
            && LbaTable(h) == 2 && Entries(h) == n && EntSize(h) == 128 && h[92..] == Zeros(4)
  {
    hide Value, Field;
    var h := Bare(n);
    assert h[8..12] == [0, 0, 1, 0] && h[12..16] == Field(92, 4);
    assert h[24..32] == Field(1, 8) && h[32..40] == Field(39, 8) && h[72..80] == Field(2, 8);
    assert h[80..84] == Field(ByteOf(n), 4) && h[84..88] == Field(128, 4);
    ValueOfRevision();
    ValueOfField(92, 4);
    ValueOfField(1, 8);
    ValueOfField(39, 8);
    ValueOfField(2, 8);
    ValueOfField(ByteOf(n), 4);
    ValueOfField(128, 4);
  }

  lemma ValueOfRevision()
    ensures Value([0, 0, 1, 0]) == 0x10000
  {
    var b: Bytes := [0, 0, 1, 0];
    assert b[1..] == [0, 1, 0] && b[1..][1..] == [1, 0] && b[1..][1..][1..] == [0] && b[1..][1..][1..][1..] == [];
    assert Value(b[1..][1..][1..]) == 0;
    assert Value(b[1..][1..]) == 1;
    assert Value(b[1..]) == 256;
  }

  function Head(sum: Checksum, n: nat): Hdr
    requires 0 < n <= 128
  {
    Seal(sum, Bare(n), Tab(n)[..n])
  }

  function TableSectors(t: seq<Ent>): (s: seq<Sector>)
    requires GoodTable(t)
    ensures |s| == 32 && forall k :: 0 <= k < 32 ==> s[k] == EncodeSector(t, k)
  {
    seq(32, k requires 0 <= k < 32 => EncodeSector(t, k))
  }

  const BLANK_SECTOR: Sector := Zeros(512)

  /** Forty sectors with a header and a table, blank elsewhere. */
  function Around(hdr: Sector, t: seq<Ent>): (d: Disk)
    requires GoodTable(t)
    ensures |d| == 40 && d[1] == hdr && d[39] == BLANK_SECTOR
    ensures forall k :: 0 <= k < 32 ==> d[2 + k] == EncodeSector(t, k)
  {
    [BLANK_SECTOR, hdr] + TableSectors(t)
      + [BLANK_SECTOR, BLANK_SECTOR, BLANK_SECTOR, BLANK_SECTOR, BLANK_SECTOR, BLANK_SECTOR]
  }

  /** The primary copy, and no backup. */
  function Drive(sum: Checksum, n: nat): (d: Disk)
    requires 0 < n <= 128
    ensures |d| == 40
  {
    Around(EncodeHdr(Head(sum, n)), Tab(n))
  }

  function First(sum: Checksum, n: nat): (c: Copy)
    requires 0 < n <= 128
  {
    Copy(Head(sum, n), Tab(n))
  }

  function Place40(sum: Checksum, n: nat): Geo {
    Geo(sum, 40, Some(Place(2, n)), None)
  }

  lemma HeadFields(sum: Checksum, n: nat)
    requires 0 < n <= 128
    ensures var h := Head(sum, n);
            && h[..8] == SIGNATURE && Revision(h) == 0x10000 && Size(h) == 92 && LbaSelf(h) == 1 && LbaAlt(h) == 39
            && LbaTable(h) == 2 && Entries(h) == n && EntSize(h) == 128 && h[92..] == Zeros(4)
            && CrcTable(h) == TableSum(sum, Tab(n)[..n]) && CrcSelf(h) == SelfSum(sum, h)
  {
    hide Value, Seal, Bare, SelfSum, TableSum, Word, Tab;
    var h, h0 := Head(sum, n), Bare(n);
    BareFields(n);
    SealSeals(sum, h0, Tab(n)[..n]);
    SameFields(h, h0);
    assert h[..8] == h[..16][..8] && h0[..8] == h0[..16][..8];
  }

  lemma DriveSectors(sum: Checksum, n: nat)
    requires 0 < n <= 128
    ensures var d := Drive(sum, n);
            && d[1] == EncodeHdr(Head(sum, n)) && d[39] == Zeros(512)
            && forall k :: 0 <= k < 32 ==> d[2 + k] == EncodeSector(Tab(n), k)
  {
    hide Around, EncodeHdr, EncodeSector, Head, Tab;
  }

  lemma DriveHead(sum: Checksum, n: nat)
    requires 0 < n <= 128
    ensures var d := Drive(sum, n);
            d[1][..96] == Head(sum, n) && HdrOk(sum, d[1], 1) && EncodeHdr(Head(sum, n))[..96] == Head(sum, n)
              && !HdrOk(sum, d[39], 39)
  {
    hide Value, SelfSum, TableSum, Word, Head, Drive, EncodeHdr, Tab;
    var h := Head(sum, n);
    DriveSectors(sum, n);
    HeadFields(sum, n);
    forall i | Size(h) <= i < 96 ensures h[i] == 0 {
      assert h[i] == h[92..][i - 92];
    }
    EncodeHdrExact(h);
    var z: Sector := Zeros(512);
    assert z[..96][..8][0] == 0 && SIGNATURE[0] == 0x45;
  }

  /** The drive is laid out as the protocol needs it, and holds the copy. */
  lemma DriveFits(sum: Checksum, n: nat)
    requires 0 < n <= 128
    ensures var d, g := Drive(sum, n), Place40(sum, n);
            && GeoOf(sum, d) == g && Fits(d, g) && Sync(d, g, P, First(sum, n)) && First(sum, n).Good()
  {
    hide Value, SelfSum, TableSum, Word, Head, Drive, EncodeHdr, Tab, HdrOk, EncodeSector, SectorEnt, DecodeEnt;
    var d, g, h := Drive(sum, n), Place40(sum, n), Head(sum, n);
    DriveHead(sum, n);
    HeadFields(sum, n);
    DriveSectors(sum, n);
    assert g.Ok();
    assert HeadOk(d, g, P) && HeadOk(d, g, B);
    forall i: nat | i < n ensures EntAt(d, g, P, i) == Tab(n)[i] {
      DecodeEncodeSector(Tab(n), i / 4, i % 4);
      assert d[2 + i / 4] == EncodeSector(Tab(n), i / 4);
    }
  }

  // ----- The run -----

  lemma {:induction false} CleanSectors(c: Copy, m: nat)
    requires c.Good() && m <= 32 && forall k :: 0 <= k < m ==> !Dirty(c.tab, k)
    ensures ConvSectors(c, m) == []
  {
    if m > 0 {
      CleanSectors(c, m - 1);
    }
  }

  /** Where whole sectors have no entry with BOOTONCE alone, gptbootconv does nothing. */
  lemma NothingToConvert(sum: Checksum, c: Copy)
    requires c.Good() && forall i :: 0 <= i < Entries(c.hdr) / 4 * 4 ==> !c.tab[i].OnceOnly()
    ensures BootConv(sum, c) == c && BootConvWrites(sum, c) == []
  {
    CleanSectors(c, Entries(c.hdr) / 4);
  }

  /** gptread of such a copy. */
  lemma ReadsAs(sum: Checksum, n: nat, d: Disk, c: Copy)
    requires Fits(d, Place40(sum, n)) && Sync(d, Place40(sum, n), P, c)
    requires forall i :: 0 <= i < n / 4 * 4 ==> !c.tab[i].OnceOnly()
    ensures ReadCopy(sum, d, 1, c.tab) == Some(c)
    ensures GptRead(sum, d, c.tab, c.tab) == Mem(Some(c), None, -1, true) && GptReadWrites(sum, d, c.tab, c.tab) == []
  {
    hide HdrOk, EntAt, BootConv, BootConvWrites;
    var g := Place40(sum, n);
    SyncReads(d, g, P, c, c.tab);
    assert c.Used() + c.tab[n..] == c.tab;
    assert HeadOk(d, g, P) && HeadOk(d, g, B);
    assert ReadHdr(sum, d, 39) == None;
    NothingToConvert(sum, c);
  }

  /** The copy after gptfind selected entry `n - 1`. */
  function Second(sum: Checksum, n: nat): (c: Copy)
    requires 0 < n <= 128 && First(sum, n).Good()
    ensures c.Good()
  {
    Sealed(sum, EditEnt(First(sum, n), n - 1, ClearMe))
  }

  function Ws(sum: Checksum, n: nat): seq<Write>
    requires 0 < n <= 128 && First(sum, n).Good()
  {
    UpdateWrites(sum, EditEnt(First(sum, n), n - 1, ClearMe), n - 1)
  }

  lemma FindsArmed(sum: Checksum, n: nat)
    requires 0 < n <= 128 && First(sum, n).Good() && Entries(Head(sum, n)) == n
    ensures var m := Mem(Some(First(sum, n)), None, -1, true);
            && Choose(m, NO_TYPE, -1) == Choice(true, n - 1, true) && Fires(m, Choose(m, NO_TYPE, -1))
            && GptFind(sum, m, NO_TYPE, -1) == Mem(Some(Second(sum, n)), None, n - 1, true)
            && GptFindWrites(sum, m, NO_TYPE, -1) == Ws(sum, n)
  {
    hide Head, Sealed, UpdateWrites;
    var t := Tab(n);
    assert BLANK.Type() == ARMED.Type() == NO_TYPE;
    assert Eligible(BothFlags, t[n - 1], NO_TYPE) && forall i :: 0 <= i < n - 1 ==> !Eligible(BothFlags, t[i], NO_TYPE);
    var b := Next(t, n, 0, BothFlags, NO_TYPE);
    assert b == n - 1;
  }

  function Steps(sum: Checksum, n: nat): seq<Step>
    requires 0 < n <= 128 && First(sum, n).Good()
  {
    [Read(Tab(n), Tab(n)), Find(NO_TYPE, -1), DoWrite, DoWrite, Return, Crash,
      Read(Second(sum, n).tab, Second(sum, n).tab)]
  }

  /** The states of the run. */
  function States(sum: Checksum, n: nat): seq<St>
    requires 0 < n <= 128 && First(sum, n).Good()
  {
    var d, ws, c, c2 := Drive(sum, n), Ws(sum, n), First(sum, n), Second(sum, n);
    var d1, d2 := Put(d, ws[0]), Put(Put(d, ws[0]), ws[1]);
    var m1, m2 := Mem(Some(c), None, -1, true), Mem(Some(c2), None, n - 1, true);
    var one := [(true, false)];
    [ Start(d),
      St(d, Some(m1), [], None, [], one, false),
      St(d, Some(m2), ws, Some(n - 1), [], one, true),
      St(d1, Some(m2), ws[1..], Some(n - 1), [], one, true),
      St(d2, Some(m2), [], Some(n - 1), [], one, true),
      St(d2, Some(m2), [], None, [n - 1], one, true),
      St(d2, None, [], None, [n - 1], one, false),
      St(d2, Some(Mem(Some(c2), None, -1, true)), [], None, [n - 1], one + one, false) ]
  }

  /** One step of a disciplined run. */
  predicate Moves(sum: Checksum, s: St, step: Step, s': St) {
    Enabled(s, step) && Take(sum, s, step) == s' && (step.Find? ==> !s.trying)
  }

  /** A sequence of states is a run. */
  ghost predicate Follows(sum: Checksum, states: seq<St>, steps: seq<Step>) {
    |states| == |steps| + 1 && forall i :: 0 <= i < |steps| ==> Moves(sum, states[i], steps[i], states[i + 1])
  }

  lemma {:induction false} FollowsRuns(sum: Checksum, states: seq<St>, steps: seq<Step>)
    requires Follows(sum, states, steps)
    ensures CanRun(sum, states[0], steps) && Disciplined(sum, states[0], steps)
            && Run(sum, states[0], steps) == states[|steps|]
    decreases |steps|
  {
    hide Take, Enabled;
    if steps != [] {
      assert states[1..][0] == states[1];
      FollowsRuns(sum, states[1..], steps[1..]);
    }
  }

  /** What the two reads of the run find. */
  lemma BothReads(sum: Checksum, n: nat)
    requires 0 < n <= 128 && n % 4 != 0
    ensures First(sum, n).Good() && Entries(Head(sum, n)) == n && LayoutOk(sum, Drive(sum, n))
    ensures var d, c, c2 := Drive(sum, n), First(sum, n), Second(sum, n);
            var d2 := Put(Put(d, Ws(sum, n)[0]), Ws(sum, n)[1]);
            && GptRead(sum, d, c.tab, c.tab) == Mem(Some(c), None, -1, true)
              && GptReadWrites(sum, d, c.tab, c.tab) == []
            && GptRead(sum, d2, c2.tab, c2.tab) == Mem(Some(c2), None, -1, true)
              && GptReadWrites(sum, d2, c2.tab, c2.tab) == []
            && ReadCopy(sum, d2, 1, c2.tab) == Some(c2) && Entries(c2.hdr) == n && c2.tab[n - 1].OnceOnly()
  {
    hide Head, Drive, Sealed, ReadCopy, GptRead, GptReadWrites, HdrWrite, TabWrite, Fits, Sync;
    HeadFields(sum, n);
    DriveFits(sum, n);
    var d, g, c, c2 := Drive(sum, n), Place40(sum, n), First(sum, n), Second(sum, n);
    ReadsAs(sum, n, d, c);
    UpdateSyncs(d, g, P, c, n - 1, ClearMe, {});
    ApplyTwo(d, Ws(sum, n)[0], Ws(sum, n)[1]);
    ReadsAs(sum, n, Apply(d, Ws(sum, n)), c2);
  }

  lemma ReadMoves(sum: Checksum, n: nat)
    requires 0 < n <= 128 && n % 4 != 0
    ensures First(sum, n).Good() && Moves(sum, States(sum, n)[0], Steps(sum, n)[0], States(sum, n)[1])
    ensures Moves(sum, States(sum, n)[6], Steps(sum, n)[6], States(sum, n)[7])
  {
    hide Head, Drive, Second, Tab, GptRead, GptReadWrites, Put, Ws, ReadCopy, LayoutOk;
    BothReads(sum, n);
  }

  lemma FindMoves(sum: Checksum, n: nat)
    requires 0 < n <= 128 && n % 4 != 0
    ensures First(sum, n).Good() && Moves(sum, States(sum, n)[1], Steps(sum, n)[1], States(sum, n)[2])
  {
    hide First, Drive, Second, GptRead, GptReadWrites, GptFind, GptFindWrites, Choose, Put, Ws, ReadCopy, LayoutOk,
      Entries;
    BothReads(sum, n);
    FindsArmed(sum, n);
  }

  lemma WriteMoves(sum: Checksum, n: nat)
    requires 0 < n <= 128 && First(sum, n).Good()
    ensures var s, steps := States(sum, n), Steps(sum, n);
            && Moves(sum, s[2], steps[2], s[3]) && Moves(sum, s[3], steps[3], s[4])
            && Moves(sum, s[4], steps[4], s[5]) && Moves(sum, s[5], steps[5], s[6])
  {
    hide Head, Drive, Sealed, Tab, Put, TabWrite, HdrWrite, GptRead, GptFind, Choose;
    assert |Ws(sum, n)| == 2;
  }

  lemma RunFollows(sum: Checksum, n: nat)
    requires 0 < n <= 128 && n % 4 != 0
    ensures First(sum, n).Good() && Follows(sum, States(sum, n), Steps(sum, n))
  {
    hide Moves, Head, Drive, Sealed, Tab, Put, UpdateWrites;
    ReadMoves(sum, n);
    FindMoves(sum, n);
    WriteMoves(sum, n);
  }

  /** Where the run ends. */
  lemma RunEnds(sum: Checksum, n: nat)
    requires 0 < n <= 128 && n % 4 != 0
    ensures First(sum, n).Good() && CanRun(sum, Start(Drive(sum, n)), Steps(sum, n))
            && Disciplined(sum, Start(Drive(sum, n)), Steps(sum, n))
    ensures var s := Run(sum, Start(Drive(sum, n)), Steps(sum, n));
            && s.disk == Put(Put(Drive(sum, n), Ws(sum, n)[0]), Ws(sum, n)[1])
              && s.mem == Some(Mem(Some(Second(sum, n)), None, -1, true))
            && Idle(s) && s.fired == [n - 1] && !s.trying
  {
    hide Follows, Moves, Head, Drive, Sealed, Tab, Put, UpdateWrites, CanRun, Run, Disciplined;
    RunFollows(sum, n);
    FollowsRuns(sum, States(sum, n), Steps(sum, n));
  }

  /** For every checksum and every number of entries that is no multiple of four: entry `n - 1`
      is armed, read, selected and has its BOOTME cleared; after a crash and another read it
      has BOOTONCE alone in the copy in use, and nothing is being tried. */
  lemma LastEntryLeft(sum: Checksum, n: nat)
    requires 0 < n <= 128 && n % 4 != 0
    ensures First(sum, n).Good() && Observed(sum, Drive(sum, n), Steps(sum, n), false, Second(sum, n).tab, n)
    ensures !OnlyBooted(sum, Drive(sum, n), Steps(sum, n), false, Second(sum, n).tab, n)
  {
    hide Steps, Ws, Second, Drive, First, LayoutOk, ReadCopy, CanRun, Run, Disciplined, Put, GptRead, GptReadWrites,
      Entries, Value, Observed, OnlyBooted;
    BothReads(sum, n);
    RunEnds(sum, n);
    Refutes(sum, Drive(sum, n), Steps(sum, n), Second(sum, n).tab, n, n - 1);
  }

  lemma Refutes(sum: Checksum, d: Disk, steps: seq<Step>, stale: seq<Ent>, n: nat, i: nat)
    requires LayoutOk(sum, d) && CanRun(sum, Start(d), steps) && Disciplined(sum, Start(d), steps) && GoodTable(stale)
    requires var s := Run(sum, Start(d), steps);
             && s.mem.Some? && Idle(s) && !s.trying
             && var r := ReadCopy(sum, s.disk, 1, stale);
             && r.Some? && Entries(r.value.hdr) == n && i < n && r.value.tab[i].OnceOnly()
    ensures Observed(sum, d, steps, false, stale, n) && !OnlyBooted(sum, d, steps, false, stale, n)
  {
    hide LayoutOk, CanRun, Run, Disciplined, ReadCopy, Entries;
    var s := Run(sum, Start(d), steps);
    var t := ReadCopy(sum, s.disk, 1, stale).value.tab;
    assert t[i].OnceOnly() && !Marks(s, t, n);
  }

  /** Five entries, the fifth of them armed. */
  lemma FifthEntryLeft(sum: Checksum)
    ensures First(sum, 5).Good() && Tab(5)[4].me && Tab(5)[4].once
    ensures Observed(sum, Drive(sum, 5), Steps(sum, 5), false, Second(sum, 5).tab, 5)
    ensures !OnlyBooted(sum, Drive(sum, 5), Steps(sum, 5), false, Second(sum, 5).tab, 5)
  {
    hide Steps, Second, Drive, Observed, OnlyBooted;
    LastEntryLeft(sum, 5);
  }

  /** BOOTONCE alone marks the partition being tried and no other, after every disciplined run
      on every drive whose copy has `n` entries, if and only if `n` is a multiple of four. */
  lemma OnceOnlyExact(sum: Checksum, n: nat)
    requires n <= 128
    ensures (forall d, steps, backup, stale ::
               Observed(sum, d, steps, backup, stale, n) ==> OnlyBooted(sum, d, steps, backup, stale, n))
            <==> n % 4 == 0
  {
    hide Observed, OnlyBooted, Drive, Steps, Second;
    if n % 4 == 0 {
      forall d, steps, backup, stale | Observed(sum, d, steps, backup, stale, n)
        ensures OnlyBooted(sum, d, steps, backup, stale, n)
      {
        WholeSectorsOnlyBooted(sum, d, steps, backup, stale, n);
      }
    } else {
      LastEntryLeft(sum, n);
    }
  }

  // ----- A lost second run -----

  /** Entry 0 has BOOTME alone, and the last entry both flags: entry 0 is never offered. */
  lemma SecondRunLost()
    ensures var t := Tab(2)[0 := BLANK.(me := true)];
            && GoodTable(t) && Eligible(MeOnly, t[0], NO_TYPE) && Eligible(BothFlags, t[1], NO_TYPE)
            && 0 !in GptSession.Offer(t, 2, NO_TYPE)
  {
    hide GptSession.Offer;
    var t := Tab(2)[0 := BLANK.(me := true)];
    assert t[0].Good() && t[0].Type() == NO_TYPE && t[1] == ARMED && ARMED.Type() == NO_TYPE;
    GptSession.OfferSecondRun(t, 2, NO_TYPE, 0);
  }
}
