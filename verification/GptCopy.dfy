/**
 One copy of header and table: when the drive holds it, which writes are safe for
 it, and what gptupdate and gptbootconv do to it.
 */
module GptCopy {
  import Crc32
  import opened Options
  import opened GptFormat
  import opened GptSpec
  import opened GptGeometry

  // ----- Validity and agreement -----

  /** gptread accepts this side. */
  ghost predicate Valid(d: Disk, g: Geo, s: Side)
    requires Sized(d, g)
  {
    g.Has(s) && (g.At(s).n == 0 || TableSum(g.sum, Table(d, g, s)) == CrcTable(d[g.Home(s)][..96]))
  }

  lemma ReadCopyIs(d: Disk, g: Geo, s: Side, stale: seq<Ent>)
    requires Fits(d, g) && GoodTable(stale)
    ensures ReadCopy(g.sum, d, g.Home(s), stale) ==
            if Valid(d, g, s) then Some(Copy(d[g.Home(s)][..96], Table(d, g, s) + stale[g.At(s).n..])) else None
  {
    assert HeadOk(d, g, s);
  }

  lemma SameFootSameValid(d: Disk, d': Disk, g: Geo, s: Side)
    requires Sized(d, g) && Sized(d', g) && SameFoot(d, d', g, s)
    ensures Valid(d, g, s) == Valid(d', g, s)
  {
    assert g.InFoot(s, g.Home(s));
    if g.Has(s) {
      SameFootSameTable(d, d', g, s);
    }
  }

  /** The table checksum in the header fits the table. */
  ghost predicate Intact(g: Geo, c: Copy)
    requires c.Good()
  {
    Entries(c.hdr) == 0 || CrcTable(c.hdr) == TableSum(g.sum, c.Used())
  }

  /** The header is the one of this side. */
  ghost predicate Placed(g: Geo, s: Side, h: Hdr) {
    g.Has(s) && LbaTable(h) == g.At(s).tab && Entries(h) == g.At(s).n && LbaSelf(h) == g.Home(s)
  }

  lemma HeadPlaced(d: Disk, g: Geo, s: Side)
    requires Fits(d, g) && g.Has(s)
    ensures Placed(g, s, d[g.Home(s)][..96])
  {
    assert HeadOk(d, g, s);
  }

  /** The drive holds exactly this copy. */
  ghost predicate Sync(d: Disk, g: Geo, s: Side, c: Copy)
    requires Sized(d, g)
  {
    && g.Has(s) && c.Good() && Placed(g, s, c.hdr) && Intact(g, c)
    && d[g.Home(s)][..96] == c.hdr
    && forall i: nat :: i < g.At(s).n ==> EntAt(d, g, s, i) == c.tab[i]
  }

  lemma ReadSyncs(d: Disk, g: Geo, s: Side, stale: seq<Ent>)
    requires Fits(d, g) && GoodTable(stale) && Valid(d, g, s)
    ensures var r := ReadCopy(g.sum, d, g.Home(s), stale); r.Some? && Sync(d, g, s, r.value)
  {
    HeadPlaced(d, g, s);
    ReadCopyIs(d, g, s, stale);
    var c := ReadCopy(g.sum, d, g.Home(s), stale).value;
    assert c.Used() == Table(d, g, s);
  }

  /** Reading back a copy the drive holds returns its header and its used entries. */
  lemma SyncReads(d: Disk, g: Geo, s: Side, c: Copy, stale: seq<Ent>)
    requires Fits(d, g) && GoodTable(stale) && Sync(d, g, s, c)
    ensures Valid(d, g, s) && Table(d, g, s) == c.Used()
    ensures ReadCopy(g.sum, d, g.Home(s), stale) == Some(Copy(c.hdr, c.Used() + stale[g.At(s).n..]))
  {
    assert Table(d, g, s) == c.Used();
    ReadCopyIs(d, g, s, stale);
  }

  lemma SameFootSameSync(d: Disk, d': Disk, g: Geo, s: Side, c: Copy)
    requires Sized(d, g) && Sized(d', g) && SameFoot(d, d', g, s) && Sync(d, g, s, c)
    ensures Sync(d', g, s, c)
  {
    assert g.InFoot(s, g.Home(s));
    SameFootSameTable(d, d', g, s);
  }

  // ----- Disarmed entries -----

  /** No entry of `dis` has BOOTME in this side's table on the drive. */
  ghost predicate Disarmed(d: Disk, g: Geo, s: Side, dis: set<nat>)
    requires Sized(d, g)
  {
    g.Has(s) ==> forall i: nat :: i < g.At(s).n && i in dis ==> !EntAt(d, g, s, i).me
  }

  ghost predicate NoMe(c: Copy, dis: set<nat>)
    requires c.Good()
  {
    forall i: nat :: i < Entries(c.hdr) && i in dis ==> !c.tab[i].me
  }

  // ----- Safe writes -----

  ghost predicate TabSafe(w: Write, g: Geo, s: Side, dis: set<nat>)
    requires g.Ok()
  {
    && g.InTab(s, w.lba)
    && forall i: nat :: i < g.At(s).n && i in dis && i / 4 == w.lba - g.At(s).tab ==> !SectorEnt(w.sec, i % 4).me
  }

  ghost predicate HdrSafe(w: Write, g: Geo, s: Side)
    requires g.Ok()
  {
    g.Has(s) && w.lba == g.Home(s) && HdrAt(g, s, w.sec)
  }

  ghost predicate Safe(w: Write, g: Geo, s: Side, dis: set<nat>)
    requires g.Ok()
  {
    TabSafe(w, g, s, dis) || HdrSafe(w, g, s)
  }

  ghost predicate AllSafe(ws: seq<Write>, g: Geo, s: Side, dis: set<nat>)
    requires g.Ok()
  {
    forall i :: 0 <= i < |ws| ==> Safe(ws[i], g, s, dis)
  }

  lemma PutSafe(d: Disk, g: Geo, s: Side, w: Write, dis: set<nat>)
    requires Fits(d, g) && Safe(w, g, s, dis)
    ensures Fits(Put(d, w), g) && SameFoot(d, Put(d, w), g, Other(s))
  {
    var d' := Put(d, w);
    if TabSafe(w, g, s, dis) {
      TabPutFoot(d, g, s, w);
    } else {
      HdrPutFoot(d, g, s, w);
    }
    assert g.InFoot(Other(s), g.Home(Other(s)));
    forall s' ensures HeadOk(d', g, s') {
      assert HeadOk(d, g, s');
      if s' == s {
      } else {
        assert s' == Other(s);
      }
    }
  }

  lemma PutSafeDisarmed(d: Disk, g: Geo, s: Side, w: Write, dis: set<nat>)
    requires Sized(d, g) && Safe(w, g, s, dis) && Disarmed(d, g, s, dis)
    ensures Disarmed(Put(d, w), g, s, dis)
  {
    forall i: nat | i < g.At(s).n && i in dis ensures !EntAt(Put(d, w), g, s, i).me {
      if TabSafe(w, g, s, dis) {
        TabPutEnts(d, g, s, w, i);
      } else {
        HdrPutFoot(d, g, s, w);
      }
    }
  }

  lemma {:induction false} ApplySafe(d: Disk, g: Geo, s: Side, ws: seq<Write>, dis: set<nat>)
    requires Fits(d, g) && AllSafe(ws, g, s, dis)
    ensures Fits(Apply(d, ws), g) && SameFoot(d, Apply(d, ws), g, Other(s))
    decreases |ws|
  {
    if ws == [] {
    } else {
      PutSafe(d, g, s, ws[0], dis);
      ApplySafe(Put(d, ws[0]), g, s, ws[1..], dis);
    }
  }

  // ----- gptupdate -----

  lemma SealKeepsExact(sum: Checksum, h: Hdr, t: seq<Ent>)
    requires 92 <= Size(h) && EncodeHdr(h)[..96] == h
    ensures var h' := Seal(sum, h, t); EncodeHdr(h')[..96] == h'
  {
    var h' := Seal(sum, h, t);
    SealSeals(sum, h, t);
    SameFields(h', h);
    EncodeHdrExact(h);
    EncodeHdrExact(h');
    hide Seal, EncodeHdr, Size;
    forall i | Size(h') <= i < 96 ensures h'[i] == 0 {
      assert h'[i] == h'[92..][i - 92] == h[92..][i - 92] == h[i];
    }
  }

  lemma SealedHdrSafe(d: Disk, g: Geo, s: Side, h: Hdr, t: seq<Ent>)
    requires Fits(d, g) && g.Has(s) && d[g.Home(s)][..96] == h
    ensures var h' := Seal(g.sum, h, t);
            HdrSafe(HdrWrite(h'), g, s) && HdrWrite(h').sec[..96] == h'
  {
    hide Seal, EncodeHdr, Value, SelfSum, CrcSelf, SameButCrc;
    assert HeadOk(d, g, s);
    var h' := Seal(g.sum, h, t);
    SealSeals(g.sum, h, t);
    SameFields(h', h);
    SealKeepsExact(g.sum, h, t);
  }

  /** Writing the sealed header of a table the drive already holds completes an update. */
  lemma HdrWriteSyncs(d: Disk, g: Geo, s: Side, h: Hdr, c: Copy)
    requires Fits(d, g) && g.Has(s) && d[g.Home(s)][..96] == h
    requires c.Good() && c.hdr == h
    requires forall i: nat :: i < g.At(s).n ==> EntAt(d, g, s, i) == c.tab[i]
    ensures var c' := Sealed(g.sum, c);
            HdrSafe(HdrWrite(c'.hdr), g, s) && Sync(Put(d, HdrWrite(c'.hdr)), g, s, c')
  {
    hide Seal, EncodeHdr, Value, SelfSum, CrcSelf, SameButCrc, HdrAt, HdrOk;
    HeadPlaced(d, g, s);
    SealedHdrSafe(d, g, s, h, c.Used());
    SealSeals(g.sum, h, c.Used());
    SameFields(Seal(g.sum, h, c.Used()), h);
    HdrPutFoot(d, g, s, HdrWrite(Sealed(g.sum, c).hdr));
  }

  lemma TabWriteSafe(g: Geo, s: Side, c: Copy, k: nat, dis: set<nat>)
    requires g.Ok() && c.Good() && Placed(g, s, c.hdr)
    requires k < 32 && NoMe(c, dis)
    ensures TabSafe(TabWrite(c, k), g, s, dis)
  {
    hide EncodeSector, SectorEnt;
    var w := TabWrite(c, k);
    forall i: nat | i < g.At(s).n && i in dis && i / 4 == w.lba - g.At(s).tab ensures !SectorEnt(w.sec, i % 4).me {
      DecodeEncodeSector(c.tab, k, i % 4);
      assert 4 * k + i % 4 == i;
    }
  }

  /** The drive's table after sector `k` is written from `c`. */
  lemma TabWriteEnts(d: Disk, g: Geo, s: Side, c: Copy, k: nat, i: nat)
    requires Sized(d, g) && c.Good() && Placed(g, s, c.hdr) && k < 32 && i < 128
    ensures Sized(Put(d, TabWrite(c, k)), g)
    ensures EntAt(Put(d, TabWrite(c, k)), g, s, i) == if i / 4 == k then c.tab[i] else EntAt(d, g, s, i)
  {
    hide EncodeSector, SectorEnt, EntAt;
    var w := TabWrite(c, k);
    assert g.InTab(s, w.lba);
    TabPutEnts(d, g, s, w, i);
    DecodeEncodeSector(c.tab, k, i % 4);
    if i / 4 == k {
      assert 4 * k + i % 4 == i;
    }
  }

  lemma EditKeepsNoMe(c: Copy, k: nat, x: Edit, dis: set<nat>)
    requires c.Good() && k < 128 && NoMe(c, dis)
    ensures NoMe(EditEnt(c, k, x), dis)
  {
  }

  /** The first half of an update: the sector around entry `k`. */
  lemma UpdateTable(d: Disk, g: Geo, s: Side, c: Copy, k: nat, x: Edit, dis: set<nat>)
    requires Fits(d, g) && Sync(d, g, s, c) && NoMe(c, dis) && k < 128
    ensures var w := TabWrite(EditEnt(c, k, x), k / 4);
            && TabSafe(w, g, s, dis) && Fits(Put(d, w), g)
            && Put(d, w)[g.Home(s)] == d[g.Home(s)]
            && forall i: nat :: i < g.At(s).n ==> EntAt(Put(d, w), g, s, i) == EditEnt(c, k, x).tab[i]
  {
    hide TabWrite, EntAt, HeadOk;
    var c1 := EditEnt(c, k, x);
    var w := TabWrite(c1, k / 4);
    EditKeepsNoMe(c, k, x, dis);
    TabWriteSafe(g, s, c1, k / 4, dis);
    PutSafe(d, g, s, w, dis);
    TabPutFoot(d, g, s, w);
    forall i: nat | i < g.At(s).n ensures EntAt(Put(d, w), g, s, i) == c1.tab[i] {
      TabWriteEnts(d, g, s, c1, k / 4, i);
    }
  }

  /** After gptupdate runs to its end the drive holds the edited copy. */
  lemma UpdateSyncs(d: Disk, g: Geo, s: Side, c: Copy, k: nat, x: Edit, dis: set<nat>)
    requires Fits(d, g) && Sync(d, g, s, c) && NoMe(c, dis) && k < 128
    ensures var ws := UpdateWrites(g.sum, EditEnt(c, k, x), k);
            && AllSafe(ws, g, s, dis)
            && Fits(Apply(d, ws), g) && Sync(Apply(d, ws), g, s, Sealed(g.sum, EditEnt(c, k, x)))
  {
    hide TabWrite, HdrWrite, EntAt, HeadOk, Sealed;
    var c1 := EditEnt(c, k, x);
    var w0, w1 := TabWrite(c1, k / 4), HdrWrite(Sealed(g.sum, c1).hdr);
    UpdateTable(d, g, s, c, k, x, dis);
    var d1 := Put(d, w0);
    HdrWriteSyncs(d1, g, s, c.hdr, c1);
    PutSafe(d1, g, s, w1, dis);
    ApplyTwo(d, w0, w1);
  }

  /** A crash between the two writes of an update that clears a set BOOTME bit leaves a
      copy that the next gptread rejects. */
  lemma TornUpdateRejected(d: Disk, g: Geo, s: Side, c: Copy, k: nat, stale: seq<Ent>)
    requires Fits(d, g) && Sync(d, g, s, c) && GoodTable(stale)
    requires k < g.At(s).n && c.tab[k].me && g.sum == Crc32.Crc
    ensures var d1 := Put(d, UpdateWrites(g.sum, EditEnt(c, k, ClearMe), k)[0]);
            Fits(d1, g) && ReadCopy(g.sum, d1, g.Home(s), stale) == None
  {
    hide TabWrite, HdrWrite, EntAt, HeadOk, Sealed;
    var c1 := EditEnt(c, k, ClearMe);
    var d1 := Put(d, TabWrite(c1, k / 4));
    UpdateTable(d, g, s, c, k, ClearMe, {});
    ClearingMeChangesCrc(c.Used(), k);
    assert Table(d1, g, s) == c.Used()[k := c.Used()[k].(me := false)];
    ReadCopyIs(d1, g, s, stale);
  }

  // ----- gptbootconv -----

  lemma ConvertedEnts(c: Copy, i: nat)
    requires c.Good() && i < 128
    ensures Converted(c).tab[i].me == c.tab[i].me
    ensures i < Entries(c.hdr) / 4 * 4 ==> !Converted(c).tab[i].OnceOnly()
    ensures i < Entries(c.hdr) / 4 * 4 && !Dirty(c.tab, i / 4) ==> Converted(c).tab[i] == c.tab[i]
    ensures Entries(c.hdr) / 4 * 4 <= i ==> Converted(c).tab[i] == c.tab[i]
  {
    var k := i / 4;
    assert i == 4 * k || i == 4 * k + 1 || i == 4 * k + 2 || i == 4 * k + 3;
  }

  /** The drive's table when the first `m` sectors have been converted. */
  ghost predicate ConvertedUpTo(d: Disk, g: Geo, s: Side, c: Copy, m: nat)
    requires Sized(d, g) && g.Has(s) && c.Good()
  {
    forall i: nat :: i < g.At(s).n ==> EntAt(d, g, s, i) == if i / 4 < m then Converted(c).tab[i] else c.tab[i]
  }

  lemma ConvertSector(d: Disk, g: Geo, s: Side, c: Copy, m: nat, dis: set<nat>)
    requires Fits(d, g) && c.Good() && Placed(g, s, c.hdr) && d[g.Home(s)][..96] == c.hdr && NoMe(c, dis)
    requires m < Entries(c.hdr) / 4 && ConvertedUpTo(d, g, s, c, m)
    ensures var w := TabWrite(Converted(c), m);
            && Safe(w, g, s, dis) && Fits(Put(d, w), g) && Put(d, w)[g.Home(s)] == d[g.Home(s)]
            && ConvertedUpTo(Put(d, w), g, s, c, m + 1)
  {
    hide TabWrite, EntAt, HeadOk, Converted;
    var c1 := Converted(c);
    var w := TabWrite(c1, m);
    assert NoMe(c1, dis) by {
      forall i: nat | i < Entries(c1.hdr) && i in dis ensures !c1.tab[i].me {
        ConvertedEnts(c, i);
      }
    }
    TabWriteSafe(g, s, c1, m, dis);
    PutSafe(d, g, s, w, dis);
    TabPutFoot(d, g, s, w);
    forall i: nat | i < g.At(s).n
      ensures EntAt(Put(d, w), g, s, i) == if i / 4 < m + 1 then c1.tab[i] else c.tab[i]
    {
      TabWriteEnts(d, g, s, c1, m, i);
    }
  }

  lemma SkipSector(d: Disk, g: Geo, s: Side, c: Copy, m: nat)
    requires Sized(d, g) && g.Has(s) && c.Good()
    requires m < Entries(c.hdr) / 4 && ConvertedUpTo(d, g, s, c, m) && !Dirty(c.tab, m)
    ensures ConvertedUpTo(d, g, s, c, m + 1)
  {
    forall i: nat | i < g.At(s).n && i / 4 == m ensures Converted(c).tab[i] == c.tab[i] {
      ConvertedEnts(c, i);
    }
  }

  /** The effect of the writes `ws` on a copy being converted. */
  ghost predicate Converts(d: Disk, g: Geo, s: Side, c: Copy, ws: seq<Write>, m: nat, dis: set<nat>)
    requires Sized(d, g) && g.Has(s) && c.Good()
  {
    && AllSafe(ws, g, s, dis) && Fits(Apply(d, ws), g) && Apply(d, ws)[g.Home(s)] == d[g.Home(s)]
    && ConvertedUpTo(Apply(d, ws), g, s, c, m)
  }

  lemma ConvertsMore(d: Disk, g: Geo, s: Side, c: Copy, ws: seq<Write>, m: nat, dis: set<nat>)
    requires Fits(d, g) && c.Good() && Placed(g, s, c.hdr) && d[g.Home(s)][..96] == c.hdr && NoMe(c, dis)
    requires m < Entries(c.hdr) / 4 && Converts(d, g, s, c, ws, m, dis)
    ensures Converts(d, g, s, c, ws + [TabWrite(Converted(c), m)], m + 1, dis)
  {
    hide TabWrite, Converted, Fits, Safe, ConvertedUpTo;
    var w := TabWrite(Converted(c), m);
    ConvertSector(Apply(d, ws), g, s, c, m, dis);
    ApplyConcat(d, ws, [w]);
    assert [w][1..] == [];
  }

  lemma ConvertsNone(d: Disk, g: Geo, s: Side, c: Copy, dis: set<nat>)
    requires Fits(d, g) && Sync(d, g, s, c)
    ensures Converts(d, g, s, c, [], 0, dis)
  {
    hide EntAt, HeadOk, Converted, Safe, Intact;
  }

  lemma SyncFacts(d: Disk, g: Geo, s: Side, c: Copy)
    requires Sized(d, g) && Sync(d, g, s, c)
    ensures g.Has(s) && c.Good() && Placed(g, s, c.hdr) && d[g.Home(s)][..96] == c.hdr
  {
    hide EntAt, Intact;
  }

  lemma ConvertsSkip(d: Disk, g: Geo, s: Side, c: Copy, ws: seq<Write>, m: nat, dis: set<nat>)
    requires Sized(d, g) && g.Has(s) && c.Good() && m < Entries(c.hdr) / 4 && Converts(d, g, s, c, ws, m, dis)
             && !Dirty(c.tab, m)
    ensures Converts(d, g, s, c, ws, m + 1, dis)
  {
    hide ConvertedUpTo, Dirty, HeadOk, Safe;
    SkipSector(Apply(d, ws), g, s, c, m);
  }

  lemma {:induction false} ConvertSectors(d: Disk, g: Geo, s: Side, c: Copy, m: nat, dis: set<nat>)
    requires Fits(d, g) && Sync(d, g, s, c) && NoMe(c, dis) && m <= Entries(c.hdr) / 4
    ensures Converts(d, g, s, c, ConvSectors(c, m), m, dis)
  {
    hide TabWrite, Converted, Converts, ConvertedUpTo, Sync, HeadOk, Dirty, NoMe;
    ConvertsNone(d, g, s, c, dis);
    SyncFacts(d, g, s, c);
    if m > 0 {
      ConvertSectors(d, g, s, c, m - 1, dis);
      if Dirty(c.tab, m - 1) {
        ConvertsMore(d, g, s, c, ConvSectors(c, m - 1), m - 1, dis);
      } else {
        ConvertsSkip(d, g, s, c, ConvSectors(c, m - 1), m - 1, dis);
        assert ConvSectors(c, m) == ConvSectors(c, m - 1);
      }
    }
  }

  /** gptbootconv leaves no entry of a whole sector with BOOTONCE alone, and sets no BOOTME. */
  lemma BootConvEnts(g: Geo, c: Copy, i: nat)
    requires c.Good() && i < 128
    ensures BootConv(g.sum, c).tab[i].me == c.tab[i].me
    ensures i < Entries(c.hdr) / 4 * 4 ==> !BootConv(g.sum, c).tab[i].OnceOnly()
  {
    ConvertedEnts(c, i);
    if !AnyDirty(c) && i < Entries(c.hdr) / 4 * 4 {
      NoSectors(c, Entries(c.hdr) / 4, i / 4);
    }
  }

  /** Exactly which entries still have BOOTONCE alone after gptbootconv: those that had it and
      lie past the last whole sector of the table. */
  lemma BootConvExact(g: Geo, c: Copy, i: nat)
    requires c.Good() && i < 128
    ensures BootConv(g.sum, c).tab[i].OnceOnly() <==> Entries(c.hdr) / 4 * 4 <= i && c.tab[i].OnceOnly()
  {
    BootConvEnts(g, c, i);
    ConvertedEnts(c, i);
  }

  /** What gptbootconv makes of each entry: one with BOOTONCE alone, in a whole sector, gets
      BOOTFAILED in its place, and every other one stays as it was. */
  lemma BootConvEntry(sum: Checksum, c: Copy, i: nat)
    requires c.Good() && i < 128
    ensures var e, e' := c.tab[i], BootConv(sum, c).tab[i];
            if i < Entries(c.hdr) / 4 * 4 && e.once && !e.me && !e.failed
            then e' == Ent(e.head, false, false, true, e.rest, e.name)
            else e' == e
  {
    ConvertedEnts(c, i);
    if !AnyDirty(c) && i < Entries(c.hdr) / 4 * 4 {
      NoSectors(c, Entries(c.hdr) / 4, i / 4);
    }
  }

  lemma ConvertsSyncs(d: Disk, g: Geo, s: Side, c: Copy, ws: seq<Write>, dis: set<nat>)
    requires Fits(d, g) && Sync(d, g, s, c) && Converts(d, g, s, c, ws, Entries(c.hdr) / 4, dis)
    ensures var w := HdrWrite(Sealed(g.sum, Converted(c)).hdr);
            && AllSafe(ws + [w], g, s, dis) && Fits(Apply(d, ws + [w]), g)
            && Sync(Apply(d, ws + [w]), g, s, Sealed(g.sum, Converted(c)))
  {
    hide TabWrite, HdrWrite, EntAt, HeadOk, Sealed, Converted, TabSafe, HdrSafe;
    var d1, c1 := Apply(d, ws), Converted(c);
    var w := HdrWrite(Sealed(g.sum, c1).hdr);
    forall i: nat | i < g.At(s).n ensures EntAt(d1, g, s, i) == c1.tab[i] {
      ConvertedEnts(c, i);
    }
    HdrWriteSyncs(d1, g, s, c.hdr, c1);
    PutSafe(d1, g, s, w, dis);
    ApplyConcat(d, ws, [w]);
    assert [w][1..] == [];
  }

  /** After gptbootconv runs to its end the drive holds the converted copy. */
  lemma BootConvSyncs(d: Disk, g: Geo, s: Side, c: Copy, dis: set<nat>)
    requires Fits(d, g) && Sync(d, g, s, c) && NoMe(c, dis)
    ensures var ws := BootConvWrites(g.sum, c);
            && AllSafe(ws, g, s, dis)
            && Fits(Apply(d, ws), g) && Sync(Apply(d, ws), g, s, BootConv(g.sum, c))
  {
    hide HdrWrite, EntAt, HeadOk, Sealed, Converted, Safe, ConvSectors, Intact;
    if AnyDirty(c) {
      ConvertSectors(d, g, s, c, Entries(c.hdr) / 4, dis);
      ConvertsSyncs(d, g, s, c, ConvSectors(c, Entries(c.hdr) / 4), dis);
    }
  }
}
