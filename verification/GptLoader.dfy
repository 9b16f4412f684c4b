/**
 boot/common/gpt.c itself: the static headers, tables, `curent` and `bootonce`, and
 the routines that change them and the drive, each proved against GptSpec.
 */
module GptLoader {
  import Crc32
  import opened Options
  import opened GptFormat
  import opened GptSpec
  import GptCopy

  class Gpt {
    /** The drive, and every write made to it. */
    var disk: Disk
    ghost var writes: seq<Write>

    var hdrPrimary: Hdr
    var hdrBackup: Hdr
    /** 0 unless the copy is valid */
    var hdrPrimaryLba: nat
    var hdrBackupLba: nat
    const tablePrimary: array<Ent>
    const tableBackup: array<Ent>
    var curent: int
    var bootonce: bool

    /** The boot device: selected partition and its first sector. */
    var part: int
    var start: nat

    ghost predicate Valid()
      reads this, tablePrimary, tableBackup
    {
      && tablePrimary != tableBackup
      && GoodTable(tablePrimary[..]) && GoodTable(tableBackup[..])
      && (hdrPrimaryLba > 0 ==> Entries(hdrPrimary) <= 128)
      && (hdrBackupLba > 0 ==> Entries(hdrBackup) <= 128)
    }

    ghost function View(): (m: Mem)
      requires Valid()
      reads this, tablePrimary, tableBackup
      ensures m.Good()
    {
      Mem(if hdrPrimaryLba > 0 then Some(Copy(hdrPrimary, tablePrimary[..])) else None,
          if hdrBackupLba > 0 then Some(Copy(hdrBackup, tableBackup[..])) else None,
          curent, bootonce)
    }

    constructor (d: Disk)
      ensures Valid() && disk == d && writes == [] && fresh(tablePrimary) && fresh(tableBackup)
      ensures hdrPrimaryLba == hdrBackupLba == 0
    {
      disk, writes := d, [];
      hdrPrimary, hdrBackup := seq(96, _ => 0), seq(96, _ => 0);
      hdrPrimaryLba, hdrBackupLba := 0, 0;
      curent, bootonce, part, start := 0, false, 0, 0;
      var blank := Ent(seq(55, _ => 0), false, false, false, 0, seq(72, _ => 0));
      tablePrimary := new Ent[128](_ => blank);
      tableBackup := new Ent[128](_ => blank);
    }

    method DrvWrite(lba: nat, sec: Sector)
      modifies this`disk, this`writes
      ensures disk == Put(old(disk), Write(lba, sec))
      ensures writes == old(writes) + [Write(lba, sec)]
    {
      if lba < |disk| {
        disk := disk[lba := sec];
      }
      writes := writes + [Write(lba, sec)];
    }

    /** New checksums for a header. */
    method SealHdr(hdr: Hdr, table: array<Ent>) returns (sealed: Hdr)
      requires table.Length == 128 && Entries(hdr) <= 128
      ensures sealed == Seal(Crc32.Crc, hdr, table[..Entries(hdr)])
    {
      var crcTable := Crc32.Compute(EncodeTable(table[..Entries(hdr)]));
      sealed := SetCrcTable(hdr, crcTable);
      var size := if Size(sealed) <= HDRSIZE then Size(sealed) else HDRSIZE;
      var crcSelf := Crc32.Compute(SetCrcSelf(sealed, 0)[..size]);
      sealed := SetCrcSelf(sealed, crcSelf);
    }

    /** gptupdate: the sector of entry `curent`, then the header. */
    method Update(hdr: Hdr, table: array<Ent>) returns (hdr': Hdr)
      requires GoodTable(table[..]) && Entries(hdr) <= 128 && 0 <= curent < 128
      modifies this`disk, this`writes
      ensures hdr' == Sealed(Crc32.Crc, Copy(hdr, table[..])).hdr
      ensures writes == old(writes) + UpdateWrites(Crc32.Crc, Copy(hdr, table[..]), curent)
      ensures disk == Apply(old(disk), UpdateWrites(Crc32.Crc, Copy(hdr, table[..]), curent))
    {
      hide EncodeSector, Seal, EncodeHdr;
      var slba := curent / 4;
      var secbuf := EncodeSector(table[..], slba);
      DrvWrite(slba + LbaTable(hdr), secbuf);
      hdr' := SealHdr(hdr, table);
      assert table[..][..Entries(hdr)] == table[..Entries(hdr)];
      ghost var w0, w1 := TabWrite(Copy(hdr, table[..]), slba), HdrWrite(hdr');
      DrvWrite(LbaSelf(hdr'), EncodeHdr(hdr'));
      assert writes == old(writes) + [w0, w1];
      ApplyTwo(old(disk), w0, w1);
    }

    /** Edit entry `curent` of the primary copy, if valid, and write it back. */
    method EditPrimary(x: Edit)
      requires Valid() && 0 <= curent < 128
      modifies this`disk, this`writes, this`hdrPrimary, tablePrimary
      ensures Valid() && View() == old(View()).(pri := MapEdit(Crc32.Crc, old(View()).pri, curent, x))
      ensures writes == old(writes) + MapEditWrites(Crc32.Crc, old(View()).pri, curent, x)
      ensures disk == Apply(old(disk), MapEditWrites(Crc32.Crc, old(View()).pri, curent, x))
    {
      hide UpdateWrites, Seal, Apply;
      if hdrPrimaryLba > 0 {
        tablePrimary[curent] := Do(x, tablePrimary[curent]);
        assert tablePrimary[..] == old(tablePrimary[..])[curent := Do(x, old(tablePrimary[..])[curent])];
        hdrPrimary := Update(hdrPrimary, tablePrimary);
      } else {
        ApplyNone(disk);
      }
    }

    method EditBackup(x: Edit)
      requires Valid() && 0 <= curent < 128
      modifies this`disk, this`writes, this`hdrBackup, tableBackup
      ensures Valid() && View() == old(View()).(bak := MapEdit(Crc32.Crc, old(View()).bak, curent, x))
      ensures writes == old(writes) + MapEditWrites(Crc32.Crc, old(View()).bak, curent, x)
      ensures disk == Apply(old(disk), MapEditWrites(Crc32.Crc, old(View()).bak, curent, x))
    {
      hide UpdateWrites, Seal, Apply;
      if hdrBackupLba > 0 {
        tableBackup[curent] := Do(x, tableBackup[curent]);
        assert tableBackup[..] == old(tableBackup[..])[curent := Do(x, old(tableBackup[..])[curent])];
        hdrBackup := Update(hdrBackup, tableBackup);
      } else {
        ApplyNone(disk);
      }
    }

    /** The edit and update of both copies, common to gptfind and gptbootfailed. */
    method EditAll(x: Edit)
      requires Valid() && 0 <= curent < 128
      modifies this`disk, this`writes, this`hdrPrimary, this`hdrBackup, tablePrimary, tableBackup
      ensures Valid() && View() == EditBoth(Crc32.Crc, old(View()), curent, x)
      ensures writes == old(writes) + EditBothWrites(Crc32.Crc, old(View()), curent, x)
      ensures disk == Apply(old(disk), EditBothWrites(Crc32.Crc, old(View()), curent, x))
    {
      hide MapEdit, MapEditWrites, Apply, View, Valid;
      ghost var m := View();
      ghost var ws1, ws2 := MapEditWrites(Crc32.Crc, m.pri, curent, x), MapEditWrites(Crc32.Crc, m.bak, curent, x);
      EditPrimary(x);
      EditBackup(x);
      ApplyConcat(old(disk), ws1, ws2);
      assert writes == old(writes) + (ws1 + ws2);
    }

    // ----- gptread -----

    /** gptread_hdr */
    method ReadHeader(lba: nat) returns (r: Option<Hdr>)
      ensures r == ReadHdr(Crc32.Crc, disk, lba)
    {
      hide Value, Word;
      if lba >= |disk| {
        return None;
      }
      var hdr: Hdr := disk[lba][..96];
      if hdr[..8] != SIGNATURE || LbaSelf(hdr) != lba || Revision(hdr) < 0x10000
         || EntSize(hdr) < 128 || Entries(hdr) > 128 || 512 % EntSize(hdr) != 0 {
        return None;
      }
      var size := if Size(hdr) <= HDRSIZE then Size(hdr) else HDRSIZE;
      var crc := Crc32.Compute(SetCrcSelf(hdr, 0)[..size]);
      if crc != CrcSelf(hdr) {
        return None;
      }
      return Some(hdr);
    }

    /** One sector's worth of gptread_table: entries from `nent` on, at most four. */
    method ReadEntries(secbuf: Sector, table: array<Ent>, nent: nat, n: nat) returns (nent': nat)
      requires table.Length == 128 && nent < n <= 128
      modifies table
      ensures nent' == if nent + 4 <= n then nent + 4 else n
      ensures forall i: nat :: nent <= i < nent' ==> table[i] == SectorEnt(secbuf, i - nent)
      ensures forall i: nat :: i < 128 && !(nent <= i < nent') ==> table[i] == old(table[i])
    {
      hide SectorEnt;
      nent' := nent;
      var part := 0;
      while part < 4
        invariant 0 <= part <= 4 && nent' == nent + part && (part < 4 ==> nent' < n) && nent' <= n
        invariant forall i: nat :: nent <= i < nent' ==> table[i] == SectorEnt(secbuf, i - nent)
        invariant forall i: nat :: i < 128 && !(nent <= i < nent') ==> table[i] == old(table[i])
      {
        table[nent'] := SectorEnt(secbuf, part);
        nent' := nent' + 1;
        part := part + 1;
        if nent' >= n {
          break;
        }
      }
    }

    /** gptread_table */
    method ReadTable(hdr: Hdr, table: array<Ent>) returns (ok: bool)
      requires table.Length == 128 && Entries(hdr) <= 128
      modifies table
      ensures ok == TableOk(Crc32.Crc, disk, hdr)
      ensures ok ==> table[..] == DiskTable(disk, LbaTable(hdr), Entries(hdr)) + old(table[..])[Entries(hdr)..]
      ensures GoodTable(old(table[..])) ==> GoodTable(table[..])
    {
      hide SectorEnt, EncodeTable, Value, Word;
      var n := Entries(hdr);
      if n == 0 {
        assert table[..] == [] + old(table[..])[0..];
        return true;
      }
      var slba := LbaTable(hdr);
      var nent := 0;
      while nent < n
        invariant LbaTable(hdr) <= slba && 0 <= nent <= n
        invariant nent < n ==> nent == 4 * (slba - LbaTable(hdr))
        invariant nent > 0 ==> LbaTable(hdr) + (nent - 1) / 4 < |disk|
        invariant forall i: nat :: i < nent ==> table[i] == DiskEnt(disk, LbaTable(hdr), i)
        invariant forall i: nat :: nent <= i < 128 ==> table[i] == old(table[i])
      {
        if slba >= |disk| {
          assert LbaTable(hdr) + (n - 1) / 4 >= slba;
          return false;
        }
        ghost var first := nent;
        nent := ReadEntries(disk[slba], table, nent, n);
        forall i: nat | i < nent ensures table[i] == DiskEnt(disk, LbaTable(hdr), i) {
          if first <= i {
            assert i / 4 == slba - LbaTable(hdr) && i % 4 == i - first;
          }
        }
        slba := slba + 1;
      }
      assert table[..n] == DiskTable(disk, LbaTable(hdr), n);
      assert table[..] == table[..n] + old(table[..])[n..];
      var crc := Crc32.Compute(EncodeTable(table[..n]));
      return crc == CrcTable(hdr);
    }

    // ----- gptbootconv -----

    /** One sector of gptbootconv's inner loop. */
    method ConvertFour(table: array<Ent>, nent: nat) returns (updated: bool)
      requires table.Length == 128 && nent + 4 <= 128
      modifies table
      ensures forall i: nat :: i < 128 ==>
              table[i] == if nent <= i < nent + 4 then Conv(old(table[i])) else old(table[i])
      ensures updated <==> exists i: nat :: nent <= i < nent + 4 && old(table[i]).OnceOnly()
    {
      updated := false;
      var part := 0;
      while part < 4
        invariant 0 <= part <= 4
        invariant forall i: nat :: i < 128 ==>
                  table[i] == if nent <= i < nent + part then Conv(old(table[i])) else old(table[i])
        invariant updated <==> exists i: nat :: nent <= i < nent + part && old(table[i]).OnceOnly()
      {
        var ent := table[nent + part];
        assert ent == old(table[nent + part]);
        if ent.OnceOnly() {
          table[nent + part] := Do(MarkFailed, ent);
          updated := true;
        }
        part := part + 1;
      }
    }

    /** One turn of gptbootconv's outer loop. */
    method ConvertSector(hdr: Hdr, table: array<Ent>, k: nat, ghost c: Copy) returns (updated: bool)
      requires c.Good() && hdr == c.hdr && k < Entries(hdr) / 4
      requires table.Length == 128 && ConvertedTo(table[..], c, k)
      modifies this`disk, this`writes, table
      ensures GoodTable(table[..]) && ConvertedTo(table[..], c, k + 1) && updated == Dirty(c.tab, k)
      ensures var ws := if updated then [TabWrite(Converted(c), k)] else [];
              writes == old(writes) + ws && disk == Apply(old(disk), ws)
    {
      hide EncodeSector, Value, Conv, Converted;
      updated := ConvertFour(table, 4 * k);
      ConvertFourIs(old(table[..]), table[..], c, k);
      SectorOfOld(old(table[..]), c, k);
      if updated {
        EncodesConverted(table[..], c, k);
        DrvWrite(LbaTable(hdr) + k, EncodeSector(table[..], k));
        ApplyOne(old(disk), TabWrite(Converted(c), k));
      }
    }

    method ConvertTable(hdr: Hdr, table: array<Ent>) returns (updated: bool)
      requires GoodTable(table[..]) && Entries(hdr) <= 128
      modifies this`disk, this`writes, table
      ensures var c := Copy(hdr, old(table[..]));
              && table[..] == Converted(c).tab && updated == AnyDirty(c)
              && writes == old(writes) + ConvSectors(c, Entries(hdr) / 4)
              && disk == Apply(old(disk), ConvSectors(c, Entries(hdr) / 4))
    {
      hide TabWrite, Converted, Dirty, Value, Apply, ConvertedTo, Conv;
      ghost var c := Copy(hdr, table[..]);
      NothingYet(table[..], c, disk);
      updated := false;
      var k := 0;
      while k < Entries(hdr) / 4
        invariant 0 <= k <= Entries(hdr) / 4
        invariant table.Length == 128 && ConvertedTo(table[..], c, k)
        invariant writes == old(writes) + ConvSectors(c, k) && disk == Apply(old(disk), ConvSectors(c, k))
        invariant updated == (ConvSectors(c, k) != [])
      {
        var sectorUpdated := ConvertSector(hdr, table, k, c);
        ghost var ws := if sectorUpdated then [TabWrite(Converted(c), k)] else [];
        assert ConvSectors(c, k + 1) == ConvSectors(c, k) + ws;
        ApplyConcat(old(disk), ConvSectors(c, k), ws);
        updated := updated || sectorUpdated;
        k := k + 1;
      }
      ConvertedAll(table[..], c);
    }

    /** gptbootconv */
    method Convert(hdr: Hdr, table: array<Ent>) returns (hdr': Hdr)
      requires GoodTable(table[..]) && Entries(hdr) <= 128
      modifies this`disk, this`writes, table
      ensures GoodTable(table[..])
      ensures Copy(hdr', table[..]) == BootConv(Crc32.Crc, Copy(hdr, old(table[..])))
      ensures writes == old(writes) + BootConvWrites(Crc32.Crc, Copy(hdr, old(table[..])))
      ensures disk == Apply(old(disk), BootConvWrites(Crc32.Crc, Copy(hdr, old(table[..]))))
      ensures forall i: nat :: i < 128 ==>
                var e := old(table[..])[i];
                if i < Entries(hdr) / 4 * 4 && e.once && !e.me && !e.failed
                then table[i] == Ent(e.head, false, false, true, e.rest, e.name)
                else table[i] == e
    {
      hide Seal, EncodeHdr, Value, Converted, ConvSectors, BootConv;
      ghost var c := Copy(hdr, table[..]);
      BootConvIs(c);
      forall i: nat | i < 128
        ensures var e, e' := c.tab[i], BootConv(Crc32.Crc, c).tab[i];
                if i < Entries(hdr) / 4 * 4 && e.once && !e.me && !e.failed
                then e' == Ent(e.head, false, false, true, e.rest, e.name)
                else e' == e
      {
        GptCopy.BootConvEntry(Crc32.Crc, c, i);
      }
      ghost var ws := ConvSectors(c, Entries(hdr) / 4);
      var updated := ConvertTable(hdr, table);
      if !updated {
        NothingConverted(c);
        return hdr;
      }
      hdr' := SealHdr(hdr, table);
      assert table[..][..Entries(hdr)] == table[..Entries(hdr)];
      DrvWrite(LbaSelf(hdr'), EncodeHdr(hdr'));
      ApplyConcat(old(disk), ws, [HdrWrite(hdr')]);
      ApplyOne(Apply(old(disk), ws), HdrWrite(hdr'));
    }

    /** gptread's last part: convert both copies. */
    method ConvertAll()
      requires Valid()
      modifies this`disk, this`writes, this`hdrPrimary, this`hdrBackup, tablePrimary, tableBackup
      ensures Valid()
      ensures View() == old(View()).(pri := MapConv(Crc32.Crc, old(View()).pri),
              bak := MapConv(Crc32.Crc, old(View()).bak))
      ensures var ws := MapConvWrites(Crc32.Crc, old(View()).pri) + MapConvWrites(Crc32.Crc, old(View()).bak);
              writes == old(writes) + ws && disk == Apply(old(disk), ws)
    {
      hide BootConv, BootConvWrites, Value;
      ghost var m := View();
      ghost var ws1, ws2 := MapConvWrites(Crc32.Crc, m.pri), MapConvWrites(Crc32.Crc, m.bak);
      if hdrPrimaryLba != 0 {
        hdrPrimary := Convert(hdrPrimary, tablePrimary);
      }
      if hdrBackupLba != 0 {
        hdrBackup := Convert(hdrBackup, tableBackup);
      }
      ApplyConcat(old(disk), ws1, ws2);
      assert writes == old(writes) + (ws1 + ws2);
    }

    /** gptread */
    method Read() returns (r: int)
      requires Valid()
      modifies this, tablePrimary, tableBackup
      ensures Valid() && View() == GptRead(Crc32.Crc, old(disk), old(tablePrimary[..]), old(tableBackup[..]))
      ensures writes == old(writes) + GptReadWrites(Crc32.Crc, old(disk), old(tablePrimary[..]), old(tableBackup[..]))
      ensures disk == Apply(old(disk), GptReadWrites(Crc32.Crc, old(disk), old(tablePrimary[..]), old(tableBackup[..])))
      ensures r == if View().Usable() then 0 else -1
      ensures curent == -1 && bootonce && start == 0
    {
      hide MapConv, MapConvWrites, ReadCopy, Value, Apply;
      hdrPrimaryLba, hdrBackupLba := 0, 0;
      curent, bootonce, start := -1, true, 0;
      ghost var staleP, staleB := tablePrimary[..], tableBackup[..];

      ReadPrimaryCopy();
      ghost var pri := ReadPrimary(Crc32.Crc, disk, staleP);
      var altlba := if hdrPrimaryLba > 0 then LbaAlt(hdrPrimary) else LastLba(disk);
      ghost var bak := ReadBackup(Crc32.Crc, disk, pri, staleB);
      if altlba != 0 {
        ReadBackupCopy(altlba);
      }
      ConvertAll();
      return if hdrPrimaryLba == 0 && hdrBackupLba == 0 then -1 else 0;
    }

    /** gptread's first half: header and table of the primary copy. */
    method ReadPrimaryCopy()
      requires Valid() && hdrPrimaryLba == 0
      modifies this`hdrPrimary, this`hdrPrimaryLba, tablePrimary
      ensures Valid() && View().pri == ReadCopy(Crc32.Crc, disk, 1, old(tablePrimary[..]))
    {
      hide TableOk, DiskTable, Value;
      var h := ReadHeader(1);
      if h.Some? {
        hdrPrimary := h.value;
        var ok := ReadTable(hdrPrimary, tablePrimary);
        if ok {
          hdrPrimaryLba := LbaSelf(hdrPrimary);
        }
      }
    }

    method ReadBackupCopy(lba: nat)
      requires Valid() && hdrBackupLba == 0 && lba > 0
      modifies this`hdrBackup, this`hdrBackupLba, tableBackup
      ensures Valid() && View().bak == ReadCopy(Crc32.Crc, disk, lba, old(tableBackup[..]))
    {
      hide TableOk, DiskTable, Value;
      var h := ReadHeader(lba);
      if h.Some? {
        hdrBackup := h.value;
        var ok := ReadTable(hdrBackup, tableBackup);
        if ok {
          hdrBackupLba := LbaSelf(hdrBackup);
        }
      }
    }

    // ----- gptfind -----

    /** gpthdr and gpttable point at the primary copy. */
    predicate UsesPrimary()
      reads this`hdrPrimaryLba
    {
      hdrPrimaryLba > 0
    }

    /** gpthdr->hdr_entries */
    function Count(): nat
      reads this`hdrPrimaryLba, this`hdrPrimary, this`hdrBackup
    {
      if UsesPrimary() then Entries(hdrPrimary) else Entries(hdrBackup)
    }

    /** gpttable */
    ghost function Tab(): seq<Ent>
      reads this`hdrPrimaryLba, tablePrimary, tableBackup
    {
      if UsesPrimary() then tablePrimary[..] else tableBackup[..]
    }

    method ActiveEnt(i: nat) returns (e: Ent)
      requires tablePrimary.Length == 128 && tableBackup.Length == 128 && i < 128
      ensures e == Tab()[i]
    {
      e := if UsesPrimary() then tablePrimary[i] else tableBackup[i];
    }

    /** One of gptfind's three scans, from `curent` on. */
    method Scan(kind: Kind, uuid: Bytes) returns (found: bool)
      requires GoodTable(Tab()) && tablePrimary.Length == 128 && tableBackup.Length == 128
      requires 0 <= curent <= Count() <= 128
      modifies this`curent
      ensures curent == Next(Tab(), Count(), old(curent), kind, uuid)
      ensures found == (curent < Count())
    {
      hide Eligible, GoodTable;
      while curent < Count()
        invariant old(curent) <= curent <= Count()
        invariant Next(Tab(), Count(), curent, kind, uuid) == Next(Tab(), Count(), old(curent), kind, uuid)
      {
        assert GoodTable(Tab());
        GoodEnt(Tab(), curent);
        var ent := ActiveEnt(curent);
        if Eligible(kind, ent, uuid) {
          return true;
        }
        curent := curent + 1;
      }
      return false;
    }

    /** gptfind's automatic selection. */
    method SelectAuto(uuid: Bytes) returns (found: bool)
      requires GoodTable(Tab()) && tablePrimary.Length == 128 && tableBackup.Length == 128
      requires -1 <= curent && Count() <= 128
      modifies this`curent, this`bootonce
      ensures Choice(found, curent, bootonce) == ChooseAuto(Tab(), Count(), old(curent), old(bootonce), uuid)
    {
      hide Next, GoodTable, Eligible;
      var firsttry := curent == -1;
      curent := curent + 1;
      if curent >= Count() {
        curent := Count();
        return false;
      }
      if bootonce {
        found := Scan(BothFlags, uuid);
        if found {
          return;
        }
        bootonce := false;
        curent := 0;
      }
      found := Scan(MeOnly, uuid);
      if !found && firsttry {
        curent := 0;
        found := Scan(AnyOfType, uuid);
      }
    }

    /** The selection part of gptfind: up to the label `found`. */
    method Select(uuid: Bytes, want: int) returns (found: bool)
      requires Valid() && View().Usable() && -1 <= curent
      modifies this`curent, this`bootonce
      ensures Choice(found, curent, bootonce) == Choose(old(View()), uuid, want)
    {
      hide ChooseAuto;
      assert Tab() == View().Active().tab && Count() == Entries(View().Active().hdr);
      if want < 0 {
        found := SelectAuto(uuid);
        return;
      }
      if want == 0 || want > Count() {
        return false;
      }
      var ent := ActiveEnt(want - 1);
      if ent.Type() != uuid {
        return false;
      }
      curent := want - 1;
      return true;
    }

    /** gptfind */
    method Find(uuid: Bytes, want: int) returns (r: int)
      requires Valid() && View().Usable() && -1 <= curent
      modifies this, tablePrimary, tableBackup
      ensures Valid() && View() == GptFind(Crc32.Crc, old(View()), uuid, want)
      ensures writes == old(writes) + GptFindWrites(Crc32.Crc, old(View()), uuid, want)
      ensures disk == Apply(old(disk), GptFindWrites(Crc32.Crc, old(View()), uuid, want))
      ensures r == 0 || r == -1
      ensures r == 0 <==> Choose(old(View()), uuid, want).found
      ensures r == 0 ==> part == curent + 1 && start == Value(old(View()).Active().tab[curent].head[32..40])
      ensures var k := if r == 0 && old(View()).Active().tab[curent].once then curent else -1;
              OnlyEntry(old(View()).pri, View().pri, k, WITHOUT_ME)
              && OnlyEntry(old(View()).bak, View().bak, k, WITHOUT_ME)
    {
      hide EditBoth, EditBothWrites, ChooseAuto, Value, OnlyEntry;
      ghost var m := View();
      FindEntries(Crc32.Crc, m, uuid, want);
      var found := Select(uuid, want);
      if !found {
        return -1;
      }
      part := curent + 1;
      var ent := ActiveEnt(curent);
      start := Value(ent.head[32..40]);
      if ent.once {
        EditAll(ClearMe);
        EditCursor(Crc32.Crc, m, curent, bootonce, curent, ClearMe);
      }
      return 0;
    }

    /** gptbootfailed */
    method BootFailed()
      requires Valid() && View().Usable() && 0 <= curent < 128
      modifies this`disk, this`writes, this`hdrPrimary, this`hdrBackup, tablePrimary, tableBackup
      ensures Valid() && View() == GptBootFailed(Crc32.Crc, old(View()))
      ensures writes == old(writes) + GptBootFailedWrites(Crc32.Crc, old(View()))
      ensures disk == Apply(old(disk), GptBootFailedWrites(Crc32.Crc, old(View())))
      ensures var k := if old(View()).Active().tab[curent].once then curent else -1;
              OnlyEntry(old(View()).pri, View().pri, k, FAILED) && OnlyEntry(old(View()).bak, View().bak, k, FAILED)
    {
      hide EditBoth, EditBothWrites, OnlyEntry;
      FailedEntries(Crc32.Crc, View());
      var ent := ActiveEnt(curent);
      if !ent.once {
        return;
      }
      EditAll(MarkFailed);
    }
  }

  lemma GoodEnt(t: seq<Ent>, i: nat)
    requires GoodTable(t) && i < 128
    ensures |t| == 128 && t[i].Good()
  {
  }

  lemma BootConvIs(c: Copy)
    requires c.Good()
    ensures BootConv(Crc32.Crc, c) == if AnyDirty(c) then Sealed(Crc32.Crc, Converted(c)) else c
  {
  }

  lemma ApplyNone(d: Disk)
    ensures Apply(d, []) == d
  {
  }

  /** Editing the copies and moving the cursor commute. */
  lemma EditCursor(sum: Checksum, m: Mem, curent: int, bootonce: bool, k: nat, x: Edit)
    requires m.Good() && k < 128
    ensures var m1 := m.(curent := curent, bootonce := bootonce);
            EditBoth(sum, m1, k, x) == EditBoth(sum, m, k, x).(curent := curent, bootonce := bootonce)
    ensures var m1 := m.(curent := curent, bootonce := bootonce);
            EditBothWrites(sum, m1, k, x) == EditBothWrites(sum, m, k, x)
  {
    hide MapEdit, MapEditWrites;
  }

  // ----- Steps of gptbootconv's loop -----

  /** The first `k` sectors of `c`'s table have been converted. */
  ghost predicate ConvertedTo(t: seq<Ent>, c: Copy, k: nat)
    requires c.Good()
  {
    |t| == 128 && forall i: nat :: i < 128 ==> t[i] == if i < 4 * k then Conv(c.tab[i]) else c.tab[i]
  }

  lemma ConvertFourIs(t: seq<Ent>, t': seq<Ent>, c: Copy, k: nat)
    requires c.Good() && k < 32 && ConvertedTo(t, c, k) && |t'| == 128
    requires forall i: nat :: i < 128 ==> t'[i] == if 4 * k <= i < 4 * k + 4 then Conv(t[i]) else t[i]
    ensures ConvertedTo(t', c, k + 1) && GoodTable(t')
  {
    hide Conv;
  }

  lemma SectorOfOld(t: seq<Ent>, c: Copy, k: nat)
    requires c.Good() && k < 32 && ConvertedTo(t, c, k)
    ensures Dirty(c.tab, k) <==> exists i: nat :: 4 * k <= i < 4 * k + 4 && t[i].OnceOnly()
  {
    if Dirty(c.tab, k) {
      assert t[4 * k].OnceOnly() || t[4 * k + 1].OnceOnly() || t[4 * k + 2].OnceOnly() || t[4 * k + 3].OnceOnly();
    }
  }

  lemma EncodesConverted(t: seq<Ent>, c: Copy, k: nat)
    requires c.Good() && GoodTable(t) && k < Entries(c.hdr) / 4 && ConvertedTo(t, c, k + 1)
    ensures EncodeSector(t, k) == EncodeSector(Converted(c).tab, k)
  {
    hide EncodeEnt;
    assert forall i: nat :: 4 * k <= i < 4 * k + 4 ==> t[i] == Converted(c).tab[i];
    assert t[4 * k] == Converted(c).tab[4 * k] && t[4 * k + 1] == Converted(c).tab[4 * k + 1];
    assert t[4 * k + 2] == Converted(c).tab[4 * k + 2] && t[4 * k + 3] == Converted(c).tab[4 * k + 3];
  }

  lemma NothingYet(t: seq<Ent>, c: Copy, d: Disk)
    requires c.Good() && t == c.tab
    ensures ConvertedTo(t, c, 0) && ConvSectors(c, 0) == [] && d == Apply(d, [])
  {
  }

  lemma ConvertedAll(t: seq<Ent>, c: Copy)
    requires c.Good() && ConvertedTo(t, c, Entries(c.hdr) / 4)
    ensures t == Converted(c).tab
  {
    hide Conv;
  }

  /** If no sector was written, nothing was converted. */
  lemma NothingConverted(c: Copy)
    requires c.Good() && !AnyDirty(c)
    ensures Converted(c).tab == c.tab
  {
    forall i: nat | i < 128 ensures Converted(c).tab[i] == c.tab[i] {
      if i < Entries(c.hdr) / 4 * 4 {
        NoSectors(c, Entries(c.hdr) / 4, i / 4);
        assert i == 4 * (i / 4) || i == 4 * (i / 4) + 1 || i == 4 * (i / 4) + 2 || i == 4 * (i / 4) + 3;
      }
    }
  }

  lemma ApplyOne(d: Disk, w: Write)
    ensures Apply(d, [w]) == Put(d, w)
  {
    assert [w][1..] == [];
  }
}
