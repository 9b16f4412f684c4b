/**
 What each entry point of boot/common/gpt.c does, as functions from the drive and
 the in-memory copies to new in-memory copies and the list of sector writes, in
 order.  A crash cuts such a list short.
 */
module GptSpec {
  import opened Options
  import opened GptFormat

  datatype Write = Write(lba: nat, sec: Sector)

  function Put(d: Disk, w: Write): (d': Disk)
    ensures |d'| == |d|
  {
    if w.lba < |d| then d[w.lba := w.sec] else d
  }

  function Apply(d: Disk, ws: seq<Write>): (d': Disk)
    ensures |d'| == |d|
    decreases |ws|
  {
    if ws == [] then d else Apply(Put(d, ws[0]), ws[1..])
  }

  lemma {:induction false} ApplyConcat(d: Disk, ws: seq<Write>, ws': seq<Write>)
    ensures Apply(d, ws + ws') == Apply(Apply(d, ws), ws')
    decreases |ws|
  {
    if ws == [] {
      assert ws + ws' == ws';
    } else {
      assert (ws + ws')[1..] == ws[1..] + ws';
      ApplyConcat(Put(d, ws[0]), ws[1..], ws');
    }
  }

  lemma ApplyTwo(d: Disk, v: Write, w: Write)
    ensures Apply(d, [v, w]) == Put(Put(d, v), w)
  {
    assert [v, w][1..] == [w] && [w][1..] == [];
    assert Apply(d, [v, w]) == Apply(Put(d, v), [w]);
  }

  // ----- Reading -----

  /** The checks gptread_hdr makes on the sector it read from `lba`. */
  predicate HdrOk(sum: Checksum, sec: Sector, lba: nat) {
    var h: Hdr := sec[..96];
    && h[..8] == SIGNATURE && LbaSelf(h) == lba && Revision(h) >= 0x10000
    && EntSize(h) >= 128 && Entries(h) <= 128 && 512 % EntSize(h) == 0
    && SelfSum(sum, h) == CrcSelf(h)
  }

  /** What an accepted header says: it is signed, names its own sector, has revision 1.0 or above,
      and at most 128 entries of 128, 256 or 512 bytes. */
  lemma AcceptedHeader(sum: Checksum, sec: Sector, lba: nat)
    requires HdrOk(sum, sec, lba)
    ensures sec[..8] == [0x45, 0x46, 0x49, 0x20, 0x50, 0x41, 0x52, 0x54]
    ensures Value(sec[8..12]) >= 0x1_0000 && Value(sec[24..32]) == lba
    ensures Value(sec[80..84]) <= 128 && Value(sec[84..88]) in {128, 256, 512}
  {
    hide Value, SelfSum;
    var h: Hdr := sec[..96];
    assert h[..8] == sec[..8] && h[8..12] == sec[8..12] && h[24..32] == sec[24..32];
    assert h[80..84] == sec[80..84] && h[84..88] == sec[84..88];
    Divisors(EntSize(h));
  }

  lemma Divisors(n: nat)
    requires n >= 128 && 512 % n == 0
    ensures n in {128, 256, 512}
  {
    var q := 512 / n;
    assert 512 == q * n && (q >= 5 ==> q * n >= 5 * n);
    assert q == 1 || q == 2 || q == 3 || q == 4;
  }

  function ReadHdr(sum: Checksum, d: Disk, lba: nat): (r: Option<Hdr>)
    ensures r.Some? ==> lba < |d| && Entries(r.value) <= 128
  {
    if lba < |d| && HdrOk(sum, d[lba], lba) then Some(d[lba][..96]) else None
  }

  /** One redundant copy in memory: header and a table of 128 entries, of which the
      first `Entries(hdr)` came from the drive. */
  datatype Copy = Copy(hdr: Hdr, tab: seq<Ent>) {
    predicate Good() {
      GoodTable(tab) && Entries(hdr) <= 128
    }
    function Used(): seq<Ent>
      requires Good()
    {
      tab[..Entries(hdr)]
    }
  }

  /** The first `n` entries on the drive. */
  function DiskTable(d: Disk, lba: nat, n: nat): (t: seq<Ent>)
    requires n == 0 || lba + (n - 1) / 4 < |d|
    ensures |t| == n && forall i :: 0 <= i < n ==> t[i].Good()
  {
    seq(n, i requires 0 <= i < n => DiskEnt(d, lba, i))
  }

  /** gptread_table accepts: the sectors can be read and the checksum fits. */
  predicate TableOk(sum: Checksum, d: Disk, h: Hdr) {
    var n := Entries(h);
    n == 0 || (LbaTable(h) + (n - 1) / 4 < |d| && TableSum(sum, DiskTable(d, LbaTable(h), n)) == CrcTable(h))
  }

  function ReadCopy(sum: Checksum, d: Disk, lba: nat, stale: seq<Ent>): (r: Option<Copy>)
    requires GoodTable(stale)
    ensures r.Some? ==> r.value.Good()
  {
    match ReadHdr(sum, d, lba)
    case None => None
    case Some(h) =>
      var n := Entries(h);
      if TableOk(sum, d, h) then Some(Copy(h, DiskTable(d, LbaTable(h), n) + stale[n..])) else None
  }

  /** A header written with its checksums recomputed is accepted at the LBA it names, whichever
      that is. */
  lemma SealedAccepted(sum: Checksum, h: Hdr, t: seq<Ent>)
    requires h[..8] == SIGNATURE && Revision(h) >= 0x10000 && EntSize(h) >= 128 && 512 % EntSize(h) == 0
    requires Entries(h) <= 128 && 92 <= Size(h) && forall i :: Size(h) <= i < 96 ==> h[i] == 0
    ensures HdrOk(sum, EncodeHdr(Seal(sum, h, t)), LbaSelf(h))
  {
    var s := Seal(sum, h, t);
    SealSeals(sum, h, t);
    SameFields(s, h);
    assert s[..8] == s[..16][..8] && h[..8] == h[..16][..8];
    SealedTail(sum, h, t);
    EncodeHdrExact(s);
    hide SelfSum, Seal, EncodeHdr, Value;
  }

  lemma SealedTail(sum: Checksum, h: Hdr, t: seq<Ent>)
    requires 92 <= Size(h) && forall i :: Size(h) <= i < 96 ==> h[i] == 0
    ensures var s := Seal(sum, h, t); forall i :: Size(s) <= i < 96 ==> s[i] == 0
  {
    SealSeals(sum, h, t);
    var s := Seal(sum, h, t);
    SameFields(s, h);
    forall i | Size(s) <= i < 96 ensures s[i] == 0 {
      assert s[i] == s[92..][i - 92] == h[92..][i - 92];
    }
  }

  /** Sector `lba` holds a sealed header that names it, and the sectors it points to the entries
      of `t`, 128 bytes each. */
  ghost predicate HeldAt(sum: Checksum, d: Disk, lba: nat, h: Hdr, t: seq<Ent>) {
    && h[..8] == SIGNATURE && Revision(h) >= 0x10000 && EntSize(h) >= 128 && 512 % EntSize(h) == 0
    && 92 <= Size(h) && (forall i :: Size(h) <= i < 96 ==> h[i] == 0)
    && LbaSelf(h) == lba < |d| && d[lba] == EncodeHdr(Seal(sum, h, t))
    && |t| == Entries(h) <= 128
    && forall i :: 0 <= i < |t| ==>
         t[i].Good() && LbaTable(h) + i / 4 < |d|
         && d[LbaTable(h) + i / 4][i % 4 * 128..i % 4 * 128 + 128] == EncodeEnt(t[i])
  }

  /** Such a copy is read as it is, and so accepted. */
  lemma HeldIsRead(sum: Checksum, d: Disk, lba: nat, h: Hdr, t: seq<Ent>, stale: seq<Ent>)
    requires HeldAt(sum, d, lba, h, t) && GoodTable(stale)
    ensures ReadCopy(sum, d, lba, stale) == Some(Copy(Seal(sum, h, t), t + stale[|t|..]))
  {
    hide EncodeEnt, DecodeEnt, Seal, EncodeHdr, Value, SelfSum;
    SealedAccepted(sum, h, t);
    SealSeals(sum, h, t);
    SameFields(Seal(sum, h, t), h);
    SealedTail(sum, h, t);
    EncodeHdrExact(Seal(sum, h, t));
    forall i | 0 <= i < |t| ensures DiskEnt(d, LbaTable(h), i) == t[i] {
      DecodeEncodeEnt(t[i]);
    }
    assert |t| > 0 ==> LbaTable(h) + (|t| - 1) / 4 < |d| && DiskTable(d, LbaTable(h), |t|) == t;
  }

  // ----- Writing back -----

  datatype Edit = ClearMe | MarkFailed

  function Do(x: Edit, e: Ent): (e': Ent)
    ensures e.Good() ==> e'.Good()
  {
    match x
    case ClearMe => e.(me := false)
    case MarkFailed => e.(once := false, failed := true)
  }

  function HdrWrite(h: Hdr): Write {
    Write(LbaSelf(h), EncodeHdr(h))
  }

  function TabWrite(c: Copy, k: nat): Write
    requires c.Good() && k < 32
  {
    Write(LbaTable(c.hdr) + k, EncodeSector(c.tab, k))
  }

  function Sealed(sum: Checksum, c: Copy): (c': Copy)
    requires c.Good()
    ensures c'.Good() && c'.tab == c.tab && SameButCrc(c'.hdr, c.hdr) && Entries(c'.hdr) == Entries(c.hdr)
  {
    SealSeals(sum, c.hdr, c.Used());
    SameFields(Seal(sum, c.hdr, c.Used()), c.hdr);
    Copy(Seal(sum, c.hdr, c.Used()), c.tab)
  }

  /** gptupdate, after the caller edited entry `k` */
  function EditEnt(c: Copy, k: nat, x: Edit): (c': Copy)
    requires c.Good() && k < 128
    ensures c'.Good()
  {
    c.(tab := c.tab[k := Do(x, c.tab[k])])
  }

  function UpdateWrites(sum: Checksum, c: Copy, k: nat): seq<Write>
    requires c.Good() && k < 128
  {
    [TabWrite(c, k / 4), HdrWrite(Sealed(sum, c).hdr)]
  }

  // ----- gptbootconv -----

  function Conv(e: Ent): (e': Ent)
    ensures e.Good() ==> e'.Good()
  {
    if e.OnceOnly() then Do(MarkFailed, e) else e
  }

  function ConvTab(t: seq<Ent>, n: nat): (t': seq<Ent>)
    requires GoodTable(t) && n <= 128
    ensures GoodTable(t')
  {
    seq(128, i requires 0 <= i < 128 => if i < n then Conv(t[i]) else t[i])
  }

  /** Sector `k` of the table holds an entry to convert. */
  predicate Dirty(t: seq<Ent>, k: nat)
    requires |t| == 128 && k < 32
  {
    t[4 * k].OnceOnly() || t[4 * k + 1].OnceOnly() || t[4 * k + 2].OnceOnly() || t[4 * k + 3].OnceOnly()
  }

  /** The copy after conversion: whole sectors only. */
  function Converted(c: Copy): (c': Copy)
    requires c.Good()
    ensures c'.Good() && c'.hdr == c.hdr
  {
    c.(tab := ConvTab(c.tab, Entries(c.hdr) / 4 * 4))
  }

  function ConvSectors(c: Copy, k: nat): seq<Write>
    requires c.Good() && k <= 32
  {
    if k == 0 then []
    else ConvSectors(c, k - 1) + if Dirty(c.tab, k - 1) then [TabWrite(Converted(c), k - 1)] else []
  }

  predicate AnyDirty(c: Copy)
    requires c.Good()
  {
    ConvSectors(c, Entries(c.hdr) / 4) != []
  }

  /** If no sector is written, none holds an entry to convert. */
  lemma {:induction false} NoSectors(c: Copy, m: nat, k: nat)
    requires c.Good() && m <= 32 && k < m && ConvSectors(c, m) == []
    ensures !Dirty(c.tab, k)
  {
    if k < m - 1 {
      NoSectors(c, m - 1, k);
    }
  }

  function BootConv(sum: Checksum, c: Copy): (c': Copy)
    requires c.Good()
    ensures c'.Good()
  {
    if AnyDirty(c) then Sealed(sum, Converted(c)) else c
  }

  function BootConvWrites(sum: Checksum, c: Copy): seq<Write>
    requires c.Good()
  {
    if AnyDirty(c) then ConvSectors(c, Entries(c.hdr) / 4) + [HdrWrite(Sealed(sum, Converted(c)).hdr)] else []
  }

  // ----- The two copies together -----

  datatype Mem = Mem(pri: Option<Copy>, bak: Option<Copy>, curent: int, bootonce: bool) {
    predicate Good() {
      (pri.Some? ==> pri.value.Good()) && (bak.Some? ==> bak.value.Good())
    }
    predicate Usable() {
      Good() && (pri.Some? || bak.Some?)
    }
    /** gpthdr and gpttable */
    function Active(): (c: Copy)
      requires Usable()
      ensures c.Good()
    {
      if pri.Some? then pri.value else bak.value
    }
    /** A partition is selected. */
    predicate Selected() {
      Usable() && 0 <= curent < Entries(Active().hdr)
    }
  }

  function MapConv(sum: Checksum, o: Option<Copy>): (o': Option<Copy>)
    requires o.Some? ==> o.value.Good()
    ensures o'.Some? == o.Some? && (o'.Some? ==> o'.value.Good())
  {
    if o.Some? then Some(BootConv(sum, o.value)) else None
  }

  function MapConvWrites(sum: Checksum, o: Option<Copy>): seq<Write>
    requires o.Some? ==> o.value.Good()
  {
    if o.Some? then BootConvWrites(sum, o.value) else []
  }

  function LastLba(d: Disk): nat {
    if |d| > 0 then |d| - 1 else 0
  }

  /** Where gptread looks for the backup header; 0 means nowhere. */
  function AltLba(d: Disk, pri: Option<Copy>): nat {
    if pri.Some? then LbaAlt(pri.value.hdr) else LastLba(d)
  }

  function ReadPrimary(sum: Checksum, d: Disk, stale: seq<Ent>): (r: Option<Copy>)
    requires GoodTable(stale)
    ensures r.Some? ==> r.value.Good()
  {
    ReadCopy(sum, d, 1, stale)
  }

  function ReadBackup(sum: Checksum, d: Disk, pri: Option<Copy>, stale: seq<Ent>): (r: Option<Copy>)
    requires GoodTable(stale)
    ensures r.Some? ==> r.value.Good()
  {
    if AltLba(d, pri) == 0 then None else ReadCopy(sum, d, AltLba(d, pri), stale)
  }

  function GptRead(sum: Checksum, d: Disk, staleP: seq<Ent>, staleB: seq<Ent>): (m: Mem)
    requires GoodTable(staleP) && GoodTable(staleB)
    ensures m.Good()
  {
    var pri := ReadPrimary(sum, d, staleP);
    Mem(MapConv(sum, pri), MapConv(sum, ReadBackup(sum, d, pri, staleB)), -1, true)
  }

  function GptReadWrites(sum: Checksum, d: Disk, staleP: seq<Ent>, staleB: seq<Ent>): seq<Write>
    requires GoodTable(staleP) && GoodTable(staleB)
  {
    var pri := ReadPrimary(sum, d, staleP);
    MapConvWrites(sum, pri) + MapConvWrites(sum, ReadBackup(sum, d, pri, staleB))
  }

  /** If sector 1 holds no acceptable copy, the backup is the one the last sector describes; otherwise
      the one that bytes 32 to 39 of sector 1 point to. */
  lemma BackupFound(sum: Checksum, d: Disk, lba: nat, h: Hdr, t: seq<Ent>, staleP: seq<Ent>, staleB: seq<Ent>)
    requires HeldAt(sum, d, lba, h, t) && lba > 0 && GoodTable(staleP) && GoodTable(staleB)
    requires var pri := ReadCopy(sum, d, 1, staleP);
             lba == if pri.None? then |d| - 1 else Value(d[1][32..40])
    ensures var pri := ReadCopy(sum, d, 1, staleP);
            ReadPrimary(sum, d, staleP) == pri
            && ReadBackup(sum, d, pri, staleB) == Some(Copy(Seal(sum, h, t), t + staleB[|t|..]))
  {
    hide HeldAt, Seal, Value;
    HeldIsRead(sum, d, lba, h, t, staleB);
    var pri := ReadCopy(sum, d, 1, staleP);
    if pri.Some? {
      assert pri.value.hdr[32..40] == d[1][32..40];
    }
  }

  function MapEdit(sum: Checksum, o: Option<Copy>, k: nat, x: Edit): (o': Option<Copy>)
    requires (o.Some? ==> o.value.Good()) && k < 128
    ensures o'.Some? == o.Some? && (o'.Some? ==> o'.value.Good())
  {
    if o.Some? then Some(Sealed(sum, EditEnt(o.value, k, x))) else None
  }

  function MapEditWrites(sum: Checksum, o: Option<Copy>, k: nat, x: Edit): seq<Write>
    requires (o.Some? ==> o.value.Good()) && k < 128
  {
    if o.Some? then UpdateWrites(sum, EditEnt(o.value, k, x), k) else []
  }

  function EditBoth(sum: Checksum, m: Mem, k: nat, x: Edit): (m': Mem)
    requires m.Good() && k < 128
    ensures m'.Good() && (m.Usable() ==> m'.Usable())
  {
    m.(pri := MapEdit(sum, m.pri, k, x), bak := MapEdit(sum, m.bak, k, x))
  }

  function EditBothWrites(sum: Checksum, m: Mem, k: nat, x: Edit): seq<Write>
    requires m.Good() && k < 128
  {
    MapEditWrites(sum, m.pri, k, x) + MapEditWrites(sum, m.bak, k, x)
  }

  // ----- gptfind -----

  datatype Kind = BothFlags | MeOnly | AnyOfType

  predicate Eligible(kind: Kind, e: Ent, uuid: Bytes)
    requires e.Good()
  {
    e.Type() == uuid &&
    match kind
    case BothFlags => e.me && e.once
    case MeOnly => e.me && !e.once
    case AnyOfType => true
  }

  /** The first eligible index from `i` on, or `n`. */
  function Next(t: seq<Ent>, n: nat, i: nat, kind: Kind, uuid: Bytes): (k: nat)
    requires GoodTable(t) && i <= n <= 128
    ensures i <= k <= n
    ensures k < n ==> Eligible(kind, t[k], uuid)
    ensures forall j :: i <= j < k ==> !Eligible(kind, t[j], uuid)
    decreases n - i
  {
    if i == n then n
    else if Eligible(kind, t[i], uuid) then i
    else Next(t, n, i + 1, kind, uuid)
  }

  /** What gptfind settles on: whether it found a partition, `curent` and `bootonce`. */
  datatype Choice = Choice(found: bool, curent: int, bootonce: bool)

  function ChooseAuto(t: seq<Ent>, n: nat, curent: int, bootonce: bool, uuid: Bytes): (c: Choice)
    requires GoodTable(t) && n <= 128 && -1 <= curent
    ensures c.found ==> 0 <= c.curent < n && t[c.curent].Type() == uuid
  {
    var start := curent + 1;
    if start >= n then Choice(false, n, bootonce)
    else
      var b := if bootonce then Next(t, n, start, BothFlags, uuid) else n;
      if b < n then Choice(true, b, true)
      else
        var k := Next(t, n, if bootonce then 0 else start, MeOnly, uuid);
        if k < n then Choice(true, k, false)
        else
          var j := if curent == -1 then Next(t, n, 0, AnyOfType, uuid) else n;
          Choice(j < n, j, false)
  }

  function Choose(m: Mem, uuid: Bytes, part: int): (c: Choice)
    requires m.Usable() && -1 <= m.curent
    ensures c.found ==> 0 <= c.curent < Entries(m.Active().hdr) && m.Active().tab[c.curent].Type() == uuid
  {
    var n := Entries(m.Active().hdr);
    if part < 0 then ChooseAuto(m.Active().tab, n, m.curent, m.bootonce, uuid)
    else if part == 0 || part > n || m.Active().tab[part - 1].Type() != uuid
    then Choice(false, m.curent, m.bootonce)
    else Choice(true, part - 1, m.bootonce)
  }

  /** The choice clears BOOTME because the partition is to be booted once. */
  predicate BootsOnce(m: Mem, c: Choice)
    requires m.Usable()
  {
    c.found && 0 <= c.curent < 128 && m.Active().tab[c.curent].once
  }

  function GptFind(sum: Checksum, m: Mem, uuid: Bytes, part: int): (m': Mem)
    requires m.Usable() && -1 <= m.curent
    ensures m'.Usable()
  {
    var c := Choose(m, uuid, part);
    var m1 := if BootsOnce(m, c) then EditBoth(sum, m, c.curent, ClearMe) else m;
    m1.(curent := c.curent, bootonce := c.bootonce)
  }

  function GptFindWrites(sum: Checksum, m: Mem, uuid: Bytes, part: int): seq<Write>
    requires m.Usable() && -1 <= m.curent
  {
    var c := Choose(m, uuid, part);
    if BootsOnce(m, c) then EditBothWrites(sum, m, c.curent, ClearMe) else []
  }

  // ----- gptbootfailed -----

  function GptBootFailed(sum: Checksum, m: Mem): (m': Mem)
    requires m.Usable() && 0 <= m.curent < 128
    ensures m'.Usable()
  {
    if m.Active().tab[m.curent].once then EditBoth(sum, m, m.curent, MarkFailed) else m
  }

  function GptBootFailedWrites(sum: Checksum, m: Mem): seq<Write>
    requires m.Usable() && 0 <= m.curent < 128
  {
    if m.Active().tab[m.curent].once then EditBothWrites(sum, m, m.curent, MarkFailed) else []
  }

  // ----- What gptfind and gptbootfailed do, entry by entry -----

  /** Copy `o'` is copy `o`, checksums apart, but for entry `k`, which is `e`. */
  ghost predicate OnlyEntry(o: Option<Copy>, o': Option<Copy>, k: int, e: Ent -> Ent)
    requires o.Some? ==> o.value.Good()
  {
    && o'.Some? == o.Some?
    && (o.Some? ==>
          && |o'.value.tab| == 128 && Entries(o'.value.hdr) == Entries(o.value.hdr)
          && SameButCrc(o'.value.hdr, o.value.hdr)
          && forall i: nat :: i < 128 ==> o'.value.tab[i] == if i == k then e(o.value.tab[i]) else o.value.tab[i])
  }

  /** BOOTME cleared, nothing else. */
  const WITHOUT_ME: Ent -> Ent := (e: Ent) => Ent(e.head, false, e.once, e.failed, e.rest, e.name)
  /** BOOTONCE replaced by BOOTFAILED, nothing else. */
  const FAILED: Ent -> Ent := (e: Ent) => Ent(e.head, e.me, false, true, e.rest, e.name)

  lemma EditEntry(sum: Checksum, o: Option<Copy>, k: nat)
    requires (o.Some? ==> o.value.Good()) && k < 128
    ensures OnlyEntry(o, MapEdit(sum, o, k, ClearMe), k, WITHOUT_ME)
    ensures OnlyEntry(o, MapEdit(sum, o, k, MarkFailed), k, FAILED)
  {
    hide Seal, SameButCrc, Entries;
  }

  lemma NoEntry(o: Option<Copy>, k: nat, e: Ent -> Ent)
    requires o.Some? ==> o.value.Good()
    ensures OnlyEntry(o, o, -1, e)
  {
  }

  /** gptfind: BOOTME goes from the selected entry of both copies if it has BOOTONCE; else
      nothing changes. */
  lemma FindEntries(sum: Checksum, m: Mem, uuid: Bytes, part: int)
    requires m.Usable() && -1 <= m.curent
    ensures var c, m' := Choose(m, uuid, part), GptFind(sum, m, uuid, part);
            var k := if c.found && m.Active().tab[c.curent].once then c.curent else -1;
            && m'.curent == c.curent
            && OnlyEntry(m.pri, m'.pri, k, WITHOUT_ME) && OnlyEntry(m.bak, m'.bak, k, WITHOUT_ME)
            && (k == -1 ==> m'.pri == m.pri && m'.bak == m.bak && GptFindWrites(sum, m, uuid, part) == [])
  {
    hide OnlyEntry, MapEdit, MapEditWrites, Choose;
    var c := Choose(m, uuid, part);
    if BootsOnce(m, c) {
      EditEntry(sum, m.pri, c.curent);
      EditEntry(sum, m.bak, c.curent);
    } else {
      NoEntry(m.pri, 0, WITHOUT_ME);
      NoEntry(m.bak, 0, WITHOUT_ME);
    }
  }

  /** gptbootfailed: BOOTONCE becomes BOOTFAILED in the selected entry of both copies if it is
      set; else nothing changes. */
  lemma FailedEntries(sum: Checksum, m: Mem)
    requires m.Usable() && 0 <= m.curent < 128
    ensures var m', k := GptBootFailed(sum, m), if m.Active().tab[m.curent].once then m.curent else -1;
            && m'.curent == m.curent && OnlyEntry(m.pri, m'.pri, k, FAILED) && OnlyEntry(m.bak, m'.bak, k, FAILED)
            && (k == -1 ==> m' == m && GptBootFailedWrites(sum, m) == [])
  {
    hide OnlyEntry, MapEdit, MapEditWrites;
    if m.Active().tab[m.curent].once {
      EditEntry(sum, m.pri, m.curent);
      EditEntry(sum, m.bak, m.curent);
    } else {
      NoEntry(m.pri, 0, FAILED);
      NoEntry(m.bak, 0, FAILED);
    }
  }

  /** gptfind of a given partition, counted from 1: selected if it exists and has the type. */
  lemma ExplicitChoice(m: Mem, uuid: Bytes, part: nat)
    requires m.Usable() && -1 <= m.curent
    ensures var c, t := Choose(m, uuid, part), m.Active();
            && (c.found <==> 1 <= part <= Entries(t.hdr) && t.tab[part - 1].head[..16] == uuid)
            && c.curent == (if c.found then part - 1 else m.curent) && c.bootonce == m.bootonce
  {
  }
}
