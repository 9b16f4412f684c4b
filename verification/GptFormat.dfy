/**
 The on-disk layout that boot/common/gpt.c reads and writes: 512-byte sectors,
 the GPT header (section 5.3.2 of the UEFI Specification) and the partition
 entry array (section 5.3.3), four 128-byte entries to a sector.
 */
module GptFormat {
  import Crc32

  type Bytes = seq<bv8>
  type Sector = s: Bytes | |s| == 512 witness seq(512, _ => 0)
  type Disk = seq<Sector>

  /** The checksum in use.  The protocol is proved for every such function, so that no
      collision of the real one can break it; Crc32.Crc is the real one. */
  type Checksum = Bytes -> bv32

  const MAXTBLENTS: nat := 128
  const HDRSIZE: nat := 96

  // ----- Partition entries -----

  /** One entry.  `head` is type, partition GUID, first and last LBA and the low seven
      attribute bytes; the three boot flags live in the top attribute byte, the other
      bits of which are `rest`. */
  datatype Ent = Ent(head: Bytes, me: bool, once: bool, failed: bool, rest: bv8, name: Bytes)
  {
    predicate Good() {
      |head| == 55 && |name| == 72 && rest & 0x0e == 0
    }

    function Type(): Bytes
      requires Good()
    {
      head[..16]
    }

    /** The flags are exactly {BOOTONCE}: tried, outcome unknown. */
    predicate OnceOnly() {
      once && !me && !failed
    }
  }

  function FlagByte(e: Ent): bv8 {
    e.rest | (if e.me then 8 else 0) | (if e.once then 4 else 0) | (if e.failed then 2 else 0)
  }

  function EncodeEnt(e: Ent): (b: Bytes)
    ensures e.Good() ==> |b| == 128
  {
    e.head + [FlagByte(e)] + e.name
  }

  function DecodeEnt(b: Bytes): (e: Ent)
    requires |b| == 128
    ensures e.Good()
  {
    Ent(b[..55], b[55] & 8 != 0, b[55] & 4 != 0, b[55] & 2 != 0, b[55] & 0xf1, b[56..])
  }

  lemma FlagsRoundTrip(rest: bv8, me: bool, once: bool, failed: bool)
    requires rest & 0x0e == 0
    ensures var f := rest | (if me then 8 else 0) | (if once then 4 else 0) | (if failed then 2 else 0);
            (f & 8 != 0) == me && (f & 4 != 0) == once && (f & 2 != 0) == failed && f & 0xf1 == rest
  {
  }

  lemma DecodeEncodeEnt(e: Ent)
    requires e.Good()
    ensures DecodeEnt(EncodeEnt(e)) == e
  {
    FlagsRoundTrip(e.rest, e.me, e.once, e.failed);
    var b := EncodeEnt(e);
    assert b[..55] == e.head && b[55] == FlagByte(e) && b[56..] == e.name;
  }

  /** Eight bytes as the 64-bit number they are on disk. */
  function Attributes(b: Bytes): bv64
    requires |b| == 8
  {
    (b[0] as bv64) | ((b[1] as bv64) << 8) | ((b[2] as bv64) << 16) | ((b[3] as bv64) << 24)
    | ((b[4] as bv64) << 32) | ((b[5] as bv64) << 40) | ((b[6] as bv64) << 48) | ((b[7] as bv64) << 56)
  }

  /** Which bits of the attribute field, bytes 48 to 55 of an entry, the flags are: BOOTME is bit
      59, BOOTONCE bit 58 and BOOTFAILED bit 57. */
  lemma AttributeBits(e: Ent)
    requires e.Good()
    ensures var attr := Attributes(EncodeEnt(e)[48..56]);
            && (attr & (1 << 59) != 0 <==> e.me)
            && (attr & (1 << 58) != 0 <==> e.once)
            && (attr & (1 << 57) != 0 <==> e.failed)
  {
    hide Attributes;
    var b := EncodeEnt(e)[48..56];
    assert b[7] == FlagByte(e);
    TopByteBits(b);
    FlagBits(e);
  }

  lemma FlagBits(e: Ent)
    requires e.Good()
    ensures var f := FlagByte(e); (f & 8 != 0 <==> e.me) && (f & 4 != 0 <==> e.once) && (f & 2 != 0 <==> e.failed)
  {
    FlagsRoundTrip(e.rest, e.me, e.once, e.failed);
  }

  lemma TopByteBits(b: Bytes)
    requires |b| == 8
    ensures var attr := Attributes(b);
            && (attr & (1 << 59) != 0 <==> b[7] & 8 != 0)
            && (attr & (1 << 58) != 0 <==> b[7] & 4 != 0)
            && (attr & (1 << 57) != 0 <==> b[7] & 2 != 0)
  {
  }

  // ----- Sectors of entries -----

  predicate GoodTable(t: seq<Ent>) {
    |t| == MAXTBLENTS && forall i :: 0 <= i < |t| ==> t[i].Good()
  }

  /** The `j`th entry of a sector. */
  function SectorEnt(s: Sector, j: nat): (e: Ent)
    requires j < 4
    ensures e.Good()
  {
    DecodeEnt(s[128 * j..128 * j + 128])
  }

  /** Entries 4k .. 4k+3 of a table, as the sector that holds them. */
  function EncodeSector(t: seq<Ent>, k: nat): Sector
    requires GoodTable(t) && k < 32
  {
    EncodeEnt(t[4 * k]) + EncodeEnt(t[4 * k + 1]) + EncodeEnt(t[4 * k + 2]) + EncodeEnt(t[4 * k + 3])
  }

  lemma DecodeEncodeSector(t: seq<Ent>, k: nat, j: nat)
    requires GoodTable(t) && k < 32 && j < 4
    ensures SectorEnt(EncodeSector(t, k), j) == t[4 * k + j]
  {
    var s := EncodeSector(t, k);
    var a, b, c, e := EncodeEnt(t[4 * k]), EncodeEnt(t[4 * k + 1]), EncodeEnt(t[4 * k + 2]), EncodeEnt(t[4 * k + 3]);
    assert s == a + b + c + e;
    if j == 0 {
      assert s[..128] == a;
    } else if j == 1 {
      assert s[128..256] == b;
    } else if j == 2 {
      assert s[256..384] == c;
    } else {
      assert s[384..512] == e;
    }
    DecodeEncodeEnt(t[4 * k + j]);
  }

  /** Entry `i` of the array that starts at sector `lba`. */
  function DiskEnt(d: Disk, lba: nat, i: nat): (e: Ent)
    requires lba + i / 4 < |d|
    ensures e.Good()
  {
    SectorEnt(d[lba + i / 4], i % 4)
  }

  // ----- The bytes of a table -----

  function EncodeTable(t: seq<Ent>): Bytes {
    if t == [] then [] else EncodeEnt(t[0]) + EncodeTable(t[1..])
  }

  function TableSum(sum: Checksum, t: seq<Ent>): bv32 {
    sum(EncodeTable(t))
  }

  lemma {:induction false} EncodeTableSplits(t: seq<Ent>, k: nat)
    requires k < |t|
    ensures EncodeTable(t) == EncodeTable(t[..k]) + EncodeEnt(t[k]) + EncodeTable(t[k + 1..])
  {
    hide EncodeEnt;
    if k > 0 {
      EncodeTableSplits(t[1..], k - 1);
      assert t[1..][..k - 1] == t[..k][1..];
      assert t[1..][k..] == t[k + 1..];
      assert EncodeTable(t[..k]) == EncodeEnt(t[0]) + EncodeTable(t[..k][1..]);
    }
  }

  lemma ClearingMeChangesByte(e: Ent)
    requires e.Good() && e.me
    ensures FlagByte(e) != FlagByte(e.(me := false))
  {
  }

  /** The flag byte of an entry, with the bytes before and after it. */
  lemma AroundFlags(pre: Bytes, e: Ent, post: Bytes)
    ensures pre + EncodeEnt(e) + post == (pre + e.head) + [FlagByte(e)] + (e.name + post)
  {
    hide FlagByte;
  }

  /** Clearing a set BOOTME bit anywhere changes the checksum of the table. */
  lemma ClearingMeChangesCrc(t: seq<Ent>, k: nat)
    requires k < |t| && t[k].Good() && t[k].me
    ensures TableSum(Crc32.Crc, t[k := t[k].(me := false)]) != TableSum(Crc32.Crc, t)
  {
    hide EncodeTable, EncodeEnt, FlagByte, Crc32.Crc;
    var e := t[k];
    var e' := e.(me := false);
    var t' := t[k := e'];
    var pre, post := EncodeTable(t[..k]), EncodeTable(t[k + 1..]);
    EncodeTableSplits(t, k);
    EncodeTableSplits(t', k);
    assert t'[..k] == t[..k] && t'[k + 1..] == t[k + 1..];
    ClearingMeChangesByte(e);
    AroundFlags(pre, e, post);
    AroundFlags(pre, e', post);
    if TableSum(Crc32.Crc, t') == TableSum(Crc32.Crc, t) {
      Crc32.OneByteChangesCrc(pre + e.head, FlagByte(e), FlagByte(e'), e.name + post);
      assert false;
    }
  }

  // ----- The header -----

  /** Little-endian value of a byte string. */
  function Value(b: Bytes): nat {
    if b == [] then 0 else (b[0] as nat) + 256 * Value(b[1..])
  }

  function Word(b: Bytes): bv32
    requires |b| == 4
  {
    (b[0] as bv32) | ((b[1] as bv32) << 8) | ((b[2] as bv32) << 16) | ((b[3] as bv32) << 24)
  }

  function WordBytes(x: bv32): (b: Bytes)
    ensures |b| == 4
  {
    [(x & 0xff) as bv8, ((x >> 8) & 0xff) as bv8, ((x >> 16) & 0xff) as bv8, ((x >> 24) & 0xff) as bv8]
  }

  lemma WordRoundTrip(x: bv32)
    ensures Word(WordBytes(x)) == x
  {
  }

  /** A header in memory: its 96 bytes. */
  type Hdr = h: Bytes | |h| == 96 witness seq(96, _ => 0)

  /** "EFI PART" */
  const SIGNATURE: Bytes := [0x45, 0x46, 0x49, 0x20, 0x50, 0x41, 0x52, 0x54]

  function Revision(h: Hdr): nat { Value(h[8..12]) }
  function Size(h: Hdr): nat { Value(h[12..16]) }
  function CrcSelf(h: Hdr): bv32 { Word(h[16..20]) }
  function LbaSelf(h: Hdr): nat { Value(h[24..32]) }
  function LbaAlt(h: Hdr): nat { Value(h[32..40]) }
  function LbaTable(h: Hdr): nat { Value(h[72..80]) }
  function Entries(h: Hdr): nat { Value(h[80..84]) }
  function EntSize(h: Hdr): nat { Value(h[84..88]) }
  function CrcTable(h: Hdr): bv32 { Word(h[88..92]) }

  function SetCrcSelf(h: Hdr, x: bv32): Hdr {
    h[..16] + WordBytes(x) + h[20..]
  }

  function SetCrcTable(h: Hdr, x: bv32): Hdr {
    h[..88] + WordBytes(x) + h[92..]
  }

  /** The part of the header that its own checksum covers, checksum field cleared.  The
      length field is bounded by the structure, which is all the source may read. */
  function SelfSum(sum: Checksum, h: Hdr): bv32 {
    sum(SetCrcSelf(h, 0)[..if Size(h) <= HDRSIZE then Size(h) else HDRSIZE])
  }

  /** The header after both checksums are recomputed for the table `t`. */
  function Seal(sum: Checksum, h: Hdr, t: seq<Ent>): Hdr {
    var h1 := SetCrcTable(h, TableSum(sum, t));
    SetCrcSelf(h1, SelfSum(sum, h1))
  }

  /** The sector gptupdate writes for a header: `hdr_size` bytes, zero after. */
  function EncodeHdr(h: Hdr): Sector {
    if Size(h) <= HDRSIZE then h[..Size(h)] + seq(512 - Size(h), _ => 0)
    else h + seq(512 - HDRSIZE, _ => 0)
  }

  /** The headers agree except in their two checksums. */
  predicate SameButCrc(h: Hdr, g: Hdr) {
    h[..16] == g[..16] && h[20..88] == g[20..88] && h[92..] == g[92..]
  }

  lemma SubSlice(h: Bytes, g: Bytes, a: nat, lo: nat, hi: nat, b: nat)
    requires a <= lo <= hi <= b <= |h| && b <= |g| && h[a..b] == g[a..b]
    ensures h[lo..hi] == g[lo..hi]
  {
    forall i | lo <= i < hi ensures h[i] == g[i] {
      assert h[i] == h[a..b][i - a] && g[i] == g[a..b][i - a];
    }
  }

  lemma SameFields(h: Hdr, g: Hdr)
    requires SameButCrc(h, g)
    ensures h[..8] == g[..8] && Revision(h) == Revision(g) && Size(h) == Size(g)
    ensures LbaSelf(h) == LbaSelf(g) && LbaAlt(h) == LbaAlt(g) && LbaTable(h) == LbaTable(g)
    ensures Entries(h) == Entries(g) && EntSize(h) == EntSize(g)
  {
    assert h[0..16] == g[0..16];
    SubSlice(h, g, 0, 0, 8, 16);
    SubSlice(h, g, 0, 8, 12, 16);
    SubSlice(h, g, 0, 12, 16, 16);
    SubSlice(h, g, 20, 24, 32, 88);
    SubSlice(h, g, 20, 32, 40, 88);
    SubSlice(h, g, 20, 72, 80, 88);
    SubSlice(h, g, 20, 80, 84, 88);
    SubSlice(h, g, 20, 84, 88, 88);
  }

  /** Sealing touches nothing but the checksums, and both are then right. */
  lemma SealSeals(sum: Checksum, h: Hdr, t: seq<Ent>)
    ensures var s := Seal(sum, h, t);
            SameButCrc(s, h) && CrcTable(s) == TableSum(sum, t) && CrcSelf(s) == SelfSum(sum, s)
  {
    var h1 := SetCrcTable(h, TableSum(sum, t));
    SetCrcTableOnly(h, TableSum(sum, t));
    SetCrcSelfOnly(h1, SelfSum(sum, h1));
    var s := Seal(sum, h, t);
    SubSlice(s, h1, 20, 20, 88, 96);
    SubSlice(s, h1, 20, 88, 92, 96);
    SubSlice(s, h1, 20, 92, 96, 96);
    SubSlice(h1, h, 0, 0, 16, 88);
    SubSlice(h1, h, 0, 20, 88, 88);
    SubSlice(s, h1, 0, 12, 16, 16);
    assert SetCrcSelf(s, 0) == SetCrcSelf(h1, 0);
  }

  lemma SetCrcTableOnly(h: Hdr, x: bv32)
    ensures var s := SetCrcTable(h, x); s[0..88] == h[0..88] && s[92..96] == h[92..96] && CrcTable(s) == x
  {
    assert SetCrcTable(h, x)[88..92] == WordBytes(x);
    WordRoundTrip(x);
  }

  lemma SetCrcSelfOnly(h: Hdr, x: bv32)
    ensures var s := SetCrcSelf(h, x); s[0..16] == h[0..16] && s[20..96] == h[20..96] && CrcSelf(s) == x
  {
    assert SetCrcSelf(h, x)[16..20] == WordBytes(x);
    WordRoundTrip(x);
  }

  /** What is written back is what is held, exactly when nothing follows `hdr_size`. */
  lemma EncodeHdrExact(h: Hdr)
    ensures EncodeHdr(h)[..96] == h <==> forall i :: Size(h) <= i < 96 ==> h[i] == 0
  {
    var s := EncodeHdr(h);
    if Size(h) <= HDRSIZE {
      assert forall i :: 0 <= i < Size(h) ==> s[i] == h[i];
      assert forall i :: Size(h) <= i < 96 ==> s[i] == 0;
      if s[..96] == h {
        forall i | Size(h) <= i < 96 ensures h[i] == 0 {
          assert s[..96][i] == s[i];
        }
      }
    } else {
      assert s[..96] == h;
    }
  }

  // ----- Where the fields are -----

  /** The fields of an entry in order, by their lengths: type and partition GUID, first and last
      LBA, attributes and name. */
  lemma EntryFields(typ: Bytes, uuid: Bytes, first: Bytes, last: Bytes, attr: Bytes, name: Bytes)
    requires |typ| == 16 && |uuid| == 16 && |first| == 8 && |last| == 8 && |attr| == 8 && |name| == 72
    ensures var e := DecodeEnt(typ + uuid + first + last + attr + name);
            && e.Type() == typ && e.name == name
            && (e.me <==> attr[7] & 8 != 0) && (e.once <==> attr[7] & 4 != 0) && (e.failed <==> attr[7] & 2 != 0)
  {
    var b := typ + uuid + first + last + attr + name;
    assert b[..55][..16] == typ && b[56..] == name && b[55] == attr[7];
  }

  /** A field `x` of a header is the one that lies `|pre|` bytes into it: signature, revision, size,
      checksum, own LBA, LBA of the other copy, then LBA, number, size and checksum of the
      entries. */
  lemma HeaderFields(pre: Bytes, x: Bytes, post: Bytes)
    requires |pre| + |x| + |post| == 96
    ensures var h := pre + x + post;
            && (|pre| == 0 && |x| == 8 ==> h[..8] == x)
            && (|pre| == 8 && |x| == 4 ==> Revision(h) == Value(x))
            && (|pre| == 12 && |x| == 4 ==> Size(h) == Value(x))
            && (|pre| == 16 && |x| == 4 ==> CrcSelf(h) == Word(x))
            && (|pre| == 24 && |x| == 8 ==> LbaSelf(h) == Value(x))
            && (|pre| == 32 && |x| == 8 ==> LbaAlt(h) == Value(x))
            && (|pre| == 72 && |x| == 8 ==> LbaTable(h) == Value(x))
            && (|pre| == 80 && |x| == 4 ==> Entries(h) == Value(x))
            && (|pre| == 84 && |x| == 4 ==> EntSize(h) == Value(x))
            && (|pre| == 88 && |x| == 4 ==> CrcTable(h) == Word(x))
  {
    hide Value, Word;
    var h := pre + x + post;
    assert h[|pre|..|pre| + |x|] == x;
  }

  /** Numbers are little-endian. */
  lemma ValueOfFour(b: Bytes)
    requires |b| == 4
    ensures Value(b) == (b[0] as nat) + 0x100 * (b[1] as nat) + 0x1_0000 * (b[2] as nat) + 0x100_0000 * (b[3] as nat)
  {
    assert b[1..][1..] == b[2..] && b[2..][1..] == b[3..] && b[3..][1..] == [];
    assert Value(b) == (b[0] as nat) + 256 * Value(b[1..]);
    assert Value(b[1..]) == (b[1] as nat) + 256 * Value(b[2..]);
    assert Value(b[2..]) == (b[2] as nat) + 256 * Value(b[3..]);
  }

  // ----- Damage to a header -----

  lemma BytesOfWord(a: bv8, b: bv8, c: bv8, d: bv8)
    ensures var x := (a as bv32) | ((b as bv32) << 8) | ((c as bv32) << 16) | ((d as bv32) << 24);
            && (x & 0xff) as bv8 == a && ((x >> 8) & 0xff) as bv8 == b
            && ((x >> 16) & 0xff) as bv8 == c && ((x >> 24) & 0xff) as bv8 == d
  {
  }

  lemma WordBytesOf(b: Bytes)
    requires |b| == 4
    ensures WordBytes(Word(b)) == b
  {
    BytesOfWord(b[0], b[1], b[2], b[3]);
  }

  /** A change of one byte of a header whose checksum is right, other than in its size field,
      leaves the checksum right exactly when the byte is neither in the part the size says the
      checksum covers nor in the checksum itself. */
  lemma HeaderDamage(h: Hdr, i: nat, v: bv8)
    requires i < 96 && !(12 <= i < 16) && v != h[i] && SelfSum(Crc32.Crc, h) == CrcSelf(h)
    ensures SelfSum(Crc32.Crc, h[i := v]) == CrcSelf(h[i := v]) <==> Size(h) <= i && !(16 <= i < 20)
  {
    hide Crc32.Crc, Value, Word;
    var g: Hdr := h[i := v];
    var n := if Size(h) <= HDRSIZE then Size(h) else HDRSIZE;
    assert g[12..16] == h[12..16];
    var a, b := SetCrcSelf(h, 0), SetCrcSelf(g, 0);
    if 16 <= i < 20 {
      assert a == b;
      assert g[16..20][i - 16] == v && h[16..20][i - 16] == h[i];
      WordBytesOf(g[16..20]);
      WordBytesOf(h[16..20]);
    } else {
      assert g[16..20] == h[16..20] && b == a[i := v] && a[i] == h[i];
      if i < n {
        assert a[..n] == a[..i] + [h[i]] + a[i + 1..n] && b[..n] == a[..i] + [v] + a[i + 1..n];
        if Crc32.Crc(a[..n]) == Crc32.Crc(b[..n]) {
          Crc32.OneByteChangesCrc(a[..i], h[i], v, a[i + 1..n]);
          assert false;
        }
      } else {
        assert a[..n] == b[..n];
      }
    }
  }
}
