/**
 Which sectors belong to which copy of the table, and what a sector write leaves
 alone.  Nothing gpt.c ever writes changes this geometry.
 */
module GptGeometry {
  import opened Options
  import opened GptFormat
  import opened GptSpec

  datatype Side = P | B

  function Other(s: Side): Side { if s.P? then B else P }

  /** Where a copy's table starts and how many entries it has. */
  datatype Place = Place(tab: nat, n: nat)

  /** The checksum, the size of the drive and, for each side whose header passes its
      checks, the place of its table. */
  datatype Geo = Geo(sum: Checksum, size: nat, p: Option<Place>, b: Option<Place>) {
    function Home(s: Side): int { if s.P? then 1 else size - 1 }

    predicate Has(s: Side) { if s.P? then p.Some? else b.Some? }

    function At(s: Side): Place
      requires Has(s)
    {
      if s.P? then p.value else b.value
    }

    predicate InTab(s: Side, lba: int) {
      Has(s) && At(s).tab <= lba < At(s).tab + 32
    }

    predicate InFoot(s: Side, lba: int) {
      lba == Home(s) || InTab(s, lba)
    }

    /** The two copies are disjoint, header and table of a copy are disjoint, and the 32
        sectors reserved for each table are on the drive. */
    ghost predicate Ok() {
      && 3 <= size
      && (forall s :: Has(s) ==> At(s).tab + 32 <= size && At(s).n <= 128)
      && (forall s, s' :: !InTab(s, Home(s')))
      && (forall lba :: !(InTab(P, lba) && InTab(B, lba)))
    }
  }

  ghost predicate Sized(d: Disk, g: Geo) {
    g.Ok() && |d| == g.size
  }

  /** A header that passes gptread_hdr's checks and has the standard sizes, at its place. */
  ghost predicate HdrAt(g: Geo, s: Side, sec: Sector)
    requires g.Ok() && g.Has(s)
  {
    var h: Hdr := sec[..96];
    && HdrOk(g.sum, sec, g.Home(s))
    && LbaTable(h) == g.At(s).tab && Entries(h) == g.At(s).n && EntSize(h) == 128
    && 92 <= Size(h) <= 96 && EncodeHdr(h)[..96] == h
    && (s.P? ==> LbaAlt(h) == g.size - 1)
  }

  /** The header sector of `s` is as this geometry says. */
  ghost predicate HeadOk(d: Disk, g: Geo, s: Side)
    requires Sized(d, g)
  {
    if g.Has(s) then HdrAt(g, s, d[g.Home(s)]) else !HdrOk(g.sum, d[g.Home(s)], g.Home(s))
  }

  /** The headers on the drive are those of this geometry. */
  ghost predicate Fits(d: Disk, g: Geo) {
    Sized(d, g) && forall s :: HeadOk(d, g, s)
  }

  /** The geometry found on a drive. */
  function GeoOf(sum: Checksum, d: Disk): Geo {
    var hp, hb := ReadHdr(sum, d, 1), ReadHdr(sum, d, LastLba(d));
    Geo(sum, |d|,
        if hp.Some? then Some(Place(LbaTable(hp.value), Entries(hp.value))) else None,
        if hb.Some? then Some(Place(LbaTable(hb.value), Entries(hb.value))) else None)
  }

  // ----- Tables -----

  /** Entry `i` of side `s` as the drive has it. */
  ghost function EntAt(d: Disk, g: Geo, s: Side, i: nat): Ent
    requires Sized(d, g) && g.Has(s) && i < 128
  {
    DiskEnt(d, g.At(s).tab, i)
  }

  /** The used part of the table. */
  ghost function Table(d: Disk, g: Geo, s: Side): (t: seq<Ent>)
    requires Sized(d, g) && g.Has(s)
    ensures |t| == g.At(s).n
    ensures forall i :: 0 <= i < |t| ==> t[i] == EntAt(d, g, s, i)
  {
    DiskTable(d, g.At(s).tab, g.At(s).n)
  }

  /** Nothing that belongs to side `s` differs. */
  ghost predicate SameFoot(d: Disk, d': Disk, g: Geo, s: Side)
    requires Sized(d, g) && Sized(d', g)
  {
    forall lba :: 0 <= lba < |d| && g.InFoot(s, lba) ==> d[lba] == d'[lba]
  }

  lemma SameFootSameTable(d: Disk, d': Disk, g: Geo, s: Side)
    requires Sized(d, g) && Sized(d', g) && SameFoot(d, d', g, s) && g.Has(s)
    ensures forall i: nat :: i < 128 ==> EntAt(d, g, s, i) == EntAt(d', g, s, i)
    ensures Table(d, g, s) == Table(d', g, s)
  {
    forall i: nat | i < 128 ensures EntAt(d, g, s, i) == EntAt(d', g, s, i) {
      assert g.InFoot(s, g.At(s).tab + i / 4);
    }
  }

  /** A write into the table of `s` reaches neither header nor the other table. */
  lemma TabPutFoot(d: Disk, g: Geo, s: Side, w: Write)
    requires Sized(d, g) && g.InTab(s, w.lba)
    ensures Sized(Put(d, w), g) && SameFoot(d, Put(d, w), g, Other(s))
    ensures Put(d, w)[g.Home(s)] == d[g.Home(s)]
  {
    assert !g.InFoot(Other(s), w.lba);
  }

  lemma TabPutEnts(d: Disk, g: Geo, s: Side, w: Write, i: nat)
    requires Sized(d, g) && g.InTab(s, w.lba) && i < 128
    ensures EntAt(Put(d, w), g, s, i) ==
            if i / 4 == w.lba - g.At(s).tab then SectorEnt(w.sec, i % 4) else EntAt(d, g, s, i)
  {
  }

  /** A write to the header of `s` reaches no table and not the other header. */
  lemma HdrPutFoot(d: Disk, g: Geo, s: Side, w: Write)
    requires Sized(d, g) && w.lba == g.Home(s)
    ensures Sized(Put(d, w), g) && SameFoot(d, Put(d, w), g, Other(s))
    ensures Put(d, w)[g.Home(s)] == w.sec
    ensures g.Has(s) ==> forall i: nat :: i < 128 ==> EntAt(Put(d, w), g, s, i) == EntAt(d, g, s, i)
  {
    assert !g.InFoot(Other(s), w.lba);
    if g.Has(s) {
      forall i: nat | i < 128 ensures EntAt(Put(d, w), g, s, i) == EntAt(d, g, s, i) {
        assert g.InTab(s, g.At(s).tab + i / 4);
      }
    }
  }
}
