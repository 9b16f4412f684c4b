/**
 Loading relocatable objects: the placement and the offset-ordered reading of
 sections in boot/common/load_elf_obj.c.
 */
module ElfObject {
  import opened Arith
  import opened ElfImage

  datatype ShType = PROGBITS | NOBITS | SYMTAB | STRTAB | REL | RELA | OTHER

  datatype Shdr = Shdr(typ: ShType, size: nat, align: nat, offset: nat, link: nat, addr: nat) {
    /** A load address has been stored. */
    predicate Placed() { addr != 0 }
    function End(): nat { addr + size }
  }

  // ----- Placement -----

  predicate Apart(s: Shdr, t: Shdr) {
    s.End() <= t.addr || t.End() <= s.addr
  }

  /** Every placed section lies in [first, last), apart from the others. */
  ghost predicate Laid(s: seq<Shdr>, first: nat, last: nat) {
    && (forall i :: 0 <= i < |s| && s[i].Placed() ==> first <= s[i].addr && s[i].End() <= last)
    && (forall i, j :: 0 <= i < j < |s| && s[i].Placed() && s[j].Placed() ==> Apart(s[i], s[j]))
  }

  ghost predicate Aligned(s: seq<Shdr>, i: nat)
    requires i < |s|
  {
    s[i].Placed() ==> s[i].align > 0 && s[i].addr % s[i].align == 0
  }

  /** The kinds of section that may be placed. */
  predicate ToPlace(s: Shdr) {
    Chosen(s, false) || Chosen(s, true) || s.typ.SYMTAB? || s.typ.STRTAB?
  }

  /** The alignments that the source rounds by are not 0.  Others, such as that of the null
      section, may be. */
  ghost predicate Roundable(s: seq<Shdr>) {
    forall i :: 0 <= i < |s| && ToPlace(s[i]) ==> s[i].align > 0
  }

  lemma SameRoundable(s: seq<Shdr>, t: seq<Shdr>)
    requires SameFile(s, t) && Roundable(s)
    ensures Roundable(t)
  {
    forall i | 0 <= i < |t| && ToPlace(t[i]) ensures t[i].align > 0 {
      assert ToPlace(s[i]);
    }
  }

  /** The headers agree but for the addresses. */
  ghost predicate SameFile(s: seq<Shdr>, t: seq<Shdr>) {
    |s| == |t| && forall i :: 0 <= i < |s| ==> t[i] == s[i].(addr := t[i].addr)
  }

  lemma LaidWithin(s: seq<Shdr>, first: nat, last: nat, i: nat)
    requires Laid(s, first, last) && i < |s| && s[i].Placed()
    ensures first <= s[i].addr && s[i].End() <= last
  {
  }

  lemma PlaceKeepsLaid(s: seq<Shdr>, i: nat, first: nat, last: nat, a: nat)
    requires i < |s| && Laid(s, first, last) && first <= last <= a && 0 < a
    ensures Laid(s[i := s[i].(addr := a)], first, a + s[i].size)
  {
  }

  // ----- Reading -----

  predicate Readable(s: Shdr) { s.Placed() && !s.typ.NOBITS? }

  /** The reading loop gets to section `i`: no earlier one shares its file offset. */
  ghost predicate Read(s: seq<Shdr>, i: nat)
    requires i < |s|
  {
    Readable(s[i]) && forall j :: 0 <= j < i && Readable(s[j]) ==> s[j].offset != s[i].offset
  }

  predicate Covers(s: Shdr, a: nat) { s.Placed() && s.addr <= a < s.End() }

  /** No section that was read, of those with offsets below `upto`, covers `a`. */
  ghost predicate Bare(s: seq<Shdr>, upto: nat, a: nat) {
    forall i: nat :: i < |s| && Read(s, i) && s[i].offset < upto ==> !Covers(s[i], a)
  }

  /** Address `a` after the sections with offsets below `upto` have been read: the file's
      byte if a section that was read covers it, else zero. */
  ghost predicate ImageByte(s: seq<Shdr>, file: Bytes, upto: nat, a: nat, v: bv8) {
    && (forall i: nat :: i < |s| && Read(s, i) && s[i].offset < upto && Covers(s[i], a) ==>
          s[i].offset + (a - s[i].addr) < |file| && v == file[s[i].offset + (a - s[i].addr)])
    && (Bare(s, upto, a) ==> v == 0)
  }

  ghost predicate Image(s: seq<Shdr>, file: Bytes, upto: nat, first: nat, last: nat, mem: nat -> bv8) {
    forall a: nat :: first <= a < last ==> ImageByte(s, file, upto, a, mem(a))
  }

  /** Reading the next section in offset order. */
  lemma ReadNext(s: seq<Shdr>, file: Bytes, lo: nat, k: nat, first: nat, last: nat, mem: nat -> bv8, mem': nat -> bv8)
    requires k < |s| && Laid(s, first, last) && Image(s, file, lo, first, last, mem)
    requires Read(s, k) && lo <= s[k].offset && s[k].offset + s[k].size <= |file|
    requires forall i: nat :: i < |s| && Readable(s[i]) && lo <= s[i].offset ==> s[k].offset <= s[i].offset
    requires forall a: nat :: mem'(a) == if s[k].addr <= a < s[k].End() then file[s[k].offset + (a - s[k].addr)]
             else mem(a)
    ensures Image(s, file, s[k].offset + 1, first, last, mem')
  {
    OnlyNext(s, lo, k);
    forall a: nat | first <= a < last ensures ImageByte(s, file, s[k].offset + 1, a, mem'(a)) {
      assert ImageByte(s, file, lo, a, mem(a));
      if Covers(s[k], a) {
        forall i: nat | i < |s| && i != k && s[i].Placed() ensures !Covers(s[i], a) {
          assert Apart(s[i], s[k]) || Apart(s[k], s[i]);
        }
      }
    }
  }

  /** `order` is the sections read so far, those with offsets below `upto`: each at a higher
      offset than the one before it, so none twice. */
  ghost predicate Trace(s: seq<Shdr>, order: seq<nat>, upto: nat) {
    && (forall i :: i in order <==> 0 <= i < |s| && Read(s, i) && s[i].offset < upto)
    && Ascending(s, order)
  }

  /** Sections, each at a higher offset than the one before it. */
  ghost predicate Ascending(s: seq<Shdr>, order: seq<nat>) {
    forall k, l :: 0 <= k < l < |order| ==> order[k] < |s| && order[l] < |s| && s[order[k]].offset < s[order[l]].offset
  }

  /** Of the sections that get read, `k` alone lies between `lo` and just past its offset. */
  lemma OnlyNext(s: seq<Shdr>, lo: nat, k: nat)
    requires k < |s| && Read(s, k) && lo <= s[k].offset
    requires forall i: nat :: i < |s| && Readable(s[i]) && lo <= s[i].offset ==> s[k].offset <= s[i].offset
    ensures forall i: nat :: i < |s| && Read(s, i) ==> (s[i].offset < s[k].offset + 1 <==> s[i].offset < lo || i == k)
  {
    forall i: nat | i < |s| && Read(s, i)
      ensures s[i].offset < s[k].offset + 1 <==> s[i].offset < lo || i == k
    {
      if i < k {
        assert s[i].offset != s[k].offset;
      }
    }
  }

  /** Every section that gets read, of those with offsets below `upto`, lies within the file. */
  ghost predicate InFile(s: seq<Shdr>, file: Bytes, upto: nat) {
    forall i: nat :: i < |s| && Read(s, i) && s[i].offset < upto ==> s[i].offset + s[i].size <= |file|
  }

  lemma TraceNext(s: seq<Shdr>, order: seq<nat>, lo: nat, k: nat)
    requires Trace(s, order, lo) && k < |s| && Read(s, k) && lo <= s[k].offset
    requires forall i: nat :: i < |s| && Readable(s[i]) && lo <= s[i].offset ==> s[k].offset <= s[i].offset
    ensures Trace(s, order + [k], s[k].offset + 1)
  {
    OnlyNext(s, lo, k);
    forall i ensures i in order + [k] <==> 0 <= i < |s| && Read(s, i) && s[i].offset < s[k].offset + 1 {
      assert i in order + [k] <==> i in order || i == k;
    }
    forall j | 0 <= j < |order| ensures order[j] < |s| && s[order[j]].offset < lo {
      assert order[j] in order;
    }
  }

  // ----- obj_loadimage -----

  class ObjLoader {
    const m: Memory
    const file: Bytes
    const shdr: array<Shdr>
    const shstrndx: nat
    const firstaddr: nat
    var lastaddr: nat

    /** The placements so far are in order. */
    ghost predicate Valid()
      reads this, shdr
    {
      && 0 < firstaddr <= lastaddr && Laid(shdr[..], firstaddr, lastaddr)
      && Roundable(shdr[..])
    }

    constructor (m: Memory, file: Bytes, shdr: array<Shdr>, shstrndx: nat, off: nat)
      requires off > 0
      ensures this.m == m && this.file == file && this.shdr == shdr && this.shstrndx == shstrndx
      ensures firstaddr == lastaddr == off
    {
      this.m, this.file, this.shdr, this.shstrndx := m, file, shdr, shstrndx;
      firstaddr, lastaddr := off, off;
    }

    /** Puts section `i` at the next address, aligned if asked for. */
    method Place(i: nat, align: bool)
      requires Valid() && i < shdr.Length && ToPlace(shdr[i])
      modifies this`lastaddr, shdr
      ensures Valid()
      ensures shdr[..] == old(shdr[..])[i := old(shdr[i]).(addr := shdr[i].addr)] && shdr[i].Placed()
      ensures align ==> Aligned(shdr[..], i)
      ensures shdr[i].addr == if align then RoundUp(old(lastaddr), shdr[i].align) else old(lastaddr)
      ensures lastaddr == shdr[i].addr + shdr[i].size
    {
      if align {
        lastaddr := RoundUp(lastaddr, shdr[i].align);
      }
      PlaceKeepsLaid(shdr[..], i, firstaddr, old(lastaddr), lastaddr);
      shdr[i] := shdr[i].(addr := lastaddr);
      lastaddr := lastaddr + shdr[i].size;
      assert shdr[..] == old(shdr[..])[i := old(shdr[i]).(addr := shdr[i].addr)];
    }

    method ClearAddresses()
      requires 0 < firstaddr == lastaddr && Roundable(shdr[..])
      modifies shdr
      ensures Valid() && SameFile(old(shdr[..]), shdr[..])
      ensures forall i :: 0 <= i < shdr.Length ==> !shdr[i].Placed()
    {
      var i := 0;
      while i < shdr.Length
        invariant 0 <= i <= shdr.Length
        invariant SameFile(old(shdr[..]), shdr[..])
        invariant forall j :: 0 <= j < i ==> !shdr[j].Placed()
      {
        ghost var t := shdr[..];
        shdr[i] := shdr[i].(addr := 0);
        assert shdr[..] == t[i := t[i].(addr := 0)];
        i := i + 1;
      }
      SameRoundable(old(shdr[..]), shdr[..]);
    }

    /** Places, aligned, the sections a predicate on headers asks for: the loops over code
        and data and over relocation tables. */
    method PlaceAll(rel: bool)
      requires Valid()
      modifies this`lastaddr, shdr
      ensures Valid() && SameFile(old(shdr[..]), shdr[..])
      ensures forall i: nat :: i < shdr.Length ==>
                if Chosen(shdr[i], rel) then shdr[i].Placed() && Aligned(shdr[..], i) else shdr[i] == old(shdr[i])
      ensures Roundable(old(shdr[..])) && lastaddr == Fill(old(shdr[..]), rel, shdr.Length, old(lastaddr))
      ensures Filled(old(shdr[..]), shdr[..], rel, shdr.Length, old(lastaddr))
    {
      hide Laid, Shdr.Placed;
      ghost var s := shdr[..];
      var i := 0;
      while i < shdr.Length
        invariant 0 <= i <= shdr.Length && Valid() && SameFile(old(shdr[..]), shdr[..])
        invariant forall j: nat :: j < shdr.Length ==>
                    if j < i && Chosen(shdr[j], rel) then shdr[j].Placed() && Aligned(shdr[..], j)
                      else shdr[j] == old(shdr[j])
        invariant lastaddr == Fill(s, rel, i, old(lastaddr)) && Filled(s, shdr[..], rel, i, old(lastaddr))
      {
        assert shdr[i] == s[i];
        if Chosen(shdr[i], rel) {
          ghost var t := shdr[..];
          Place(i, true);
          assert forall j: nat :: j < shdr.Length && j != i ==> shdr[j] == t[j];
          assert shdr[i] == t[i].(addr := shdr[i].addr);
        }
        i := i + 1;
      }
    }

    /** The loop over symbol tables. */
    method PlaceSymbols() returns (nsym: nat, symtab: nat)
      requires Valid()
      modifies this`lastaddr, shdr
      ensures Valid() && SameFile(old(shdr[..]), shdr[..])
      ensures nsym == 1 ==> OnlySymtab(shdr[..], symtab)
      ensures nsym != 1 ==> forall k :: !OnlySymtab(shdr[..], k)
      ensures forall i: nat :: i < shdr.Length && !shdr[i].typ.SYMTAB? ==> shdr[i] == old(shdr[i])
      ensures nsym == 1 ==> lastaddr == old(lastaddr) + shdr[symtab].size
    {
      nsym, symtab := 0, 0;
      ghost var s, first := shdr[..], 0;
      var i := 0;
      while i < shdr.Length
        invariant 0 <= i <= shdr.Length && Valid() && SameFile(old(shdr[..]), shdr[..])
        invariant nsym == 0 ==> lastaddr == old(lastaddr) && forall j: nat :: j < i ==> !s[j].typ.SYMTAB?
        invariant nsym == 1 ==> symtab < i && lastaddr == old(lastaddr) + s[symtab].size
        invariant nsym > 1 ==> first < symtab < i && s[first].typ.SYMTAB? && s[symtab].typ.SYMTAB?
        invariant nsym == 1 ==> first == symtab < i && forall j: nat :: j < i ==> (s[j].typ.SYMTAB? <==> j == symtab)
        invariant forall j: nat :: j < shdr.Length && (j >= i || !shdr[j].typ.SYMTAB?) ==> shdr[j] == old(shdr[j])
      {
        assert shdr[i].typ == s[i].typ;
        if shdr[i].typ.SYMTAB? {
          ghost var t := shdr[..];
          first := if nsym == 0 then i else first;
          nsym, symtab := nsym + 1, i;
          Place(i, false);
          assert forall j: nat :: j < shdr.Length && j != i ==> shdr[j] == t[j];
          assert shdr[i] == t[i].(addr := shdr[i].addr);
        }
        i := i + 1;
      }
      if nsym > 1 {
        assert shdr[..][first].typ.SYMTAB? && shdr[..][symtab].typ.SYMTAB?;
      } else if nsym == 0 {
        forall k: nat ensures !OnlySymtab(shdr[..], k) {
          assert k < shdr.Length ==> !shdr[..][k].typ.SYMTAB?;
        }
      }
    }

    /** The inner loop: the unread section with the lowest file offset; `l` if there is none. */
    method NextSection(l: int) returns (c: int)
      requires -1 <= l < shdr.Length
      ensures -1 <= c < shdr.Length
      ensures c == l ==> forall i: nat :: i < shdr.Length && Readable(shdr[i]) ==> shdr[i].offset < After(shdr[..], l)
      ensures c != l ==> c >= 0 && Read(shdr[..], c) && After(shdr[..], l) <= shdr[c].offset
      ensures c != l ==>
                forall i: nat :: i < shdr.Length && Readable(shdr[i]) && After(shdr[..], l) <= shdr[i].offset ==>
                                   shdr[c].offset <= shdr[i].offset
    {
      c := l;
      var i := 0;
      while i < shdr.Length
        invariant 0 <= i <= shdr.Length && -1 <= c < shdr.Length
        invariant c == l ==> forall j: nat :: j < i && Readable(shdr[j]) ==> shdr[j].offset < After(shdr[..], l)
        invariant c != l ==> 0 <= c < i && Readable(shdr[c]) && After(shdr[..], l) <= shdr[c].offset
        invariant c != l ==> forall j: nat :: j < i && Readable(shdr[j]) && After(shdr[..], l) <= shdr[j].offset ==>
                               shdr[c].offset <= shdr[j].offset && (j < c ==> shdr[c].offset < shdr[j].offset)
      {
        if shdr[i].addr == 0 || shdr[i].typ.NOBITS? {
        } else if l != -1 && shdr[l].offset >= shdr[i].offset {
        } else if c == l || shdr[c].offset > shdr[i].offset {
          c := i;
        }
        i := i + 1;
      }
    }

    /** The loading loop: sections in the order of their file offsets */
    method ReadSections() returns (ok: bool, ghost order: seq<nat>)
      requires Valid() && forall a: nat :: firstaddr <= a < lastaddr ==> m.mem(a) == 0
      modifies m
      ensures ok <==> InFile(shdr[..], file, Top(shdr[..]))
      ensures ok ==> Trace(shdr[..], order, Top(shdr[..]))
      ensures ok ==> FinalImage(shdr[..], file, firstaddr, lastaddr, m.mem)
      ensures forall a: nat :: !(firstaddr <= a < lastaddr) ==> m.mem(a) == old(m.mem)(a)
    {
      hide Laid, Image, Shdr.Placed, Trace, FinalImage;
      order := [];
      var l := -1;
      ghost var s := shdr[..];
      NothingRead(s, file, firstaddr, lastaddr, m.mem);
      while true
        invariant -1 <= l < shdr.Length && s == shdr[..]
        invariant Trace(s, order, After(s, l)) && InFile(s, file, After(s, l))
        invariant Image(s, file, After(s, l), firstaddr, lastaddr, m.mem)
        invariant forall a: nat :: !(firstaddr <= a < lastaddr) ==> m.mem(a) == old(m.mem)(a)
        decreases Top(s) - After(s, l)
      {
        var c := NextSection(l);
        if c == l {
          AllRead(s, file, order, After(s, l), firstaddr, lastaddr, m.mem);
          ok := true;
          return;
        }
        LaidWithin(s, firstaddr, lastaddr, c);
        ghost var before := m.mem;
        ok := m.Pread(file, shdr[c].addr, shdr[c].size, shdr[c].offset);
        BelowTop(s, c);
        if !ok {
          return;
        }
        ReadNext(s, file, After(s, l), c, firstaddr, lastaddr, before, m.mem);
        OnlyNext(s, After(s, l), c);
        TraceNext(s, order, After(s, l), c);
        order := order + [c];
        l := c;
      }
    }

    /** Decides where everything goes: the wanted sections, in order, and no other. */
    method PlaceSections() returns (ok: bool, symtab: nat)
      requires 0 < firstaddr == lastaddr && Roundable(shdr[..])
      modifies this`lastaddr, shdr
      ensures Valid() && SameFile(old(shdr[..]), shdr[..])
      ensures ok ==> WellFormed(shdr[..], symtab, shstrndx)
      ensures !ok ==> forall k :: !WellFormed(shdr[..], k, shstrndx)
      ensures !ok ==> forall k :: !TablesByType(shdr[..], k, shstrndx)
      ensures ok ==> forall i: nat :: i < shdr.Length ==>
              Aligned(shdr[..], i) && (shdr[i].Placed() <==> Wanted(shdr[..], symtab, shstrndx, i))
      ensures ok ==> TablesByType(shdr[..], symtab, shstrndx) && PlacedByType(shdr[..], symtab, shstrndx)
      ensures ok ==> Roundable(shdr[..]) && LaidOut(shdr[..], symtab, shstrndx, firstaddr, lastaddr)
    {
      hide Laid, Shdr.Placed, Chosen, Filled, TablesLaid, LaidOut, TablesByType, PlacedByType, Roundable;
      ok, symtab := false, 0;
      ClearAddresses();
      ghost var s1 := shdr[..];
      PlaceAll(false);
      ghost var s2, a1 := shdr[..], lastaddr;
      var nsym;
      nsym, symtab := PlaceSymbols();
      ghost var s3 := shdr[..];
      ok := nsym == 1;
      if ok {
        ok := PlaceTables(symtab);
      }
      if !ok {
        forall k: nat ensures !TablesByType(shdr[..], k, shstrndx) {
          TablesWellFormed(shdr[..], k, shstrndx);
        }
      } else {
        KeptByTables(s1, s2, s3, shdr[..], symtab, shstrndx);
        ghost var tables, at := shdr[..], lastaddr;
        PlaceAll(true);
        SameWellFormed(tables, shdr[..], symtab, shstrndx);
        ByType(shdr[..], symtab, shstrndx);
        ChosenSame(tables, shdr[..], true);
        PutTogether(s1, s2, tables, shdr[..], symtab, shstrndx, firstaddr, a1, at, lastaddr);
      }
    }

    /** The symbol table again, its strings and the section names. */
    method PlaceTables(symtab: nat) returns (ok: bool)
      requires Valid() && OnlySymtab(shdr[..], symtab)
      modifies this`lastaddr, shdr
      ensures Valid() && SameFile(old(shdr[..]), shdr[..])
      ensures ok <==> WellFormed(shdr[..], symtab, shstrndx)
      ensures ok ==> forall i: nat :: i < shdr.Length ==>
                       if i == symtab || i == shdr[symtab].link || i == shstrndx then shdr[i].Placed()
                         && Aligned(shdr[..], i) else shdr[i] == old(shdr[i])
      ensures ok ==> TablesLaid(shdr[..], symtab, shstrndx, old(lastaddr), lastaddr)
    {
      hide Laid, Shdr.Placed;
      ok := false;
      Place(symtab, true);
      var symstr := shdr[symtab].link;
      if symstr >= shdr.Length || !shdr[symstr].typ.STRTAB? {
        return;
      }
      Place(symstr, true);
      if shstrndx == 0 || shstrndx >= shdr.Length || !shdr[shstrndx].typ.STRTAB? {
        return;
      }
      Place(shstrndx, true);
      ok := true;
    }

    /** obj_loadimage, up to the module metadata.  It succeeds exactly when the headers are
        well formed and the sections to read lie in the file, and then memory holds their
        image, each section read having been read once. */
    method LoadImage() returns (ok: bool, size: nat, symtab: nat, ghost order: seq<nat>)
      requires 0 < firstaddr == lastaddr && Roundable(shdr[..])
      modifies this`lastaddr, shdr, m
      ensures SameFile(old(shdr[..]), shdr[..])
      ensures ok ==> WellFormed(shdr[..], symtab, shstrndx) && InFile(shdr[..], file, Top(shdr[..]))
      ensures !ok ==> (forall k :: !WellFormed(shdr[..], k, shstrndx)) || !InFile(shdr[..], file, Top(shdr[..]))
      ensures !ok ==> (forall k :: !TablesByType(shdr[..], k, shstrndx)) || !InFile(shdr[..], file, Top(shdr[..]))
      ensures ok ==> size == lastaddr - firstaddr && Laid(shdr[..], firstaddr, lastaddr)
      ensures ok ==> forall i: nat :: i < shdr.Length ==>
              Aligned(shdr[..], i) && (shdr[i].Placed() <==> Wanted(shdr[..], symtab, shstrndx, i))
      ensures ok ==> TablesByType(shdr[..], symtab, shstrndx) && PlacedByType(shdr[..], symtab, shstrndx)
      ensures ok ==> Roundable(shdr[..]) && LaidOut(shdr[..], symtab, shstrndx, firstaddr, lastaddr)
      ensures ok ==> Trace(shdr[..], order, Top(shdr[..]))
      ensures ok ==> FinalImage(shdr[..], file, firstaddr, lastaddr, m.mem)
      ensures forall a: nat :: !(firstaddr <= a < lastaddr) ==> m.mem(a) == old(m.mem)(a)
    {
      hide FinalImage, Laid, Shdr.Placed, Chosen, Read, Trace, InFile;
      order, size := [], 0;
      ok, symtab := PlaceSections();
      if !ok {
        return;
      }
      m.Bzero(firstaddr, lastaddr - firstaddr);
      ok, order := ReadSections();
      size := lastaddr - firstaddr;
    }
  }

  /** The sections of the first loop, or of the loop over relocation tables. */
  predicate Chosen(s: Shdr, rel: bool) {
    if rel then s.typ.REL? || s.typ.RELA? else (s.typ.PROGBITS? || s.typ.NOBITS?) && s.size > 0
  }

  ghost predicate OnlySymtab(s: seq<Shdr>, k: nat) {
    k < |s| && forall i: nat :: i < |s| ==> (s[i].typ.SYMTAB? <==> i == k)
  }

  /** One symbol table, and string tables for its names and the sections'. */
  ghost predicate WellFormed(s: seq<Shdr>, k: nat, shstrndx: nat) {
    && OnlySymtab(s, k)
    && s[k].link < |s| && s[s[k].link].typ.STRTAB?
    && 0 < shstrndx < |s| && s[shstrndx].typ.STRTAB?
  }

  /** The one symbol table, the string table it names, and the section names. */
  ghost predicate TablesByType(s: seq<Shdr>, symtab: nat, shstrndx: nat) {
    && symtab < |s| && (forall i :: 0 <= i < |s| ==> (s[i].typ == SYMTAB <==> i == symtab))
    && s[symtab].link < |s| && s[s[symtab].link].typ == STRTAB
    && 0 < shstrndx < |s| && s[shstrndx].typ == STRTAB
  }

  /** Exactly these sections have an address: code, data and bss of some size, relocation tables,
      the symbol table, its strings and the section names. */
  ghost predicate PlacedByType(s: seq<Shdr>, symtab: nat, shstrndx: nat)
    requires symtab < |s|
  {
    forall i :: 0 <= i < |s| ==>
      (s[i].addr != 0 <==>
        || (s[i].typ == PROGBITS && s[i].size > 0) || (s[i].typ == NOBITS && s[i].size > 0)
        || s[i].typ == REL || s[i].typ == RELA
        || i == symtab || i == s[symtab].link || i == shstrndx)
  }

  lemma TablesWellFormed(s: seq<Shdr>, k: nat, shstrndx: nat)
    ensures TablesByType(s, k, shstrndx) <==> WellFormed(s, k, shstrndx)
  {
  }

  lemma ByType(s: seq<Shdr>, symtab: nat, shstrndx: nat)
    requires WellFormed(s, symtab, shstrndx)
    requires forall i: nat :: i < |s| ==> (s[i].Placed() <==> Wanted(s, symtab, shstrndx, i))
    ensures TablesByType(s, symtab, shstrndx) && PlacedByType(s, symtab, shstrndx)
  {
    forall i | 0 <= i < |s|
      ensures s[i].addr != 0 <==>
                || (s[i].typ == PROGBITS && s[i].size > 0) || (s[i].typ == NOBITS && s[i].size > 0)
                || s[i].typ == REL || s[i].typ == RELA
                || i == symtab || i == s[symtab].link || i == shstrndx
    {
      assert s[i].Placed() <==> Wanted(s, symtab, shstrndx, i);
    }
  }

  // ----- The exact layout -----

  /** The end of the first `n` sections of a loop that places from `at` on, without gaps other
      than for alignment. */
  ghost function Fill(s: seq<Shdr>, rel: bool, n: nat, at: nat): nat
    requires n <= |s| && Roundable(s)
  {
    if n == 0 then at
    else
      var a := Fill(s, rel, n - 1, at);
      if Chosen(s[n - 1], rel) then RoundUp(a, s[n - 1].align) + s[n - 1].size else a
  }

  /** In `t` the sections of such a loop are where it puts them. */
  ghost predicate Filled(s: seq<Shdr>, t: seq<Shdr>, rel: bool, n: nat, at: nat)
    requires n <= |s| == |t| && Roundable(s)
  {
    forall i :: 0 <= i < n && Chosen(s[i], rel) ==> t[i].addr == RoundUp(Fill(s, rel, i, at), s[i].align)
  }

  /** The symbol table, its strings and the section names, one behind the other from `at` on. */
  ghost predicate TablesLaid(s: seq<Shdr>, symtab: nat, shstrndx: nat, at: nat, end: nat)
    requires Roundable(s) && WellFormed(s, symtab, shstrndx)
  {
    var str := s[symtab].link;
    var a := RoundUp(at, s[symtab].align);
    var b := RoundUp(a + s[symtab].size, s[str].align);
    var c := RoundUp(b + s[str].size, s[shstrndx].align);
    && s[symtab].addr == a && (str != shstrndx ==> s[str].addr == b) && s[shstrndx].addr == c
    && end == c + s[shstrndx].size
  }

  /** Every address: first code, data and bss in order; then, behind room for one more copy of the
      symbol table, the tables; then the relocation tables in order. */
  ghost predicate LaidOut(s: seq<Shdr>, symtab: nat, shstrndx: nat, first: nat, last: nat)
    requires Roundable(s) && WellFormed(s, symtab, shstrndx)
  {
    && Filled(s, s, false, |s|, first)
    && exists end :: && TablesLaid(s, symtab, shstrndx, Fill(s, false, |s|, first) + s[symtab].size, end)
                     && Filled(s, s, true, |s|, end) && last == Fill(s, true, |s|, end)
  }

  lemma {:induction false} FillSame(s: seq<Shdr>, t: seq<Shdr>, rel: bool, n: nat, at: nat)
    requires SameFile(s, t) && Roundable(s) && Roundable(t) && n <= |s|
    ensures Fill(s, rel, n, at) == Fill(t, rel, n, at)
  {
    if n > 0 {
      FillSame(s, t, rel, n - 1, at);
      assert t[n - 1] == s[n - 1].(addr := t[n - 1].addr);
    }
  }

  lemma FilledSame(s: seq<Shdr>, u: seq<Shdr>, t: seq<Shdr>, rel: bool, at: nat)
    requires SameFile(s, t) && |u| == |s| && Roundable(s) && Roundable(t) && Filled(s, u, rel, |s|, at)
    requires forall i :: 0 <= i < |s| && Chosen(s[i], rel) ==> t[i].addr == u[i].addr
    ensures Filled(t, t, rel, |t|, at)
  {
    hide RoundUp;
    forall i | 0 <= i < |t| && Chosen(t[i], rel) ensures t[i].addr == RoundUp(Fill(t, rel, i, at), t[i].align) {
      FillSame(s, t, rel, i, at);
      assert t[i] == s[i].(addr := t[i].addr);
    }
  }

  lemma ChosenSame(s: seq<Shdr>, t: seq<Shdr>, rel: bool)
    requires SameFile(s, t)
    ensures forall i :: 0 <= i < |s| ==> (Chosen(s[i], rel) <==> Chosen(t[i], rel))
  {
    assert forall i :: 0 <= i < |s| ==> t[i].typ == s[i].typ && t[i].size == s[i].size;
  }

  lemma SameWellFormed(s: seq<Shdr>, t: seq<Shdr>, symtab: nat, shstrndx: nat)
    requires SameFile(s, t) && WellFormed(s, symtab, shstrndx)
    ensures WellFormed(t, symtab, shstrndx)
  {
    assert forall i :: 0 <= i < |s| ==> t[i].typ == s[i].typ && t[i].link == s[i].link;
  }

  /** Placing the tables moves no code or data. */
  lemma KeptByTables(s1: seq<Shdr>, s2: seq<Shdr>, s3: seq<Shdr>, s4: seq<Shdr>, symtab: nat, shstrndx: nat)
    requires SameFile(s1, s2) && SameFile(s2, s3) && SameFile(s3, s4) && WellFormed(s4, symtab, shstrndx)
    requires forall i: nat :: i < |s2| && !s3[i].typ.SYMTAB? ==> s3[i] == s2[i]
    requires forall i: nat :: i < |s3| && i != symtab && i != s4[symtab].link && i != shstrndx ==> s4[i] == s3[i]
    ensures forall i :: 0 <= i < |s1| && Chosen(s1[i], false) ==> s4[i].addr == s2[i].addr
  {
    forall i: nat | i < |s1| && Chosen(s1[i], false) ensures s4[i].addr == s2[i].addr {
      assert s4[i].typ == s3[i].typ == s2[i].typ == s1[i].typ;
    }
  }

  /** The loops one after the other. */
  lemma PutTogether(s1: seq<Shdr>, s2: seq<Shdr>, s3: seq<Shdr>, s4: seq<Shdr>, symtab: nat, shstrndx: nat,
                    first: nat, a1: nat, a3: nat, last: nat)
    requires SameFile(s1, s2) && SameFile(s2, s3) && SameFile(s3, s4)
    requires Roundable(s1) && Roundable(s3) && Roundable(s4)
    requires WellFormed(s3, symtab, shstrndx) && WellFormed(s4, symtab, shstrndx)
    requires Filled(s1, s2, false, |s1|, first) && a1 == Fill(s1, false, |s1|, first)
    requires forall i :: 0 <= i < |s1| && Chosen(s1[i], false) ==> s3[i].addr == s2[i].addr
    requires TablesLaid(s3, symtab, shstrndx, a1 + s3[symtab].size, a3)
    requires Filled(s3, s4, true, |s3|, a3) && last == Fill(s3, true, |s3|, a3)
    requires forall i :: 0 <= i < |s3| && !Chosen(s3[i], true) ==> s4[i] == s3[i]
    ensures LaidOut(s4, symtab, shstrndx, first, last)
  {
    hide RoundUp;
    assert SameFile(s1, s4);
    FilledSame(s1, s2, s4, false, first);
    FillSame(s1, s4, false, |s1|, first);
    FilledSame(s3, s4, s4, true, a3);
    FillSame(s3, s4, true, |s3|, a3);
    assert s4[symtab] == s3[symtab] && s4[s4[symtab].link] == s3[s3[symtab].link] && s4[shstrndx] == s3[shstrndx];
    assert TablesLaid(s4, symtab, shstrndx, Fill(s4, false, |s4|, first) + s4[symtab].size, a3);
  }

  /** What obj_loadimage sets out to place. */
  predicate Wanted(s: seq<Shdr>, symtab: nat, shstrndx: nat, i: nat)
    requires i < |s| && symtab < |s|
  {
    Chosen(s[i], false) || Chosen(s[i], true) || i == symtab || i == s[symtab].link || i == shstrndx
  }

  /** The first offset not yet looked at when section `l` was read last. */
  function After(s: seq<Shdr>, l: int): nat
    requires -1 <= l < |s|
  {
    if l == -1 then 0 else s[l].offset + 1
  }

  /** An offset above all others. */
  ghost function Top(s: seq<Shdr>): nat {
    if s == [] then 0
    else
      var t := Top(s[..|s| - 1]);
      if s[|s| - 1].offset < t then t else s[|s| - 1].offset + 1
  }

  lemma {:induction false} BelowTop(s: seq<Shdr>, i: nat)
    requires i < |s|
    ensures s[i].offset < Top(s)
  {
    if i < |s| - 1 {
      BelowTop(s[..|s| - 1], i);
    }
  }

  /** The image the file describes: the bytes of every section read, zero elsewhere. */
  ghost predicate FinalImage(s: seq<Shdr>, file: Bytes, first: nat, last: nat, mem: nat -> bv8) {
    Image(s, file, Top(s), first, last, mem)
  }

  lemma NothingRead(s: seq<Shdr>, file: Bytes, first: nat, last: nat, mem: nat -> bv8)
    requires forall a: nat :: first <= a < last ==> mem(a) == 0
    ensures Image(s, file, 0, first, last, mem) && Trace(s, [], 0)
  {
  }

  lemma AllRead(s: seq<Shdr>, file: Bytes, order: seq<nat>, upto: nat, first: nat, last: nat, mem: nat -> bv8)
    requires Image(s, file, upto, first, last, mem) && Trace(s, order, upto) && InFile(s, file, upto)
    requires forall i: nat :: i < |s| && Readable(s[i]) ==> s[i].offset < upto
    ensures FinalImage(s, file, first, last, mem) && Trace(s, order, Top(s)) && InFile(s, file, Top(s))
  {
    hide Image, Trace, InFile, Top, ImageByte, Read;
    forall i: nat | i < |s| && Read(s, i) ensures s[i].offset < Top(s) && s[i].offset < upto {
      BelowTop(s, i);
      ReadReadable(s, i);
    }
    TraceWider(s, order, upto, Top(s));
    InFileWider(s, file, upto, Top(s));
    ImageWider(s, file, upto, Top(s), first, last, mem);
  }

  lemma ReadReadable(s: seq<Shdr>, i: nat)
    requires i < |s| && Read(s, i)
    ensures Readable(s[i])
  {
  }

  lemma TraceWider(s: seq<Shdr>, order: seq<nat>, upto: nat, top: nat)
    requires Trace(s, order, upto) && forall i: nat :: i < |s| && Read(s, i) ==> s[i].offset < upto && s[i].offset < top
    ensures Trace(s, order, top)
  {
    hide Ascending, Read;
    forall i ensures i in order <==> 0 <= i < |s| && Read(s, i) && s[i].offset < top {
      assert i in order <==> 0 <= i < |s| && Read(s, i) && s[i].offset < upto;
    }
  }

  lemma InFileWider(s: seq<Shdr>, file: Bytes, upto: nat, top: nat)
    requires InFile(s, file, upto) && forall i: nat :: i < |s| && Read(s, i) ==> s[i].offset < upto && s[i].offset < top
    ensures InFile(s, file, top)
  {
    hide Read;
  }

  lemma ImageWider(s: seq<Shdr>, file: Bytes, upto: nat, top: nat, first: nat, last: nat, mem: nat -> bv8)
    requires Image(s, file, upto, first, last, mem)
    requires forall i: nat :: i < |s| && Read(s, i) ==> s[i].offset < upto && s[i].offset < top
    ensures Image(s, file, top, first, last, mem)
  {
    hide Read, Covers;
    forall a: nat | first <= a < last ensures ImageByte(s, file, top, a, mem(a)) {
      assert ImageByte(s, file, upto, a, mem(a));
      assert Bare(s, top, a) ==> Bare(s, upto, a);
    }
  }

  /** Section `i` is in memory as the file has it. */
  ghost predicate HasContents(s: Shdr, file: Bytes, mem: nat -> bv8)
    requires s.offset + s.size <= |file|
  {
    forall a: nat :: s.addr <= a < s.End() ==> mem(a) == file[s.offset + (a - s.addr)]
  }

  /** Nothing else covers an address of section `i`. */
  lemma OnlyCover(s: seq<Shdr>, first: nat, last: nat, i: nat, a: nat)
    requires Laid(s, first, last) && i < |s| && Covers(s[i], a)
    ensures first <= a < last && forall j: nat :: j < |s| && j != i ==> !Covers(s[j], a)
  {
    forall j: nat | j < |s| && j != i && s[j].Placed() ensures !Covers(s[j], a) {
      assert Apart(s[i], s[j]) || Apart(s[j], s[i]);
    }
  }

  /** A byte of a section: the file's if the section was read, else zero. */
  lemma ImageOfByte(s: seq<Shdr>, file: Bytes, first: nat, last: nat, mem: nat -> bv8, i: nat, a: nat)
    requires FinalImage(s, file, first, last, mem) && Laid(s, first, last) && i < |s| && Covers(s[i], a)
    ensures if Read(s, i) then s[i].offset + (a - s[i].addr) < |file| && mem(a) == file[s[i].offset + (a - s[i].addr)]
            else mem(a) == 0
  {
    OnlyCover(s, first, last, i, a);
    BelowTop(s, i);
    assert ImageByte(s, file, Top(s), a, mem(a));
    assert !Read(s, i) ==> Bare(s, Top(s), a);
  }

  /** A section with contents, placed and within the file, is in memory as the file has it if
      and only if no earlier one with contents shares its offset, or its bytes are all zero. */
  lemma ContentsExact(s: seq<Shdr>, file: Bytes, first: nat, last: nat, mem: nat -> bv8, i: nat)
    requires FinalImage(s, file, first, last, mem) && Laid(s, first, last)
    requires i < |s| && Readable(s[i]) && s[i].offset + s[i].size <= |file|
    ensures HasContents(s[i], file, mem)
            <==> (forall j :: 0 <= j < i && Readable(s[j]) ==> s[j].offset != s[i].offset)
                 || forall k :: s[i].offset <= k < s[i].offset + s[i].size ==> file[k] == 0
  {
    hide FinalImage, Laid;
    var p := s[i];
    forall a: nat | p.addr <= a < p.End()
      ensures mem(a) == if Read(s, i) then file[p.offset + (a - p.addr)] else 0
    {
      ImageOfByte(s, file, first, last, mem, i, a);
    }
    if HasContents(p, file, mem) && !Read(s, i) {
      forall k | p.offset <= k < p.offset + p.size ensures file[k] == 0 {
        assert mem(p.addr + (k - p.offset)) == 0;
      }
    }
  }

  /** Every byte of a section without contents is zero. */
  lemma NobitsZero(s: seq<Shdr>, file: Bytes, first: nat, last: nat, mem: nat -> bv8, i: nat, a: nat)
    requires FinalImage(s, file, first, last, mem) && Laid(s, first, last) && i < |s| && Covers(s[i], a)
             && s[i].typ.NOBITS?
    ensures mem(a) == 0
  {
    ImageOfByte(s, file, first, last, mem, i, a);
  }

  /** A file of five sections, the null section first, that is placed and read without an error
      and yet has its code left out: an empty relocation section before the code has the same
      offset. */
  const SHARED_OFFSETS: seq<Shdr> := [
    Shdr(OTHER, 0, 0, 0, 0, 0),
    Shdr(REL, 0, 1, 64, 0, 0),
    Shdr(PROGBITS, 4, 1, 64, 0, 0),
    Shdr(SYMTAB, 16, 1, 68, 4, 0),
    Shdr(STRTAB, 4, 1, 84, 0, 0)]

  method SharedOffsetUnread(file: Bytes, zero: nat -> bv8) returns (ok: bool, l: ObjLoader)
    requires |file| >= 88 && file[64] != 0
    ensures ok && l.file == file && SameFile(SHARED_OFFSETS, l.shdr[..])
    ensures Readable(l.shdr[2]) && l.m.mem(l.shdr[2].addr) == 0 && !HasContents(l.shdr[2], file, l.m.mem)
  {
    var m := new Memory(zero);
    var shdr := new Shdr[5](i requires 0 <= i < 5 => SHARED_OFFSETS[i]);
    assert shdr[..] == SHARED_OFFSETS;
    l := new ObjLoader(m, file, shdr, 4, 0x1000);
    var size, symtab;
    ghost var order;
    ok, size, symtab, order := l.LoadImage();
    ghost var s := shdr[..];
    SharedOffsetsLoad(s, file, symtab, ok);
    ContentsExact(s, file, l.firstaddr, l.lastaddr, m.mem, 2);
    ImageOfByte(s, file, l.firstaddr, l.lastaddr, m.mem, 2, s[2].addr);
  }

  lemma SharedOffsetsLoad(s: seq<Shdr>, file: Bytes, symtab: nat, ok: bool)
    requires SameFile(SHARED_OFFSETS, s) && |file| >= 88
    requires !ok ==> (forall k :: !WellFormed(s, k, 4)) || !InFile(s, file, Top(s))
    requires ok ==> WellFormed(s, symtab, 4) && forall i: nat :: i < |s| ==>
             (s[i].Placed() <==> Wanted(s, symtab, 4, i))
    ensures ok && Readable(s[1]) && Readable(s[2]) && s[1].offset == s[2].offset
  {
    assert WellFormed(s, 3, 4);
    assert InFile(s, file, Top(s));
  }
}
