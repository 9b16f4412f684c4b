/**
 The Forth dictionary of boot/ficl/dict.c: words appended to a memory that grows
 upwards and linked into hash tables.
 */
module Dictionary {
  import opened Arith
  import opened WordSpec

  /** FICL_HASH */
  class Wordlist {
    const table: array<nat>
    /** The definitions linked in, newest first. */
    ghost var defs: seq<nat>

    ghost predicate Valid(words: Heap)
      reads this, table
    {
      Hashed(words, table[..], defs)
    }

    /** The words a lookup for a hash code goes through. */
    ghost function Probe(words: Heap, code: nat): seq<nat>
      reads this
    {
      if table.Length == 0 then [] else Bucket(words, defs, Slot(code, table.Length), table.Length)
    }

    constructor (size: nat)
      requires size > 0
      ensures fresh(table) && table.Length == size && defs == [] && forall words :: Valid(words)
    {
      table := new nat[size](_ => 0);
      defs := [];
    }
  }

  // ----- Names -----

  /** hashHashCode, for a name of which `si` is the text */
  method HashHashCode(si: Text) returns (code: nat)
    ensures code == Hash(si)
  {
    hide HashStep;
    if |si| == 0 {
      return 0;
    }
    var c := (|si| % 0x1_0000) as bv16;
    var k := 0;
    while k < |si| && si[k] != 0
      invariant 0 <= k <= |si|
      invariant HashFrom(c, si[k..]) == HashFrom((|si| % 0x1_0000) as bv16, si)
    {
      c := HashStep(c, Fold(si[k]));
      k := k + 1;
    }
    code := c as nat;
  }

  /** strincmp */
  method Strincmp(a: Text, b: Text, count: nat) returns (diff: int)
    requires count <= |a| && count <= |b|
    ensures diff == 0 <==> SameName(a[..count], b[..count])
  {
    var k := 0;
    while k < count
      invariant 0 <= k <= count
      invariant SameName(a[k..count], b[k..count]) == SameName(a[..count], b[..count])
    {
      assert a[k..count][1..] == a[k + 1..count] && b[k..count][1..] == b[k + 1..count];
      diff := Fold(a[k]) as int - Fold(b[k]) as int;
      if diff != 0 {
        return;
      } else if a[k] == 0 {
        return;
      }
      k := k + 1;
    }
    diff := 0;
  }

  // ----- The search order -----

  /** The definitions of some wordlists, one list after the other. */
  ghost function AllDefs(lists: seq<Wordlist>): seq<nat>
    reads lists
  {
    if lists == [] then [] else lists[0].defs + AllDefs(lists[1..])
  }

  ghost function Probed(words: Heap, lists: seq<Wordlist>, code: nat): seq<nat>
    reads lists
  {
    if lists == [] then [] else lists[0].Probe(words, code) + Probed(words, lists[1..], code)
  }

  /** A probed list holds definitions only. */
  lemma ProbeOf(words: Heap, l: Wordlist, code: nat)
    requires l.Valid(words)
    ensures l.table.Length > 0 && 0 !in l.defs && 0 !in l.Probe(words, code)
    ensures forall d :: d in l.Probe(words, code) ==> d in l.defs
  {
    BucketSubset(words, l.defs, Slot(code, l.table.Length), l.table.Length);
  }

  lemma {:induction false} FirstOfBoth(words: Heap, a: seq<nat>, b: seq<nat>, si: Text)
    requires 0 !in a
    ensures First(words, a + b, si) == if First(words, a, si) != 0 then First(words, a, si) else First(words, b, si)
  {
    if a == [] {
      assert a + b == b;
    } else {
      assert (a + b)[1..] == a[1..] + b;
      FirstOfBoth(words, a[1..], b, si);
    }
  }

  /** Wordlists in the order they are searched: the top of the stack first, each with those
      it inherits from. */
  ghost function Order(search: seq<seq<Wordlist>>): seq<Wordlist> {
    if search == [] then [] else search[|search| - 1] + Order(search[..|search| - 1])
  }

  /** The definitions searched: first those of the wordlists that are pushed later, then those of a
      wordlist and those it inherits from, then those of the wordlists below. */
  lemma {:induction false} SearchOrder(below: seq<seq<Wordlist>>, chain: seq<Wordlist>, above: seq<seq<Wordlist>>)
    ensures AllDefs(Order(below + [chain] + above)) == AllDefs(Order(above)) + AllDefs(chain) + AllDefs(Order(below))
    decreases |above|
  {
    hide Order, AllDefs;
    var all := below + [chain] + above;
    var n := |all| - 1;
    OrderStep(all);
    if above == [] {
      assert all[..n] == below && all[n] == chain;
      NothingSearched();
    } else {
      var m := |above| - 1;
      OrderStep(above);
      assert all[..n] == below + [chain] + above[..m] && all[n] == above[m];
      SearchOrder(below, chain, above[..m]);
    }
  }

  lemma NothingSearched()
    ensures AllDefs(Order([])) == []
  {
  }

  lemma OrderStep(search: seq<seq<Wordlist>>)
    requires search != []
    ensures var n := |search| - 1;
            AllDefs(Order(search)) == AllDefs(search[n]) + AllDefs(Order(search[..n]))
  {
    AllDefsOfBoth(search[|search| - 1], Order(search[..|search| - 1]));
  }

  lemma {:induction false} AllDefsOfBoth(a: seq<Wordlist>, b: seq<Wordlist>)
    ensures AllDefs(a + b) == AllDefs(a) + AllDefs(b)
  {
    if a == [] {
      assert a + b == b;
    } else {
      assert (a + b)[1..] == a[1..] + b;
      AllDefsOfBoth(a[1..], b);
    }
  }

  lemma {:induction false} ProbedOfBoth(words: Heap, a: seq<Wordlist>, b: seq<Wordlist>, code: nat)
    ensures Probed(words, a + b, code) == Probed(words, a, code) + Probed(words, b, code)
  {
    if a == [] {
      assert a + b == b;
    } else {
      assert (a + b)[1..] == a[1..] + b;
      ProbedOfBoth(words, a[1..], b, code);
    }
  }

  /** Searching one bucket of each wordlist finds, for a short name, what a scan of all their
      definitions finds. */
  lemma {:induction false} ProbedSuffices(words: Heap, lists: seq<Wordlist>, si: Text)
    requires forall i :: 0 <= i < |lists| ==> lists[i].Valid(words) && AllProper(words, lists[i].defs)
    requires |si| <= NAME_MAX
    ensures First(words, Probed(words, lists, Hash(si)), si) == First(words, AllDefs(lists), si)
  {
    hide Hash, Hashed, AllProper, Bucket;
    if lists != [] {
      var l := lists[0];
      ProbeOf(words, l, Hash(si));
      ProbeSuffices(words, l, si);
      ProbedSuffices(words, lists[1..], si);
      FirstOfBoth(words, l.defs, AllDefs(lists[1..]), si);
      FirstOfBoth(words, l.Probe(words, Hash(si)), Probed(words, lists[1..], Hash(si)), si);
    }
  }

  lemma ProbeSuffices(words: Heap, l: Wordlist, si: Text)
    requires l.Valid(words) && AllProper(words, l.defs) && |si| <= NAME_MAX
    ensures First(words, l.Probe(words, Hash(si)), si) == First(words, l.defs, si)
  {
    ShortNamesFound(words, l.defs, l.table.Length, si);
  }

  lemma {:induction false} ProbedNoZero(words: Heap, lists: seq<Wordlist>, code: nat)
    requires forall i :: 0 <= i < |lists| ==> lists[i].Valid(words)
    ensures 0 !in Probed(words, lists, code)
  {
    if lists != [] {
      ProbeOf(words, lists[0], code);
      ProbedNoZero(words, lists[1..], code);
    }
  }

  lemma {:induction false} AllDefsNoZero(words: Heap, lists: seq<Wordlist>)
    requires forall i :: 0 <= i < |lists| ==> lists[i].Valid(words)
    ensures 0 !in AllDefs(lists)
  {
    if lists != [] {
      ProbeOf(words, lists[0], 0);
      AllDefsNoZero(words, lists[1..]);
    }
  }

  /** FICL_DICT */
  class Dict {
    var here: nat
    var smudge: nat
    var words: Heap
    var compile: Wordlist
    var search: seq<seq<Wordlist>>
    const lists: set<Wordlist>

    /** All wordlists are sound, and the words linked in end below `here`. */
    ghost predicate Consistent()
      reads this, lists, Tables(lists)
    {
      && here > 0 && compile in lists && (forall s <- search, l <- s :: l in lists)
      && (forall k, l :: k in lists && l in lists && k != l ==> k.table != l.table)
      && (forall l <- lists :: l.Valid(words))
      && (forall l <- lists, d <- l.defs :: d + HEADER_SIZE <= here)
    }

    /** The word under definition lies above all that are linked in. */
    ghost predicate Valid()
      reads this, lists, Tables(lists)
    {
      && Consistent()
      && (InProgress() ==> 0 < words[smudge].name <= smudge && words[smudge].name <= here
                           && |words[smudge].text| >= Min(words[smudge].nName, NAME_MAX)
                           && forall l <- lists, d <- l.defs :: d + HEADER_SIZE <= words[smudge].name)
    }

    /** Headers are what lookup relies on: no name of more than 255 characters passes for a
        short one. */
    ghost predicate Sound()
      reads this, lists
    {
      && (forall l <- lists :: AllProper(words, l.defs))
      && (InProgress() ==> Proper(words[smudge]))
    }

    predicate InProgress()
      reads this`smudge, this`words
    {
      smudge in words && Smudged(words[smudge].flags)
    }

    constructor (base: nat, compile: Wordlist, lists: set<Wordlist>)
      requires base > 0 && compile in lists
      requires forall l <- lists :: l.defs == [] && l.Valid(map[])
      requires forall k, l :: k in lists && l in lists && k != l ==> k.table != l.table
      ensures Valid() && Sound() && words == map[] && here == base && this.compile == compile && this.lists == lists
              && search == [[compile]]
    {
      here, smudge, words := base, 0, map[];
      this.compile, this.lists, search := compile, lists, [[compile]];
    }

    /** hashInsertWord */
    method HashInsertWord(h: Wordlist, w: nat)
      requires Consistent() && h in lists && w in words && 0 < words[w].name <= w && w + HEADER_SIZE <= here
      requires words[w].nName > 0 && |words[w].text| >= Min(words[w].nName, NAME_MAX)
      requires forall l <- lists, d <- l.defs :: d + HEADER_SIZE <= words[w].name
      modifies this`words, h`defs, h.table
      ensures Consistent() && h.defs == [w] + old(h.defs)
      ensures w in words && words == old(words)[w := old(words[w]).(link := words[w].link)]
    {
      hide Hashed, Bucket, Chain;
      TableSize(words, h.table[..], h.defs);
      var k := if h.table.Length == 1 then 0 else words[w].hash % h.table.Length;
      assert k == Slot(words[w].hash, h.table.Length);
      ghost var before, table := words, h.table[..];
      words := words[w := words[w].(link := h.table[k])];
      h.table[k] := w;
      h.defs := [w] + h.defs;
      assert h.table[..] == table[k := w];
      InsertKeeps(before, words, table, old(h.defs), w);
      forall l <- lists | l != h ensures l.Valid(words) {
        NewWordAgrees(before, words, l.table[..], l.defs, w);
      }
    }

    /** Makes the pending word's definition complete: dictUnsmudge.  A word without a name is
        not linked in. */
    method DictUnsmudge()
      requires Valid() && InProgress() && smudge + HEADER_SIZE <= here
      modifies this`words, compile`defs, compile.table
      ensures Valid() && !InProgress()
      ensures compile.defs == (if old(words)[smudge].nName > 0 then [smudge] else []) + old(compile.defs)
      ensures old(Sound()) ==> Sound()
      ensures smudge in words
      ensures words == old(words)[smudge := old(words)[smudge].(link := words[smudge].link,
              flags := ClearSmudge(old(words)[smudge].flags))]
    {
      hide Hashed, Smudged, ClearSmudge, Proper, AllProper;
      SmudgeBits(words[smudge].flags);
      if words[smudge].nName > 0 {
        HashInsertWord(compile, smudge);
      }
      ghost var before := words;
      var cleared := ClearSmudge(words[smudge].flags);
      words := words[smudge := words[smudge].(flags := cleared)];
      forall l <- lists ensures l.Valid(words) {
        FlagsDoNotMatter(before, words, l.table[..], l.defs, smudge, cleared);
      }
      if old(Sound()) {
        ProperKept(old(words)[smudge], words[smudge].link, cleared);
        forall l <- lists ensures AllProper(words, l.defs) {
          DefsInHeap(words, l.table[..], l.defs);
          StillProper(old(words), words, old(l.defs), l.defs, smudge);
        }
      }
    }

    /** dictAppendWord2.  The new word goes above everything, its name first; it is linked in
        at once unless the caller asks for it to stay smudged. */
    method DictAppendWord2(name: Text, code: nat, flags: bv8) returns (w: nat)
      requires Valid()
      modifies this`here, this`smudge, this`words, compile`defs, compile.table
      ensures Valid() && smudge == w && w in words && here == w + HEADER_SIZE
      ensures var at := if name == [] then RoundUp(old(here), 4) else old(here);
              at <= w && words == old(words)[w := Header(name, at, if Smudged(flags) then SetSmudge(flags)
                else flags, code, words[w].link)]
      ensures compile.defs == (if !Smudged(flags) && |name| % 256 > 0 then [w] else []) + old(compile.defs)
      ensures old(Sound()) && |name| <= 255 ==> Sound()
    {
      hide Hashed, Hash, Proper, AllProper, Smudged, SetSmudge, ClearSmudge, RoundUp;
      SmudgeBits(flags);
      w := WriteHeader(name, code, flags);
      if !Smudged(flags) {
        DictUnsmudge();
      }
    }

    /** The smudged header of a new word. */
    method WriteHeader(name: Text, code: nat, flags: bv8) returns (w: nat)
      requires Valid()
      modifies this`here, this`smudge, this`words
      ensures Valid() && InProgress() && smudge == w && here == w + HEADER_SIZE
      ensures var at := if name == [] then RoundUp(old(here), 4) else old(here);
              at <= w && words == old(words)[w := Header(name, at, SetSmudge(flags), code, words[w].link)]
      ensures old(Sound()) && |name| <= 255 ==> Sound()
    {
      hide Hashed, Hash, Proper, AllProper, Smudged, SetSmudge, RoundUp, Min;
      SmudgeBits(flags);
      var len := |name| % 256;
      var at;
      at, w := DictCopyName(name);
      smudge := w;
      var hash := HashHashCode(name);
      var junk: nat := *;
      ghost var before := words;
      words := words[w := Word(junk, hash, SetSmudge(flags), len, at, name[..Min(|name|, NAME_MAX)], code)];
      here := w + HEADER_SIZE;
      HeaderProper(name, at, SetSmudge(flags), code, junk);
      forall l <- lists ensures l.Valid(words) && (old(Sound()) ==> AllProper(words, l.defs)) {
        NewWordAgrees(before, words, l.table[..], l.defs, w);
        if old(Sound()) {
          DefsInHeap(before, l.table[..], l.defs);
          StillProper(before, words, l.defs, l.defs, w);
        }
      }
    }

    /** dictCopyName: the name's address, and the aligned address after it */
    method DictCopyName(name: Text) returns (at: nat, next: nat)
      ensures at == if name == [] then RoundUp(here, 4) else here
      ensures next == RoundUp(if name == [] then here else here + Min(|name|, NAME_MAX) + 1, 4) >= at
    {
      if |name| == 0 {
        at := RoundUp(here, 4);
        return at, at;
      }
      at := here;
      next := RoundUp(here + Min(|name|, NAME_MAX) + 1, 4);
    }

    /** dictAbortDefinition */
    method DictAbortDefinition()
      requires Valid() && smudge in words
      modifies this`here
      ensures Valid()
      ensures here == if old(InProgress()) then words[smudge].name else old(here)
      ensures old(Sound()) ==> Sound()
    {
      if Smudged(words[smudge].flags) {
        here := words[smudge].name;
      }
    }

    /** A definition that is begun and then abandoned, as when an error is thrown while
        compiling, leaves the memory to be used again and every lookup as it was. */
    method BeginAndAbort(name: Text, code: nat, flags: bv8)
      requires Valid() && Smudged(flags)
      modifies this`here, this`smudge, this`words, compile`defs, compile.table
      ensures Valid() && here == if name == [] then RoundUp(old(here), 4) else old(here)
      ensures forall l <- lists :: l.defs == old(l.defs)
      ensures forall l, si :: l in lists ==> First(words, l.defs, si) == First(old(words), old(l.defs), si)
    {
      hide Hashed, Hash, First;
      var w := DictAppendWord2(name, code, flags);
      SmudgeBits(flags);
      DictAbortDefinition();
      forall l, si | l in lists ensures First(words, l.defs, si) == First(old(words), old(l.defs), si) {
        assert old(l.Valid(words)) && l.defs == old(l.defs);
        DefsInHeap(old(words), old(l.table[..]), old(l.defs));
        forall d | d in l.defs ensures d in words && words[d] == old(words)[d] {
          assert d + HEADER_SIZE <= old(here);
        }
        FirstAgrees(old(words), words, l.defs, si);
      }
    }

    /** hashForget: every bucket's head moves down its chain past the words at or above
        `where`, which leaves exactly the definitions below it. */
    method HashForget(h: Wordlist, where: nat)
      requires Valid() && h in lists && where > 0
      modifies h`defs, h.table
      ensures Valid() && h.defs == Below(old(h.defs), where)
      ensures old(Sound()) ==> Sound()
    {
      hide Hashed, Bucket, Chain, Below, AllProper, Proper;
      TableSize(words, h.table[..], h.defs);
      var i := 0;
      ghost var t := h.table[..];
      while i < h.table.Length
        invariant 0 <= i <= h.table.Length
        invariant h.defs == old(h.defs) && Hashed(words, t, h.defs)
        invariant forall s :: 0 <= s < i ==> Chain(words, h.table[s], Below(Bucket(words, h.defs, s, |t|), where))
        invariant forall s :: i <= s < |t| ==> h.table[s] == t[s]
        invariant forall l <- lists :: l != h ==> l.Valid(words)
      {
        ChainOf(words, t, h.defs, i);
        h.table[i] := SkipAbove(h.table[i], Bucket(words, h.defs, i, |t|), where);
        i := i + 1;
      }
      BelowSubset(h.defs, where);
      ForgetKeeps(words, t, h.table[..], h.defs, where);
      if old(Sound()) {
        AllProperBelow(words, h.defs, where);
      }
      h.defs := Below(h.defs, where);
    }

    /** FORGET of a word found in wordlist `home` of the search order.  The definitions of the
        compilation wordlist at or above its name go, and `here` moves down to that name.  The
        dictionary is in order again if and only if every word still linked in ends below it
        and no definition is in progress; it is not if the word was in another wordlist than
        the compilation wordlist, where it stays linked in. */
    method Forget(w: nat, ghost home: Wordlist)
      requires Valid() && w in words && home in lists && w in home.defs
      modifies this`here, compile`defs, compile.table
      ensures here == words[w].name && compile.defs == Below(old(compile.defs), here) && compile.Valid(words)
      ensures Valid() <==> !InProgress() && forall l <- lists, d <- l.defs :: d + HEADER_SIZE <= here
      ensures if w in old(compile.defs) then forall d <- compile.defs :: d + HEADER_SIZE <= here
              else w in home.defs && !Valid()
      ensures old(Sound()) ==> Sound()
    {
      hide Hashed, Below, Proper, AllProper;
      var where := words[w].name;
      NameBelow(words, home.table[..], home.defs, w);
      if w in compile.defs {
        BelowEnds(words, compile.table[..], compile.defs, w);
      }
      HashForget(compile, where);
      here := where;
    }

    /** A word that is defined and then forgotten leaves the dictionary as it was: the same
        free memory, the same definitions, and every lookup as before. */
    method DefineAndForget(name: Text, code: nat, flags: bv8)
      requires Valid() && 0 < |name| % 256 && !Smudged(flags)
      modifies this`here, this`smudge, this`words, compile`defs, compile.table
      ensures Valid() && here == old(here)
      ensures forall l <- lists :: l.defs == old(l.defs)
      ensures forall l, si :: l in lists ==> First(words, l.defs, si) == First(old(words), old(l.defs), si)
    {
      hide Hashed, Hash, First, Smudged, SetSmudge, Below;
      var w := DictAppendWord2(name, code, flags);
      assert words[w].name == old(here);
      BelowOld([w], old(compile.defs), old(here));
      assert compile.defs[0] == w;
      Forget(w, compile);
      forall l, si | l in lists ensures First(words, l.defs, si) == First(old(words), old(l.defs), si) {
        assert old(l.Valid(words)) && l.defs == old(l.defs);
        DefsInHeap(old(words), old(l.table[..]), old(l.defs));
        forall d | d in l.defs ensures d in words && words[d] == old(words)[d] {
          assert d + HEADER_SIZE <= old(here);
        }
        FirstAgrees(old(words), words, l.defs, si);
      }
    }

    /** The inner loop of hashForget */
    method SkipAbove(head: nat, ghost list: seq<nat>, where: nat) returns (w: nat)
      requires Chain(words, head, list) && Descending(words, list) && where > 0
      ensures Chain(words, w, Below(list, where))
    {
      w := head;
      ghost var rest := list;
      while w >= where
        invariant Chain(words, w, rest) && Below(rest, where) == Below(list, where) && Descending(words, rest)
        decreases |rest|
      {
        DescendingTail(words, rest);
        w := words[w].link;
        rest := rest[1..];
      }
      if rest != [] {
        BelowDescending(words, rest, where);
      }
    }

    /** The inner loop of hashLookup, down the chain of one bucket */
    method ScanChain(head: nat, ghost list: seq<nat>, si: Text) returns (w: nat)
      requires Chain(words, head, list)
      requires forall d :: d in list ==> d in words && |words[d].text| >= Min(words[d].nName, NAME_MAX)
      ensures w == First(words, list, si)
    {
      w := head;
      ghost var rest := list;
      while w != 0
        invariant Chain(words, w, rest) && First(words, rest, si) == First(words, list, si)
        invariant forall d :: d in rest ==> d in list
        decreases |rest|
      {
        assert rest[0] in list;
        if words[w].nName == |si| {
          var diff := Strincmp(si, words[w].text, Min(|si|, NAME_MAX));
          if diff == 0 {
            return;
          }
        }
        w := words[w].link;
        rest := rest[1..];
      }
    }

    /** hashLookup over a wordlist and those it inherits from */
    method HashLookup(chain: seq<Wordlist>, si: Text, code: nat) returns (w: nat)
      requires forall i :: 0 <= i < |chain| ==> chain[i].Valid(words)
      ensures w == First(words, Probed(words, chain, code), si)
    {
      hide Hashed, Bucket, Chain, Matches, First, Wordlist.Probe;
      NothingProbed(words, code, si);
      var i := 0;
      while i < |chain|
        invariant 0 <= i <= |chain|
        invariant First(words, Probed(words, chain, code), si) == First(words, Probed(words, chain[i..], code), si)
      {
        var l := chain[i];
        ProbeOf(words, l, code);
        var k := if l.table.Length > 1 then code % l.table.Length else 0;
        assert k == Slot(code, l.table.Length);
        assert chain[i..][1..] == chain[i + 1..];
        FirstOfBoth(words, l.Probe(words, code), Probed(words, chain[i + 1..], code), si);
        ProbeChain(words, l, code);
        w := ScanChain(l.table[k], l.Probe(words, code), si);
        if w != 0 {
          return;
        }
        i := i + 1;
      }
      w := 0;
    }

    /** dictLookup.  For names of at most 31 characters it finds what a scan of all
        definitions in search order, newest first in each wordlist, finds. */
    method DictLookup(si: Text) returns (w: nat)
      requires Consistent()
      ensures w == First(words, Probed(words, Order(search), Hash(si)), si)
      ensures |si| <= NAME_MAX && Sound() ==> w == First(words, AllDefs(Order(search)), si)
      ensures |si| <= NAME_MAX && Sound() && 0 !in si ==> FirstToSpell(words, AllDefs(Order(search)), si, w)
    {
      hide Hash, Hashed, AllProper, Chain, Matches, First, Probed;
      var code := HashHashCode(si);
      w := 0;
      var i := |search| - 1;
      OrderListed(search, lists);
      assert search[..|search|] == search;
      NothingProbed(words, code, si);
      while i >= 0 && w == 0
        invariant -1 <= i < |search|
        invariant First(words, Probed(words, Order(search), code), si)
               == if w != 0 then w else First(words, Probed(words, Order(search[..i + 1]), code), si)
      {
        ghost var earlier := Order(search[..i]);
        assert search[..i + 1][..i] == search[..i];
        assert Order(search[..i + 1]) == search[i] + earlier;
        assert search[i] in search && forall j :: 0 <= j < |search[i]| ==> search[i][j] in search[i];
        ProbedOfBoth(words, search[i], earlier, code);
        ProbedNoZero(words, search[i], code);
        FirstOfBoth(words, Probed(words, search[i], code), Probed(words, earlier, code), si);
        assert Probed(words, Order(search[..i + 1]), code) == Probed(words, search[i], code)
          + Probed(words, earlier, code);
        ghost var left, all := Probed(words, earlier, code), Probed(words, Order(search), code);
        assert First(words, all, si) == First(words, Probed(words, Order(search[..i + 1]), code), si);
        w := HashLookup(search[i], si, code);
        assert Probed(words, earlier, code) == left && Probed(words, Order(search), code) == all;
        assert w != 0 ==> First(words, all, si) == w;
        assert w == 0 ==> First(words, all, si) == First(words, left, si);
        i := i - 1;
      }
      if |si| <= NAME_MAX && Sound() {
        assert forall j :: 0 <= j < |Order(search)| ==> Order(search)[j] in Order(search);
        ProbedSuffices(words, Order(search), si);
        if 0 !in si {
          AllDefsNoZero(words, Order(search));
          FirstExact(words, AllDefs(Order(search)), si);
        }
      }
    }

    /** A word defined in the wordlist on top of the search order is found at once, however its name
        is capitalised. */
    method DefineAndFind(name: Text, code: nat, flags: bv8, si: Text) returns (w: nat, found: nat)
      requires Valid() && Sound() && 0 < |name| <= NAME_MAX && 0 !in name && !Smudged(flags)
      requires search != [] && search[|search| - 1] != [] && search[|search| - 1][0] == compile
      requires |si| == |name| && forall k :: 0 <= k < |si| ==> Alike(name[k], si[k])
      modifies this`here, this`smudge, this`words, compile`defs, compile.table
      ensures Valid() && found == w && w in words && words[w].code == code && words[w].text == name
      ensures compile.defs == [w] + old(compile.defs)
    {
      hide Hashed, Hash, First, Smudged, SetSmudge, AllProper, Proper, Spells, FirstToSpell, Order, AllDefs, RoundUp;
      w := DictAppendWord2(name, code, flags);
      assert name[..|name|] == name;
      HeaderSpells(words[w], name, si);
      found := DictLookup(si);
      TopFound(words, search, si, found);
    }
  }

  lemma HeaderSpells(w: Word, name: Text, si: Text)
    requires w.nName == |name| && w.text == name && 0 !in name
    requires |si| == |name| && forall k :: 0 <= k < |si| ==> Alike(name[k], si[k])
    ensures Spells(w, si) && 0 !in si
  {
    forall k | 0 <= k < |si| ensures si[k] != 0 {
      assert name[k] in name && Alike(name[k], si[k]);
    }
  }

  /** If the newest word of the wordlist on top spells the name it is the one found. */
  lemma TopFound(words: Heap, search: seq<seq<Wordlist>>, si: Text, found: nat)
    requires search != [] && search[|search| - 1] != [] && search[|search| - 1][0].defs != []
    requires var w := search[|search| - 1][0].defs[0]; w in words && w != 0 && Spells(words[w], si)
    requires FirstToSpell(words, AllDefs(Order(search)), si, found)
    ensures found == search[|search| - 1][0].defs[0]
  {
    hide Spells;
    var chain, below := search[|search| - 1], search[..|search| - 1];
    AllDefsOfBoth(chain, Order(below));
    var list := AllDefs(Order(search));
    assert AllDefs(chain) == chain[0].defs + AllDefs(chain[1..]);
    assert list[0] == chain[0].defs[0];
    assert forall k :: 0 < k <= |list| ==> list[0] in list[..k];
  }

  lemma ProbeChain(words: Heap, l: Wordlist, code: nat)
    requires l.Valid(words)
    ensures Chain(words, l.table[Slot(code, l.table.Length)], l.Probe(words, code))
    ensures forall d :: d in l.defs ==> d in words && |words[d].text| >= Min(words[d].nName, NAME_MAX)
  {
  }

  /** A wordlist that keeps its words, but for a proper `w`, and perhaps has `w` linked in. */
  lemma StillProper(words: Heap, words': Heap, defs: seq<nat>, defs': seq<nat>, w: nat)
    requires AllProper(words, defs) && w in words' && (w in defs' ==> Proper(words'[w]))
    requires forall d :: d in defs' && d != w ==> d in defs && d in words && d in words' && words'[d] == words[d]
    ensures AllProper(words', defs')
  {
    hide Proper;
  }

  lemma NameBelow(words: Heap, table: seq<nat>, defs: seq<nat>, w: nat)
    requires Hashed(words, table, defs) && w in words && w in defs
    ensures 0 < words[w].name <= w
  {
  }

  /** The words below the name of `w` end below it. */
  lemma BelowEnds(words: Heap, table: seq<nat>, defs: seq<nat>, w: nat)
    requires Hashed(words, table, defs) && w in words && w in defs
    ensures 0 < words[w].name <= w && forall d :: d in Below(defs, words[w].name) ==> d + HEADER_SIZE <= words[w].name
  {
    BelowSubset(defs, words[w].name);
    var i :| 0 <= i < |defs| && defs[i] == w;
    forall d | d in defs && d < words[w].name ensures d + HEADER_SIZE <= words[w].name {
      var j :| 0 <= j < |defs| && defs[j] == d;
      assert i < j;
    }
  }

  lemma TableSize(words: Heap, table: seq<nat>, defs: seq<nat>)
    requires Hashed(words, table, defs)
    ensures |table| > 0
  {
  }

  lemma ChainOf(words: Heap, table: seq<nat>, defs: seq<nat>, s: nat)
    requires Hashed(words, table, defs) && s < |table|
    ensures Chain(words, table[s], Bucket(words, defs, s, |table|))
            && Descending(words, Bucket(words, defs, s, |table|))
  {
    BucketDescending(words, defs, s, |table|);
  }

  lemma DefsInHeap(words: Heap, table: seq<nat>, defs: seq<nat>)
    requires Hashed(words, table, defs)
    ensures forall d :: d in defs ==> d in words && d > 0
  {
  }

  /** A word above all that are linked in is not one of them. */
  lemma NewWordAgrees(words: Heap, words': Heap, table: seq<nat>, defs: seq<nat>, w: nat)
    requires Hashed(words, table, defs) && w !in defs
    requires forall d :: d in words && d != w ==> d in words' && words'[d] == words[d]
    ensures Hashed(words', table, defs)
  {
    DefsInHeap(words, table, defs);
    HashedAgrees(words, words', table, defs);
  }

  ghost function Tables(lists: set<Wordlist>): set<object> {
    set l | l in lists :: l.table
  }

  lemma NothingProbed(words: Heap, code: nat, si: Text)
    ensures First(words, Probed(words, [], code), si) == 0
  {
  }

  lemma {:induction false} OrderListed(search: seq<seq<Wordlist>>, lists: set<Wordlist>)
    requires forall s <- search, l <- s :: l in lists
    ensures forall l <- Order(search) :: l in lists
  {
    if search != [] {
      OrderListed(search[..|search| - 1], lists);
    }
  }

  /** A dictionary of two wordlists and a word in the first of them. */
  method OneWord() returns (d: Dict, forth: Wordlist, other: Wordlist, x: nat)
    ensures fresh(d) && fresh(forth) && fresh(other) && forth != other && d.lists == {forth, other}
            && fresh(forth.table) && fresh(other.table)
    ensures d.Valid() && !d.InProgress() && d.compile == forth && forth.defs == [x] && other.defs == []
    ensures x in d.words && d.words[x].name == 16 && d.here > x >= 16
  {
    hide Hashed, Hash, Proper, AllProper, RoundUp, Smudged;
    forth := new Wordlist(1);
    other := new Wordlist(1);
    d := new Dict(16, forth, {forth, other});
    NotSmudged();
    x := d.DictAppendWord2([0x78], 0, 0);
  }

  /** A word of one wordlist forgotten after a word of another was defined: the later word is
      still linked in, above the memory in use. */
  method ForgottenBelow() returns (d: Dict, other: Wordlist, y: nat)
    ensures other in d.lists && y in other.defs && y > d.here && !d.Valid()
  {
    hide Hashed, Hash, Proper, AllProper, RoundUp, Below, Smudged;
    var forth, x;
    d, forth, other, x := OneWord();
    d.compile := other;
    NotSmudged();
    y := d.DictAppendWord2([0x79], 0, 0);
    assert other.defs == [y] && forth.defs == [x] && y > x;
    d.compile := forth;
    d.Forget(x, forth);
  }

  /** A word forgotten while another wordlist is compiled into: it stays linked in, above the
      memory in use. */
  method ForgottenElsewhere() returns (d: Dict, forth: Wordlist, x: nat)
    ensures forth in d.lists && x in forth.defs && x >= d.here && !d.Valid()
  {
    hide Hashed, Hash, Proper, AllProper, RoundUp, Below, Smudged;
    var other;
    d, forth, other, x := OneWord();
    d.compile := other;
    d.Forget(x, forth);
  }

  lemma NotSmudged()
    ensures !Smudged(0)
  {
  }
}
