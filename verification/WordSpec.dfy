/**
 Names, hash codes and chains of the Forth dictionary: what boot/ficl/dict.c keeps
 in memory, as values.
 */
module WordSpec {

  type Text = seq<bv8>

  /** Characters of a name that are stored and compared. */
  const NAME_MAX := 31
  /** sizeof(FICL_WORD) up to its parameters */
  const HEADER_SIZE := 16

  /** A definition is in progress. */
  const FW_SMUDGE: bv8 := 4

  predicate Smudged(flags: bv8) { flags & FW_SMUDGE != 0 }
  function SetSmudge(flags: bv8): bv8 { flags | FW_SMUDGE }
  function ClearSmudge(flags: bv8): bv8 { flags & !FW_SMUDGE }

  lemma SmudgeBits(flags: bv8)
    ensures Smudged(SetSmudge(flags)) && !Smudged(ClearSmudge(flags))
    ensures !Smudged(flags) ==> ClearSmudge(SetSmudge(flags)) == flags
  {
  }

  /** A word header; `text` is what `name` points to, up to its NUL. */
  datatype Word = Word(link: nat, hash: nat, flags: bv8, nName: nat, name: nat, text: Text, code: nat)

  type Heap = map<nat, Word>

  function Min(a: nat, b: nat): (m: nat)
    ensures m <= a && m <= b && m in {a, b}
  {
    if a < b then a else b
  }

  // ----- Names -----

  /** tolower, on ASCII */
  function Fold(c: bv8): bv8 {
    if 0x41 <= c <= 0x5a then c + 0x20 else c
  }

  /** Names of one length that strincmp finds equal: alike but for case, up to any NUL. */
  predicate SameName(a: Text, b: Text)
    requires |a| == |b|
  {
    a == [] || (Fold(a[0]) == Fold(b[0]) && (a[0] == 0 || SameName(a[1..], b[1..])))
  }

  /** Without NUL that is equality of every character, case folded. */
  lemma {:induction false} SameNameIsFoldedEquality(a: Text, b: Text)
    requires |a| == |b| && 0 !in a
    ensures SameName(a, b) <==> forall k :: 0 <= k < |a| ==> Fold(a[k]) == Fold(b[k])
  {
    if a != [] {
      SameNameIsFoldedEquality(a[1..], b[1..]);
      assert forall k :: 1 <= k < |a| ==> a[k] == a[1..][k - 1] && b[k] == b[1..][k - 1];
    }
  }

  /** Characters compare equal exactly when they are the same or one letter in its two cases. */
  lemma FoldedAlike(c: bv8, d: bv8)
    ensures Fold(c) == Fold(d) <==> Alike(d, c)
  {
  }

  // ----- The hash code -----

  /** One step of hashPJW in 16 bits, for a folded character. */
  function HashStep(code: bv16, folded: bv8): bv16 {
    var code' := (code << 4) + (folded as bv16);
    var shift := code' & 0xf000;
    if shift != 0 then (code' ^ (shift >> 8)) ^ shift else code'
  }

  function HashFrom(code: bv16, s: Text): bv16
    decreases |s|
  {
    if s == [] || s[0] == 0 then code else HashFrom(HashStep(code, Fold(s[0])), s[1..])
  }

  /** The empty name hashes to 0, as (UNS16) of its count. */
  function Hash(s: Text): (h: nat)
    ensures h < 0x1_0000
  {
    HashFrom((|s| % 0x1_0000) as bv16, s) as nat
  }

  lemma {:induction false} HashFromFolds(code: bv16, a: Text, b: Text)
    requires |a| == |b| && SameName(a, b)
    ensures HashFrom(code, a) == HashFrom(code, b)
    decreases |a|
  {
    hide HashStep, Fold;
    if a != [] {
      ZeroFolds(a[0]);
      ZeroFolds(b[0]);
      if a[0] != 0 {
        HashFromFolds(HashStep(code, Fold(a[0])), a[1..], b[1..]);
      }
    }
  }

  lemma ZeroFolds(c: bv8)
    ensures Fold(c) == 0 <==> c == 0
  {
  }

  /** One character of a known hash code. */
  lemma HashNext(s: Text, k: nat, code: bv16, code': bv16)
    requires k < |s| && s[k] != 0 && HashStep(code, Fold(s[k])) == code'
    ensures HashFrom(code, s[k..]) == HashFrom(code', s[k + 1..])
    ensures HashFrom(code', []) == code'
  {
    hide HashStep, Fold;
    assert s[k..][1..] == s[k + 1..];
  }

  /** The hash code of DUP, the last step of which folds bits back. */
  lemma HashOfDup()
    ensures Hash([0x44, 0x55, 0x50]) == 0xb50
  {
    hide HashFrom;
    var s: Text := [0x44, 0x55, 0x50];
    assert s[0..] == s && s[3..] == [];
    HashNext(s, 0, 0x0003, 0x0094);
    HashNext(s, 1, 0x0094, 0x09b5);
    HashNext(s, 2, 0x09b5, 0x0b50);
  }

  /** Names that compare equal hash alike. */
  lemma HashFolds(a: Text, b: Text)
    requires |a| == |b| && SameName(a, b)
    ensures Hash(a) == Hash(b)
  {
    HashFromFolds((|a| % 0x1_0000) as bv16, a, b);
  }

  /** The low four bits of the hash code are those of the last character. */
  lemma StepLow(code: bv16, folded: bv8)
    ensures HashStep(code, folded) & 0xf == (folded as bv16) & 0xf
  {
  }

  function LowBits(c: bv8): bv16 {
    (Fold(c) as bv16) & 0xf
  }

  lemma {:induction false} HashFromLow(code: bv16, s: Text)
    requires s != [] && 0 !in s
    ensures HashFrom(code, s) & 0xf == LowBits(s[|s| - 1])
    decreases |s|
  {
    hide HashStep, Fold;
    assert s[0] in s;
    var code' := HashStep(code, Fold(s[0]));
    if |s| == 1 {
      assert s[1..] == [];
      StepLow(code, Fold(s[0]));
    } else {
      assert 0 !in s[1..] && s[1..][|s| - 2] == s[|s| - 1];
      HashFromLow(code', s[1..]);
    }
  }

  lemma SameCode(x: bv16, y: bv16)
    requires x as nat == y as nat
    ensures x == y
  {
    var m, n := x as nat, y as nat;
    assert m as bv16 == x && n as bv16 == y;
  }

  /** Names whose last characters differ in their low bits have different hash codes. */
  lemma LastCharacterShows(a: Text, b: Text)
    requires a != [] && b != [] && 0 !in a && 0 !in b && LowBits(a[|a| - 1]) != LowBits(b[|b| - 1])
    ensures Hash(a) != Hash(b)
  {
    hide HashFrom, LowBits;
    var ca, cb := HashFrom((|a| % 0x1_0000) as bv16, a), HashFrom((|b| % 0x1_0000) as bv16, b);
    HashFromLow((|a| % 0x1_0000) as bv16, a);
    HashFromLow((|b| % 0x1_0000) as bv16, b);
    if Hash(a) == Hash(b) {
      SameCode(ca, cb);
      assert false;
    }
  }

  // ----- Lookup -----

  /** hashLookup takes word `w` for the name `si`. */
  predicate Matches(w: Word, si: Text) {
    var n := Min(|si|, NAME_MAX);
    w.nName == |si| && |w.text| >= n && SameName(si[..n], w.text[..n])
  }

  /** The first word of a list to match, 0 if none does. */
  ghost function First(words: Heap, list: seq<nat>, si: Text): nat {
    if list == [] then 0
    else if list[0] in words && Matches(words[list[0]], si) then list[0]
    else First(words, list[1..], si)
  }

  /** One character, or one letter in its two cases. */
  predicate Alike(c: bv8, d: bv8) {
    c == d || (0x41 <= c <= 0x5a && d == c + 0x20) || (0x41 <= d <= 0x5a && c == d + 0x20)
  }

  /** Word `w` has the length of `si`, and its characters up to the 31st, but for case. */
  predicate Spells(w: Word, si: Text) {
    && w.nName == |si| && (|w.text| >= |si| || |w.text| >= 31)
    && forall k :: 0 <= k < |si| && k < 31 ==> Alike(w.text[k], si[k])
  }

  /** Word `w` is the first of `list` to spell `si`, or it is 0 and none does. */
  ghost predicate FirstToSpell(words: Heap, list: seq<nat>, si: Text, w: nat) {
    if w == 0 then forall d <- list :: d in words ==> !Spells(words[d], si)
    else exists k :: 0 <= k < |list| && list[k] == w && w in words && Spells(words[w], si)
                     && forall d <- list[..k] :: d in words ==> !Spells(words[d], si)
  }

  lemma MatchesIsSpells(w: Word, si: Text)
    requires 0 !in si
    ensures Matches(w, si) <==> Spells(w, si)
  {
    hide Fold;
    var n := Min(|si|, NAME_MAX);
    if w.nName == |si| && |w.text| >= n {
      SameNameIsFoldedEquality(si[..n], w.text[..n]);
      forall k | 0 <= k < n ensures Fold(si[k]) == Fold(w.text[k]) <==> Alike(w.text[k], si[k]) {
        FoldedAlike(si[k], w.text[k]);
      }
      assert forall k :: 0 <= k < n ==> si[..n][k] == si[k] && w.text[..n][k] == w.text[k];
    }
  }

  /** A scan ends at the first word that spells the name. */
  lemma {:induction false} FirstExact(words: Heap, list: seq<nat>, si: Text)
    requires 0 !in list && 0 !in si
    ensures FirstToSpell(words, list, si, First(words, list, si))
  {
    hide Matches, Spells;
    if list != [] {
      var w := First(words, list, si);
      if list[0] in words {
        MatchesIsSpells(words[list[0]], si);
      }
      if list[0] in words && Spells(words[list[0]], si) {
        assert list[0] == w && list[..0] == [];
      } else {
        FirstExact(words, list[1..], si);
        assert forall d <- list :: d == list[0] || d in list[1..];
        if w != 0 {
          var k :| 0 <= k < |list[1..]| && list[1..][k] == w && w in words && Spells(words[w], si)
            && forall d <- list[1..][..k] :: d in words ==> !Spells(words[d], si);
          assert list[..k + 1] == [list[0]] + list[1..][..k] && list[k + 1] == w;
        }
      }
    }
  }

  /** The bucket for a hash code. */
  function Slot(code: nat, size: nat): (s: nat)
    requires size > 0
    ensures s < size
  {
    code % size
  }

  /** The words of `defs` that hash into bucket `s` of `size`. */
  ghost function Bucket(words: Heap, defs: seq<nat>, s: nat, size: nat): seq<nat>
    requires size > 0
  {
    if defs == [] then []
    else
      var rest := Bucket(words, defs[1..], s, size);
      if defs[0] in words && Slot(words[defs[0]].hash, size) == s then [defs[0]] + rest else rest
  }

  lemma {:induction false} FirstIn(words: Heap, list: seq<nat>, si: Text)
    ensures var w := First(words, list, si); w == 0 || (w in list && w in words && Matches(words[w], si))
  {
    if list != [] {
      FirstIn(words, list[1..], si);
    }
  }

  lemma {:induction false} BucketSubset(words: Heap, defs: seq<nat>, s: nat, size: nat)
    requires size > 0
    ensures forall d :: d in Bucket(words, defs, s, size) <==> d in defs && d in words && Slot(words[d].hash, size) == s
  {
    if defs != [] {
      BucketSubset(words, defs[1..], s, size);
      assert forall d :: d in defs <==> d == defs[0] || d in defs[1..];
    }
  }

  /** For every name, whatever its length: looking in one bucket finds what a scan of all
      definitions, newest first, finds, exactly when the scan fails or ends in that bucket. */
  lemma {:induction false} BucketExact(words: Heap, defs: seq<nat>, s: nat, size: nat, si: Text)
    requires size > 0 && 0 !in defs
    ensures First(words, Bucket(words, defs, s, size), si) == First(words, defs, si)
            <==> var w := First(words, defs, si); w == 0 || (w in words && Slot(words[w].hash, size) == s)
  {
    if defs != [] {
      var w := First(words, defs, si);
      var bucket := Bucket(words, defs, s, size);
      BucketExact(words, defs[1..], s, size, si);
      BucketSubset(words, defs, s, size);
      FirstIn(words, bucket, si);
      FirstIn(words, defs, si);
    }
  }

  /** Every table, whatever its size, gives what the scan gives, if and only if the newest
      match has the hash code of the name looked up, or there is none. */
  lemma LookupExact(words: Heap, defs: seq<nat>, si: Text)
    requires 0 !in defs && forall d :: d in defs && d in words ==> words[d].hash < 0x1_0000
    ensures (forall size: nat :: size > 0 ==>
               First(words, Bucket(words, defs, Slot(Hash(si), size), size), si) == First(words, defs, si))
            <==> var w := First(words, defs, si); w == 0 || (w in words && words[w].hash == Hash(si))
  {
    hide Hash;
    FirstIn(words, defs, si);
    forall size: nat | size > 0 {
      BucketExact(words, defs, Slot(Hash(si), size), size, si);
    }
    var w := First(words, defs, si);
    BucketExact(words, defs, Slot(Hash(si), 0x1_0000), 0x1_0000, si);
    assert w != 0 ==> words[w].hash % 0x1_0000 == words[w].hash;
    assert Hash(si) % 0x1_0000 == Hash(si);
  }

  /** The header dictAppendWord2 writes. */
  function Header(name: Text, at: nat, flags: bv8, code: nat, link: nat): Word {
    Word(link, Hash(name), flags, |name| % 256, at, name[..Min(|name|, NAME_MAX)], code)
  }

  /** A word defined under `name`, alone in a dictionary. */
  function Alone(name: Text): Heap {
    map[16 := Header(name, 8, 0, 0, 0)]
  }

  /** A lookup of `si` in that dictionary with a table of `size` buckets. */
  ghost function LookupAlone(name: Text, size: nat, si: Text): nat
    requires size > 0
  {
    First(Alone(name), Bucket(Alone(name), [16], Slot(Hash(si), size), size), si)
  }

  lemma AloneFound(name: Text, size: nat, si: Text)
    requires size > 0 && Matches(Alone(name)[16], si)
    ensures LookupAlone(name, size, si) == if Slot(Hash(name), size) == Slot(Hash(si), size) then 16 else 0
  {
    hide Hash, Matches;
    var defs: seq<nat> := [16];
    assert defs[1..] == [];
    var rest := Bucket(Alone(name), defs[1..], Slot(Hash(si), size), size);
    assert rest == [] && Alone(name)[defs[0]].hash == Hash(name);
    assert First(Alone(name), defs, si) == 16;
  }

  /** Over 31 characters it does make a difference: a name that differs from the word's only
      in a later character is found with one bucket and missed with 65536. */
  lemma LongNameMissed(prefix: Text, b: bv8, c: bv8)
    requires NAME_MAX <= |prefix| < 255 && 0 !in prefix && b != 0 && c != 0 && LowBits(b) != LowBits(c)
    ensures LookupAlone(prefix + [b], 1, prefix + [c]) == 16 && LookupAlone(prefix + [b], 0x1_0000, prefix + [c]) == 0
  {
    hide Hash, LowBits;
    var name, si := prefix + [b], prefix + [c];
    LastCharacterShows(name, si);
    assert name[..NAME_MAX] == si[..NAME_MAX] == prefix[..NAME_MAX];
    assert name[..NAME_MAX][..NAME_MAX] == name[..NAME_MAX];
    SameNameReflexive(prefix[..NAME_MAX]);
    AloneFound(name, 1, si);
    AloneFound(name, 0x1_0000, si);
  }

  /** Such names: 31 times "a", and then "b" where "c" is looked up. */
  lemma LongNameExample()
    ensures var prefix: Text := seq(31, _ => 0x61);
            LookupAlone(prefix + [0x62], 1, prefix + [0x63]) == 16
              && LookupAlone(prefix + [0x62], 0x1_0000, prefix + [0x63]) == 0
  {
    assert LowBits(0x62) == 2 && LowBits(0x63) == 3;
    LongNameMissed(seq(31, _ => 0x61), 0x62, 0x63);
  }

  lemma {:induction false} SameNameReflexive(a: Text)
    ensures SameName(a, a)
  {
    if a != [] {
      SameNameReflexive(a[1..]);
    }
  }

  /** The header tells the name's length and hash code, if the name is short. */
  predicate Proper(w: Word) {
    w.nName <= NAME_MAX ==> |w.text| == w.nName && w.hash == Hash(w.text)
  }

  ghost predicate AllProper(words: Heap, defs: seq<nat>) {
    forall d :: d in defs && d in words ==> Proper(words[d])
  }

  /** Which names get such a header: all of at most 255 characters; of the longer ones, whose
      length is stored in 8 bits, those that do not pass for short ones. */
  lemma HeaderProper(name: Text, at: nat, flags: bv8, code: nat, link: nat)
    ensures Proper(Header(name, at, flags, code, link))
            <==> (|| |name| <= 255
                  || |name| % 256 > NAME_MAX
                  || (|name| % 256 == NAME_MAX && Hash(name) == Hash(name[..NAME_MAX])))
  {
    hide Hash;
    assert |name| <= NAME_MAX ==> name[..|name|] == name;
  }

  /** A longer name does pass for a short one: looked up by its first characters, as many as
      the stored length says, it is found with one bucket and missed with 65536. */
  lemma OverlongNameMissed(name: Text)
    requires |name| > 255 && 0 < |name| % 256 <= NAME_MAX && 0 !in name
    requires LowBits(name[|name| % 256 - 1]) != LowBits(name[|name| - 1])
    ensures var si := name[..|name| % 256]; LookupAlone(name, 1, si) == 16 && LookupAlone(name, 0x1_0000, si) == 0
  {
    hide Hash, LowBits;
    var si := name[..|name| % 256];
    LastCharacterShows(name, si);
    assert name[..NAME_MAX][..|si|] == si && si[..|si|] == si;
    SameNameReflexive(si);
    AloneFound(name, 1, si);
    AloneFound(name, 0x1_0000, si);
  }

  /** Such a name: 257 characters, "a" and 256 times "b", looked up as "a". */
  lemma OverlongNameExample()
    ensures var name: Text := [0x61] + seq(256, _ => 0x62);
            LookupAlone(name, 1, [0x61]) == 16 && LookupAlone(name, 0x1_0000, [0x61]) == 0
  {
    var name: Text := [0x61] + seq(256, _ => 0x62);
    assert LowBits(0x61) == 1 && LowBits(0x62) == 2;
    assert name[..1] == [0x61] && name[256] == 0x62;
    OverlongNameMissed(name);
  }

  lemma AllProperBelow(words: Heap, defs: seq<nat>, mark: nat)
    requires AllProper(words, defs)
    ensures AllProper(words, Below(defs, mark))
  {
    hide Proper;
    BelowSubset(defs, mark);
  }

  /** Links and flags are no part of what makes a header proper. */
  lemma ProperKept(w: Word, link: nat, flags: bv8)
    requires Proper(w)
    ensures Proper(w.(link := link)) && Proper(w.(link := link, flags := flags))
  {
    hide Hash;
  }

  /** For names of at most 31 characters the number of buckets makes no difference. */
  lemma ShortNamesFound(words: Heap, defs: seq<nat>, size: nat, si: Text)
    requires size > 0 && 0 !in defs && AllProper(words, defs) && |si| <= NAME_MAX
    ensures First(words, Bucket(words, defs, Slot(Hash(si), size), size), si) == First(words, defs, si)
  {
    BucketExact(words, defs, Slot(Hash(si), size), size, si);
    FirstIn(words, defs, si);
    var w := First(words, defs, si);
    if w != 0 {
      assert Proper(words[w]);
      assert si[..|si|] == si && words[w].text[..|si|] == words[w].text;
      HashFolds(si, words[w].text);
    }
  }

  // ----- Chains -----

  /** Following the links from `head` gives `list`. */
  ghost predicate Chain(words: Heap, head: nat, list: seq<nat>)
    decreases |list|
  {
    if list == [] then head == 0
    else head == list[0] && head != 0 && head in words && Chain(words, words[head].link, list[1..])
  }

  /** Each word's header ends below the name of every later one. */
  ghost predicate Descending(words: Heap, defs: seq<nat>) {
    && (forall i :: 0 <= i < |defs| ==> defs[i] in words && 0 < words[defs[i]].name <= defs[i])
    && (forall i, j :: 0 <= i < j < |defs| ==> defs[j] + HEADER_SIZE <= words[defs[i]].name)
  }

  lemma DescendingTail(words: Heap, defs: seq<nat>)
    requires Descending(words, defs) && defs != []
    ensures Descending(words, defs[1..])
    ensures forall d :: d in defs[1..] ==> d in words && 0 < d && d + HEADER_SIZE <= words[defs[0]].name <= defs[0]
  {
    forall i | 0 <= i < |defs| - 1
      ensures defs[1..][i] == defs[i + 1] && defs[i + 1] in words
      ensures 0 < words[defs[i + 1]].name <= defs[i + 1] && defs[i + 1] + HEADER_SIZE <= words[defs[0]].name
    {
    }
  }

  lemma DescendingPush(words: Heap, defs: seq<nat>, w: nat)
    requires Descending(words, defs) && w in words && 0 < words[w].name <= w
    requires forall d :: d in defs ==> d + HEADER_SIZE <= words[w].name
    ensures Descending(words, [w] + defs)
  {
    forall i, j | 0 <= i < j < |defs| + 1 ensures ([w] + defs)[j] + HEADER_SIZE <= words[([w] + defs)[i]].name {
      assert ([w] + defs)[j] == defs[j - 1];
      assert defs[j - 1] in defs;
      if i > 0 {
        assert ([w] + defs)[i] == defs[i - 1];
      }
    }
  }

  /** A hash table over the definitions `defs`, newest first. */
  ghost predicate Hashed(words: Heap, table: seq<nat>, defs: seq<nat>) {
    && |table| > 0 && Descending(words, defs)
    && (forall d :: d in defs ==> words[d].nName > 0 && |words[d].text| >= Min(words[d].nName, NAME_MAX))
    && forall s :: 0 <= s < |table| ==> Chain(words, table[s], Bucket(words, defs, s, |table|))
  }

  lemma {:induction false} BucketAgrees(words: Heap, words': Heap, defs: seq<nat>, s: nat, size: nat)
    requires size > 0 && forall d :: d in defs ==> d in words && d in words' && words[d] == words'[d]
    ensures Bucket(words', defs, s, size) == Bucket(words, defs, s, size)
  {
    if defs != [] {
      BucketAgrees(words, words', defs[1..], s, size);
    }
  }

  lemma {:induction false} ChainAgrees(words: Heap, words': Heap, head: nat, list: seq<nat>)
    requires Chain(words, head, list) && forall d :: d in list ==> d in words && d in words' && words[d] == words'[d]
    ensures Chain(words', head, list)
    decreases |list|
  {
    if list != [] {
      ChainAgrees(words, words', words[head].link, list[1..]);
    }
  }

  lemma {:induction false} FirstAgrees(words: Heap, words': Heap, list: seq<nat>, si: Text)
    requires forall d :: d in list ==> d in words && d in words' && words[d] == words'[d]
    ensures First(words', list, si) == First(words, list, si)
  {
    if list != [] {
      FirstAgrees(words, words', list[1..], si);
    }
  }

  /** A table does not depend on words that are not in it. */
  lemma HashedAgrees(words: Heap, words': Heap, table: seq<nat>, defs: seq<nat>)
    requires Hashed(words, table, defs) && forall d :: d in defs ==> d in words' && words[d] == words'[d]
    ensures Hashed(words', table, defs)
  {
    forall s | 0 <= s < |table| ensures Chain(words', table[s], Bucket(words', defs, s, |table|)) {
      BucketAgrees(words, words', defs, s, |table|);
      BucketSubset(words, defs, s, |table|);
      ChainAgrees(words, words', table[s], Bucket(words, defs, s, |table|));
    }
  }

  lemma {:induction false} FlagsInBucket(words: Heap, words': Heap, defs: seq<nat>, s: nat, size: nat, w: nat,
    flags: bv8)
    requires size > 0 && w in words && words' == words[w := words[w].(flags := flags)]
    ensures Bucket(words', defs, s, size) == Bucket(words, defs, s, size)
  {
    if defs != [] {
      FlagsInBucket(words, words', defs[1..], s, size, w, flags);
    }
  }

  lemma {:induction false} FlagsInChain(words: Heap, words': Heap, head: nat, list: seq<nat>, w: nat, flags: bv8)
    requires w in words && words' == words[w := words[w].(flags := flags)] && Chain(words, head, list)
    ensures Chain(words', head, list)
    decreases |list|
  {
    if list != [] {
      FlagsInChain(words, words', words[head].link, list[1..], w, flags);
    }
  }

  /** Changing the flags of a word leaves a table sound. */
  lemma FlagsDoNotMatter(words: Heap, words': Heap, table: seq<nat>, defs: seq<nat>, w: nat, flags: bv8)
    requires Hashed(words, table, defs) && w in words && words' == words[w := words[w].(flags := flags)]
    ensures Hashed(words', table, defs)
  {
    forall s | 0 <= s < |table| ensures Chain(words', table[s], Bucket(words', defs, s, |table|)) {
      FlagsInBucket(words, words', defs, s, |table|, w, flags);
      FlagsInChain(words, words', table[s], Bucket(words, defs, s, |table|), w, flags);
    }
  }

  /** Linking `w`, above all other words, at the head of its bucket. */
  lemma InsertKeeps(words: Heap, words': Heap, table: seq<nat>, defs: seq<nat>, w: nat)
    requires Hashed(words, table, defs) && w in words && 0 < words[w].name <= w
    requires words[w].nName > 0 && |words[w].text| >= Min(words[w].nName, NAME_MAX)
    requires forall d :: d in defs ==> d + HEADER_SIZE <= words[w].name
    requires words' == words[w := words[w].(link := table[Slot(words[w].hash, |table|)])]
    ensures Hashed(words', table[Slot(words[w].hash, |table|) := w], [w] + defs)
  {
    var at := Slot(words[w].hash, |table|);
    var defs' := [w] + defs;
    HashedAgrees(words, words', table, defs);
    DescendingPush(words', defs, w);
    hide Descending;
    forall s | 0 <= s < |table| ensures Chain(words', table[at := w][s], Bucket(words', defs', s, |table|)) {
      assert defs'[1..] == defs;
      var before := Bucket(words', defs, s, |table|);
      if s == at {
        assert Bucket(words', defs', s, |table|) == [w] + before;
        assert ([w] + before)[1..] == before;
      }
    }
  }

  // ----- Forgetting -----

  /** The definitions below an address. */
  ghost function Below(defs: seq<nat>, mark: nat): seq<nat> {
    if defs == [] then []
    else if defs[0] >= mark then Below(defs[1..], mark)
    else [defs[0]] + Below(defs[1..], mark)
  }

  lemma {:induction false} BelowSubset(defs: seq<nat>, mark: nat)
    ensures forall d :: d in Below(defs, mark) <==> d in defs && d < mark
  {
    if defs != [] {
      BelowSubset(defs[1..], mark);
      assert forall d :: d in defs <==> d == defs[0] || d in defs[1..];
    }
  }

  lemma {:induction false} AllBelow(defs: seq<nat>, mark: nat)
    requires forall d :: d in defs ==> d < mark
    ensures Below(defs, mark) == defs
  {
    if defs != [] {
      assert defs[0] in defs && forall d :: d in defs[1..] ==> d in defs;
      AllBelow(defs[1..], mark);
    }
  }

  /** What was defined at or above the mark goes, and everything older stays. */
  lemma {:induction false} BelowOld(newer: seq<nat>, older: seq<nat>, mark: nat)
    requires (forall d :: d in newer ==> d >= mark) && (forall d :: d in older ==> d < mark)
    ensures Below(newer + older, mark) == older
  {
    if newer == [] {
      assert newer + older == older;
      AllBelow(older, mark);
    } else {
      assert (newer + older)[1..] == newer[1..] + older;
      assert newer[0] in newer && forall d :: d in newer[1..] ==> d in newer;
      BelowOld(newer[1..], older, mark);
    }
  }

  lemma {:induction false} BucketBelow(words: Heap, defs: seq<nat>, s: nat, size: nat, mark: nat)
    requires size > 0
    ensures Bucket(words, Below(defs, mark), s, size) == Below(Bucket(words, defs, s, size), mark)
  {
    if defs != [] {
      BucketBelow(words, defs[1..], s, size, mark);
      var rest := Bucket(words, defs[1..], s, size);
      assert ([defs[0]] + rest)[1..] == rest;
      var below := Below(defs[1..], mark);
      assert ([defs[0]] + below)[1..] == below;
    }
  }

  /** From some definition below the mark on, a descending list has no others. */
  lemma {:induction false} BelowDescending(words: Heap, defs: seq<nat>, mark: nat)
    requires Descending(words, defs)
    ensures Descending(words, Below(defs, mark))
    ensures defs != [] && defs[0] < mark ==> Below(defs, mark) == defs
  {
    if defs != [] {
      DescendingTail(words, defs);
      BelowDescending(words, defs[1..], mark);
      BelowSubset(defs[1..], mark);
      if defs[0] < mark {
        DescendingPush(words, Below(defs[1..], mark), defs[0]);
        assert forall d :: d in defs ==> d == defs[0] || d in defs[1..];
        AllBelow(defs, mark);
      }
    }
  }

  lemma {:induction false} BucketDescending(words: Heap, defs: seq<nat>, s: nat, size: nat)
    requires size > 0 && Descending(words, defs)
    ensures Descending(words, Bucket(words, defs, s, size))
  {
    if defs != [] {
      DescendingTail(words, defs);
      BucketDescending(words, defs[1..], s, size);
      BucketSubset(words, defs[1..], s, size);
      DescendingPush(words, Bucket(words, defs[1..], s, size), defs[0]);
    }
  }

  /** Heads moved down their chains past the mark make the table of the older words. */
  lemma ForgetKeeps(words: Heap, table: seq<nat>, table': seq<nat>, defs: seq<nat>, mark: nat)
    requires Hashed(words, table, defs) && |table'| == |table|
    requires forall s :: 0 <= s < |table| ==> Chain(words, table'[s], Below(Bucket(words, defs, s, |table|), mark))
    ensures Hashed(words, table', Below(defs, mark))
  {
    BelowDescending(words, defs, mark);
    BelowSubset(defs, mark);
    forall s | 0 <= s < |table| ensures Chain(words, table'[s], Bucket(words, Below(defs, mark), s, |table|)) {
      BucketBelow(words, defs, s, |table|, mark);
    }
  }

  /** After definitions at or above the mark and then a forget of the mark, every lookup
      finds what it found before the definitions. */
  lemma ForgetRestoresLookup(words: Heap, words': Heap, newer: seq<nat>, older: seq<nat>, mark: nat, si: Text)
    requires (forall d :: d in newer ==> d >= mark) && (forall d :: d in older ==> d < mark)
    requires forall d :: d in older ==> d in words && d in words' && words[d] == words'[d]
    ensures First(words', Below(newer + older, mark), si) == First(words, older, si)
  {
    BelowOld(newer, older, mark);
    FirstAgrees(words, words', older, si);
  }
}
