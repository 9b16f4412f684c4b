/**
 The order in which repeated automatic gptfind calls of one session offer
 partitions, whether or not each is reported failed in between.
 */
module GptSession {
  import opened Options
  import opened GptFormat
  import opened GptSpec

  /** The eligible indices from `i` on, in ascending order. */
  function Filter(t: seq<Ent>, n: nat, i: nat, kind: Kind, uuid: Bytes): (f: seq<nat>)
    requires GoodTable(t) && i <= n <= 128
    ensures forall j :: 0 <= j < |f| ==> i <= f[j] < n
    decreases n - i
  {
    var k := Next(t, n, i, kind, uuid);
    if k == n then [] else [k] + Filter(t, n, k + 1, kind, uuid)
  }

  predicate LastIs(f: seq<nat>, k: int) {
    f != [] && f[|f| - 1] == k
  }

  /** The whole offer of a session: the partitions with both flags, then those with BOOTME
      alone; if there is neither, the first of the type.  The second run is lost when the
      last entry of the table was offered in the first. */
  function Offer(t: seq<Ent>, n: nat, uuid: Bytes): (r: seq<nat>)
    requires GoodTable(t) && n <= 128
    ensures forall j :: 0 <= j < |r| ==> r[j] < n
  {
    var f, g := Filter(t, n, 0, BothFlags, uuid), Filter(t, n, 0, MeOnly, uuid);
    if LastIs(f, n - 1) then f
    else if f + g == [] then
      var j := Next(t, n, 0, AnyOfType, uuid);
      if j < n then [j] else []
    else f + g
  }

  /** What is still to be offered when gptfind stands at `curent`. */
  function Rest(t: seq<Ent>, n: nat, curent: int, bootonce: bool, uuid: Bytes): seq<nat>
    requires GoodTable(t) && n <= 128 && -1 <= curent
  {
    if curent == -1 && bootonce then Offer(t, n, uuid)
    else if curent + 1 >= n then []
    else if bootonce then
      var f := Filter(t, n, curent + 1, BothFlags, uuid);
      if LastIs(f, n - 1) then f else f + Filter(t, n, 0, MeOnly, uuid)
    else Filter(t, n, curent + 1, MeOnly, uuid)
  }

  // ----- One call offers the head of the rest -----

  lemma FilterHead(t: seq<Ent>, n: nat, i: nat, kind: Kind, uuid: Bytes)
    requires GoodTable(t) && i <= n <= 128
    ensures var f, k := Filter(t, n, i, kind, uuid), Next(t, n, i, kind, uuid);
            if k == n then f == [] else |f| > 0 && f[0] == k && f[1..] == Filter(t, n, k + 1, kind, uuid)
  {
    hide Eligible, Next;
  }

  lemma FilterLast(t: seq<Ent>, n: nat, i: nat, kind: Kind, uuid: Bytes)
    requires GoodTable(t) && i <= n <= 128 && Filter(t, n, i, kind, uuid) != []
    ensures var f := Filter(t, n, i, kind, uuid);
            && (1 < |f| ==> LastIs(f, n - 1) == LastIs(f[1..], n - 1))
            && (f[0] == n - 1 ==> |f| == 1)
  {
    hide Eligible, Next;
    var f := Filter(t, n, i, kind, uuid);
    FilterHead(t, n, i, kind, uuid);
    if f[0] == n - 1 {
      assert Filter(t, n, n, kind, uuid) == [] by { FilterHead(t, n, n, kind, uuid); }
    }
  }

  lemma NoneLater(t: seq<Ent>, n: nat, i: nat, j: nat, kind: Kind, uuid: Bytes)
    requires GoodTable(t) && i <= j <= n <= 128 && Filter(t, n, i, kind, uuid) == []
    ensures Filter(t, n, j, kind, uuid) == []
  {
    FilterHead(t, n, i, kind, uuid);
    FilterHead(t, n, j, kind, uuid);
    hide Filter, Eligible;
  }

  /** A call that settles on `c` with `r` still to be offered. */
  ghost predicate OffersHead(t: seq<Ent>, n: nat, r: seq<nat>, c: Choice, uuid: Bytes)
    requires GoodTable(t) && n <= 128
  {
    && -1 < c.curent
    && (if r == [] then !c.found else c.found && c.curent == r[0])
    && Rest(t, n, c.curent, c.bootonce, uuid) == (if r == [] then [] else r[1..])
  }

  lemma CallFirst(t: seq<Ent>, n: nat, curent: int, uuid: Bytes)
    requires GoodTable(t) && n <= 128 && -1 <= curent < n - 1
    requires Filter(t, n, curent + 1, BothFlags, uuid) != []
    ensures OffersHead(t, n, Rest(t, n, curent, true, uuid), ChooseAuto(t, n, curent, true, uuid), uuid)
  {
    hide Eligible, Filter, Next;
    var f, g := Filter(t, n, curent + 1, BothFlags, uuid), Filter(t, n, 0, MeOnly, uuid);
    FilterHead(t, n, curent + 1, BothFlags, uuid);
    FilterLast(t, n, curent + 1, BothFlags, uuid);
    assert (f + g)[1..] == f[1..] + g;
  }

  lemma CallSecond(t: seq<Ent>, n: nat, curent: int, uuid: Bytes)
    requires GoodTable(t) && n <= 128 && -1 <= curent < n - 1
    requires Filter(t, n, curent + 1, BothFlags, uuid) == []
    ensures OffersHead(t, n, Rest(t, n, curent, true, uuid), ChooseAuto(t, n, curent, true, uuid), uuid)
  {
    hide Eligible, Filter, Next, OffersHead, Rest;
    var g := Filter(t, n, 0, MeOnly, uuid);
    FilterHead(t, n, curent + 1, BothFlags, uuid);
    if g != [] {
      CallSecondFinds(t, n, curent, uuid);
    } else {
      CallSecondFallsBack(t, n, curent, uuid);
    }
  }

  lemma CallSecondFinds(t: seq<Ent>, n: nat, curent: int, uuid: Bytes)
    requires GoodTable(t) && n <= 128 && -1 <= curent < n - 1
    requires Filter(t, n, curent + 1, BothFlags, uuid) == [] && Filter(t, n, 0, MeOnly, uuid) != []
    ensures OffersHead(t, n, Rest(t, n, curent, true, uuid), ChooseAuto(t, n, curent, true, uuid), uuid)
  {
    hide Eligible, Filter, Next, Rest, Offer;
    var k := Next(t, n, 0, MeOnly, uuid);
    FilterHead(t, n, curent + 1, BothFlags, uuid);
    FilterHead(t, n, 0, MeOnly, uuid);
    NoneWithBoth(t, n, curent, uuid);
    RestOfMeOnly(t, n, k, uuid);
  }

  /** Without partitions that have both flags, those with BOOTME alone are what is left. */
  lemma NoneWithBoth(t: seq<Ent>, n: nat, curent: int, uuid: Bytes)
    requires GoodTable(t) && n <= 128 && -1 <= curent < n - 1
    requires Filter(t, n, curent + 1, BothFlags, uuid) == [] && Filter(t, n, 0, MeOnly, uuid) != []
    ensures Rest(t, n, curent, true, uuid) == Filter(t, n, 0, MeOnly, uuid)
  {
    hide Eligible, Filter, Next;
    var g := Filter(t, n, 0, MeOnly, uuid);
    assert [] + g == g;
  }

  lemma RestOfMeOnly(t: seq<Ent>, n: nat, k: nat, uuid: Bytes)
    requires GoodTable(t) && k < n <= 128
    ensures Rest(t, n, k, false, uuid) == Filter(t, n, k + 1, MeOnly, uuid)
  {
    hide Eligible, Next;
  }

  lemma CallSecondFallsBack(t: seq<Ent>, n: nat, curent: int, uuid: Bytes)
    requires GoodTable(t) && n <= 128 && -1 <= curent < n - 1
    requires Filter(t, n, curent + 1, BothFlags, uuid) == [] && Filter(t, n, 0, MeOnly, uuid) == []
    ensures OffersHead(t, n, Rest(t, n, curent, true, uuid), ChooseAuto(t, n, curent, true, uuid), uuid)
  {
    hide Eligible, Filter, Next, Rest, Offer;
    var j := if curent == -1 then Next(t, n, 0, AnyOfType, uuid) else n;
    FilterHead(t, n, curent + 1, BothFlags, uuid);
    FilterHead(t, n, 0, MeOnly, uuid);
    NoneWithMe(t, n, curent, uuid);
    if j < n {
      NoneLater(t, n, 0, j + 1, MeOnly, uuid);
      RestOfMeOnly(t, n, j, uuid);
    } else {
      RestAtEnd(t, n, uuid);
    }
  }

  /** Without partitions that have BOOTME, the first of the type is what is left, once. */
  lemma NoneWithMe(t: seq<Ent>, n: nat, curent: int, uuid: Bytes)
    requires GoodTable(t) && n <= 128 && -1 <= curent < n - 1
    requires Filter(t, n, curent + 1, BothFlags, uuid) == [] && Filter(t, n, 0, MeOnly, uuid) == []
    ensures var j := if curent == -1 then Next(t, n, 0, AnyOfType, uuid) else n;
            Rest(t, n, curent, true, uuid) == if j < n then [j] else []
  {
    hide Eligible, Filter, Next;
  }

  lemma RestAtEnd(t: seq<Ent>, n: nat, uuid: Bytes)
    requires GoodTable(t) && n <= 128
    ensures Rest(t, n, n, false, uuid) == []
  {
    hide Eligible, Filter, Next;
  }

  lemma CallMe(t: seq<Ent>, n: nat, curent: int, uuid: Bytes)
    requires GoodTable(t) && n <= 128 && 0 <= curent < n - 1
    ensures OffersHead(t, n, Rest(t, n, curent, false, uuid), ChooseAuto(t, n, curent, false, uuid), uuid)
  {
    hide Eligible, Filter, Next;
    FilterHead(t, n, curent + 1, MeOnly, uuid);
    if Filter(t, n, curent + 1, MeOnly, uuid) != [] {
      FilterLast(t, n, curent + 1, MeOnly, uuid);
    }
  }

  lemma OneCall(t: seq<Ent>, n: nat, curent: int, bootonce: bool, uuid: Bytes)
    requires GoodTable(t) && n <= 128 && -1 <= curent && (curent == -1 ==> bootonce)
    ensures OffersHead(t, n, Rest(t, n, curent, bootonce, uuid), ChooseAuto(t, n, curent, bootonce, uuid), uuid)
  {
    if curent + 1 >= n {
    } else if !bootonce {
      CallMe(t, n, curent, uuid);
    } else if Filter(t, n, curent + 1, BothFlags, uuid) == [] {
      CallSecond(t, n, curent, uuid);
    } else {
      CallFirst(t, n, curent, uuid);
    }
  }

  // ----- The table changes under way, but not what is still to be offered -----

  /** `t` is the table `t0` of the session's start after the partitions before `done` with
      both flags were tried. */
  ghost predicate Tried(t: seq<Ent>, t0: seq<Ent>, n: nat, done: int, uuid: Bytes)
    requires GoodTable(t) && GoodTable(t0) && n <= 128
  {
    forall i :: 0 <= i < n ==>
      && t[i].Type() == t0[i].Type()
      && (t[i] == t0[i] || !t[i].me)
      && (Eligible(MeOnly, t0[i], uuid) || (done <= i && Eligible(BothFlags, t0[i], uuid)) ==> t[i] == t0[i])
  }

  lemma TriedEligible(t: seq<Ent>, t0: seq<Ent>, n: nat, done: int, i: nat, kind: Kind, uuid: Bytes)
    requires GoodTable(t) && GoodTable(t0) && i < n <= 128 && Tried(t, t0, n, done, uuid)
    requires kind.MeOnly? || (kind.BothFlags? && done <= i)
    ensures Eligible(kind, t[i], uuid) == Eligible(kind, t0[i], uuid)
  {
  }

  lemma {:induction false} FilterTried(t: seq<Ent>, t0: seq<Ent>, n: nat, done: int, i: nat, kind: Kind, uuid: Bytes)
    requires GoodTable(t) && GoodTable(t0) && i <= n <= 128 && Tried(t, t0, n, done, uuid)
    requires kind.MeOnly? || (kind.BothFlags? && done <= i)
    ensures Filter(t, n, i, kind, uuid) == Filter(t0, n, i, kind, uuid)
    decreases n - i
  {
    hide Eligible, Filter, Next, Tried;
    var k, k0 := Next(t, n, i, kind, uuid), Next(t0, n, i, kind, uuid);
    FilterHead(t, n, i, kind, uuid);
    FilterHead(t0, n, i, kind, uuid);
    if k < n {
      TriedEligible(t, t0, n, done, k, kind, uuid);
    }
    if k0 < n {
      TriedEligible(t, t0, n, done, k0, kind, uuid);
    }
    assert k == k0;
    if k < n {
      FilterTried(t, t0, n, done, k + 1, kind, uuid);
    }
  }

  lemma RestTried(t: seq<Ent>, t0: seq<Ent>, n: nat, curent: int, bootonce: bool, uuid: Bytes)
    requires GoodTable(t) && GoodTable(t0) && n <= 128 && -1 < curent
    requires Tried(t, t0, n, if bootonce then curent + 1 else n, uuid)
    ensures Rest(t, n, curent, bootonce, uuid) == Rest(t0, n, curent, bootonce, uuid)
  {
    if curent + 1 < n {
      if bootonce {
        FilterTried(t, t0, n, curent + 1, curent + 1, BothFlags, uuid);
        FilterTried(t, t0, n, curent + 1, 0, MeOnly, uuid);
      } else {
        FilterTried(t, t0, n, n, curent + 1, MeOnly, uuid);
      }
    }
  }

  // ----- A session -----

  /** gptfind(-1), and gptbootfailed if `failed` and something was found. */
  function Attempt(sum: Checksum, m: Mem, uuid: Bytes, failed: bool): (m': Mem)
    requires m.Usable() && -1 <= m.curent
    ensures m'.Usable() && -1 <= m'.curent
  {
    var c, m1 := Choose(m, uuid, -1), GptFind(sum, m, uuid, -1);
    if failed && c.found then GptBootFailed(sum, m1) else m1
  }

  /** What each of the calls returns: an index, or -1. */
  function Offered(sum: Checksum, m: Mem, uuid: Bytes, failed: seq<bool>): (r: seq<int>)
    requires m.Usable() && -1 <= m.curent
    ensures |r| == |failed|
    decreases |failed|
  {
    if failed == [] then []
    else
      var c := Choose(m, uuid, -1);
      [if c.found then c.curent else -1] + Offered(sum, Attempt(sum, m, uuid, failed[0]), uuid, failed[1..])
  }

  lemma EditActive(sum: Checksum, m: Mem, k: nat, x: Edit)
    requires m.Usable() && k < 128
    ensures var m' := EditBoth(sum, m, k, x);
            && m'.curent == m.curent && m'.bootonce == m.bootonce
            && Entries(m'.Active().hdr) == Entries(m.Active().hdr)
            && m'.Active().tab == m.Active().tab[k := Do(x, m.Active().tab[k])]
  {
    hide Seal;
  }

  /** How an attempt changes the table in use. */
  lemma AttemptTable(sum: Checksum, m: Mem, uuid: Bytes, failed: bool)
    requires m.Usable() && -1 <= m.curent
    ensures var c, m', t := Choose(m, uuid, -1), Attempt(sum, m, uuid, failed), m.Active().tab;
            && m'.curent == c.curent && m'.bootonce == c.bootonce
            && Entries(m'.Active().hdr) == Entries(m.Active().hdr)
            && (!BootsOnce(m, c) ==> m'.Active().tab == t)
            && (BootsOnce(m, c) ==>
                  var e := t[c.curent];
                  m'.Active().tab == t[c.curent := if failed then e.(me := false, once := false, failed := true)
                    else e.(me := false)])
  {
    hide EditBoth, ChooseAuto;
    var c := Choose(m, uuid, -1);
    if BootsOnce(m, c) {
      EditActive(sum, m, c.curent, ClearMe);
      var m1 := GptFind(sum, m, uuid, -1);
      if failed {
        EditActive(sum, m1, c.curent, MarkFailed);
      }
    }
  }

  /** The done mark: entries with both flags before it have been offered. */
  function Done(n: nat, curent: int, bootonce: bool): int {
    if bootonce then curent + 1 else n
  }

  lemma AttemptTried(sum: Checksum, m: Mem, t0: seq<Ent>, uuid: Bytes, failed: bool)
    requires m.Usable() && -1 <= m.curent && GoodTable(t0)
    requires Tried(m.Active().tab, t0, Entries(m.Active().hdr), Done(Entries(m.Active().hdr), m.curent, m.bootonce),
             uuid)
    ensures var m' := Attempt(sum, m, uuid, failed);
            Tried(m'.Active().tab, t0, Entries(m.Active().hdr), Done(Entries(m.Active().hdr), m'.curent, m'.bootonce),
              uuid)
  {
    hide Attempt;
    AttemptTable(sum, m, uuid, failed);
  }

  lemma {:induction false} OffersRest(sum: Checksum, m: Mem, t0: seq<Ent>, uuid: Bytes, failed: seq<bool>, i: nat)
    requires m.Usable() && -1 <= m.curent && GoodTable(t0) && i < |failed| && (m.curent == -1 ==> m.bootonce)
    requires Tried(m.Active().tab, t0, Entries(m.Active().hdr), Done(Entries(m.Active().hdr), m.curent, m.bootonce),
             uuid)
    requires m.curent == -1 ==> m.Active().tab == t0
    ensures var r := Rest(t0, Entries(m.Active().hdr), m.curent, m.bootonce, uuid);
            Offered(sum, m, uuid, failed)[i] == if i < |r| then r[i] else -1
    decreases |failed|
  {
    hide Attempt, Rest, ChooseAuto;
    var n, t := Entries(m.Active().hdr), m.Active().tab;
    OneCall(t, n, m.curent, m.bootonce, uuid);
    if m.curent != -1 {
      RestTried(t, t0, n, m.curent, m.bootonce, uuid);
    }
    if i > 0 {
      var m' := Attempt(sum, m, uuid, failed[0]);
      AttemptTried(sum, m, t0, uuid, failed[0]);
      AttemptTable(sum, m, uuid, failed[0]);
      RestAfter(t, t0, n, m, uuid);
      OffersRest(sum, m', t0, uuid, failed[1..], i - 1);
    }
  }

  /** What remains after a call, seen from the table of the session's start. */
  lemma RestAfter(t: seq<Ent>, t0: seq<Ent>, n: nat, m: Mem, uuid: Bytes)
    requires GoodTable(t) && GoodTable(t0) && n <= 128 && -1 <= m.curent && (m.curent == -1 ==> m.bootonce && t == t0)
    requires Tried(t, t0, n, Done(n, m.curent, m.bootonce), uuid)
    ensures var c := ChooseAuto(t, n, m.curent, m.bootonce, uuid);
            -1 < c.curent && Rest(t, n, c.curent, c.bootonce, uuid) == Rest(t0, n, c.curent, c.bootonce, uuid)
  {
    var c := ChooseAuto(t, n, m.curent, m.bootonce, uuid);
    OneCall(t, n, m.curent, m.bootonce, uuid);
    assert Done(n, m.curent, m.bootonce) <= Done(n, c.curent, c.bootonce) || n <= Done(n, c.curent, c.bootonce);
    RestTried(t, t0, n, c.curent, c.bootonce, uuid);
  }

  /** After gptread, the `i`th automatic gptfind returns the `i`th of the offer, then -1 for
      ever, whichever of the partitions in between were reported failed. */
  lemma SessionOffers(sum: Checksum, m: Mem, uuid: Bytes, failed: seq<bool>, i: nat)
    requires m.Usable() && m.curent == -1 && m.bootonce && i < |failed|
    ensures var r := Offer(m.Active().tab, Entries(m.Active().hdr), uuid);
            Offered(sum, m, uuid, failed)[i] == if i < |r| then r[i] else -1
  {
    hide Offered, Offer;
    OffersRest(sum, m, m.Active().tab, uuid, failed, i);
  }

  // ----- What the offer holds -----

  ghost predicate Ascending(f: seq<nat>) {
    forall i, j :: 0 <= i < j < |f| ==> f[i] < f[j]
  }

  /** Exactly the eligible indices, each once, in order. */
  lemma {:induction false} FilterExact(t: seq<Ent>, n: nat, i: nat, kind: Kind, uuid: Bytes)
    requires GoodTable(t) && i <= n <= 128
    ensures var f := Filter(t, n, i, kind, uuid);
            Ascending(f) && forall k :: k in f <==> i <= k < n && Eligible(kind, t[k], uuid)
    decreases n - i
  {
    hide Eligible, Filter, Next;
    var k := Next(t, n, i, kind, uuid);
    FilterHead(t, n, i, kind, uuid);
    if k < n {
      FilterExact(t, n, k + 1, kind, uuid);
      var f, f1 := Filter(t, n, i, kind, uuid), Filter(t, n, k + 1, kind, uuid);
      assert f == [k] + f1;
      forall j ensures j in f <==> i <= j < n && Eligible(kind, t[j], uuid) {
        assert j in f <==> j == k || j in f1;
      }
    }
  }

  /** No partition is offered twice, and those with both flags come first, all of them. */
  lemma OfferOrder(t: seq<Ent>, n: nat, uuid: Bytes)
    requires GoodTable(t) && n <= 128
    ensures var r := Offer(t, n, uuid);
            && (forall i, j :: 0 <= i < j < |r| ==> r[i] != r[j])
            && (exists p: nat :: p <= |r| && Ascending(r[..p]) && Ascending(r[p..]) &&
                  forall k: nat :: k in r[..p] <==> k < n && Eligible(BothFlags, t[k], uuid))
  {
    hide Filter, Next, Eligible, Ascending;
    FilterExact(t, n, 0, BothFlags, uuid);
    FilterExact(t, n, 0, MeOnly, uuid);
    var f, g, r := Filter(t, n, 0, BothFlags, uuid), Filter(t, n, 0, MeOnly, uuid), Offer(t, n, uuid);
    forall k | k in f ensures k !in g {
      if k in g {
        MeOnlyIsNotBoth(t[k], uuid);
      }
    }
    ConcatApart(f, g);
    if r == f + g {
      assert r[..|f|] == f;
    } else if r == f {
      ConcatApart(f, []);
      assert f + [] == f && r[..|f|] == f;
    } else {
      ConcatApart([], r);
      assert r[..0] == [] == f;
    }
  }

  lemma ConcatApart(f: seq<nat>, g: seq<nat>)
    requires Ascending(f) && (Ascending(g) || |g| <= 1) && forall k :: k in f ==> k !in g
    ensures var r := f + g;
            && r[..|f|] == f && r[|f|..] == g && Ascending(r[..|f|]) && Ascending(r[|f|..])
            && forall i, j :: 0 <= i < j < |r| ==> r[i] != r[j]
  {
    var r := f + g;
    forall i, j | 0 <= i < j < |r| ensures r[i] != r[j] {
      if i < |f| <= j {
        assert r[i] in f && r[j] in g;
      }
    }
  }

  /** Partitions with BOOTME alone are all offered, unless the last entry of the table has
      both flags, when none of them is. */
  lemma OfferSecondRun(t: seq<Ent>, n: nat, uuid: Bytes, k: nat)
    requires GoodTable(t) && k < n <= 128 && Eligible(MeOnly, t[k], uuid)
    ensures k in Offer(t, n, uuid) <==> !Eligible(BothFlags, t[n - 1], uuid)
  {
    hide Filter, Next, Eligible;
    FilterExact(t, n, 0, BothFlags, uuid);
    FilterExact(t, n, 0, MeOnly, uuid);
    MeOnlyIsNotBoth(t[k], uuid);
    var f := Filter(t, n, 0, BothFlags, uuid);
    LastOfAscending(f, n);
  }

  lemma MeOnlyIsNotBoth(e: Ent, uuid: Bytes)
    requires e.Good() && Eligible(MeOnly, e, uuid)
    ensures !Eligible(BothFlags, e, uuid)
  {
  }

  /** The greatest possible index is last, if it is there. */
  lemma LastOfAscending(f: seq<nat>, n: nat)
    requires Ascending(f) && forall k :: k in f ==> k < n
    ensures n - 1 in f <==> f != [] && f[|f| - 1] == n - 1
  {
    if n - 1 in f {
      var i :| 0 <= i < |f| && f[i] == n - 1;
      assert f[|f| - 1] in f;
    }
  }

  /** An entry of the type with both flags, or with BOOTME alone. */
  predicate Both(e: Ent, uuid: Bytes) { |e.head| == 55 && e.head[..16] == uuid && e.me && e.once }
  predicate Alone(e: Ent, uuid: Bytes) { |e.head| == 55 && e.head[..16] == uuid && e.me && !e.once }

  lemma EligibleIs(e: Ent, uuid: Bytes)
    requires e.Good()
    ensures Eligible(BothFlags, e, uuid) == Both(e, uuid) && Eligible(MeOnly, e, uuid) == Alone(e, uuid)
    ensures Eligible(AnyOfType, e, uuid) == (e.head[..16] == uuid)
  {
  }

  /** In order, exactly the entries of the type with both flags, or with BOOTME alone. */
  ghost predicate AllBoth(f: seq<nat>, t: seq<Ent>, n: nat, uuid: Bytes)
    requires n <= |t|
  {
    Ascending(f) && forall k: nat :: k in f <==> k < n && Both(t[k], uuid)
  }

  ghost predicate AllAlone(g: seq<nat>, t: seq<Ent>, n: nat, uuid: Bytes)
    requires n <= |t|
  {
    Ascending(g) && forall k: nat :: k in g <==> k < n && Alone(t[k], uuid)
  }

  /** At most one entry: the first of the type. */
  ghost predicate FirstOfType(r: seq<nat>, t: seq<Ent>, n: nat, uuid: Bytes)
    requires n <= |t| && forall k :: 0 <= k < n ==> |t[k].head| == 55
  {
    if r == [] then forall k :: 0 <= k < n ==> t[k].head[..16] != uuid
    else
      && |r| == 1 && r[0] < n && t[r[0]].head[..16] == uuid
      && forall k :: 0 <= k < r[0] ==> t[k].head[..16] != uuid
  }

  lemma FilterBoth(t: seq<Ent>, n: nat, uuid: Bytes)
    requires GoodTable(t) && n <= 128
    ensures AllBoth(Filter(t, n, 0, BothFlags, uuid), t, n, uuid) && AllAlone(Filter(t, n, 0, MeOnly, uuid), t, n, uuid)
  {
    hide Filter, Next, Eligible, Both, Alone;
    FilterExact(t, n, 0, BothFlags, uuid);
    FilterExact(t, n, 0, MeOnly, uuid);
    forall k: nat | k < n
      ensures Eligible(BothFlags, t[k], uuid) == Both(t[k], uuid) && Eligible(MeOnly, t[k], uuid) == Alone(t[k], uuid)
    {
      EligibleIs(t[k], uuid);
    }
  }

  lemma NextOfType(t: seq<Ent>, n: nat, uuid: Bytes)
    requires GoodTable(t) && n <= 128
    ensures var j := Next(t, n, 0, AnyOfType, uuid); FirstOfType(if j < n then [j] else [], t, n, uuid)
  {
    hide Next, Eligible;
    forall k | 0 <= k < n ensures Eligible(AnyOfType, t[k], uuid) == (t[k].head[..16] == uuid) {
      EligibleIs(t[k], uuid);
    }
  }

  /** The whole offer.  First, in order, the entries of the type with both flags.  Then, unless
      the last entry of the table is one of them, in order those with BOOTME alone.  If there is
      neither, the first entry of the type. */
  lemma OfferExact(t: seq<Ent>, n: nat, uuid: Bytes)
    requires GoodTable(t) && n <= 128
    ensures exists f, g ::
              && AllBoth(f, t, n, uuid) && AllAlone(g, t, n, uuid)
              && var r := Offer(t, n, uuid);
              if n > 0 && Both(t[n - 1], uuid) then r == f
              else if f != [] || g != [] then r == f + g
              else FirstOfType(r, t, n, uuid)
  {
    hide Filter, Next, Eligible, Both, Alone, FirstOfType;
    FilterBoth(t, n, uuid);
    NextOfType(t, n, uuid);
    var f, g := Filter(t, n, 0, BothFlags, uuid), Filter(t, n, 0, MeOnly, uuid);
    LastOfBoth(t, n, uuid, f);
    assert f + g == [] <==> f == [] && g == [];
  }

  lemma LastOfBoth(t: seq<Ent>, n: nat, uuid: Bytes, f: seq<nat>)
    requires n <= |t| && AllBoth(f, t, n, uuid)
    ensures LastIs(f, n - 1) <==> n > 0 && Both(t[n - 1], uuid)
  {
    hide Both;
    if n > 0 {
      LastOfAscending(f, n);
    }
  }

  /** The first partition of the type is offered only when no entry of it has BOOTME. */
  lemma OfferFallback(t: seq<Ent>, n: nat, uuid: Bytes, k: nat)
    requires GoodTable(t) && k < n <= 128 && k in Offer(t, n, uuid) && !t[k].me
    ensures Offer(t, n, uuid) == [k] && k == Next(t, n, 0, AnyOfType, uuid)
    ensures forall j :: 0 <= j < n && t[j].Type() == uuid ==> !t[j].me
  {
    FilterExact(t, n, 0, BothFlags, uuid);
    FilterExact(t, n, 0, MeOnly, uuid);
    var f, g := Filter(t, n, 0, BothFlags, uuid), Filter(t, n, 0, MeOnly, uuid);
    assert k !in f && k !in g;
    assert f + g == [];
    assert f == [] && g == [];
  }
}
