/** The manager's own consistency check, and what it does and does not notice. */
module AddrCheck {
  import opened AddrTables
  import opened AddrMan
  import opened Common

  /** The entry's address as the index has it; a missing address reads as id 0. */
  ghost function Indexed(byAddr: map<NetAddr, int>, net: NetAddr): int {
    if net in byAddr then byAddr[net] else 0
  }

  ghost predicate EntryPasses(t: Tables, id: int)
    requires id in t.infos
  {
    var info := t.infos[id];
    && (if info.fInTried then info.nLastSuccess != 0 && info.nRefCount == 0
        else 1 <= info.nRefCount <= NEW_BUCKETS_PER_ADDRESS)
    && Indexed(t.byAddr, info.svc.net) == id
    && 0 <= info.nRandomPos < |t.order| && t.order[info.nRandomPos] == id
    && info.nLastTry >= 0 && info.nLastSuccess >= 0
  }

  ghost function Flat(s: seq<seq<int>>): seq<int> {
    if s == [] then [] else Flat(s[..|s| - 1]) + s[|s| - 1]
  }

  /** Exactly what the check accepts. */
  ghost predicate Passes(t: Tables) {
    && |t.order| == t.nTried + t.nNew
    && (forall id :: id in t.infos ==> EntryPasses(t, id))
    && |TriedIds(t.infos)| == t.nTried
    && |NewIds(t.infos)| == t.nNew
    && ListsEach(Flat(t.tried), TriedIds(t.infos))
    && (forall b, id :: 0 <= b < |t.news| && id in t.news[b] ==> id in NewIds(t.infos))
    && (forall id :: id in NewIds(t.infos) ==> t.infos[id].nRefCount == |BucketsOf(t.news, id)|)
  }

  ghost predicate SameIndex(a: map<NetAddr, int>, a': map<NetAddr, int>) {
    a.Keys <= a'.Keys && forall net :: Indexed(a', net) == Indexed(a, net)
  }

  /** The whole check. Looking up an address that is not in the index puts id 0 there for it, as
      std::map does; nothing else changes. */
  method Check_(m: Manager) returns (r: int)
    modifies m`mapAddr
    ensures r == 0 <==> Passes(old(m.State()))
    ensures SameIndex(old(m.mapAddr), m.mapAddr) || r == -5
  {
    ghost var t := m.State();
    if |m.vRandom| != m.nTried + m.nNew {
      return -7;
    }
    var setTried, mapNew;
    r, setTried, mapNew := CheckEntries(m);
    if r != 0 {
      return;
    }
    if |setTried| != m.nTried {
      return -9;
    }
    CountsEntries(mapNew, NewIds(t.infos));
    if |mapNew| != m.nNew {
      return -10;
    }
    r, setTried := CheckTried(m, setTried);
    if r != 0 {
      return;
    }
    r, mapNew := CheckNew(m, mapNew);
    if r != 0 {
      return;
    }
    if setTried != {} {
      return -13;
    }
    if mapNew != map[] {
      assert exists id :: id in mapNew by {
        var id := Pick(mapNew.Keys);
      }
      return -15;
    }
    return 0;
  }

  lemma CountsEntries(m: map<int, int>, s: set<int>)
    requires m.Keys == s
    ensures |m| == |s|
  {
  }

  /** One entry; the result is 0 or the error code. */
  method CheckEntry(m: Manager, n: int) returns (r: int)
    requires n in m.mapInfo
    modifies m`mapAddr
    ensures r == 0 <==> EntryPasses(old(m.State()), n)
    ensures SameIndex(old(m.mapAddr), m.mapAddr) || r == -5
  {
    var info := m.mapInfo[n];
    if info.fInTried {
      if info.nLastSuccess == 0 { return -1; }
      if info.nRefCount != 0 { return -2; }
    } else {
      if info.nRefCount < 0 || info.nRefCount > NEW_BUCKETS_PER_ADDRESS { return -3; }
      if info.nRefCount == 0 { return -4; }
    }
    if info.svc.net !in m.mapAddr {
      m.mapAddr := m.mapAddr[info.svc.net := 0];
    }
    if m.mapAddr[info.svc.net] != n { return -5; }
    if info.nRandomPos < 0 || info.nRandomPos >= |m.vRandom| || m.vRandom[info.nRandomPos] != n { return -14; }
    if info.nLastTry < 0 { return -6; }
    if info.nLastSuccess < 0 { return -8; }
    return 0;
  }

  lemma IndexOnly(t: Tables, byAddr: map<NetAddr, int>, id: int)
    requires SameIndex(t.byAddr, byAddr) && id in t.infos
    ensures EntryPasses(t.(byAddr := byAddr), id) == EntryPasses(t, id)
  {
  }

  /** The loop over the entries, collecting the tried ones and the reference counts of the others. */
  method CheckEntries(m: Manager) returns (r: int, setTried: set<int>, mapNew: map<int, int>)
    modifies m`mapAddr
    ensures r == 0 <==> forall id :: id in m.mapInfo ==> EntryPasses(old(m.State()), id)
    ensures r == 0 ==> setTried == TriedIds(m.mapInfo) && mapNew.Keys == NewIds(m.mapInfo)
    ensures r == 0 ==> forall id :: id in mapNew ==> mapNew[id] == m.mapInfo[id].nRefCount
    ensures SameIndex(old(m.mapAddr), m.mapAddr) || r == -5
  {
    hide EntryPasses;
    ghost var t := m.State();
    setTried, mapNew := {}, map[];
    var rest := m.mapInfo.Keys;
    while rest != {}
      invariant rest <= m.mapInfo.Keys
      invariant SameIndex(t.byAddr, m.mapAddr)
      invariant forall id :: id in m.mapInfo && id !in rest ==> EntryPasses(t, id)
      invariant setTried == TriedIds(m.mapInfo) - rest && mapNew.Keys == NewIds(m.mapInfo) - rest
      invariant forall id :: id in mapNew ==> mapNew[id] == m.mapInfo[id].nRefCount
      decreases |rest|
    {
      var n := First(rest);
      IndexOnly(t, m.mapAddr, n);
      r := CheckEntry(m, n);
      if r != 0 {
        return;
      }
      if m.mapInfo[n].fInTried {
        setTried := setTried + {n};
      } else {
        mapNew := mapNew[n := m.mapInfo[n].nRefCount];
      }
      rest := rest - {n};
    }
    assert TriedIds(m.mapInfo) - {} == TriedIds(m.mapInfo);
    assert NewIds(m.mapInfo) - {} == NewIds(m.mapInfo);
    r := 0;
  }

  lemma {:induction false} FlatPrefix(s: seq<seq<int>>, n: nat, k: nat)
    requires n < |s| && k <= |s[n]|
    ensures Flat(s[..n]) + s[n][..k] <= Flat(s)
    decreases |s|
  {
    var last := |s| - 1;
    if n == last {
      assert Flat(s) == Flat(s[..n]) + s[n];
    } else {
      FlatPrefix(s[..last], n, k);
      assert s[..last][..n] == s[..n];
      assert Flat(s[..last]) <= Flat(s);
    }
  }

  /** The tried entries not met yet, after the entries `done` have been met. */
  ghost predicate Unmet(setTried: set<int>, tried: set<int>, done: seq<int>) {
    && Distinct(done)
    && (forall id :: id in setTried <==> id in tried && id !in done)
    && (forall id :: id in done ==> id in tried)
  }

  ghost predicate ListsEach(all: seq<int>, tried: set<int>) {
    Distinct(all) && forall id :: id in all <==> id in tried
  }

  lemma UnmetStep(setTried: set<int>, tried: set<int>, done: seq<int>, x: int, all: seq<int>)
    requires Unmet(setTried, tried, done) && done + [x] <= all
    ensures x in setTried ==> Unmet(setTried - {x}, tried, done + [x])
    ensures x !in setTried ==> !ListsEach(all, tried)
  {
    assert all[|done|] == (done + [x])[|done|] == x;
    if x in done {
      var i :| 0 <= i < |done| && done[i] == x;
      assert all[i] == (done + [x])[i];
    }
  }

  lemma UnmetEnd(setTried: set<int>, tried: set<int>, all: seq<int>)
    requires Unmet(setTried, tried, all)
    ensures setTried == {} <==> ListsEach(all, tried)
  {
    if setTried != {} {
      var id := Pick(setTried);
    }
  }

  /** The loop over the tried buckets: they must list each tried entry once, and no other. */
  method CheckTried(m: Manager, setTried0: set<int>) returns (r: int, setTried: set<int>)
    requires setTried0 == TriedIds(m.mapInfo)
    ensures r == 0 && setTried == {} <==> ListsEach(Flat(m.vvTried), TriedIds(m.mapInfo))
  {
    setTried := setTried0;
    ghost var done, all := [], Flat(m.vvTried);
    assert Unmet(setTried, setTried0, done);
    hide Unmet;
    hide ListsEach;
    for n := 0 to |m.vvTried|
      invariant done == Flat(m.vvTried[..n]) && Unmet(setTried, setTried0, done)
    {
      var vTried := m.vvTried[n];
      for k := 0 to |vTried|
        invariant done == Flat(m.vvTried[..n]) + vTried[..k] && Unmet(setTried, setTried0, done)
      {
        FlatPrefix(m.vvTried, n, k + 1);
        assert done + [vTried[k]] == Flat(m.vvTried[..n]) + vTried[..k + 1];
        UnmetStep(setTried, setTried0, done, vTried[k], all);
        if vTried[k] !in setTried {
          return -11, setTried;
        }
        setTried := setTried - {vTried[k]};
        done := done + [vTried[k]];
      }
      assert m.vvTried[..n + 1][..n] == m.vvTried[..n];
    }
    assert m.vvTried[..|m.vvTried|] == m.vvTried;
    UnmetEnd(setTried, setTried0, done);
    r := 0;
  }

  /** How often `id` has been met in the first `n` buckets and the part `seen` of the next. */
  ghost function Met(news: seq<set<int>>, n: nat, seen: set<int>, id: int): nat
    requires n <= |news|
  {
    |BucketsOf(news[..n], id)| + (if id in seen then 1 else 0)
  }

  lemma MetNext(news: seq<set<int>>, n: nat, id: int)
    requires n < |news|
    ensures Met(news, n, news[n], id) == Met(news, n + 1, {}, id)
  {
    var a, b := BucketsOf(news[..n], id), BucketsOf(news[..n + 1], id);
    assert b == if id in news[n] then a + {n} else a;
  }

  lemma MetAtMost(news: seq<set<int>>, n: nat, seen: set<int>, id: int)
    requires n < |news| && seen <= news[n]
    ensures Met(news, n, seen, id) <= |BucketsOf(news, id)|
  {
    var a := BucketsOf(news[..n], id) + (if id in seen then {n} else {});
    SubsetSize(a, BucketsOf(news, id));
  }

  /** What is left of the reference counts after some occurrences have been met. */
  ghost predicate Left(mapNew: map<int, int>, refs: map<int, int>, news: seq<set<int>>, n: nat, seen: set<int>)
    requires n <= |news|
  {
    && (forall id :: id in refs ==> Met(news, n, seen, id) <= refs[id])
    && (forall id :: id in mapNew <==> id in refs && Met(news, n, seen, id) < refs[id])
    && (forall id :: id in mapNew ==> mapNew[id] == refs[id] - Met(news, n, seen, id))
  }

  ghost predicate NewPasses(refs: map<int, int>, news: seq<set<int>>) {
    && (forall b, id :: 0 <= b < |news| && id in news[b] ==> id in refs)
    && (forall id :: id in refs ==> refs[id] == |BucketsOf(news, id)|)
  }

  /** The loop over the new buckets: each entry must occur as often as its reference count says. */
  method CheckNew(m: Manager, refs: map<int, int>) returns (r: int, mapNew: map<int, int>)
    requires forall id :: id in refs ==> refs[id] > 0
    ensures r == 0 && mapNew == map[] <==> NewPasses(refs, m.vvNew)
  {
    hide Left;
    mapNew := refs;
    LeftStart(refs, m.vvNew);
    assert Left(mapNew, refs, m.vvNew, 0, {});
    for n := 0 to |m.vvNew|
      invariant Left(mapNew, refs, m.vvNew, n, {})
      invariant forall b, id :: 0 <= b < n && id in m.vvNew[b] ==> id in refs
    {
      var rest := m.vvNew[n];
      ghost var seen: set<int> := {};
      while rest != {}
        invariant seen + rest == m.vvNew[n] && seen !! rest
        invariant Left(mapNew, refs, m.vvNew, n, seen)
        invariant forall id :: id in seen ==> id in refs
        decreases |rest|
      {
        var it := First(rest);
        if it !in mapNew {
          LeftExhausted(mapNew, refs, m.vvNew, n, seen, it);
          return -12, mapNew;
        }
        LeftKnown(mapNew, refs, m.vvNew, n, seen, it);
        var mapNew' := mapNew[it := mapNew[it] - 1];
        if mapNew'[it] == 0 {
          mapNew' := mapNew' - {it};
        }
        LeftStep(mapNew, mapNew', refs, m.vvNew, n, seen, it);
        mapNew, rest, seen := mapNew', rest - {it}, seen + {it};
      }
      LeftNext(mapNew, refs, m.vvNew, n, seen);
    }
    LeftEnd(mapNew, refs, m.vvNew);
    r := 0;
  }

  lemma LeftStart(refs: map<int, int>, news: seq<set<int>>)
    requires forall id :: id in refs ==> refs[id] > 0
    ensures Left(refs, refs, news, 0, {})
  {
    assert forall id :: Met(news, 0, {}, id) == 0;
  }

  lemma LeftKnown(mapNew: map<int, int>, refs: map<int, int>, news: seq<set<int>>, n: nat, seen: set<int>, it: int)
    requires n <= |news| && Left(mapNew, refs, news, n, seen) && it in mapNew
    ensures it in refs
  {
  }

  /** Meeting an entry none of whose references are left: it occurs too often, or should not at all. */
  lemma LeftExhausted(mapNew: map<int, int>, refs: map<int, int>, news: seq<set<int>>, n: nat, seen: set<int>, it: int)
    requires n < |news| && Left(mapNew, refs, news, n, seen) && seen <= news[n]
    requires it in news[n] && it !in seen && it !in mapNew
    ensures !NewPasses(refs, news)
  {
    MetAtMost(news, n, seen + {it}, it);
  }

  lemma LeftStep(mapNew: map<int, int>, mapNew': map<int, int>, refs: map<int, int>, news: seq<set<int>>, n: nat,
                 seen: set<int>, it: int)
    requires n <= |news| && Left(mapNew, refs, news, n, seen) && it in mapNew && it !in seen
    requires mapNew' == if mapNew[it] == 1 then mapNew - {it} else mapNew[it := mapNew[it] - 1]
    ensures Left(mapNew', refs, news, n, seen + {it})
  {
    assert forall id :: Met(news, n, seen + {it}, id) == Met(news, n, seen, id) + (if id == it then 1 else 0);
  }

  lemma LeftNext(mapNew: map<int, int>, refs: map<int, int>, news: seq<set<int>>, n: nat, seen: set<int>)
    requires n < |news| && Left(mapNew, refs, news, n, seen) && seen == news[n]
    ensures Left(mapNew, refs, news, n + 1, {})
  {
    forall id
      ensures Met(news, n + 1, {}, id) == Met(news, n, seen, id)
    {
      MetNext(news, n, id);
    }
  }

  lemma LeftEnd(mapNew: map<int, int>, refs: map<int, int>, news: seq<set<int>>)
    requires Left(mapNew, refs, news, |news|, {})
    ensures mapNew == map[] <==> forall id :: id in refs ==> refs[id] == |BucketsOf(news, id)|
  {
    assert news[..|news|] == news;
    assert forall id :: Met(news, |news|, {}, id) == |BucketsOf(news, id)|;
    if mapNew != map[] {
      var id := Pick(mapNew.Keys);
      assert id in mapNew;
    }
  }

  // ---------------------------------------------------------------- the check against the invariant

  /** What the check does not look at: that ids have been handed out, that index entries lead to
      entries (and that address lookups are there at all), the size of the buckets, and whether a
      tried entry sits in the bucket its hash selects. */
  ghost predicate Unnoticed(h: Hashing, t: Tables) {
    && IdsOk(t.infos, t.nIdCount)
    && (forall a :: a in t.byAddr ==> t.byAddr[a] in t.infos && t.infos[t.byAddr[a]].svc.net == a)
    && (forall id :: id in t.infos ==> t.infos[id].svc.net in t.byAddr)
    && |t.tried| == TRIED_BUCKET_COUNT && |t.news| == NEW_BUCKET_COUNT
    && (forall b :: 0 <= b < |t.tried| ==> |t.tried[b]| <= TRIED_BUCKET_SIZE)
    && (forall b :: 0 <= b < |t.news| ==> |t.news[b]| <= NEW_BUCKET_SIZE)
    && (forall b, id :: 0 <= b < |t.tried| && id in t.tried[b] && id in t.infos ==>
          h.TriedBucket(t.key, t.infos[id].svc) == b)
  }

  lemma {:induction false} FlatMembers(s: seq<seq<int>>)
    ensures forall x :: x in Flat(s) <==> exists b :: 0 <= b < |s| && x in s[b]
    decreases |s|
  {
    if s != [] {
      var n := |s| - 1;
      FlatMembers(s[..n]);
      assert forall b :: 0 <= b < n ==> s[..n][b] == s[b];
      forall x
        ensures x in Flat(s) <==> exists b :: 0 <= b < |s| && x in s[b]
      {
        if b :| 0 <= b < |s| && x in s[b] {
          assert b < n ==> x in s[..n][b];
        }
        if x in Flat(s[..n]) {
          var b :| 0 <= b < n && x in s[..n][b];
          assert x in s[b];
        }
      }
    }
  }

  ghost predicate Disjoint(a: seq<int>, b: seq<int>) {
    forall x :: x in a ==> x !in b
  }

  lemma DistinctConcat(a: seq<int>, b: seq<int>)
    ensures Distinct(a + b) <==> Distinct(a) && Distinct(b) && Disjoint(a, b)
  {
    var c := a + b;
    if Distinct(a) && Distinct(b) && Disjoint(a, b) {
      forall i, j | 0 <= i < j < |c|
        ensures c[i] != c[j]
      {
        if i < |a| <= j {
          assert a[i] in a && b[j - |a|] in b;
        } else if |a| <= i {
          assert b[i - |a|] != b[j - |a|];
        }
      }
    }
    assert forall i :: 0 <= i < |a| ==> c[i] == a[i];
    assert forall i :: 0 <= i < |b| ==> c[|a| + i] == b[i];
    if Distinct(c) {
      assert Distinct(a);
      forall i, j | 0 <= i < j < |b|
        ensures b[i] != b[j]
      {
        assert c[|a| + i] != c[|a| + j];
      }
      forall i, j | 0 <= i < |a| && 0 <= j < |b|
        ensures a[i] != b[j]
      {
        assert c[i] != c[|a| + j];
      }
    }
  }

  /** The buckets list nobody twice when each is without repetition and no two share an entry. */
  lemma {:induction false} FlatDistinct(s: seq<seq<int>>)
    requires forall b :: 0 <= b < |s| ==> Distinct(s[b])
    requires forall b, c :: 0 <= b < c < |s| ==> Disjoint(s[b], s[c])
    ensures Distinct(Flat(s))
    decreases |s|
  {
    if s != [] {
      var n := |s| - 1;
      assert forall b :: 0 <= b < n ==> s[..n][b] == s[b];
      FlatDistinct(s[..n]);
      FlatMembers(s[..n]);
      forall x | x in Flat(s[..n])
        ensures x !in s[n]
      {
        var b :| 0 <= b < n && x in s[..n][b];
        assert Disjoint(s[b], s[n]);
      }
      DistinctConcat(Flat(s[..n]), s[n]);
    }
  }

  lemma {:induction false} FlatPieces(s: seq<seq<int>>, b: nat)
    requires Distinct(Flat(s)) && b < |s|
    ensures Distinct(s[b])
    decreases |s|
  {
    var n := |s| - 1;
    DistinctConcat(Flat(s[..n]), s[n]);
    if b < n {
      FlatPieces(s[..n], b);
    }
  }

  lemma TriedListed(h: Hashing, t: Tables)
    requires TriedOk(h, t.key, t.infos, t.tried)
    ensures ListsEach(Flat(t.tried), TriedIds(t.infos))
  {
    FlatMembers(t.tried);
    forall b, c | 0 <= b < c < |t.tried|
      ensures Disjoint(t.tried[b], t.tried[c])
    {
      forall x | x in t.tried[b]
        ensures x !in t.tried[c]
      {
        assert h.TriedBucket(t.key, t.infos[x].svc) == b;
      }
    }
    FlatDistinct(t.tried);
  }

  lemma ListedTried(h: Hashing, t: Tables)
    requires Unnoticed(h, t) && ListsEach(Flat(t.tried), TriedIds(t.infos))
    ensures TriedOk(h, t.key, t.infos, t.tried)
  {
    FlatMembers(t.tried);
    forall b | 0 <= b < |t.tried|
      ensures Distinct(t.tried[b])
    {
      FlatPieces(t.tried, b);
    }
    forall b, id | 0 <= b < |t.tried| && id in t.tried[b]
      ensures id in t.infos && t.infos[id].fInTried
    {
      assert id in Flat(t.tried);
      assert id in TriedIds(t.infos);
    }
    forall id | id in t.infos && t.infos[id].fInTried
      ensures id in t.tried[h.TriedBucket(t.key, t.infos[id].svc)]
    {
      assert id in TriedIds(t.infos);
      var b :| 0 <= b < |t.tried| && id in t.tried[b];
    }
  }

  /** A sequence has at most as many elements as places, and fewer if one is repeated. */
  lemma {:induction false} ElementCount(s: seq<int>)
    ensures |set x | x in s| <= |s|
    ensures |set x | x in s| == |s| ==> Distinct(s)
  {
    if s != [] {
      var n := |s| - 1;
      ElementCount(s[..n]);
      var front := set x | x in s[..n];
      assert s == s[..n] + [s[n]];
      assert (set x | x in s) == front + {s[n]};
      if s[n] !in front {
        assert s[n] !in s[..n];
      }
    }
  }

  /** With as many positions as entries, positions that lead back to their entries suffice. */
  lemma OrderIsFull(infos: Infos, order: seq<int>)
    requires |order| == |infos|
    requires forall id :: id in infos ==> 0 <= infos[id].nRandomPos < |order| && order[infos[id].nRandomPos] == id
    ensures RandomOk(infos, order)
  {
    var elements := set x | x in order;
    forall id | id in infos
      ensures id in elements
    {
      assert order[infos[id].nRandomPos] == id;
    }
    ElementCount(order);
    SubsetSize(infos.Keys, elements);
    assert elements == infos.Keys + (elements - infos.Keys);
    assert |elements - infos.Keys| == 0;
    forall i | 0 <= i < |order|
      ensures order[i] in infos && infos[order[i]].nRandomPos == i
    {
      assert order[i] in elements && order[i] !in elements - infos.Keys;
    }
  }

  /** A consistent manager with times in order passes its own check. */
  lemma ConsistentPasses(h: Hashing, t: Tables)
    requires Consistent(h, t) && TimesOk(t.infos)
    ensures Passes(t) && Unnoticed(h, t)
  {
    TableSizes(h, t, NOBODY);
    TriedListed(h, t);
    forall id | id in t.infos
      ensures EntryPasses(t, id) && t.infos[id].nRefCount == |BucketsOf(t.news, id)|
    {
      assert RefOk(t.infos[id], t.news, id, NOBODY);
      if t.infos[id].fInTried {
        assert BucketsOf(t.news, id) == {};
      }
    }
  }

  /** Conversely, a manager that passes is consistent but for what the check does not notice. */
  lemma PassingIsConsistent(h: Hashing, t: Tables)
    requires Passes(t) && Unnoticed(h, t)
    ensures Consistent(h, t) && TimesOk(t.infos)
  {
    CountSplits(t.infos);
    NewListed(t);
    forall id | id in t.infos
      ensures 0 <= t.infos[id].nRandomPos < |t.order| && t.order[t.infos[id].nRandomPos] == id
      ensures t.byAddr[t.infos[id].svc.net] == id
    {
      assert EntryPasses(t, id);
    }
    OrderIsFull(t.infos, t.order);
    ListedTried(h, t);
    RefsListed(t);
    TimesListed(t);
  }

  lemma NewListed(t: Tables)
    requires |t.news| == NEW_BUCKET_COUNT && forall b :: 0 <= b < |t.news| ==> |t.news[b]| <= NEW_BUCKET_SIZE
    requires forall b, id :: 0 <= b < |t.news| && id in t.news[b] ==> id in NewIds(t.infos)
    ensures NewOk(t.infos, t.news)
  {
    forall b, id | 0 <= b < |t.news| && id in t.news[b]
      ensures id in t.infos && !t.infos[id].fInTried
    {
      assert id in NewIds(t.infos);
    }
  }

  lemma RefsListed(t: Tables)
    requires forall id :: id in t.infos ==> EntryPasses(t, id)
    requires forall b, id :: 0 <= b < |t.news| && id in t.news[b] ==> id in NewIds(t.infos)
    requires forall id :: id in NewIds(t.infos) ==> t.infos[id].nRefCount == |BucketsOf(t.news, id)|
    requires IdsOk(t.infos, t.nIdCount)
    ensures RefsOk(t.infos, t.news, NOBODY)
  {
    forall id | id in t.infos
      ensures RefOk(t.infos[id], t.news, id, NOBODY)
    {
      assert EntryPasses(t, id);
      if t.infos[id].fInTried {
        assert BucketsOf(t.news, id) == {};
      } else {
        assert id in NewIds(t.infos);
      }
    }
  }

  lemma TimesListed(t: Tables)
    requires forall id :: id in t.infos ==> EntryPasses(t, id)
    ensures TimesOk(t.infos)
  {
    forall id | id in t.infos
      ensures t.infos[id].nLastTry >= 0 && t.infos[id].nLastSuccess >= 0
      ensures t.infos[id].fInTried ==> t.infos[id].nLastSuccess != 0
    {
      assert EntryPasses(t, id);
    }
  }

  /** The check accepts exactly the managers that are consistent, as far as it looks. */
  lemma CheckCharacterized(h: Hashing, t: Tables)
    ensures Passes(t) && Unnoticed(h, t) <==> Consistent(h, t) && TimesOk(t.infos)
  {
    hide Passes;
    hide Unnoticed;
    hide Consistent;
    hide TimesOk;
    if Passes(t) && Unnoticed(h, t) {
      PassingIsConsistent(h, t);
    }
    if Consistent(h, t) && TimesOk(t.infos) {
      ConsistentPasses(h, t);
    }
  }

  /** The one entry of a manager with 64 empty tried buckets and 256 new buckets, of which the first holds it. */
  ghost function OneEntry(byAddr: map<NetAddr, int>): Tables {
    Tables([], 1, map[0 := Info(Service(NetAddr(1), 1), 0, 1, 0, NetAddr(0), 0, 0, 1, false, 0)], byAddr, [0],
           0, seq(TRIED_BUCKET_COUNT, i => []), 1, seq(NEW_BUCKET_COUNT, i => if i == 0 then {0} else {}))
  }

  lemma OneEntryIsConsistent(h: Hashing)
    ensures Consistent(h, OneEntry(map[NetAddr(1) := 0])) && TimesOk(OneEntry(map[NetAddr(1) := 0]).infos)
  {
    var t := OneEntry(map[NetAddr(1) := 0]);
    assert TriedIds(t.infos) == {};
    assert NewIds(t.infos) == {0};
    assert BucketsOf(t.news, 0) == {0};
  }

  /** A manager that is not consistent and passes all the same, although only the address of entry 0 is missing
      from its index: with the address put back it is consistent. */
  lemma CheckMissesAddressOfZero(h: Hashing)
    ensures Passes(OneEntry(map[])) && !Consistent(h, OneEntry(map[]))
    ensures Consistent(h, OneEntry(map[]).(byAddr := map[NetAddr(1) := 0]))
  {
    var t, repaired := OneEntry(map[]), OneEntry(map[NetAddr(1) := 0]);
    OneEntryIsConsistent(h);
    ConsistentPasses(h, repaired);
    assert t.(byAddr := map[NetAddr(1) := 0]) == repaired;
    forall id | id in t.infos
      ensures EntryPasses(t, id)
    {
      assert EntryPasses(repaired, id);
    }
    assert 0 in t.infos && t.infos[0].svc.net !in t.byAddr;
  }
}
