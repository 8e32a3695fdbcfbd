/** Writing an address manager to a stream and reading it back. The stream is a sequence of typed
    items; the byte layout of an item is not modelled. */
module AddrSerial {
  import opened AddrTables
  import opened AddrMan
  import opened AddrCheck
  import opened Common

  /** The part of an entry that is written. */
  datatype Saved = Saved(svc: Service, services: bv64, nTime: int, source: NetAddr, nLastSuccess: int, nAttempts: int)

  datatype Item = Version(n: int) | Bytes(key: Key) | Int(i: int) | Entry(e: Saved)

  function Save(info: Info): Saved {
    Saved(info.svc, info.services, info.nTime, info.source, info.nLastSuccess, info.nAttempts)
  }

  /** An entry as read: what is not written has its initial value. */
  function Restore(e: Saved): Info {
    Info(e.svc, e.services, e.nTime, 0, e.source, e.nLastSuccess, e.nAttempts, 0, false, -1)
  }

  // ---------------------------------------------------------------- sets in their iteration order

  ghost function Smallest(s: set<int>): (m: int)
    requires s != {}
    ensures m in s && forall y :: y in s ==> m <= y
  {
    assert exists m :: m in s && forall y :: y in s ==> m <= y by {
      var m := SmallestExists(s);
    }
    var m :| m in s && forall y :: y in s ==> m <= y; m
  }

  ghost function Ascending(s: set<int>): seq<int>
    decreases |s|
  {
    if s == {} then [] else [Smallest(s)] + Ascending(s - {Smallest(s)})
  }

  lemma {:induction false} AscendingElements(s: set<int>)
    ensures forall x :: x in Ascending(s) <==> x in s
    ensures Distinct(Ascending(s)) && |Ascending(s)| == |s|
    decreases |s|
  {
    if s != {} {
      AscendingElements(s - {Smallest(s)});
    }
  }

  lemma SmallestIsFirst(s: set<int>, x: int)
    requires x in s && forall y :: y in s ==> x <= y
    ensures Ascending(s) == [x] + Ascending(s - {x})
  {
    assert Smallest(s) == x;
  }

  // ---------------------------------------------------------------- the written form

  /** The ids among `ids` of the tried entries, or of the others. */
  ghost function Select(infos: Infos, ids: seq<int>, tried: bool): seq<int>
    requires forall i :: 0 <= i < |ids| ==> ids[i] in infos
  {
    if ids == [] then [] else
      (if infos[ids[0]].fInTried == tried then [ids[0]] else []) + Select(infos, ids[1..], tried)
  }

  lemma {:induction false} SelectElements(infos: Infos, ids: seq<int>, tried: bool)
    requires forall i :: 0 <= i < |ids| ==> ids[i] in infos
    requires Distinct(ids)
    ensures Distinct(Select(infos, ids, tried))
    ensures forall x :: x in Select(infos, ids, tried) <==> x in ids && infos[x].fInTried == tried
  {
    if ids != [] {
      SelectElements(infos, ids[1..], tried);
      assert ids == [ids[0]] + ids[1..];
    }
  }

  ghost function Keys(infos: Infos): (r: seq<int>)
    ensures forall i :: 0 <= i < |r| ==> r[i] in infos
  {
    AscendingElements(infos.Keys);
    assert forall i :: 0 <= i < |Ascending(infos.Keys)| ==> Ascending(infos.Keys)[i] in Ascending(infos.Keys);
    Ascending(infos.Keys)
  }

  /** Old ids in the order in which their entries are written. */
  ghost function Order(infos: Infos): seq<int> {
    Select(infos, Keys(infos), false) + Select(infos, Keys(infos), true)
  }

  ghost function Entries(infos: Infos, ids: seq<int>): (r: seq<Item>)
    requires forall i :: 0 <= i < |ids| ==> ids[i] in infos
    ensures |r| == |ids| && forall i :: 0 <= i < |ids| ==> r[i] == Entry(Save(infos[ids[i]]))
  {
    seq(|ids|, i requires 0 <= i < |ids| => Entry(Save(infos[ids[i]])))
  }

  ghost function IndexOf(s: seq<int>, x: int): (i: nat)
    requires x in s
    ensures i < |s| && s[i] == x
  {
    var i: nat :| i < |s| && s[i] == x; i
  }

  ghost function Indexes(order: seq<int>, ids: seq<int>): (r: seq<Item>)
    requires forall id :: id in ids ==> id in order
    ensures |r| == |ids| && forall i :: 0 <= i < |ids| ==> r[i] == Int(IndexOf(order, ids[i]))
  {
    seq(|ids|, i requires 0 <= i < |ids| => Int(IndexOf(order, ids[i])))
  }

  /** The first `n` new buckets: for each its size and then the places of its entries in `order`. */
  ghost function Buckets(order: seq<int>, news: seq<set<int>>, n: nat): seq<Item>
    requires n <= |news| && forall b, id :: 0 <= b < |news| && id in news[b] ==> id in order
  {
    if n == 0 then [] else
      AscendingElements(news[n - 1]);
      Buckets(order, news, n - 1) + [Int(|news[n - 1]|)] + Indexes(order, Ascending(news[n - 1]))
  }

  /** The order lists the untried entries, then the tried ones, each once. */
  ghost predicate Covers(t: Tables, order: seq<int>) {
    && Distinct(order) && |order| == |t.infos| && 0 <= t.nNew <= |order| && 0 <= t.nTried == |order| - t.nNew
    && (forall i :: 0 <= i < |order| ==> order[i] in t.infos && (t.infos[order[i]].fInTried <==> i >= t.nNew))
    && (forall id :: id in t.infos ==> id in order)
  }

  lemma ConcatCovers(t: Tables, a: seq<int>, b: seq<int>)
    requires Distinct(a) && Distinct(b) && |a| == t.nNew && |b| == t.nTried && |a| + |b| == |t.infos|
    requires forall x :: x in a <==> x in t.infos && !t.infos[x].fInTried
    requires forall x :: x in b <==> x in t.infos && t.infos[x].fInTried
    ensures Covers(t, a + b)
  {
    var c := a + b;
    assert forall i :: 0 <= i < |a| ==> c[i] in a;
    assert forall i :: |a| <= i < |c| ==> c[i] in b;
    forall i, j | 0 <= i < j < |c|
      ensures c[i] != c[j]
    {
      if |a| <= i {
        assert b[i - |a|] != b[j - |a|];
      }
    }
  }

  lemma SelectSize(infos: Infos, ids: seq<int>, tried: bool, s: set<int>)
    requires forall i :: 0 <= i < |ids| ==> ids[i] in infos
    requires Distinct(ids) && (forall id :: id in infos <==> id in ids)
    requires forall id :: id in s <==> id in infos && infos[id].fInTried == tried
    ensures |Select(infos, ids, tried)| == |s|
  {
    SelectElements(infos, ids, tried);
    DistinctSizeOf(Select(infos, ids, tried), s);
  }

  lemma {:induction false} DistinctSizeOf(r: seq<int>, s: set<int>)
    requires Distinct(r) && forall x :: x in r <==> x in s
    ensures |r| == |s|
    decreases |r|
  {
    if r == [] {
      if s != {} {
        var x := Pick(s);
        assert false;
      }
    } else {
      var n := |r| - 1;
      assert r == r[..n] + [r[n]];
      DistinctSizeOf(r[..n], s - {r[n]});
    }
  }

  lemma KeysListed(infos: Infos)
    ensures Distinct(Keys(infos)) && forall id :: id in infos <==> id in Keys(infos)
  {
    AscendingElements(infos.Keys);
  }

  ghost predicate Writable(t: Tables, order: seq<int>) {
    Covers(t, order) && forall b, id :: 0 <= b < |t.news| && id in t.news[b] ==> id in t.infos && !t.infos[id].fInTried
  }

  lemma OrderCovers(h: Hashing, t: Tables)
    requires Consistent(h, t)
    ensures Writable(t, Order(t.infos))
    ensures |Select(t.infos, Keys(t.infos), false)| == t.nNew && |Select(t.infos, Keys(t.infos), true)| == t.nTried
  {
    var keys := Keys(t.infos);
    TableSizes(h, t, NOBODY);
    KeysListed(t.infos);
    SelectSize(t.infos, keys, false, NewIds(t.infos));
    SelectSize(t.infos, keys, true, TriedIds(t.infos));
    SelectElements(t.infos, keys, false);
    SelectElements(t.infos, keys, true);
    hide ConsistentBut;
    ConcatCovers(t, Select(t.infos, keys, false), Select(t.infos, keys, true));
  }

  ghost function Written(t: Tables, order: seq<int>): seq<Item>
    requires Writable(t, order)
  {
    [Version(0), Bytes(t.key), Int(t.nNew), Int(t.nTried), Int(NEW_BUCKET_COUNT)]
    + Entries(t.infos, order) + Buckets(order, t.news, |t.news|)
  }

  // ---------------------------------------------------------------- writing

  /** One entry after another has been written, untried or tried ones only. */
  ghost predicate Listed(infos: Infos, ids: seq<int>, s: seq<Item>) {
    |s| == |ids| && forall i :: 0 <= i < |ids| ==> ids[i] in infos && s[i] == Entry(Save(infos[ids[i]]))
  }

  ghost predicate Numbered(ids: seq<int>, mapUnkIds: map<int, int>) {
    forall i :: 0 <= i < |ids| ==> ids[i] in mapUnkIds && mapUnkIds[ids[i]] == i
  }

  /** The ids still to come: `tail` lists `rest`, and selecting from it completes `ids` to `all`. */
  ghost predicate Ahead(infos: Infos, rest: set<int>, tail: seq<int>, tried: bool, ids: seq<int>, all: seq<int>) {
    && tail == Ascending(rest) && (forall i :: 0 <= i < |tail| ==> tail[i] in infos)
    && ids + Select(infos, tail, tried) == all
  }

  lemma AheadStep(infos: Infos, rest: set<int>, tail: seq<int>, tried: bool, ids: seq<int>, all: seq<int>, it: int)
    requires Ahead(infos, rest, tail, tried, ids, all) && it in rest && forall y :: y in rest ==> it <= y
    ensures it in infos && tail != []
    ensures Ahead(infos, rest - {it}, tail[1..], tried, if infos[it].fInTried == tried then ids + [it] else ids, all)
  {
    SmallestIsFirst(rest, it);
    assert tail[0] == it && tail[1..] == Ascending(rest - {it});
  }

  lemma AheadEnd(infos: Infos, rest: set<int>, tail: seq<int>, tried: bool, ids: seq<int>, all: seq<int>)
    requires Ahead(infos, rest, tail, tried, ids, all) && (rest == {} || |ids| == |all|)
    ensures ids == all
  {
  }

  /** The first loop: the entries with references, remembering the place of each. */
  method WriteNew(mapInfo: Infos, nNew: int) returns (s: seq<Item>, mapUnkIds: map<int, int>, ghost ids: seq<int>)
    requires forall id :: id in mapInfo ==> (mapInfo[id].nRefCount != 0 <==> !mapInfo[id].fInTried)
    requires nNew == |Select(mapInfo, Keys(mapInfo), false)|
    ensures ids == Select(mapInfo, Keys(mapInfo), false)
    ensures Listed(mapInfo, ids, s) && Numbered(ids, mapUnkIds)
  {
    ghost var all, tail := Select(mapInfo, Keys(mapInfo), false), Keys(mapInfo);
    s, mapUnkIds, ids := [], map[], [];
    var nIds := 0;
    var rest := mapInfo.Keys;
    while rest != {}
      invariant rest <= mapInfo.Keys && nIds == |ids|
      invariant Ahead(mapInfo, rest, tail, false, ids, all)
      invariant forall i :: 0 <= i < |ids| ==> ids[i] !in rest
      invariant Listed(mapInfo, ids, s) && Numbered(ids, mapUnkIds)
      decreases |rest|
    {
      if nIds == nNew {
        break;
      }
      var it := First(rest);
      AheadStep(mapInfo, rest, tail, false, ids, all, it);
      mapUnkIds := mapUnkIds[it := nIds];
      var info := mapInfo[it];
      if info.nRefCount != 0 {
        s, ids := s + [Entry(Save(info))], ids + [it];
        nIds := nIds + 1;
      }
      rest, tail := rest - {it}, tail[1..];
    }
    AheadEnd(mapInfo, rest, tail, false, ids, all);
  }

  /** The second loop: the tried entries. */
  method WriteTried(mapInfo: Infos, nTried: int) returns (s: seq<Item>, ghost ids: seq<int>)
    requires nTried == |Select(mapInfo, Keys(mapInfo), true)|
    ensures ids == Select(mapInfo, Keys(mapInfo), true)
    ensures Listed(mapInfo, ids, s)
  {
    ghost var all, tail := Select(mapInfo, Keys(mapInfo), true), Keys(mapInfo);
    s, ids := [], [];
    var nIds := 0;
    var rest := mapInfo.Keys;
    while rest != {}
      invariant rest <= mapInfo.Keys && nIds == |ids|
      invariant Ahead(mapInfo, rest, tail, true, ids, all)
      invariant Listed(mapInfo, ids, s)
      decreases |rest|
    {
      if nIds == nTried {
        break;
      }
      var it := First(rest);
      AheadStep(mapInfo, rest, tail, true, ids, all, it);
      var info := mapInfo[it];
      if info.fInTried {
        s, ids := s + [Entry(Save(info))], ids + [it];
        nIds := nIds + 1;
      }
      rest, tail := rest - {it}, tail[1..];
    }
    AheadEnd(mapInfo, rest, tail, true, ids, all);
  }

  ghost predicate Places(order: seq<int>, ids: seq<int>, s: seq<Item>) {
    |s| == |ids| && forall i :: 0 <= i < |ids| ==> ids[i] in order && s[i] == Int(IndexOf(order, ids[i]))
  }

  lemma PlacesStep(order: seq<int>, ids: seq<int>, s: seq<Item>, id: int, i: int)
    requires Places(order, ids, s) && Distinct(order) && 0 <= i < |order| && order[i] == id
    ensures Places(order, ids + [id], s + [Int(i)])
  {
    assert IndexOf(order, id) == i;
  }

  /** The entries of one new bucket, as places in the written order. */
  method WriteBucket(bucket: set<int>, mapUnkIds: map<int, int>, ghost order: seq<int>) returns (s: seq<Item>)
    requires Distinct(order) && forall id :: id in bucket ==> id in order && id in mapUnkIds
    requires forall id :: id in bucket ==> 0 <= mapUnkIds[id] < |order| && order[mapUnkIds[id]] == id
    ensures s != [] && s[0] == Int(|bucket|) && Places(order, Ascending(bucket), s[1..])
  {
    hide Places;
    hide Distinct;
    var places := [];
    ghost var ids, tail := [], Ascending(bucket);
    PlacesStart(order);
    var rest := bucket;
    while rest != {}
      invariant rest <= bucket && tail == Ascending(rest) && ids + tail == Ascending(bucket)
      invariant Places(order, ids, places)
      decreases |rest|
    {
      var it := First(rest);
      SmallestIsFirst(rest, it);
      PlacesStep(order, ids, places, it, mapUnkIds[it]);
      places := places + [Int(mapUnkIds[it])];
      ids, tail := ids + [it], tail[1..];
      rest := rest - {it};
    }
    s := [Int(|bucket|)] + places;
    assert ids == Ascending(bucket) && s[1..] == places;
  }

  lemma PlacesStart(order: seq<int>)
    ensures Places(order, [], [])
  {
  }

  lemma PlacesAreIndexes(order: seq<int>, ids: seq<int>, s: seq<Item>)
    requires Places(order, ids, s) && forall id :: id in ids ==> id in order
    ensures s == Indexes(order, ids)
  {
  }

  lemma ListedTogether(infos: Infos, ids: seq<int>, s: seq<Item>, ids': seq<int>, s': seq<Item>)
    requires Listed(infos, ids, s) && Listed(infos, ids', s')
    ensures forall i :: 0 <= i < |ids + ids'| ==> (ids + ids')[i] in infos
    ensures s + s' == Entries(infos, ids + ids')
  {
  }

  lemma NumberedBuckets(t: Tables, order: seq<int>, newIds: seq<int>, mapUnkIds: map<int, int>)
    requires Writable(t, order) && |newIds| == t.nNew && newIds <= order && Numbered(newIds, mapUnkIds)
    ensures Distinct(order)
    ensures forall b, id :: 0 <= b < |t.news| && id in t.news[b] ==>
              id in order && id in mapUnkIds && 0 <= mapUnkIds[id] < |order| && order[mapUnkIds[id]] == id
  {
    forall b, id | 0 <= b < |t.news| && id in t.news[b]
      ensures id in order && id in mapUnkIds && 0 <= mapUnkIds[id] < |order| && order[mapUnkIds[id]] == id
    {
      assert id in t.infos;
      assert id in order;
      var i: nat :| i < |order| && order[i] == id;
      assert newIds[i] == id;
    }
  }

  lemma BucketsNext(order: seq<int>, news: seq<set<int>>, b: nat, s: seq<Item>)
    requires forall c, id :: 0 <= c < |news| && id in news[c] ==> id in order
    requires b < |news| && s != [] && s[0] == Int(|news[b]|) && Places(order, Ascending(news[b]), s[1..])
    ensures Buckets(order, news, b + 1) == Buckets(order, news, b) + s
  {
    hide Ascending;
    AscendingElements(news[b]);
    PlacesAreIndexes(order, Ascending(news[b]), s[1..]);
    assert s == [s[0]] + s[1..];
    assert Buckets(order, news, b) + s == Buckets(order, news, b) + [s[0]] + s[1..];
  }

  /** The last loop: for each new bucket its size and the places of its entries. */
  method WriteBuckets(vvNew: seq<set<int>>, mapUnkIds: map<int, int>, ghost order: seq<int>) returns (s: seq<Item>)
    requires Distinct(order)
    requires forall b, id :: 0 <= b < |vvNew| && id in vvNew[b] ==>
              id in order && id in mapUnkIds && 0 <= mapUnkIds[id] < |order| && order[mapUnkIds[id]] == id
    ensures s == Buckets(order, vvNew, |vvNew|)
  {
    hide Places;
    hide Distinct;
    s := [];
    for b := 0 to |vvNew|
      invariant s == Buckets(order, vvNew, b)
    {
      var bucket := WriteBucket(vvNew[b], mapUnkIds, order);
      BucketsNext(order, vvNew, b, bucket);
      s := s + bucket;
    }
  }

  /** The whole writer. */
  method Write(m: Manager) returns (s: seq<Item>)
    requires m.Valid()
    ensures var t := m.State(); Writable(t, Order(t.infos)) && s == Written(t, Order(t.infos))
  {
    hide ConsistentBut;
    hide Listed;
    hide Covers;
    ghost var t := m.State();
    ghost var order := Order(t.infos);
    OrderCovers(m.hashing, t);
    RefsTellNew(m.hashing, t);
    var news, mapUnkIds, newIds := WriteNew(m.mapInfo, m.nNew);
    var trieds, triedIds := WriteTried(m.mapInfo, m.nTried);
    ListedTogether(t.infos, newIds, news, triedIds, trieds);
    NumberedBuckets(t, order, newIds, mapUnkIds);
    var buckets := WriteBuckets(m.vvNew, mapUnkIds, order);
    s := [Version(0), Bytes(m.nKey), Int(m.nNew), Int(m.nTried), Int(NEW_BUCKET_COUNT)] + news + trieds + buckets;
    assert s == Written(t, order);
  }

  lemma RefsTellNew(h: Hashing, t: Tables)
    requires Consistent(h, t)
    ensures forall id :: id in t.infos ==> (t.infos[id].nRefCount != 0 <==> !t.infos[id].fInTried)
  {
    forall id | id in t.infos
      ensures t.infos[id].nRefCount != 0 <==> !t.infos[id].fInTried
    {
      assert RefOk(t.infos[id], t.news, id, NOBODY);
      if t.infos[id].fInTried {
        assert BucketsOf(t.news, id) == {};
      }
    }
  }

  // ---------------------------------------------------------------- reading

  /** `t2` is `t` with its entries renumbered in the written order, the last-try times forgotten and
      everything that is rebuilt in the order of the new ids. */
  ghost predicate Renumbers(t: Tables, t2: Tables, order: seq<int>) {
    && t2.key == t.key && t2.nIdCount == |order| && t2.nTried == t.nTried && t2.nNew == t.nNew
    && RenumbersEntries(t, t2.infos, t2.byAddr, t2.order, order, |order|)
    && (forall i :: 0 <= i < |order| ==> t2.infos[i].fInTried == t.infos[order[i]].fInTried)
    && (forall i :: 0 <= i < |order| ==> t2.infos[i].nRefCount == t.infos[order[i]].nRefCount)
    && RenumbersTried(t, t2.tried, order, |order|)
    && |t2.news| == |t.news| && forall b :: 0 <= b < |t.news| ==> RenumbersBucket(t.news[b], t2.news[b], order)
  }

  /** The first `n` entries, with the indexes over them. */
  ghost predicate RenumbersEntries(t: Tables, infos: Infos, byAddr: map<NetAddr, int>, vRandom: seq<int>,
                                   order: seq<int>, n: nat) {
    && n <= |order| && |vRandom| == n
    && (forall i :: i in infos <==> 0 <= i < n)
    && (forall i :: 0 <= i < n ==> order[i] in t.infos && vRandom[i] == i)
    && (forall i :: 0 <= i < n ==> Reloads(t.infos[order[i]], infos[i], i))
    && (forall i :: 0 <= i < n ==> t.infos[order[i]].svc.net in byAddr && byAddr[t.infos[order[i]].svc.net] == i)
    && (forall a :: a in byAddr ==> 0 <= byAddr[a] < n && t.infos[order[byAddr[a]]].svc.net == a)
  }

  /** An entry as it was, but for the last-try time, at position `i`; its state in the tables aside. */
  ghost predicate Reloads(was: Info, info: Info, i: int) {
    info == was.(nLastTry := 0, nRandomPos := i, fInTried := info.fInTried, nRefCount := info.nRefCount)
  }

  /** Each tried bucket lists the new ids below `n` of the entries it had, in some order. */
  ghost predicate RenumbersTried(t: Tables, tried: seq<seq<int>>, order: seq<int>, n: nat)
    requires n <= |order|
  {
    && |tried| == |t.tried|
    && forall b :: 0 <= b < |tried| ==> RenumbersList(t.tried[b], tried[b], order, n)
  }

  ghost predicate RenumbersList(bucket: seq<int>, bucket2: seq<int>, order: seq<int>, n: nat)
    requires n <= |order|
  {
    Distinct(bucket2) && forall i :: i in bucket2 <==> 0 <= i < n && order[i] in bucket
  }

  ghost predicate RenumbersBucket(bucket: set<int>, bucket2: set<int>, order: seq<int>) {
    forall i :: i in bucket2 <==> 0 <= i < |order| && order[i] in bucket
  }

  // ---------------------------------------------------------------- renumbering keeps consistency

  ghost function Range(lo: int, hi: int): (r: set<int>)
    requires lo <= hi
    ensures |r| == hi - lo && forall i :: i in r <==> lo <= i < hi
    decreases hi - lo
  {
    if lo == hi then {} else Range(lo, hi - 1) + {hi - 1}
  }

  /** New ids lead to distinct old ids, so there are no more of them than of those. */
  lemma {:induction false} DistinctInto(s: seq<int>, order: seq<int>, target: set<int>)
    requires Distinct(s) && Distinct(order)
    requires forall k :: 0 <= k < |s| ==> 0 <= s[k] < |order| && order[s[k]] in target
    ensures |s| <= |target|
    decreases |s|
  {
    if s != [] {
      var n := |s| - 1;
      assert forall k :: 0 <= k < n ==> s[k] != s[n] && order[s[k]] != order[s[n]];
      DistinctInto(s[..n], order, target - {order[s[n]]});
    }
  }

  lemma {:induction false} SetInto(s: set<int>, order: seq<int>, target: set<int>)
    requires Distinct(order)
    requires forall i :: i in s ==> 0 <= i < |order| && order[i] in target
    ensures |s| <= |target|
    decreases |s|
  {
    if s != {} {
      var x := Pick(s);
      assert forall i :: i in s && i != x ==> order[i] != order[x];
      SetInto(s - {x}, order, target - {order[x]});
    }
  }

  lemma {:induction false} Elements(s: seq<int>) returns (e: set<int>)
    ensures |e| <= |s| && forall x :: x in e <==> x in s
  {
    if s == [] {
      e := {};
    } else {
      var n := |s| - 1;
      var e' := Elements(s[..n]);
      e := e' + {s[n]};
      assert s == s[..n] + [s[n]];
    }
  }

  lemma RenumberedTried(h: Hashing, t: Tables, t2: Tables, order: seq<int>)
    requires TriedOk(h, t.key, t.infos, t.tried) && Covers(t, order) && Renumbers(t, t2, order)
    ensures TriedOk(h, t2.key, t2.infos, t2.tried)
  {
    forall b | 0 <= b < |t2.tried|
      ensures |t2.tried[b]| <= TRIED_BUCKET_SIZE
    {
      var e := Elements(t.tried[b]);
      assert RenumbersList(t.tried[b], t2.tried[b], order, |order|);
      assert forall k :: 0 <= k < |t2.tried[b]| ==> t2.tried[b][k] in t2.tried[b];
      DistinctInto(t2.tried[b], order, e);
    }
    forall b, i | 0 <= b < |t2.tried| && i in t2.tried[b]
      ensures i in t2.infos && t2.infos[i].fInTried && h.TriedBucket(t2.key, t2.infos[i].svc) == b
    {
      assert RenumbersList(t.tried[b], t2.tried[b], order, |order|);
      assert order[i] in t.tried[b];
      assert Reloads(t.infos[order[i]], t2.infos[i], i);
    }
    forall i | i in t2.infos && t2.infos[i].fInTried
      ensures i in t2.tried[h.TriedBucket(t2.key, t2.infos[i].svc)]
    {
      assert Reloads(t.infos[order[i]], t2.infos[i], i);
      var b := h.TriedBucket(t2.key, t2.infos[i].svc);
      assert RenumbersList(t.tried[b], t2.tried[b], order, |order|);
      assert order[i] in t.tried[h.TriedBucket(t.key, t.infos[order[i]].svc)];
    }
  }

  lemma RenumberedNew(t: Tables, t2: Tables, order: seq<int>)
    requires NewOk(t.infos, t.news) && Covers(t, order) && Renumbers(t, t2, order)
    ensures NewOk(t2.infos, t2.news)
  {
    forall b | 0 <= b < |t2.news|
      ensures |t2.news[b]| <= NEW_BUCKET_SIZE && forall i :: i in t2.news[b] ==> i in t2.infos && !t2.infos[i].fInTried
    {
      assert RenumbersBucket(t.news[b], t2.news[b], order);
      SetInto(t2.news[b], order, t.news[b]);
    }
  }

  lemma RenumberedRefs(t: Tables, t2: Tables, order: seq<int>)
    requires RefsOk(t.infos, t.news, NOBODY) && IdsOk(t.infos, t.nIdCount) && Covers(t, order) &&
             Renumbers(t, t2, order)
    ensures RefsOk(t2.infos, t2.news, NOBODY)
  {
    forall i | i in t2.infos
      ensures RefOk(t2.infos[i], t2.news, i, NOBODY)
    {
      var id := order[i];
      assert RefOk(t.infos[id], t.news, id, NOBODY);
      assert forall b :: 0 <= b < |t.news| ==> RenumbersBucket(t.news[b], t2.news[b], order);
      assert BucketsOf(t2.news, i) == BucketsOf(t.news, id);
    }
  }

  lemma RenumberedCounts(t: Tables, t2: Tables, order: seq<int>)
    requires Covers(t, order) && Renumbers(t, t2, order)
    ensures t2.nTried == |TriedIds(t2.infos)| && t2.nNew == |NewIds(t2.infos)|
  {
    assert forall i :: 0 <= i < |order| ==> (t2.infos[i].fInTried <==> i >= t.nNew);
    CountRange(t2.infos, |order|, t.nNew);
  }

  lemma CountRange(infos: Infos, n: int, k: int)
    requires 0 <= k <= n && forall i :: i in infos <==> 0 <= i < n
    requires forall i :: 0 <= i < n ==> (infos[i].fInTried <==> i >= k)
    ensures |TriedIds(infos)| == n - k && |NewIds(infos)| == k
  {
    assert NewIds(infos) == Range(0, k);
    assert TriedIds(infos) == Range(k, n);
  }

  lemma RenumberedIndexes(t: Tables, t2: Tables, order: seq<int>)
    requires Covers(t, order) && Renumbers(t, t2, order) && AddrOk(t.infos, t.byAddr)
    ensures IdsOk(t2.infos, t2.nIdCount) && RandomOk(t2.infos, t2.order) && AddrOk(t2.infos, t2.byAddr)
  {
    forall i | i in t2.infos
      ensures t2.infos[i].nRandomPos == i && t2.infos[i].svc == t.infos[order[i]].svc
    {
      assert Reloads(t.infos[order[i]], t2.infos[i], i);
    }
  }

  lemma RenumberedTimes(t: Tables, t2: Tables, order: seq<int>)
    requires Covers(t, order) && Renumbers(t, t2, order) && TimesOk(t.infos)
    ensures TimesOk(t2.infos)
  {
    forall i | i in t2.infos
      ensures t2.infos[i].nLastTry == 0 && t2.infos[i].nLastSuccess == t.infos[order[i]].nLastSuccess
    {
      assert Reloads(t.infos[order[i]], t2.infos[i], i);
    }
  }

  /** What is read back is consistent again. */
  lemma RenumberedIsConsistent(h: Hashing, t: Tables, t2: Tables, order: seq<int>)
    requires Consistent(h, t) && Covers(t, order) && Renumbers(t, t2, order)
    ensures Consistent(h, t2)
    ensures TimesOk(t.infos) ==> TimesOk(t2.infos)
  {
    hide Renumbers;
    hide Covers;
    hide TriedOk;
    hide NewOk;
    hide AddrOk;
    hide RandomOk;
    hide RefsOk;
    RenumberedTried(h, t, t2, order);
    RenumberedNew(t, t2, order);
    RenumberedRefs(t, t2, order);
    RenumberedCounts(t, t2, order);
    RenumberedIndexes(t, t2, order);
    if TimesOk(t.infos) {
      RenumberedTimes(t, t2, order);
    }
  }

  // ---------------------------------------------------------------- reading

  const HEADER: nat := 5

  /** The stream holds the entries of `t`, after the header. */
  ghost predicate HoldsEntries(s: seq<Item>, t: Tables, order: seq<int>) {
    && Covers(t, order) && AddrOk(t.infos, t.byAddr) && |s| >= HEADER + |order|
    && forall i :: 0 <= i < |order| ==> s[HEADER + i] == Entry(Save(t.infos[order[i]]))
  }

  lemma EntryStep(t: Tables, infos: Infos, byAddr: map<NetAddr, int>, vRandom: seq<int>, order: seq<int>, n: nat,
                  s: seq<Item>, info: Info)
    requires HoldsEntries(s, t, order) && n < |order| && RenumbersEntries(t, infos, byAddr, vRandom, order, n)
    requires order[n] in t.infos
    requires info == Restore(Save(t.infos[order[n]])).(nRandomPos := n, fInTried := info.fInTried)
    ensures RenumbersEntries(t, infos[n := info], byAddr[info.svc.net := n], vRandom + [n], order, n + 1)
  {
    forall i | 0 <= i < n
      ensures t.infos[order[i]].svc.net != info.svc.net
    {
      assert t.byAddr[t.infos[order[i]].svc.net] == order[i] && t.byAddr[t.infos[order[n]].svc.net] == order[n];
    }
  }

  /** The entries with references come first; they get the ids 0, 1, ... */
  method ReadNew(s: seq<Item>, nNew: int, ghost t: Tables, ghost order: seq<int>)
    returns (ok: bool, infos: Infos, byAddr: map<NetAddr, int>, vRandom: seq<int>)
    ensures HoldsEntries(s, t, order) && nNew == t.nNew ==>
              && ok && RenumbersEntries(t, infos, byAddr, vRandom, order, nNew)
              && forall i :: i in infos ==> !infos[i].fInTried && infos[i].nRefCount == 0
  {
    ghost var good := HoldsEntries(s, t, order) && nNew == t.nNew;
    infos, byAddr, vRandom := map[], map[], [];
    var n := 0;
    hide RenumbersEntries;
    NoEntries(t, order);
    while n < nNew
      invariant 0 <= n && (n <= nNew || n == 0)
      invariant good ==> RenumbersEntries(t, infos, byAddr, vRandom, order, n) && |vRandom| == n
      invariant good ==> forall i :: i in infos ==> !infos[i].fInTried && infos[i].nRefCount == 0
    {
      assert good ==> order[n] in t.infos && s[HEADER + n] == Entry(Save(t.infos[order[n]]));
      if HEADER + n >= |s| || !s[HEADER + n].Entry? {
        return false, infos, byAddr, vRandom;
      }
      var info := Restore(s[HEADER + n].e).(nRandomPos := |vRandom|);
      if good {
        EntryStep(t, infos, byAddr, vRandom, order, n, s, info);
      }
      infos, byAddr, vRandom := infos[n := info], byAddr[info.svc.net := n], vRandom + [n];
      n := n + 1;
    }
    ok := true;
  }

  lemma NoEntries(t: Tables, order: seq<int>)
    ensures RenumbersEntries(t, map[], map[], [], order, 0)
  {
  }

  /** A tried entry not read yet has room in the bucket it was in. */
  lemma RoomForTried(t: Tables, tried: seq<seq<int>>, order: seq<int>, n: nat, b: nat)
    requires n < |order| && Distinct(order) && RenumbersTried(t, tried, order, n) && b < |t.tried|
    requires order[n] in t.tried[b] && |t.tried[b]| <= TRIED_BUCKET_SIZE
    ensures |tried[b]| < TRIED_BUCKET_SIZE
  {
    assert RenumbersList(t.tried[b], tried[b], order, n);
    var e := Elements(t.tried[b]);
    assert forall k :: 0 <= k < |tried[b]| ==> tried[b][k] in tried[b];
    DistinctInto(tried[b], order, e - {order[n]});
  }

  lemma TriedStep(h: Hashing, t: Tables, tried: seq<seq<int>>, order: seq<int>, n: nat, b: nat)
    requires TriedOk(h, t.key, t.infos, t.tried)
    requires n < |order| && RenumbersTried(t, tried, order, n) && b < |t.tried|
    requires order[n] in t.infos && order[n] in t.tried[b]
    ensures RenumbersTried(t, tried[b := tried[b] + [n]], order, n + 1)
  {
    forall c | 0 <= c < |tried|
      ensures RenumbersList(t.tried[c], tried[b := tried[b] + [n]][c], order, n + 1)
    {
      assert RenumbersList(t.tried[c], tried[c], order, n);
      if c != b {
        var id := order[n];
        assert id in t.tried[b];
        assert h.TriedBucket(t.key, t.infos[id].svc) == b;
        assert id !in t.tried[c];
      }
    }
  }

  lemma NoTriedYet(h: Hashing, t: Tables, order: seq<int>)
    requires TriedOk(h, t.key, t.infos, t.tried) && Covers(t, order)
    ensures RenumbersTried(t, seq(TRIED_BUCKET_COUNT, _ => []), order, t.nNew)
  {
    var none := seq(TRIED_BUCKET_COUNT, _ => []);
    forall b | 0 <= b < |none|
      ensures RenumbersList(t.tried[b], none[b], order, t.nNew)
    {
    }
  }

  /** The tried entries come next; each goes to the bucket its hash selects. */
  method ReadTried(h: Hashing, key: Key, s: seq<Item>, nNew: int, nTried: int, infos0: Infos,
                   byAddr0: map<NetAddr, int>,
                   vRandom0: seq<int>, ghost t: Tables, ghost order: seq<int>)
    returns (ok: bool, nLost: int, nIdCount: int, infos: Infos, byAddr: map<NetAddr, int>, vRandom: seq<int>,
             tried: seq<seq<int>>)
    requires HoldsEntries(s, t, order) && nNew == t.nNew ==>
              RenumbersEntries(t, infos0, byAddr0, vRandom0, order, nNew)
              && forall i :: i in infos0 ==> !infos0[i].fInTried && infos0[i].nRefCount == 0
    ensures HoldsEntries(s, t, order) && TriedOk(h, t.key, t.infos, t.tried)
            && nNew == t.nNew && nTried == t.nTried && key == t.key ==>
              && ok && nLost == 0 && nIdCount == |order|
              && RenumbersEntries(t, infos, byAddr, vRandom, order, |order|)
              && RenumbersTried(t, tried, order, |order|)
              && forall i :: i in infos ==> (infos[i].fInTried <==> i >= nNew) && infos[i].nRefCount == 0
  {
    ghost var good := HoldsEntries(s, t, order) && TriedOk(h, t.key, t.infos, t.tried)
                      && nNew == t.nNew && nTried == t.nTried && key == t.key;
    nIdCount, infos, byAddr, vRandom := nNew, infos0, byAddr0, vRandom0;
    tried, nLost := seq(TRIED_BUCKET_COUNT, _ => []), 0;
    if good {
      NoTriedYet(h, t, order);
      EntriesKnown(t, infos, byAddr, vRandom, order, nNew);
    }
    hide RenumbersEntries;
    hide RenumbersTried;
    hide TriedOk;
    hide AddrOk;
    var n := 0;
    while n < nTried
      invariant 0 <= n && (n <= nTried || n == 0) && |tried| == TRIED_BUCKET_COUNT
      invariant good ==> nLost == 0 && nIdCount == nNew + n && |vRandom| == nIdCount
      invariant good ==> RenumbersEntries(t, infos, byAddr, vRandom, order, nIdCount)
      invariant good ==> RenumbersTried(t, tried, order, nIdCount)
      invariant good ==> forall i :: i in infos ==> (infos[i].fInTried <==> i >= nNew) && infos[i].nRefCount == 0
    {
      assert good ==> order[nIdCount] in t.infos && s[HEADER + nIdCount] == Entry(Save(t.infos[order[nIdCount]]));
      if HEADER + nNew + n < 0 || HEADER + nNew + n >= |s| || !s[HEADER + nNew + n].Entry? {
        ok := false;
        return;
      }
      var info := Restore(s[HEADER + nNew + n].e);
      var b := h.TriedBucket(key, info.svc);
      if good {
        TriedHome(h, t, order, nIdCount);
        RoomForTried(t, tried, order, nIdCount, b);
        TriedStep(h, t, tried, order, nIdCount, b);
        EntryStep(t, infos, byAddr, vRandom, order, nIdCount, s, info.(nRandomPos := |vRandom|, fInTried := true));
      }
      if |tried[b]| < TRIED_BUCKET_SIZE {
        info := info.(nRandomPos := |vRandom|, fInTried := true);
        vRandom := vRandom + [nIdCount];
        infos := infos[nIdCount := info];
        byAddr := byAddr[info.svc.net := nIdCount];
        tried := tried[b := tried[b] + [nIdCount]];
        nIdCount := nIdCount + 1;
      } else {
        nLost := nLost + 1;
      }
      n := n + 1;
    }
    ok := true;
  }

  lemma EntriesKnown(t: Tables, infos: Infos, byAddr: map<NetAddr, int>, vRandom: seq<int>, order: seq<int>, n: nat)
    requires RenumbersEntries(t, infos, byAddr, vRandom, order, n)
    ensures |vRandom| == n && forall i :: i in infos <==> 0 <= i < n
  {
  }

  lemma TriedHome(h: Hashing, t: Tables, order: seq<int>, n: nat)
    requires TriedOk(h, t.key, t.infos, t.tried) && Covers(t, order) && t.nNew <= n < |order|
    ensures var b := h.TriedBucket(t.key, t.infos[order[n]].svc);
            b < |t.tried| && order[n] in t.tried[b] && |t.tried[b]| <= TRIED_BUCKET_SIZE
  {
    var id := order[n];
    assert id in t.infos && t.infos[id].fInTried;
    assert id in t.tried[h.TriedBucket(t.key, t.infos[id].svc)];
  }

  lemma {:induction false} BucketsPrefix(order: seq<int>, news: seq<set<int>>, b: nat, n: nat)
    requires forall c, id :: 0 <= c < |news| && id in news[c] ==> id in order
    requires b <= n <= |news|
    ensures Buckets(order, news, b) <= Buckets(order, news, n)
    decreases n
  {
    if b < n {
      BucketsPrefix(order, news, b, n - 1);
    }
  }

  /** The items that bucket `b` adds. */
  lemma BucketItems(order: seq<int>, news: seq<set<int>>, b: nat)
    requires forall c, id :: 0 <= c < |news| && id in news[c] ==> id in order
    requires b < |news|
    ensures var all, off := Buckets(order, news, b + 1), |Buckets(order, news, b)|;
            && |all| == off + 1 + |news[b]| && HoldsBucket(all, off, order, news[b])
  {
    hide Places;
    var ids := Ascending(news[b]);
    AscendingElements(news[b]);
    var all, off, items := Buckets(order, news, b + 1), |Buckets(order, news, b)|, Indexes(order, ids);
    assert all == Buckets(order, news, b) + [Int(|news[b]|)] + items;
    assert all[off + 1..off + 1 + |ids|] == items;
    IndexesArePlaces(order, ids);
  }

  lemma IndexesArePlaces(order: seq<int>, ids: seq<int>)
    requires forall id :: id in ids ==> id in order
    ensures Places(order, ids, Indexes(order, ids))
  {
    forall k | 0 <= k < |ids|
      ensures ids[k] in order
    {
      assert ids[k] in ids;
    }
  }

  /** The stream continues at `pos` with bucket `b` of `t`. */
  ghost predicate HoldsBucket(s: seq<Item>, pos: nat, order: seq<int>, bucket: set<int>) {
    var ids := Ascending(bucket);
    && |ids| == |bucket| && Distinct(ids) && (forall x :: x in bucket <==> x in ids)
    && (forall x :: x in bucket ==> x in order)
    && pos + 1 + |ids| <= |s| && s[pos] == Int(|ids|)
    && Places(order, ids, s[pos + 1..pos + 1 + |ids|])
  }

  /** The counts of the entries after the occurrences met in the first `b` buckets and in `seen`. */
  ghost predicate Counted(t: Tables, order: seq<int>, infos0: Infos, infos: Infos, b: nat, seen: set<int>) {
    && b <= |t.news|
    && (forall i :: i in infos <==> 0 <= i < |order|) && (forall i :: i in infos0 <==> 0 <= i < |order|)
    && forall i :: 0 <= i < |order| ==> infos[i] == infos0[i].(nRefCount := Met(t.news, b, seen, order[i]))
  }

  ghost predicate ReadSoFar(order: seq<int>, bucket2: set<int>, seen: set<int>) {
    forall i :: i in bucket2 <==> 0 <= i < |order| && order[i] in seen
  }

  lemma CountStep(t: Tables, order: seq<int>, infos0: Infos, infos: Infos, b: nat, seen: set<int>,
                  bucket2: set<int>, id: int, i: int)
    requires Counted(t, order, infos0, infos, b, seen) && ReadSoFar(order, bucket2, seen) && Distinct(order)
    requires b < |t.news| && seen <= t.news[b] && id in t.news[b] && id !in seen
    requires 0 <= i < |order| && order[i] == id
    ensures i in infos && infos[i].nRefCount < |BucketsOf(t.news, id)|
    ensures Counted(t, order, infos0, infos[i := infos[i].(nRefCount := infos[i].nRefCount + 1)], b, seen + {id})
    ensures ReadSoFar(order, bucket2 + {i}, seen + {id})
  {
    MetAtMost(t.news, b, seen + {id}, id);
    forall j | 0 <= j < |order|
      ensures Met(t.news, b, seen + {id}, order[j]) == Met(t.news, b, seen, order[j]) + (if j == i then 1 else 0)
    {
    }
  }

  /** Bucket `b` of `t` is being read from `pos0`: its first `n` entries, the set `seen`, are in. */
  ghost predicate Reading(s: seq<Item>, pos0: nat, t: Tables, order: seq<int>, b: nat,
                          start: Infos, infos: Infos, bucket: set<int>, n: nat, seen: set<int>) {
    && b < |t.news| && HoldsBucket(s, pos0, order, t.news[b]) && Distinct(order)
    && (forall x :: x in t.news[b] ==> |BucketsOf(t.news, x)| <= NEW_BUCKETS_PER_ADDRESS)
    && n <= |t.news[b]| && seen <= t.news[b]
    && (forall k :: 0 <= k < |t.news[b]| ==> (Ascending(t.news[b])[k] in seen <==> k < n))
    && Counted(t, order, start, infos, b, seen) && ReadSoFar(order, bucket, seen)
  }

  lemma ReadingStep(s: seq<Item>, pos0: nat, t: Tables, order: seq<int>, b: nat,
                    start: Infos, infos: Infos, bucket: set<int>, n: nat, seen: set<int>)
    requires Reading(s, pos0, t, order, b, start, infos, bucket, n, seen) && n < |t.news[b]|
    ensures pos0 + 1 + n < |s| && s[pos0 + 1 + n].Int?
    ensures var i := s[pos0 + 1 + n].i;
            && i in infos && infos[i].nRefCount < NEW_BUCKETS_PER_ADDRESS
            && Reading(s, pos0, t, order, b, start, infos[i := infos[i].(nRefCount := infos[i].nRefCount + 1)],
                       bucket + {i}, n + 1, seen + {Ascending(t.news[b])[n]})
  {
    hide HoldsBucket;
    hide Counted;
    hide ReadSoFar;
    hide BucketsOf;
    hide Distinct;
    var ids := Ascending(t.news[b]);
    HeldItem(s, pos0, order, t.news[b], n);
    SeenStep(ids, n, seen);
    CountStep(t, order, start, infos, b, seen, bucket, ids[n], IndexOf(order, ids[n]));
  }

  lemma HeldItem(s: seq<Item>, pos: nat, order: seq<int>, bucket: set<int>, n: nat)
    requires HoldsBucket(s, pos, order, bucket) && n < |bucket|
    ensures var ids := Ascending(bucket);
            && |ids| == |bucket| && Distinct(ids) && ids[n] in bucket && ids[n] in order
            && pos + 1 + n < |s| && s[pos + 1 + n] == Int(IndexOf(order, ids[n]))
  {
    var ids := Ascending(bucket);
    assert ids[n] in ids;
    assert s[pos + 1 + n] == s[pos + 1..pos + 1 + |ids|][n];
  }

  lemma SeenStep(ids: seq<int>, n: nat, seen: set<int>)
    requires Distinct(ids) && n < |ids| && forall k :: 0 <= k < |ids| ==> (ids[k] in seen <==> k < n)
    ensures forall k :: 0 <= k < |ids| ==> (ids[k] in seen + {ids[n]} <==> k < n + 1)
  {
  }

  lemma ReadingStart(s: seq<Item>, pos0: nat, t: Tables, order: seq<int>, b: nat, start: Infos, infos: Infos)
    requires Reading(s, pos0, t, order, b, start, infos, {}, 0, {})
    ensures b < |t.news| && pos0 < |s| && s[pos0] == Int(|t.news[b]|) && |Ascending(t.news[b])| == |t.news[b]|
  {
  }

  lemma ReadingEnd(s: seq<Item>, pos0: nat, t: Tables, order: seq<int>, b: nat,
                   start: Infos, infos: Infos, bucket: set<int>, n: nat, seen: set<int>)
    requires Reading(s, pos0, t, order, b, start, infos, bucket, n, seen) && n == |t.news[b]|
    ensures Counted(t, order, start, infos, b + 1, {}) && RenumbersBucket(t.news[b], bucket, order)
  {
    forall x | x in t.news[b]
      ensures x in seen
    {
      assert x in Ascending(t.news[b]);
    }
    assert seen == t.news[b];
    forall i | 0 <= i < |order|
      ensures Met(t.news, b, t.news[b], order[i]) == Met(t.news, b + 1, {}, order[i])
    {
      MetNext(t.news, b, order[i]);
    }
  }

  /** One bucket: its size and then the new ids in it. An id that has no entry gets an empty one. */
  method ReadBucket(s: seq<Item>, pos0: nat, infos0: Infos, ghost t: Tables, ghost order: seq<int>, ghost start: Infos,
                    ghost b: nat)
    returns (ok: bool, pos: nat, infos: Infos, bucket: set<int>)
    ensures Reading(s, pos0, t, order, b, start, infos0, {}, 0, {}) ==>
              && ok && pos == pos0 + 1 + |t.news[b]|
              && Counted(t, order, start, infos, b + 1, {}) && RenumbersBucket(t.news[b], bucket, order)
  {
    hide Reading;
    hide RenumbersBucket;
    hide Counted;
    ghost var good := Reading(s, pos0, t, order, b, start, infos0, {}, 0, {});
    if good {
      ReadingStart(s, pos0, t, order, b, start, infos0);
    }
    infos, bucket, pos, ok := infos0, {}, pos0, false;
    if pos >= |s| || !s[pos].Int? {
      return;
    }
    var nSize := s[pos].i;
    pos := pos + 1;
    ghost var seen: set<int> := {};
    var n := 0;
    while n < nSize
      invariant 0 <= n && (n <= nSize || n == 0) && pos == pos0 + 1 + n
      invariant good ==> Reading(s, pos0, t, order, b, start, infos, bucket, n, seen)
    {
      if good {
        ReadingStep(s, pos0, t, order, b, start, infos, bucket, n, seen);
        seen := seen + {Ascending(t.news[b])[n]};
      }
      if pos >= |s| || !s[pos].Int? {
        return;
      }
      var nIndex := s[pos].i;
      pos := pos + 1;
      if nIndex !in infos {
        infos := infos[nIndex := Restore(Saved(Service(NetAddr(0), 0), 1, 100000000, NetAddr(0), 0, 0))];
      }
      if infos[nIndex].nRefCount < NEW_BUCKETS_PER_ADDRESS {
        infos := infos[nIndex := infos[nIndex].(nRefCount := infos[nIndex].nRefCount + 1)];
        bucket := bucket + {nIndex};
      }
      n := n + 1;
    }
    ok := true;
    if good {
      ReadingEnd(s, pos0, t, order, b, start, infos, bucket, n, seen);
    }
  }

  /** The buckets of `t` follow at `pos0`. */
  ghost predicate HoldsBuckets(s: seq<Item>, pos0: nat, t: Tables, order: seq<int>) {
    && Writable(t, order) && pos0 <= |s| && s[pos0..] == Buckets(order, t.news, |t.news|)
    && |t.news| == NEW_BUCKET_COUNT
    && (forall x :: x in t.infos ==> |BucketsOf(t.news, x)| <= NEW_BUCKETS_PER_ADDRESS)
  }

  lemma NextBucket(s: seq<Item>, pos0: nat, t: Tables, order: seq<int>, start: Infos, infos: Infos, b: nat)
    requires HoldsBuckets(s, pos0, t, order) && b < |t.news| && Counted(t, order, start, infos, b, {})
    ensures Reading(s, pos0 + |Buckets(order, t.news, b)|, t, order, b, start, infos, {}, 0, {})
    ensures |Buckets(order, t.news, b + 1)| == |Buckets(order, t.news, b)| + 1 + |t.news[b]|
  {
    hide HoldsBucket;
    hide Counted;
    hide Buckets;
    hide BucketsOf;
    BucketHeld(s, pos0, t, order, b);
    StartOfBucket(s, pos0 + |Buckets(order, t.news, b)|, order, t.news[b]);
  }

  lemma BucketHeld(s: seq<Item>, pos0: nat, t: Tables, order: seq<int>, b: nat)
    requires HoldsBuckets(s, pos0, t, order) && b < |t.news|
    ensures HoldsBucket(s, pos0 + |Buckets(order, t.news, b)|, order, t.news[b]) && Distinct(order)
    ensures |Buckets(order, t.news, b + 1)| == |Buckets(order, t.news, b)| + 1 + |t.news[b]|
  {
    hide HoldsBucket;
    hide Buckets;
    hide BucketsOf;
    assert forall c, id :: 0 <= c < |t.news| && id in t.news[c] ==> id in t.infos && id in order;
    var off := |Buckets(order, t.news, b)|;
    BucketItems(order, t.news, b);
    BucketsPrefix(order, t.news, b + 1, |t.news|);
    HeldFurther(s, pos0, Buckets(order, t.news, b + 1), off, order, t.news[b]);
  }

  lemma HeldFurther(s: seq<Item>, pos0: nat, part: seq<Item>, off: nat, order: seq<int>, bucket: set<int>)
    requires pos0 <= |s| && part <= s[pos0..] && HoldsBucket(part, off, order, bucket)
    ensures HoldsBucket(s, pos0 + off, order, bucket)
  {
    var n := |bucket|;
    assert part == s[pos0..pos0 + |part|];
    assert s[pos0 + off] == part[off];
    assert s[pos0 + off + 1..pos0 + off + 1 + n] == part[off + 1..off + 1 + n];
  }

  lemma StartOfBucket(s: seq<Item>, pos: nat, order: seq<int>, bucket: set<int>)
    requires HoldsBucket(s, pos, order, bucket)
    ensures forall k :: 0 <= k < |bucket| ==> Ascending(bucket)[k] in bucket
  {
    assert forall k :: 0 <= k < |bucket| ==> Ascending(bucket)[k] in Ascending(bucket);
  }

  /** The first b buckets are read, and the reader stands at `pos`. */
  ghost predicate AtBucket(s: seq<Item>, pos0: nat, t: Tables, order: seq<int>, start: Infos,
                           infos: Infos, news: seq<set<int>>, pos: nat, b: nat) {
    && HoldsBuckets(s, pos0, t, order) && Counted(t, order, start, infos, b, {})
    && |news| == |t.news| && pos == pos0 + |Buckets(order, t.news, b)|
    && forall c :: 0 <= c < b ==> RenumbersBucket(t.news[c], news[c], order)
  }

  lemma EnterBucket(s: seq<Item>, pos0: nat, t: Tables, order: seq<int>, start: Infos,
                    infos: Infos, news: seq<set<int>>, pos: nat, b: nat)
    requires AtBucket(s, pos0, t, order, start, infos, news, pos, b) && b < NEW_BUCKET_COUNT
    ensures b < |t.news| && Reading(s, pos, t, order, b, start, infos, {}, 0, {})
  {
    hide Reading;
    hide Counted;
    NextBucket(s, pos0, t, order, start, infos, b);
  }

  lemma LeaveBucket(s: seq<Item>, pos0: nat, t: Tables, order: seq<int>, start: Infos,
                    infos: Infos, news: seq<set<int>>, pos: nat, b: nat, infos': Infos, bucket: set<int>)
    requires AtBucket(s, pos0, t, order, start, infos, news, pos, b) && b < |t.news|
    requires Counted(t, order, start, infos', b + 1, {}) && RenumbersBucket(t.news[b], bucket, order)
    ensures |news| == |t.news|
    ensures AtBucket(s, pos0, t, order, start, infos', news[b := bucket], pos + 1 + |t.news[b]|, b + 1)
  {
    hide Reading;
    hide RenumbersBucket;
    NextBucket(s, pos0, t, order, start, infos, b);
    hide Counted;
  }

  /** All buckets. */
  method ReadBuckets(s: seq<Item>, pos0: nat, infos0: Infos, ghost t: Tables, ghost order: seq<int>)
    returns (ok: bool, infos: Infos, news: seq<set<int>>)
    ensures HoldsBuckets(s, pos0, t, order) && Counted(t, order, infos0, infos0, 0, {}) ==>
              && ok && Counted(t, order, infos0, infos, |t.news|, {})
              && |news| == |t.news| && forall b :: 0 <= b < |news| ==> RenumbersBucket(t.news[b], news[b], order)
  {
    ghost var good := HoldsBuckets(s, pos0, t, order) && Counted(t, order, infos0, infos0, 0, {});
    infos, news, ok := infos0, seq(NEW_BUCKET_COUNT, _ => {}), false;
    var pos := pos0;
    if good {
      FirstBucket(s, pos0, t, order, infos0, news);
    }
    hide AtBucket;
    hide HoldsBuckets;
    hide Reading;
    hide Counted;
    hide RenumbersBucket;
    for b := 0 to NEW_BUCKET_COUNT
      invariant |news| == NEW_BUCKET_COUNT
      invariant good ==> AtBucket(s, pos0, t, order, infos0, infos, news, pos, b)
    {
      ghost var before, from := infos, pos;
      if good {
        EnterBucket(s, pos0, t, order, infos0, infos, news, pos, b);
      }
      var more, bucket;
      more, pos, infos, bucket := ReadBucket(s, pos, infos, t, order, infos0, b);
      if !more {
        return;
      }
      if good {
        LeaveBucket(s, pos0, t, order, infos0, before, news, from, b, infos, bucket);
      }
      news := news[b := bucket];
    }
    ok := true;
    if good {
      LastBucket(s, pos0, t, order, infos0, infos, news, pos);
    }
  }

  lemma FirstBucket(s: seq<Item>, pos0: nat, t: Tables, order: seq<int>, start: Infos, news: seq<set<int>>)
    requires HoldsBuckets(s, pos0, t, order) && Counted(t, order, start, start, 0, {}) && |news| == NEW_BUCKET_COUNT
    ensures AtBucket(s, pos0, t, order, start, start, news, pos0, 0)
  {
    hide Counted;
  }

  lemma LastBucket(s: seq<Item>, pos0: nat, t: Tables, order: seq<int>, start: Infos,
                   infos: Infos, news: seq<set<int>>, pos: nat)
    requires AtBucket(s, pos0, t, order, start, infos, news, pos, NEW_BUCKET_COUNT)
    ensures Counted(t, order, start, infos, |t.news|, {})
    ensures |news| == |t.news| && forall b :: 0 <= b < |news| ==> RenumbersBucket(t.news[b], news[b], order)
  {
    hide Counted;
    hide RenumbersBucket;
  }

  /** The stream is what is written for the consistent tables `t`. */
  ghost predicate IsWriting(h: Hashing, t: Tables, order: seq<int>, s: seq<Item>) {
    Consistent(h, t) && Writable(t, order) && s == Written(t, order)
  }

  lemma WritingParts(h: Hashing, t: Tables, order: seq<int>, s: seq<Item>)
    requires IsWriting(h, t, order, s)
    ensures |s| >= HEADER && s[0] == Version(0) && s[1] == Bytes(t.key) && s[2] == Int(t.nNew)
    ensures s[3] == Int(t.nTried) && s[4] == Int(NEW_BUCKET_COUNT)
    ensures HoldsEntries(s, t, order) && TriedOk(h, t.key, t.infos, t.tried)
    ensures HEADER + t.nNew + t.nTried == HEADER + |order| && HoldsBuckets(s, HEADER + |order|, t, order)
  {
    var entries := Entries(t.infos, order);
    assert |entries| == |order|;
    forall i | 0 <= i < |order|
      ensures s[HEADER + i] == Entry(Save(t.infos[order[i]]))
    {
      assert s[HEADER + i] == entries[i];
    }
    forall x | x in t.infos
      ensures |BucketsOf(t.news, x)| <= NEW_BUCKETS_PER_ADDRESS
    {
      assert RefOk(t.infos[x], t.news, x, NOBODY);
      if t.infos[x].fInTried {
        assert BucketsOf(t.news, x) == {};
      }
    }
  }

  lemma NothingCounted(t: Tables, order: seq<int>, infos: Infos)
    requires forall i :: i in infos <==> 0 <= i < |order|
    requires forall i :: i in infos ==> infos[i].nRefCount == 0
    ensures Counted(t, order, infos, infos, 0, {})
  {
    forall i | 0 <= i < |order|
      ensures Met(t.news, 0, {}, order[i]) == 0
    {
      assert BucketsOf(t.news[..0], order[i]) == {};
    }
  }

  lemma CountedAll(h: Hashing, t: Tables, order: seq<int>, infos1: Infos, infos: Infos, i: int)
    requires Consistent(h, t) && Covers(t, order) && Counted(t, order, infos1, infos, |t.news|, {})
    requires 0 <= i < |order|
    ensures order[i] in t.infos && i in infos && i in infos1
    ensures infos[i] == infos1[i].(nRefCount := t.infos[order[i]].nRefCount)
  {
    var id := order[i];
    assert id in t.infos;
    assert RefOk(t.infos[id], t.news, id, NOBODY);
    assert t.news[..|t.news|] == t.news;
  }

  lemma ReadBack(h: Hashing, t: Tables, order: seq<int>, infos1: Infos, t2: Tables)
    requires Consistent(h, t) && Covers(t, order) && t2.key == t.key && t2.nIdCount == |order|
    requires t2.nTried == t.nTried && t2.nNew == t.nNew
    requires RenumbersEntries(t, infos1, t2.byAddr, t2.order, order, |order|)
    requires forall i :: i in infos1 ==> (infos1[i].fInTried <==> i >= t.nNew) && infos1[i].nRefCount == 0
    requires RenumbersTried(t, t2.tried, order, |order|)
    requires Counted(t, order, infos1, t2.infos, |t.news|, {})
    requires |t2.news| == |t.news| && forall b :: 0 <= b < |t.news| ==> RenumbersBucket(t.news[b], t2.news[b], order)
    ensures Renumbers(t, t2, order)
  {
    forall i | 0 <= i < |order|
      ensures i in infos1 && i in t2.infos && order[i] in t.infos
      ensures t2.infos[i] == infos1[i].(nRefCount := t.infos[order[i]].nRefCount)
      ensures t2.infos[i].fInTried == t.infos[order[i]].fInTried
    {
      CountedAll(h, t, order, infos1, t2.infos, i);
    }
    hide ConsistentBut;
    hide RenumbersTried;
    hide RenumbersBucket;
    assert RenumbersEntries(t, t2.infos, t2.byAddr, t2.order, order, |order|) by {
      forall i | 0 <= i < |order|
        ensures Reloads(t.infos[order[i]], t2.infos[i], i)
      {
        assert Reloads(t.infos[order[i]], infos1[i], i);
      }
    }
  }

  /** The whole reader. Reading what was written for `t` succeeds and gives `t` with renumbered entries. */
  method Read(m: Manager, s: seq<Item>, ghost t: Tables, ghost order: seq<int>) returns (ok: bool)
    modifies m
    ensures IsWriting(m.hashing, t, order, s) ==> ok && Renumbers(t, m.State(), order)
  {
    hide IsWriting;
    hide HoldsEntries;
    hide HoldsBuckets;
    hide TriedOk;
    hide Covers;
    hide RenumbersEntries;
    hide RenumbersTried;
    hide RenumbersBucket;
    hide Renumbers;
    hide Counted;
    hide ConsistentBut;
    ghost var good := IsWriting(m.hashing, t, order, s);
    if good {
      WritingParts(m.hashing, t, order, s);
      WritingIsConsistent(m.hashing, t, order, s);
      OrderSize(t, order);
    }
    if |s| < HEADER || !s[0].Version? || !s[1].Bytes? || !s[2].Int? || !s[3].Int? || !s[4].Int? {
      return false;
    }
    m.nKey, m.nNew, m.nTried := s[1].key, s[2].i, s[3].i;
    if s[4].i != NEW_BUCKET_COUNT || m.nNew < 0 || m.nTried < 0 {
      return false;
    }
    var nLost, infos1;
    ok, m.mapInfo, m.mapAddr, m.vRandom := ReadNew(s, m.nNew, t, order);
    if !ok {
      return;
    }
    ok, nLost, m.nIdCount, m.mapInfo, m.mapAddr, m.vRandom, m.vvTried :=
      ReadTried(m.hashing, m.nKey, s, m.nNew, m.nTried, m.mapInfo, m.mapAddr, m.vRandom, t, order);
    if !ok {
      return;
    }
    var pos := HEADER + m.nNew + m.nTried;
    m.nTried := m.nTried - nLost;
    infos1 := m.mapInfo;
    if good {
      EntriesKnown(t, infos1, m.mapAddr, m.vRandom, order, |order|);
      NothingCounted(t, order, infos1);
    }
    ok, m.mapInfo, m.vvNew := ReadBuckets(s, pos, m.mapInfo, t, order);
    if good {
      ReadBack(m.hashing, t, order, infos1, m.State());
    }
  }

  lemma OrderSize(t: Tables, order: seq<int>)
    requires Covers(t, order)
    ensures |order| == t.nNew + t.nTried && t.nNew >= 0 && t.nTried >= 0
  {
  }

  lemma WritingIsConsistent(h: Hashing, t: Tables, order: seq<int>, s: seq<Item>)
    requires IsWriting(h, t, order, s)
    ensures Consistent(h, t) && Covers(t, order)
  {
  }

  /** Writing a manager and reading it into another one: the other is consistent, and equal to the
      first up to the numbering of entries and what depends on it. In particular no tried entry is
      lost, whatever the other manager held before. */
  method RoundTrip(m: Manager, m2: Manager) returns (ok: bool)
    requires m.Valid() && m != m2 && m2.hashing == m.hashing
    modifies m2
    ensures ok && m2.Valid()
    ensures Renumbers(m.State(), m2.State(), Order(m.mapInfo)) && Covers(m.State(), Order(m.mapInfo))
    ensures TimesOk(m.mapInfo) ==> TimesOk(m2.mapInfo)
  {
    hide ConsistentBut;
    hide Covers;
    hide Renumbers;
    ghost var t, order := m.State(), Order(m.mapInfo);
    var s := Write(m);
    assert IsWriting(m.hashing, t, order, s);
    ok := Read(m2, s, t, order);
    RenumberedIsConsistent(m.hashing, t, m2.State(), order);
  }
}
