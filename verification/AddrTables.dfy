/** The data of the stochastic address manager as plain values: entries, the five
    indexes over them, and the invariant that ties the indexes together.
    The mutable object is in AddrMan.dfy. */
module AddrTables {
  import opened Common

  const TRIED_BUCKET_COUNT: nat := 64
  const TRIED_BUCKET_SIZE: nat := 64
  const NEW_BUCKET_COUNT: nat := 256
  const NEW_BUCKET_SIZE: nat := 64
  const NEW_BUCKETS_PER_ADDRESS: nat := 4
  const TRIED_ENTRIES_INSPECT_ON_EVICT: nat := 4
  const HORIZON_DAYS: int := 30
  const RETRIES: int := 3
  const MAX_FAILURES: int := 10
  const MIN_FAIL_DAYS: int := 7
  const GETADDR_MAX_PCT: int := 23
  const GETADDR_MAX: int := 2500
  const SECONDS_PER_DAY: int := 24 * 60 * 60
  const UINT32: int := 0x1_0000_0000

  type Key = seq<bv8>
  datatype NetAddr = NetAddr(ip: nat)
  datatype Service = Service(net: NetAddr, port: nat)

  /** An announced address: a service, its service bits and the time it was last seen. */
  datatype Address = Address(svc: Service, services: bv64, nTime: int)

  datatype Info = Info(
    svc: Service,
    services: bv64,
    nTime: int,
    nLastTry: int,
    source: NetAddr,
    nLastSuccess: int,
    nAttempts: int,
    nRefCount: int,
    fInTried: bool,
    nRandomPos: int)

  /** Keyed hashing of an entry into a bucket number; any pair of functions will do. */
  datatype Hashing = Hashing(triedHash: (Key, Service) -> nat, newHash: (Key, NetAddr, NetAddr) -> nat)
  {
    function TriedBucket(key: Key, svc: Service): (b: nat)
      ensures b < TRIED_BUCKET_COUNT
    {
      triedHash(key, svc) % TRIED_BUCKET_COUNT
    }

    function NewBucket(key: Key, net: NetAddr, source: NetAddr): (b: nat)
      ensures b < NEW_BUCKET_COUNT
    {
      newHash(key, net, source) % NEW_BUCKET_COUNT
    }
  }

  type Infos = map<int, Info>

  /** Everything an address manager holds. */
  datatype Tables = Tables(
    key: Key,
    nIdCount: int,
    infos: Infos,
    byAddr: map<NetAddr, int>,
    order: seq<int>,
    nTried: int,
    tried: seq<seq<int>>,
    nNew: int,
    news: seq<set<int>>)

  /** Entries bad enough to be dropped when their bucket is full. */
  predicate IsTerrible(info: Info, nNow: int) {
    if info.nLastTry != 0 && info.nLastTry >= nNow - 60 then false
    else
      || info.nTime > nNow + 10 * 60
      || info.nTime == 0 || nNow - info.nTime > HORIZON_DAYS * SECONDS_PER_DAY
      || (info.nLastSuccess == 0 && info.nAttempts >= RETRIES)
      || (nNow - info.nLastSuccess > MIN_FAIL_DAYS * SECONDS_PER_DAY && info.nAttempts >= MAX_FAILURES)
  }

  // ---------------------------------------------------------------- the invariant

  ghost function TriedIds(infos: Infos): set<int> {
    set id | id in infos && infos[id].fInTried
  }

  ghost function NewIds(infos: Infos): set<int> {
    set id | id in infos && !infos[id].fInTried
  }

  /** The new buckets that hold `id`. */
  ghost function BucketsOf(news: seq<set<int>>, id: int): set<int> {
    set b | 0 <= b < |news| && id in news[b]
  }

  ghost predicate Distinct(s: seq<int>) {
    forall i, j :: 0 <= i < j < |s| ==> s[i] != s[j]
  }

  ghost predicate IdsOk(infos: Infos, nIdCount: int) {
    nIdCount >= 0 && forall id :: id in infos ==> 0 <= id < nIdCount
  }

  /** `order` and the entries' positions in it are inverse to each other. */
  ghost predicate RandomOk(infos: Infos, order: seq<int>) {
    && (forall id :: id in infos ==> 0 <= infos[id].nRandomPos < |order| && order[infos[id].nRandomPos] == id)
    && (forall i :: 0 <= i < |order| ==> order[i] in infos && infos[order[i]].nRandomPos == i)
  }

  /** The address index and the entries' addresses are inverse to each other. */
  ghost predicate AddrOk(infos: Infos, byAddr: map<NetAddr, int>) {
    && (forall id :: id in infos ==> infos[id].svc.net in byAddr && byAddr[infos[id].svc.net] == id)
    && (forall a :: a in byAddr ==> byAddr[a] in infos && infos[byAddr[a]].svc.net == a)
  }

  /** Tried buckets are bounded, without repetition, hold tried entries only, and each
      tried entry sits in the bucket its hash selects. */
  ghost predicate TriedOk(h: Hashing, key: Key, infos: Infos, tried: seq<seq<int>>) {
    && |tried| == TRIED_BUCKET_COUNT
    && (forall b :: 0 <= b < |tried| ==> |tried[b]| <= TRIED_BUCKET_SIZE && Distinct(tried[b]))
    && (forall b, id :: 0 <= b < |tried| && id in tried[b] ==>
          id in infos && infos[id].fInTried && h.TriedBucket(key, infos[id].svc) == b)
    && (forall id :: id in infos && infos[id].fInTried ==> id in tried[h.TriedBucket(key, infos[id].svc)])
  }

  /** New buckets are bounded and hold entries that are not tried. */
  ghost predicate NewOk(infos: Infos, news: seq<set<int>>) {
    && |news| == NEW_BUCKET_COUNT
    && (forall b :: 0 <= b < |news| ==> |news[b]| <= NEW_BUCKET_SIZE)
    && (forall b, id :: 0 <= b < |news| && id in news[b] ==> id in infos && !infos[id].fInTried)
  }

  /** The reference count is the number of new buckets holding the entry, one more for the
      entry `pending` that is about to be put into one. Untried entries have 1 to 4. */
  ghost predicate RefOk(info: Info, news: seq<set<int>>, id: int, pending: int) {
    && info.nRefCount == |BucketsOf(news, id)| + (if id == pending then 1 else 0)
    && (info.fInTried || 1 <= info.nRefCount <= NEW_BUCKETS_PER_ADDRESS)
  }

  ghost predicate RefsOk(infos: Infos, news: seq<set<int>>, pending: int) {
    forall id :: id in infos ==> RefOk(infos[id], news, id, pending)
  }

  const NOBODY: int := -1

  ghost predicate ConsistentBut(h: Hashing, t: Tables, pending: int) {
    && IdsOk(t.infos, t.nIdCount)
    && RandomOk(t.infos, t.order)
    && AddrOk(t.infos, t.byAddr)
    && TriedOk(h, t.key, t.infos, t.tried)
    && NewOk(t.infos, t.news)
    && RefsOk(t.infos, t.news, pending)
    && t.nTried == |TriedIds(t.infos)|
    && t.nNew == |NewIds(t.infos)|
  }

  ghost predicate Consistent(h: Hashing, t: Tables) {
    ConsistentBut(h, t, NOBODY)
  }

  /** The conditions on times that hold when the manager is only ever given positive times. */
  ghost predicate TimesOk(infos: Infos) {
    forall id :: id in infos ==>
      && infos[id].nLastTry >= 0
      && infos[id].nLastSuccess >= 0
      && (infos[id].fInTried ==> infos[id].nLastSuccess != 0)
  }

  /** Same entries up to their positions in the random order. */
  ghost predicate SameButPos(m: Infos, m': Infos) {
    && m'.Keys == m.Keys
    && forall id :: id in m ==> m'[id] == m[id].(nRandomPos := m'[id].nRandomPos)
  }

  // ---------------------------------------------------------------- swap and removal

  function Swapped(s: seq<int>, i: nat, j: nat): (r: seq<int>)
    requires i < |s| && j < |s|
    ensures |r| == |s| && r[i] == s[j] && r[j] == s[i]
    ensures forall k :: 0 <= k < |s| && k != i && k != j ==> r[k] == s[k]
  {
    s[i := s[j]][j := s[i]]
  }

  lemma SwappedIsPermutation(s: seq<int>, i: nat, j: nat)
    requires i < |s| && j < |s|
    ensures multiset(Swapped(s, i, j)) == multiset(s)
  {
  }

  lemma SwapKeepsDistinct(s: seq<int>, i: nat, j: nat)
    requires i < |s| && j < |s| && Distinct(s)
    ensures Distinct(Swapped(s, i, j))
    ensures forall x :: x in Swapped(s, i, j) <==> x in s
  {
    SwappedIsPermutation(s, i, j);
    forall x
      ensures x in Swapped(s, i, j) <==> x in s
    {
      assert x in multiset(Swapped(s, i, j)) <==> x in multiset(s);
    }
  }

  lemma PositionsNotInBuckets(h: Hashing, t: Tables, m: Infos)
    requires SameButPos(t.infos, m)
    requires TriedOk(h, t.key, t.infos, t.tried) && NewOk(t.infos, t.news)
    ensures TriedOk(h, t.key, m, t.tried) && NewOk(m, t.news)
    ensures TriedIds(m) == TriedIds(t.infos) && NewIds(m) == NewIds(t.infos)
  {
    assert forall id :: id in t.infos ==> m[id].fInTried == t.infos[id].fInTried && m[id].svc == t.infos[id].svc;
  }

  /** Nothing in the invariant but the random order looks at positions. */
  lemma PositionsAreIndependent(h: Hashing, t: Tables, t': Tables, pending: int)
    requires ConsistentBut(h, t, pending)
    requires SameButPos(t.infos, t'.infos) && RandomOk(t'.infos, t'.order)
    requires t' == t.(infos := t'.infos, order := t'.order)
    ensures ConsistentBut(h, t', pending)
  {
    PositionsNotInBuckets(h, t, t'.infos);
  }

  /** An index set determines its size: as many entries as positions. */
  lemma RandomOkSize(infos: Infos, order: seq<int>)
    requires RandomOk(infos, order)
    ensures |order| == |infos.Keys|
  {
    DistinctSize(order);
    forall id | id in infos
      ensures id in order
    {
      assert order[infos[id].nRandomPos] == id;
    }
    assert (set x | x in order) == infos.Keys;
  }

  lemma {:induction false} DistinctSize(s: seq<int>)
    requires Distinct(s)
    ensures |set x | x in s| == |s|
  {
    if s != [] {
      var n := |s| - 1;
      DistinctSize(s[..n]);
      assert (set x | x in s) == (set x | x in s[..n]) + {s[n]};
    }
  }

  lemma CountSplits(infos: Infos)
    ensures |TriedIds(infos)| + |NewIds(infos)| == |infos.Keys|
  {
    assert TriedIds(infos) + NewIds(infos) == infos.Keys;
    assert TriedIds(infos) !! NewIds(infos);
  }

  lemma TableSizes(h: Hashing, t: Tables, pending: int)
    requires ConsistentBut(h, t, pending)
    ensures |t.order| == t.nTried + t.nNew == |t.infos.Keys|
  {
    RandomOkSize(t.infos, t.order);
    CountSplits(t.infos);
  }

  // ---------------------------------------------------------------- reference counts

  lemma BucketsOfErase(news: seq<set<int>>, b: nat, x: int, id: int)
    requires b < |news|
    ensures BucketsOf(news[b := news[b] - {x}], id) ==
            if id == x then BucketsOf(news, id) - {b} else BucketsOf(news, id)
  {
  }

  lemma BucketsOfInsert(news: seq<set<int>>, b: nat, x: int, id: int)
    requires b < |news|
    ensures BucketsOf(news[b := news[b] + {x}], id) ==
            if id == x then BucketsOf(news, id) + {b} else BucketsOf(news, id)
  {
  }

  /** An untried entry of a consistent manager is in some new bucket. */
  lemma UntriedHasBucket(h: Hashing, t: Tables, id: int) returns (b: nat)
    requires Consistent(h, t) && id in t.infos && !t.infos[id].fInTried
    ensures b < NEW_BUCKET_COUNT && id in t.news[b]
  {
    assert t.infos[id].nRefCount == |BucketsOf(t.news, id)|;
    assert BucketsOf(t.news, id) != {};
    b :| b in BucketsOf(t.news, id);
  }

  // ---------------------------------------------------------------- dropping a reference

  function MoveTo(infos: Infos, id: int, pos: int): (r: Infos)
    requires id in infos
    ensures SameButPos(infos, r) && r[id].nRandomPos == pos
    ensures forall j :: j in infos && j != id ==> r[j] == infos[j]
  {
    infos[id := infos[id].(nRandomPos := pos)]
  }

  /** Two entries trade places in the random order. */
  function SwapPositions(t: Tables, i: nat, j: nat): Tables
    requires i < |t.order| && j < |t.order| && t.order[i] in t.infos && t.order[j] in t.infos
  {
    if i == j then t else
      t.(infos := MoveTo(MoveTo(t.infos, t.order[i], j), t.order[j], i), order := Swapped(t.order, i, j))
  }

  lemma SwapKeepsRandom(infos: Infos, order: seq<int>, i: nat, j: nat)
    requires RandomOk(infos, order) && i < |order| && j < |order| && i != j
    ensures RandomOk(MoveTo(MoveTo(infos, order[i], j), order[j], i), Swapped(order, i, j))
  {
    var infos' := MoveTo(MoveTo(infos, order[i], j), order[j], i);
    var order' := Swapped(order, i, j);
    assert order[i] != order[j];
    forall id | id in infos'
      ensures 0 <= infos'[id].nRandomPos < |order'| && order'[infos'[id].nRandomPos] == id
    {
      if id != order[i] && id != order[j] {
        assert infos'[id] == infos[id];
      }
    }
    forall k | 0 <= k < |order'|
      ensures order'[k] in infos' && infos'[order'[k]].nRandomPos == k
    {
      if k != i && k != j {
        assert order'[k] == order[k];
      }
    }
  }

  lemma SwapPositionsKeeps(h: Hashing, t: Tables, i: nat, j: nat, pending: int)
    requires ConsistentBut(h, t, pending) && i < |t.order| && j < |t.order|
    ensures t.order[i] in t.infos && t.order[j] in t.infos
    ensures SameButPos(t.infos, SwapPositions(t, i, j).infos)
    ensures ConsistentBut(h, SwapPositions(t, i, j), pending)
  {
    if i != j {
      SwapKeepsRandom(t.infos, t.order, i, j);
      PositionsAreIndependent(h, t, SwapPositions(t, i, j), pending);
    }
  }

  /** The last entry of the random order and `id`, all traces of which disappear. */
  function Removed(t: Tables, id: int): Tables
    requires id in t.infos && t.order != []
  {
    t.(infos := t.infos - {id}, byAddr := t.byAddr - {t.infos[id].svc.net}, order := t.order[..|t.order| - 1],
       nNew := t.nNew - 1)
  }

  lemma PopKeepsRandom(infos: Infos, order: seq<int>, id: int)
    requires RandomOk(infos, order) && id in infos && infos[id].nRandomPos == |order| - 1
    ensures RandomOk(infos - {id}, order[..|order| - 1])
  {
    var infos', order' := infos - {id}, order[..|order| - 1];
    forall j | j in infos'
      ensures 0 <= infos'[j].nRandomPos < |order'| && order'[infos'[j].nRandomPos] == j
    {
      assert infos'[j] == infos[j];
    }
    forall k | 0 <= k < |order'|
      ensures order'[k] in infos' && infos'[order'[k]].nRandomPos == k
    {
      assert order[k] in infos;
    }
  }

  lemma RemoveKeepsAddr(infos: Infos, byAddr: map<NetAddr, int>, id: int)
    requires AddrOk(infos, byAddr) && id in infos
    ensures AddrOk(infos - {id}, byAddr - {infos[id].svc.net})
  {
  }

  lemma RemoveKeepsTried(h: Hashing, t: Tables, id: int)
    requires TriedOk(h, t.key, t.infos, t.tried) && id in t.infos && !t.infos[id].fInTried
    ensures TriedOk(h, t.key, t.infos - {id}, t.tried)
    ensures TriedIds(t.infos - {id}) == TriedIds(t.infos)
    ensures NewIds(t.infos - {id}) == NewIds(t.infos) - {id}
  {
  }

  /** Taking away the last reference of `id`, which is last in the order, and the entry with it. */
  lemma RemovedKeeps(h: Hashing, t0: Tables, b: nat, id: int, pending: int)
    requires ConsistentBut(h, t0, pending) && b < |t0.news| && id in t0.news[b] && id != pending
    requires t0.infos[id].nRefCount == 1 && t0.infos[id].nRandomPos == |t0.order| - 1
    ensures ConsistentBut(h, Removed(t0.(news := t0.news[b := t0.news[b] - {id}]), id), pending)
  {
    var r := Removed(t0.(news := t0.news[b := t0.news[b] - {id}]), id);
    assert RefsOk(r.infos, r.news, pending) by {
      forall j | j in r.infos
        ensures BucketsOf(r.news, j) == BucketsOf(t0.news, j) && r.infos[j] == t0.infos[j]
      {
        BucketsOfErase(t0.news, b, id, j);
      }
    }
    RemoveKeepsNew(t0, b, id);
    RemoveKeepsTried(h, t0, id);
    RemoveKeepsAddr(t0.infos, t0.byAddr, id);
    PopKeepsRandom(t0.infos, t0.order, id);
  }

  lemma RemoveKeepsNew(t: Tables, b: nat, id: int)
    requires NewOk(t.infos, t.news) && b < |t.news| && id in t.news[b] && |BucketsOf(t.news, id)| == 1
    ensures NewOk(t.infos - {id}, t.news[b := t.news[b] - {id}])
  {
    OnlyBucket(t, b, id);
    SubsetSize(t.news[b] - {id}, t.news[b]);
  }

  lemma OnlyBucket(t: Tables, b: nat, id: int)
    requires b < |t.news| && id in t.news[b] && |BucketsOf(t.news, id)| == 1
    ensures forall c :: 0 <= c < |t.news| && c != b ==> id !in t.news[c]
  {
    assert b in BucketsOf(t.news, id);
    forall c | 0 <= c < |t.news| && c != b
      ensures id !in t.news[c]
    {
      if id in t.news[c] {
        assert {b, c} <= BucketsOf(t.news, id);
        assert |{b, c}| == 2;
        SubsetSize({b, c}, BucketsOf(t.news, id));
      }
    }
  }

  /** Taking `id` out of new bucket `b`: the entry loses one reference and is deleted with the last. */
  function Unref(t: Tables, b: nat, id: int): Tables
    requires b < |t.news| && id in t.infos
    requires 0 <= t.infos[id].nRandomPos < |t.order| && t.order[t.infos[id].nRandomPos] == id
    requires t.order[|t.order| - 1] in t.infos
  {
    var info := t.infos[id];
    if info.nRefCount == 1 then
      Removed(SwapPositions(t, info.nRandomPos, |t.order| - 1).(news := t.news[b := t.news[b] - {id}]), id)
    else
      t.(infos := t.infos[id := info.(nRefCount := info.nRefCount - 1)], news := t.news[b := t.news[b] - {id}])
  }

  ghost predicate Unrefable(t: Tables, b: nat, id: int) {
    && b < |t.news| && id in t.news[b] && id in t.infos
    && 0 <= t.infos[id].nRandomPos < |t.order| && t.order[t.infos[id].nRandomPos] == id
    && t.order[|t.order| - 1] in t.infos
  }

  /** Dropping a reference keeps the manager consistent, whether or not the entry goes. */
  lemma UnrefKeeps(h: Hashing, t: Tables, b: nat, id: int, pending: int)
    requires ConsistentBut(h, t, pending) && b < |t.news| && id in t.news[b] && id != pending
    ensures Unrefable(t, b, id)
    ensures ConsistentBut(h, Unref(t, b, id), pending)
  {
    if t.infos[id].nRefCount == 1 {
      LastRefKeeps(h, t, b, id, pending);
    } else {
      RefDropKeeps(h, t, b, id, pending);
    }
  }

  lemma LastRefKeeps(h: Hashing, t: Tables, b: nat, id: int, pending: int)
    requires ConsistentBut(h, t, pending) && RandomOk(t.infos, t.order) && Unrefable(t, b, id) && id != pending
    requires t.infos[id].nRefCount == 1
    ensures ConsistentBut(h, Unref(t, b, id), pending)
  {
    hide ConsistentBut;
    var pos, last := t.infos[id].nRandomPos, |t.order| - 1;
    SwapPositionsKeeps(h, t, pos, last, pending);
    SwapToLast(t, b, id);
    RemovedKeeps(h, SwapPositions(t, pos, last), b, id, pending);
  }

  /** Dropping a reference of one entry touches the others at most in their positions. */
  lemma UnrefEntries(t: Tables, b: nat, id: int)
    requires Unrefable(t, b, id)
    ensures var u := Unref(t, b, id);
            && u.infos.Keys <= t.infos.Keys && t.infos.Keys - {id} <= u.infos.Keys
            && (id in u.infos <==> t.infos[id].nRefCount != 1)
            && (id in u.infos ==> u.infos[id] == t.infos[id].(nRefCount := t.infos[id].nRefCount - 1))
            && forall j :: j in u.infos && j != id ==> u.infos[j] == t.infos[j].(nRandomPos := u.infos[j].nRandomPos)
  {
  }

  lemma SwapToLast(t: Tables, b: nat, id: int)
    requires Unrefable(t, b, id) && RandomOk(t.infos, t.order)
    ensures var u := SwapPositions(t, t.infos[id].nRandomPos, |t.order| - 1);
            && id in u.infos && u.infos[id] == t.infos[id].(nRandomPos := |t.order| - 1)
            && u.news == t.news && |u.order| == |t.order|
  {
  }

  /** Removing an entry whose count has just reached zero. */
  lemma UnrefLast(t: Tables, b: nat, id: int)
    requires Unrefable(t, b, id) && t.infos[id].nRefCount == 1
    ensures var u := t.(infos := t.infos[id := t.infos[id].(nRefCount := 0)]);
            var pos, last := t.infos[id].nRandomPos, |t.order| - 1;
            && u.order[last] in u.infos
            && Unref(t, b, id) == Removed(SwapPositions(u, pos, last), id).(news := t.news[b := t.news[b] - {id}])
  {
    var pos, last := t.infos[id].nRandomPos, |t.order| - 1;
    var u := t.(infos := t.infos[id := t.infos[id].(nRefCount := 0)]);
    RemovalForgets(t.infos, id, t.infos[id].(nRefCount := 0), last, t.order[last], pos);
    assert SwapPositions(u, pos, last).infos - {id} == SwapPositions(t, pos, last).infos - {id};
    assert SwapPositions(u, pos, last).infos[id].svc == t.infos[id].svc;
    assert SwapPositions(t, pos, last).infos[id].svc == t.infos[id].svc;
  }

  /** A change to an entry that is then removed leaves no trace. */
  lemma RemovalForgets(infos: Infos, id: int, info: Info, pos: int, other: int, pos': int)
    requires id in infos && other in infos && info.nRandomPos == infos[id].nRandomPos
    ensures infos[id := info] - {id} == infos - {id}
    ensures MoveTo(MoveTo(infos[id := info], id, pos), other, pos') - {id} ==
            MoveTo(MoveTo(infos, id, pos), other, pos') - {id}
  {
    assert infos[id := info] - {id} == infos - {id};
  }

  lemma RefDropKeeps(h: Hashing, t: Tables, b: nat, id: int, pending: int)
    requires ConsistentBut(h, t, pending) && Unrefable(t, b, id) && id != pending
    requires t.infos[id].nRefCount != 1
    ensures ConsistentBut(h, Unref(t, b, id), pending)
  {
    var u := Unref(t, b, id);
    assert RefsOk(u.infos, u.news, pending) by {
      assert b in BucketsOf(t.news, id);
      forall j | j in u.infos
        ensures BucketsOf(u.news, j) == if j == id then BucketsOf(t.news, id) - {b} else BucketsOf(t.news, j)
      {
        BucketsOfErase(t.news, b, id, j);
      }
    }
    assert NewOk(u.infos, u.news) by {
      SubsetSize(t.news[b] - {id}, t.news[b]);
    }
    EntryUpdateKeeps(h, t, id, u.infos[id]);
  }

  /** Changing what an entry records about itself, but not where it is, disturbs no index. */
  lemma EntryUpdateKeeps(h: Hashing, t: Tables, id: int, info: Info)
    requires id in t.infos && IdsOk(t.infos, t.nIdCount) && RandomOk(t.infos, t.order) && AddrOk(t.infos, t.byAddr)
    requires TriedOk(h, t.key, t.infos, t.tried)
    requires info.svc == t.infos[id].svc && info.fInTried == t.infos[id].fInTried
    requires info.nRandomPos == t.infos[id].nRandomPos
    ensures var m := t.infos[id := info];
            IdsOk(m, t.nIdCount) && RandomOk(m, t.order) && AddrOk(m, t.byAddr) && TriedOk(h, t.key, m, t.tried)
    ensures TriedIds(t.infos[id := info]) == TriedIds(t.infos)
    ensures NewIds(t.infos[id := info]) == NewIds(t.infos)
  {
    TriedUpdateKeeps(h, t, id, info);
  }

  lemma TriedUpdateKeeps(h: Hashing, t: Tables, id: int, info: Info)
    requires id in t.infos && TriedOk(h, t.key, t.infos, t.tried)
    requires info.svc == t.infos[id].svc && info.fInTried == t.infos[id].fInTried
    ensures TriedOk(h, t.key, t.infos[id := info], t.tried)
  {
  }

  /** An update of statistics: the reference count too stays as it is. */
  lemma StatsUpdateKeeps(h: Hashing, t: Tables, id: int, info: Info)
    requires Consistent(h, t) && id in t.infos
    requires info.svc == t.infos[id].svc && info.fInTried == t.infos[id].fInTried
    requires info.nRandomPos == t.infos[id].nRandomPos && info.nRefCount == t.infos[id].nRefCount
    ensures Consistent(h, t.(infos := t.infos[id := info]))
  {
    EntryUpdateKeeps(h, t, id, info);
  }

  // ---------------------------------------------------------------- adding

  /** A fresh entry, in no bucket yet. */
  function Created(t: Tables, info: Info): Tables {
    t.(nIdCount := t.nIdCount + 1,
       infos := t.infos[t.nIdCount := info.(nRandomPos := |t.order|)],
       byAddr := t.byAddr[info.svc.net := t.nIdCount],
       order := t.order + [t.nIdCount],
       nNew := t.nNew + 1)
  }

  lemma CreatedKeeps(h: Hashing, t: Tables, info: Info)
    requires Consistent(h, t) && info.svc.net !in t.byAddr && !info.fInTried && info.nRefCount == 1
    ensures ConsistentBut(h, Created(t, info), t.nIdCount)
    ensures forall b :: 0 <= b < |t.news| ==> t.nIdCount !in t.news[b]
  {
    var id, e := t.nIdCount, info.(nRandomPos := |t.order|);
    CreateKeepsAddr(t.infos, t.byAddr, id, e);
    CreateKeepsTried(h, t, id, e);
    CreateKeepsNew(t.infos, t.news, id, e);
    CreateKeepsRandom(t.infos, t.order, id, e);
    CreateKeepsRefs(t.infos, t.news, id, e);
  }

  lemma CreateKeepsRefs(infos: Infos, news: seq<set<int>>, id: int, info: Info)
    requires IdsOk(infos, id) && NewOk(infos, news) && RefsOk(infos, news, NOBODY) && info.nRefCount == 1
    ensures RefsOk(infos[id := info], news, id)
  {
    assert id !in infos;
    assert BucketsOf(news, id) == {};
    forall j | j in infos
      ensures RefOk(infos[id := info][j], news, j, id)
    {
      assert RefOk(infos[j], news, j, NOBODY);
    }
  }

  lemma CreateKeepsRandom(infos: Infos, order: seq<int>, id: int, info: Info)
    requires RandomOk(infos, order) && id !in infos && info.nRandomPos == |order|
    ensures RandomOk(infos[id := info], order + [id])
  {
  }

  lemma CreateKeepsNew(infos: Infos, news: seq<set<int>>, id: int, info: Info)
    requires NewOk(infos, news) && id !in infos && !info.fInTried
    ensures NewOk(infos[id := info], news)
    ensures TriedIds(infos[id := info]) == TriedIds(infos)
    ensures NewIds(infos[id := info]) == NewIds(infos) + {id}
  {
  }

  lemma CreateKeepsAddr(infos: Infos, byAddr: map<NetAddr, int>, id: int, info: Info)
    requires AddrOk(infos, byAddr) && id !in infos && info.svc.net !in byAddr
    ensures AddrOk(infos[id := info], byAddr[info.svc.net := id])
  {
  }

  lemma CreateKeepsTried(h: Hashing, t: Tables, id: int, info: Info)
    requires TriedOk(h, t.key, t.infos, t.tried) && id !in t.infos && !info.fInTried
    ensures TriedOk(h, t.key, t.infos[id := info], t.tried)
  {
  }

  /** One more reference announced for an untried entry with fewer than four. */
  lemma RefRaiseKeeps(h: Hashing, t: Tables, id: int)
    requires Consistent(h, t) && id in t.infos && !t.infos[id].fInTried
    requires t.infos[id].nRefCount < NEW_BUCKETS_PER_ADDRESS
    ensures ConsistentBut(h, t.(infos := t.infos[id := t.infos[id].(nRefCount := t.infos[id].nRefCount + 1)]), id)
  {
    EntryUpdateKeeps(h, t, id, t.infos[id].(nRefCount := t.infos[id].nRefCount + 1));
  }

  /** Putting the announced entry into its bucket settles the account. */
  lemma InsertKeeps(h: Hashing, t: Tables, b: nat, id: int)
    requires ConsistentBut(h, t, id) && id in t.infos && !t.infos[id].fInTried
    requires b < |t.news| && id !in t.news[b] && |t.news[b]| < NEW_BUCKET_SIZE
    ensures Consistent(h, t.(news := t.news[b := t.news[b] + {id}]))
  {
    var r := t.(news := t.news[b := t.news[b] + {id}]);
    assert RefsOk(r.infos, r.news, NOBODY) by {
      forall j | j in r.infos
        ensures BucketsOf(r.news, j) == if j == id then BucketsOf(t.news, id) + {b} else BucketsOf(t.news, j)
      {
        BucketsOfInsert(t.news, b, id, j);
      }
    }
  }

  // ---------------------------------------------------------------- promotion to tried

  ghost function WithoutId(news: seq<set<int>>, id: int): (r: seq<set<int>>)
    ensures |r| == |news| && forall b :: 0 <= b < |news| ==> r[b] == news[b] - {id}
  {
    seq(|news|, b requires 0 <= b < |news| => news[b] - {id})
  }

  /** The entry `id` taken out of every new bucket and not counted anywhere. */
  ghost function Detached(t: Tables, id: int): Tables
    requires id in t.infos
  {
    t.(infos := t.infos[id := t.infos[id].(nRefCount := 0)], news := WithoutId(t.news, id), nNew := t.nNew - 1)
  }

  /** Consistent, except that the entry `id` is in no bucket and not counted as new. */
  ghost predicate HomelessOk(h: Hashing, t: Tables, id: int) {
    && id in t.infos && !t.infos[id].fInTried && t.infos[id].nRefCount == 0
    && IdsOk(t.infos, t.nIdCount) && RandomOk(t.infos, t.order) && AddrOk(t.infos, t.byAddr)
    && TriedOk(h, t.key, t.infos, t.tried)
    && NewOk(t.infos, t.news)
    && BucketsOf(t.news, id) == {}
    && (forall j :: j in t.infos && j != id ==> RefOk(t.infos[j], t.news, j, NOBODY))
    && t.nTried == |TriedIds(t.infos)|
    && t.nNew == |NewIds(t.infos)| - 1
  }

  lemma DetachedIsHomeless(h: Hashing, t: Tables, id: int)
    requires Consistent(h, t) && id in t.infos && !t.infos[id].fInTried
    ensures HomelessOk(h, Detached(t, id), id)
  {
    var d := Detached(t, id);
    EntryUpdateKeeps(h, t, id, d.infos[id]);
    DetachKeepsNew(t, id);
    forall j | j in d.infos && j != id
      ensures RefOk(d.infos[j], d.news, j, NOBODY)
    {
      assert RefOk(t.infos[j], t.news, j, NOBODY);
      assert BucketsOf(d.news, j) == BucketsOf(t.news, j);
    }
  }

  lemma DetachKeepsNew(t: Tables, id: int)
    requires NewOk(t.infos, t.news) && id in t.infos
    ensures NewOk(Detached(t, id).infos, WithoutId(t.news, id))
    ensures BucketsOf(WithoutId(t.news, id), id) == {}
  {
    forall b | 0 <= b < |t.news|
      ensures |WithoutId(t.news, id)[b]| <= NEW_BUCKET_SIZE
    {
      SubsetSize(t.news[b] - {id}, t.news[b]);
    }
  }

  /** The homeless entry appended to its tried bucket. */
  ghost function Placed(h: Hashing, t: Tables, id: int): Tables
    requires id in t.infos && |t.tried| == TRIED_BUCKET_COUNT
  {
    var k := h.TriedBucket(t.key, t.infos[id].svc);
    t.(infos := t.infos[id := t.infos[id].(fInTried := true)],
       tried := t.tried[k := t.tried[k] + [id]], nTried := t.nTried + 1)
  }

  lemma PlacedKeeps(h: Hashing, t: Tables, id: int)
    requires HomelessOk(h, t, id)
    requires |t.tried[h.TriedBucket(t.key, t.infos[id].svc)]| < TRIED_BUCKET_SIZE
    ensures Consistent(h, Placed(h, t, id))
  {
    var info := t.infos[id].(fInTried := true);
    PlaceKeepsTried(h, t, id);
    PlaceKeepsNew(t.infos, t.news, id, info);
    PlaceKeepsCounts(t.infos, id, info);
    PlaceKeepsIndexes(t, id, info);
  }

  lemma PlaceKeepsTried(h: Hashing, t: Tables, id: int)
    requires TriedOk(h, t.key, t.infos, t.tried) && id in t.infos && !t.infos[id].fInTried
    requires |t.tried[h.TriedBucket(t.key, t.infos[id].svc)]| < TRIED_BUCKET_SIZE
    ensures var p := Placed(h, t, id); TriedOk(h, t.key, p.infos, p.tried)
  {
  }

  lemma PlaceKeepsIndexes(t: Tables, id: int, info: Info)
    requires IdsOk(t.infos, t.nIdCount) && RandomOk(t.infos, t.order) && AddrOk(t.infos, t.byAddr)
    requires id in t.infos && info.svc == t.infos[id].svc && info.nRandomPos == t.infos[id].nRandomPos
    ensures var m := t.infos[id := info]; IdsOk(m, t.nIdCount) && RandomOk(m, t.order) && AddrOk(m, t.byAddr)
  {
  }

  lemma PlaceKeepsCounts(infos: Infos, id: int, info: Info)
    requires id in infos && !infos[id].fInTried && info.fInTried
    ensures |TriedIds(infos[id := info])| == |TriedIds(infos)| + 1
    ensures |NewIds(infos[id := info])| == |NewIds(infos)| - 1
  {
    assert TriedIds(infos[id := info]) == TriedIds(infos) + {id};
    assert NewIds(infos[id := info]) == NewIds(infos) - {id};
  }

  lemma PlaceKeepsNew(infos: Infos, news: seq<set<int>>, id: int, info: Info)
    requires NewOk(infos, news) && id in infos && BucketsOf(news, id) == {}
    ensures NewOk(infos[id := info], news)
  {
    assert forall b :: 0 <= b < |news| && id in news[b] ==> b in BucketsOf(news, id);
  }

  /** The homeless entry takes the place of position `pos` of its tried bucket, whose contents
      have been reordered to `bucket`; the evicted entry goes back to the new bucket `back`. */
  ghost function Evicted(h: Hashing, t: Tables, id: int, bucket: seq<int>, pos: nat, back: nat): Tables
    requires id in t.infos && |t.tried| == TRIED_BUCKET_COUNT && |t.news| == NEW_BUCKET_COUNT
    requires pos < |bucket| && bucket[pos] in t.infos && back < NEW_BUCKET_COUNT
  {
    var k := h.TriedBucket(t.key, t.infos[id].svc);
    var out := bucket[pos];
    t.(infos := t.infos[out := t.infos[out].(fInTried := false, nRefCount := 1)]
                       [id := t.infos[id].(fInTried := true)],
       tried := t.tried[k := bucket[pos := id]],
       news := t.news[back := t.news[back] + {out}],
       nNew := t.nNew + 1)
  }

  ghost predicate Evictable(h: Hashing, t: Tables, id: int, bucket: seq<int>, pos: nat, back: nat) {
    && |t.tried| == TRIED_BUCKET_COUNT && |t.news| == NEW_BUCKET_COUNT && id in t.infos
    && pos < |bucket|
    && multiset(bucket) == multiset(t.tried[h.TriedBucket(t.key, t.infos[id].svc)])
    && back < NEW_BUCKET_COUNT && |t.news[back]| < NEW_BUCKET_SIZE
  }

  lemma SameMembers(s: seq<int>, s': seq<int>)
    requires multiset(s) == multiset(s')
    ensures forall x :: x in s <==> x in s'
  {
    forall x
      ensures x in s <==> x in s'
    {
      assert x in multiset(s) <==> x in multiset(s');
    }
  }

  lemma PermutationFacts(s: seq<int>, s': seq<int>)
    requires multiset(s) == multiset(s')
    ensures |s| == |s'|
    ensures forall x :: x in s <==> x in s'
    ensures Distinct(s) ==> Distinct(s')
  {
    assert |multiset(s)| == |s| && |multiset(s')| == |s'|;
    SameMembers(s, s');
    if Distinct(s) {
      DistinctCounts(s);
      forall i, j | 0 <= i < j < |s'|
        ensures s'[i] != s'[j]
      {
        assert s' == s'[..i] + [s'[i]] + s'[i + 1..j] + [s'[j]] + s'[j + 1..];
        assert multiset(s')[s'[i]] <= 1;
      }
    }
  }

  lemma {:induction false} DistinctCounts(s: seq<int>)
    requires Distinct(s)
    ensures forall x :: multiset(s)[x] <= 1
  {
    if s != [] {
      var n := |s| - 1;
      DistinctCounts(s[..n]);
      assert s == s[..n] + [s[n]];
      assert s[n] !in multiset(s[..n]);
    }
  }

  lemma EvictedKeeps(h: Hashing, t: Tables, id: int, bucket: seq<int>, pos: nat, back: nat)
    requires HomelessOk(h, t, id) && Evictable(h, t, id, bucket, pos, back)
    ensures bucket[pos] in t.infos && t.infos[bucket[pos]].fInTried && bucket[pos] != id
    ensures Consistent(h, Evicted(h, t, id, bucket, pos, back))
  {
    var k := h.TriedBucket(t.key, t.infos[id].svc);
    PermutationFacts(t.tried[k], bucket);
    var out := bucket[pos];
    assert out in t.tried[k];
    var e := Evicted(h, t, id, bucket, pos, back);
    EvictKeepsTried(h, t, id, bucket, pos, back);
    EvictKeepsNew(h, t, id, bucket, pos, back);
    EvictKeepsCounts(h, t, id, bucket, pos, back);
    EvictKeepsIndexes(h, t, id, bucket, pos, back);
  }

  lemma EvictKeepsIndexes(h: Hashing, t: Tables, id: int, bucket: seq<int>, pos: nat, back: nat)
    requires IdsOk(t.infos, t.nIdCount) && RandomOk(t.infos, t.order) && AddrOk(t.infos, t.byAddr)
    requires Evictable(h, t, id, bucket, pos, back) && bucket[pos] in t.infos
    ensures var m := Evicted(h, t, id, bucket, pos, back).infos;
            IdsOk(m, t.nIdCount) && RandomOk(m, t.order) && AddrOk(m, t.byAddr)
  {
    var m := Evicted(h, t, id, bucket, pos, back).infos;
    assert m.Keys == t.infos.Keys;
    assert forall j :: j in m ==> m[j].svc == t.infos[j].svc && m[j].nRandomPos == t.infos[j].nRandomPos;
  }

  lemma EvictKeepsCounts(h: Hashing, t: Tables, id: int, bucket: seq<int>, pos: nat, back: nat)
    requires Evictable(h, t, id, bucket, pos, back) && bucket[pos] in t.infos
    requires t.infos[bucket[pos]].fInTried && !t.infos[id].fInTried
    ensures var m := Evicted(h, t, id, bucket, pos, back).infos;
            |TriedIds(m)| == |TriedIds(t.infos)| && |NewIds(m)| == |NewIds(t.infos)|
  {
    var m, out := Evicted(h, t, id, bucket, pos, back).infos, bucket[pos];
    assert TriedIds(m) == (TriedIds(t.infos) - {out}) + {id};
    assert NewIds(m) == (NewIds(t.infos) - {id}) + {out};
  }

  lemma ReplaceMembers(s: seq<int>, pos: nat, x: int)
    requires Distinct(s) && pos < |s|
    ensures forall j :: j in s[pos := x] <==> j == x || (j in s && j != s[pos])
    ensures x !in s ==> Distinct(s[pos := x])
  {
    forall j | j in s && j != s[pos]
      ensures j in s[pos := x]
    {
      var i :| 0 <= i < |s| && s[i] == j;
      assert s[pos := x][i] == j;
    }
    assert s[pos := x][pos] == x;
  }

  lemma EvictKeepsTried(h: Hashing, t: Tables, id: int, bucket: seq<int>, pos: nat, back: nat)
    requires TriedOk(h, t.key, t.infos, t.tried) && Evictable(h, t, id, bucket, pos, back)
    requires !t.infos[id].fInTried && bucket[pos] in t.infos
    ensures var e := Evicted(h, t, id, bucket, pos, back); TriedOk(h, t.key, e.infos, e.tried)
  {
    var k := h.TriedBucket(t.key, t.infos[id].svc);
    PermutationFacts(t.tried[k], bucket);
    var out := bucket[pos];
    assert out in t.tried[k];
    var e := Evicted(h, t, id, bucket, pos, back);
    ReplaceMembers(bucket, pos, id);
    forall b, j | 0 <= b < |e.tried| && j in e.tried[b]
      ensures j in e.infos && e.infos[j].fInTried && h.TriedBucket(t.key, e.infos[j].svc) == b
    {
      assert b != k ==> j in t.tried[b];
    }
    forall j | j in e.infos && e.infos[j].fInTried
      ensures j in e.tried[h.TriedBucket(t.key, e.infos[j].svc)]
    {
      assert j != id ==> j in t.tried[h.TriedBucket(t.key, t.infos[j].svc)];
    }
  }

  lemma EvictKeepsNew(h: Hashing, t: Tables, id: int, bucket: seq<int>, pos: nat, back: nat)
    requires IdsOk(t.infos, t.nIdCount) && NewOk(t.infos, t.news) && BucketsOf(t.news, id) == {}
    requires forall j :: j in t.infos && j != id ==> RefOk(t.infos[j], t.news, j, NOBODY)
    requires Evictable(h, t, id, bucket, pos, back)
    requires t.infos[id].nRefCount == 0 && bucket[pos] in t.infos && t.infos[bucket[pos]].fInTried && bucket[pos] != id
    ensures var e := Evicted(h, t, id, bucket, pos, back);
            NewOk(e.infos, e.news) && RefsOk(e.infos, e.news, NOBODY)
  {
    var e, out := Evicted(h, t, id, bucket, pos, back), bucket[pos];
    assert BucketsOf(t.news, out) == {};
    assert forall b :: 0 <= b < |t.news| && id in t.news[b] ==> b in BucketsOf(t.news, id);
    forall j | j in e.infos
      ensures RefOk(e.infos[j], e.news, j, NOBODY)
    {
      BucketsOfInsert(t.news, back, out, j);
      if j != id && j != out {
        assert RefOk(t.infos[j], t.news, j, NOBODY);
      }
    }
    assert BucketsOf(e.news, out) == {back};
  }
}
