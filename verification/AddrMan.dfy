/** The stochastic address manager as a mutable object. Every method says which function of
    the old tables its new tables are; the lemmas of AddrTables carry the invariant. */
module AddrMan {
  import opened AddrTables
  import opened Common

  // ---------------------------------------------------------------- what the operations may do

  /** Moving an untried entry to the tried table: appended if its bucket has room, otherwise in the
      place of one of the bucket's entries, which returns to its own new bucket or, when that is
      full, to the new bucket `origin` the promoted entry came from. */
  ghost predicate Promotes(h: Hashing, t: Tables, t': Tables, id: int, origin: nat) {
    && id in t.infos && |t.tried| == TRIED_BUCKET_COUNT
    && origin < |t.news| && id in t.news[origin]
    && var d := Detached(t, id);
    && if |t.tried[h.TriedBucket(t.key, t.infos[id].svc)]| < TRIED_BUCKET_SIZE then t' == Placed(h, d, id)
       else exists bucket: seq<int>, pos: nat :: EvictsTo(h, d, t', id, origin, bucket, pos)
  }

  ghost predicate EvictsTo(h: Hashing, d: Tables, t': Tables, id: int, origin: nat, bucket: seq<int>, pos: nat) {
    && pos < |bucket| && bucket[pos] in d.infos
    && |d.news| == NEW_BUCKET_COUNT
    && var home := h.NewBucket(d.key, d.infos[bucket[pos]].svc.net, d.infos[bucket[pos]].source);
    && var back := if |d.news[home]| < NEW_BUCKET_SIZE then home else origin;
    && Evictable(h, d, id, bucket, pos, back)
    && t' == Evicted(h, d, id, bucket, pos, back)
  }

  /** The statistics of an entry after a good connection. */
  ghost function Succeeded(info: Info, nTime: int): Info {
    info.(nLastSuccess := nTime, nLastTry := nTime, nTime := nTime % UINT32, nAttempts := 0)
  }

  /** The time recorded for a known entry after it was announced again. */
  ghost function SeenAfter(was: int, announced: int, nTimePenalty: int, nNow: int): int {
    var interval := if nNow - announced < SECONDS_PER_DAY then 60 * 60 else SECONDS_PER_DAY;
    if announced != 0 && (was == 0 || was < announced - interval - nTimePenalty)
    then Max(0, announced - nTimePenalty) % UINT32
    else was
  }

  /** The services of either. */
  function Joined(a: bv64, b: bv64): bv64 { a | b }

  /** A known entry after it was announced again. */
  ghost function Refreshed(info: Info, addr: Address, nTimePenalty: int, nNow: int): Info {
    info.(nTime := SeenAfter(info.nTime, addr.nTime, nTimePenalty, nNow), services :=
          Joined(info.services, addr.services))
  }

  /** A new entry as announced by `source`, already counting its first reference. */
  ghost function Announced(addr: Address, source: NetAddr, nTimePenalty: int): Info {
    Info(addr.svc, addr.services, Max(0, addr.nTime - nTimePenalty) % UINT32, 0, source, 0, 0, 1, false, -1)
  }

  /** What an announcement leaves of a known entry. The services announced are added. The time seen becomes that of
      the announcement less the penalty when the entry has none, or one more than an hour older; more than a day when
      the announcement itself is not of the last day. A reference can come on top only of a later announcement, for
      an untried entry with fewer than four. */
  ghost predicate AnnouncedAgain(was: Info, info: Info, addr: Address, nTimePenalty: int, nNow: int) {
    && info == was.(nTime := info.nTime, services := was.services | addr.services,
                    nRefCount := info.nRefCount, nRandomPos := info.nRandomPos)
    && (addr.nTime == 0 ==> info.nTime == was.nTime)
    && (addr.nTime != 0 ==>
          var margin := if nNow - addr.nTime < 86400 then 3600 else 86400;
          if was.nTime == 0 || addr.nTime - nTimePenalty - was.nTime > margin
          then IsSeenTime(info.nTime, addr.nTime, nTimePenalty)
          else info.nTime == was.nTime)
    && was.nRefCount <= info.nRefCount <= was.nRefCount + 1
    && (info.nRefCount > was.nRefCount ==>
          addr.nTime != 0 && (info.nTime == 0 || info.nTime < addr.nTime) && !was.fInTried && was.nRefCount < 4)
  }

  ghost predicate AnnouncedFirst(info: Info, addr: Address, source: NetAddr, nTimePenalty: int) {
    && info.svc == addr.svc && info.services == addr.services && info.source == source
    && IsSeenTime(info.nTime, addr.nTime, nTimePenalty)
    && info.nLastTry == info.nLastSuccess == info.nAttempts == 0 && info.nRefCount == 1 && !info.fInTried
  }

  /** The time announced less the penalty, zero at least, in 32 bits. */
  ghost predicate IsSeenTime(nTime: int, announced: int, nTimePenalty: int) {
    && 0 <= nTime < 0x1_0000_0000
    && (announced <= nTimePenalty ==> nTime == 0)
    && (announced > nTimePenalty ==> (announced - nTimePenalty - nTime) % 0x1_0000_0000 == 0)
  }

  lemma RefreshedIs(was: Info, info: Info, addr: Address, nTimePenalty: int, nNow: int)
    requires var r := Refreshed(was, addr, nTimePenalty, nNow);
             && info == r.(nRefCount := info.nRefCount, nRandomPos := info.nRandomPos)
             && r.nRefCount <= info.nRefCount <= r.nRefCount + 1
             && (info.nRefCount > r.nRefCount ==> !NoNews(r, addr) && r.nRefCount < 4)
    ensures AnnouncedAgain(was, info, addr, nTimePenalty, nNow)
  {
    SeenTime(addr.nTime, nTimePenalty);
  }

  lemma SeenTime(announced: int, nTimePenalty: int)
    ensures IsSeenTime(Max(0, announced - nTimePenalty) % UINT32, announced, nTimePenalty)
  {
  }

  lemma AnnouncedIs(info: Info, addr: Address, source: NetAddr, nTimePenalty: int)
    requires info == Announced(addr, source, nTimePenalty).(nRandomPos := info.nRandomPos)
    ensures AnnouncedFirst(info, addr, source, nTimePenalty)
  {
    SeenTime(addr.nTime, nTimePenalty);
  }

  /** Putting the announced entry `id` into new bucket `b`, after making room if the bucket is full. */
  ghost predicate Enters(t: Tables, t': Tables, id: int, b: nat, nNow: int) {
    && b < |t.news|
    && if |t.news[b]| != NEW_BUCKET_SIZE then t' == t.(news := t.news[b := t.news[b] + {id}])
       else exists x :: Displaces(t, t', id, b, nNow, x)
  }

  ghost predicate Displaces(t: Tables, t': Tables, id: int, b: nat, nNow: int, x: int) {
    && Unrefable(t, b, x) && Victim(t.infos, t.news[b], nNow, x)
    && var u := Unref(t, b, x);
    && t' == u.(news := u.news[b := u.news[b] + {id}])
  }

  /** Which entry of a full bucket goes: the first terrible one, if there is one, and otherwise one
      that is not more recently seen than any of the one to four entries drawn with it. */
  ghost predicate Victim(infos: Infos, bucket: set<int>, nNow: int, x: int) {
    && x in bucket && bucket <= infos.Keys
    && if exists y :: y in bucket && IsTerrible(infos[y], nNow)
       then IsTerrible(infos[x], nNow) && forall y :: y in bucket && y < x ==> !IsTerrible(infos[y], nNow)
       else exists drawn :: OldestOf(infos, bucket, drawn, x)
  }

  /** Tried within the last minute, or else seen within the last thirty days and not more than ten minutes ahead of
      the clock, with fewer than three attempts before the first success and fewer than ten in a week without one. */
  ghost predicate WorthKeeping(info: Info, nNow: int) {
    || (info.nLastTry != 0 && nNow - info.nLastTry <= 60)
    || (info.nTime != 0 && -600 <= nNow - info.nTime <= 2592000
        && (info.nLastSuccess == 0 ==> info.nAttempts < 3)
        && (nNow - info.nLastSuccess > 604800 ==> info.nAttempts < 10))
  }

  lemma WorthKeepingUnlessTerrible(nNow: int)
    ensures forall info :: IsTerrible(info, nNow) <==> !WorthKeeping(info, nNow)
  {
  }

  ghost predicate OldestOf(infos: Infos, bucket: set<int>, drawn: set<int>, x: int) {
    && x in drawn && drawn <= bucket <= infos.Keys && |drawn| <= 4
    && forall y :: y in drawn ==> infos[x].nTime <= infos[y].nTime
  }

  /** The entry recorded for exactly this service, if there is one. */
  ghost predicate Knows(t: Tables, addr: Service) {
    addr.net in t.byAddr && t.byAddr[addr.net] in t.infos && t.infos[t.byAddr[addr.net]].svc == addr
  }

  ghost function WithEntry(t: Tables, id: int, info: Info): Tables {
    t.(infos := t.infos[id := info])
  }

  ghost predicate GoodOutcome(h: Hashing, t: Tables, t': Tables, addr: Service, nTime: int) {
    if !Knows(t, addr) then t' == t
    else
      var id := t.byAddr[addr.net];
      var t1 := WithEntry(t, id, Succeeded(t.infos[id], nTime));
      if t.infos[id].fInTried then t' == t1
      else exists origin: nat :: Promotes(h, t1, t', id, origin)
  }

  /** An entry already known gets one more reference, unless its bucket for this source holds it. */
  ghost predicate References(h: Hashing, t: Tables, t': Tables, id: int, source: NetAddr, nNow: int)
    requires id in t.infos
  {
    var b := h.NewBucket(t.key, t.infos[id].svc.net, source);
    && b < |t.news|
    && if id in t.news[b] then t' == t
       else Enters(WithEntry(t, id, t.infos[id].(nRefCount := t.infos[id].nRefCount + 1)), t', id, b, nNow)
  }

  /** No news: nothing more recent is announced, or the entry has settled in the tried table, or it
      has all the references an entry may have. */
  ghost predicate NoNews(info: Info, addr: Address) {
    || addr.nTime == 0 || (info.nTime != 0 && addr.nTime <= info.nTime)
    || info.fInTried
    || info.nRefCount == NEW_BUCKETS_PER_ADDRESS
  }

  ghost predicate AddOutcome(h: Hashing, routable: NetAddr -> bool, t: Tables, t': Tables,
                             addr: Address, source: NetAddr, nTimePenalty: int, nNow: int, fNew: bool) {
    var net := addr.svc.net;
    if !routable(net) then t' == t && !fNew
    else if net in t.byAddr then
      var id := t.byAddr[net];
      && id in t.infos && !fNew
      && var t1 := WithEntry(t, id, Refreshed(t.infos[id], addr, nTimePenalty, nNow));
      && if NoNews(t1.infos[id], addr) then t' == t1
         else t' == t1 || References(h, t1, t', id, source, nNow)
    else
      var t1 := Created(t, Announced(addr, source, nTimePenalty));
      fNew && Enters(t1, t', t.nIdCount, h.NewBucket(t.key, net, source), nNow)
  }

  // ---------------------------------------------------------------- choosing a tried entry to evict

  /** One draw a round: in round i some place from i on. */
  ghost predicate Drawable(draws: seq<nat>, size: nat) {
    |draws| <= size && forall i :: 0 <= i < |draws| ==> i <= draws[i] < size
  }

  /** The bucket after the rounds: in round i the entry at the place drawn trades places with the one at i. */
  ghost function Shuffle(s: seq<int>, draws: seq<nat>): (b: seq<int>)
    requires Drawable(draws, |s|)
    ensures |b| == |s|
  {
    if draws == [] then s else
      var n := |draws| - 1;
      Swapped(Shuffle(s, draws[..n]), draws[n], n)
  }

  ghost predicate Inspectable(infos: Infos, s: seq<int>) {
    Distinct(s) && forall x :: x in s ==> x in infos && x != NOBODY
  }

  /** Round r met the first of the least recently successful among the first n entries of the bucket; in the
      shuffled bucket these are the n entries inspected, in order. */
  ghost predicate FirstLeast(infos: Infos, b: seq<int>, n: nat, r: nat) {
    && r < n <= |b| && (forall k :: 0 <= k < n ==> b[k] in infos)
    && (forall k :: 0 <= k < n ==> infos[b[r]].nLastSuccess <= infos[b[k]].nLastSuccess)
    && (forall k :: 0 <= k < r ==> infos[b[r]].nLastSuccess < infos[b[k]].nLastSuccess)
  }

  /** The entry at the position is one of those inspected, and none of them has gone longer without success. */
  ghost predicate IsOldestInspected(infos: Infos, b: seq<int>, n: nat, pos: nat)
    requires n <= |b| && pos < |b|
  {
    b[pos] in b[..n] && OldestAmong(infos, b[pos], b[..n])
  }

  ghost predicate OldestAmong(infos: Infos, x: int, s: seq<int>) {
    x in infos && forall y :: y in s ==> y in infos && infos[x].nLastSuccess <= infos[y].nLastSuccess
  }

  lemma {:induction false} ShuffleKeeps(infos: Infos, s: seq<int>, draws: seq<nat>)
    requires Drawable(draws, |s|) && Inspectable(infos, s)
    ensures multiset(Shuffle(s, draws)) == multiset(s) && Inspectable(infos, Shuffle(s, draws))
    decreases |draws|
  {
    if draws != [] {
      var n := |draws| - 1;
      ShuffleKeeps(infos, s, draws[..n]);
      SwapKeepsInspectable(infos, Shuffle(s, draws[..n]), draws[n], n);
    }
  }

  lemma SwapKeepsInspectable(infos: Infos, b: seq<int>, i: nat, j: nat)
    requires Inspectable(infos, b) && i < |b| && j < |b|
    ensures multiset(Swapped(b, i, j)) == multiset(b) && Inspectable(infos, Swapped(b, i, j))
  {
    SwapKeepsDistinct(b, i, j);
    SwappedIsPermutation(b, i, j);
  }

  lemma NothingDrawn(s: seq<int>)
    ensures Shuffle(s, []) == s
  {
  }

  lemma Known(infos: Infos, b: seq<int>, i: nat, j: nat)
    requires Inspectable(infos, b) && i < |b| && j < |b|
    ensures b[i] in infos && b[j] in infos && b[j] != NOBODY
  {
    assert b[i] in b && b[j] in b;
  }

  lemma ShuffleNext(s: seq<int>, draws: seq<nat>, p: nat)
    requires Drawable(draws, |s|) && |draws| <= p < |s|
    ensures Drawable(draws + [p], |s|) && Shuffle(s, draws + [p]) == Swapped(Shuffle(s, draws), p, |draws|)
  {
    assert (draws + [p])[..|draws|] == draws;
  }

  /** Round n: a better entry becomes the least, otherwise the least so far stays. */
  lemma InspectNext(infos: Infos, b: seq<int>, n: nat, p: nat, r: nat)
    requires Inspectable(infos, b) && n <= p < |b| && (n > 0 ==> FirstLeast(infos, b, n, r))
    ensures b[p] in infos && Swapped(b, p, n)[n] == b[p] && (n > 0 ==> Swapped(b, p, n)[r] == b[r])
    ensures if n == 0 || infos[b[p]].nLastSuccess < infos[b[r]].nLastSuccess
            then FirstLeast(infos, Swapped(b, p, n), n + 1, n)
            else FirstLeast(infos, Swapped(b, p, n), n + 1, r)
  {
  }

  /** The position SelectTried returns is the place drawn in the round that met the least recently successful
      entry inspected. After the shuffle it holds such an entry exactly when that draw left the entry where it
      was, or when the place was inspected too and what is there now has gone without success just as long. */
  lemma OldestSelectedExactlyWhen(infos: Infos, s: seq<int>, draws: seq<nat>, r: nat)
    requires Inspectable(infos, s) && Drawable(draws, |s|)
    requires FirstLeast(infos, Shuffle(s, draws), |draws|, r)
    ensures var b, n := Shuffle(s, draws), |draws|;
            IsOldestInspected(infos, b, n, draws[r]) <==>
            draws[r] == r || (draws[r] < n && infos[b[draws[r]]].nLastSuccess == infos[b[r]].nLastSuccess)
  {
    ShuffleKeeps(infos, s, draws);
    var b, n, pos := Shuffle(s, draws), |draws|, draws[r];
    assert b[pos] in b && b[r] in b[..n];
    if b[pos] in b[..n] {
      var k :| 0 <= k < n && b[..n][k] == b[pos];
      assert b[k] == b[pos] && k == pos;
    }
    if pos < n && infos[b[pos]].nLastSuccess == infos[b[r]].nLastSuccess {
      forall y: int | y in b[..n]
        ensures y in infos && infos[b[pos]].nLastSuccess <= infos[y].nLastSuccess
      {
        var k :| 0 <= k < n && b[..n][k] == y;
        assert y == b[k];
      }
    }
  }

  /** When no two of the entries inspected have gone without success equally long, only the draw counts. */
  lemma WithoutTiesTheDrawDecides(infos: Infos, s: seq<int>, draws: seq<nat>, r: nat)
    requires Inspectable(infos, s) && Drawable(draws, |s|)
    requires FirstLeast(infos, Shuffle(s, draws), |draws|, r)
    requires var b := Shuffle(s, draws); forall j, k :: 0 <= j < k < |draws| && b[j] in infos && b[k] in infos ==>
               infos[b[j]].nLastSuccess != infos[b[k]].nLastSuccess
    ensures IsOldestInspected(infos, Shuffle(s, draws), |draws|, draws[r]) <==> draws[r] == r
  {
    OldestSelectedExactlyWhen(infos, s, draws, r);
  }

  /** The entry evicted need not be the least recently successful one inspected, although that is what the
      selection loop is after: with two entries, drawing the older one first moves it to the front and returns
      the place it came from, where the newer one now is. */
  lemma EvictionCanMissTheOldest()
    ensures var newer := Info(Service(NetAddr(2), 1), 0, 0, 0, NetAddr(0), 20, 0, 0, true, 0);
            var older := Info(Service(NetAddr(1), 1), 0, 0, 0, NetAddr(0), 10, 0, 0, true, 1);
            var infos := map[0 := newer, 1 := older];
            && Inspectable(infos, [0, 1]) && Drawable([1, 1], 2) && Shuffle([0, 1], [1, 1]) == [1, 0]
            && FirstLeast(infos, [1, 0], 2, 0) && !IsOldestInspected(infos, [1, 0], 2, [1, 1][0])
  {
    hide Shuffle;
    BothDrawnLast();
    assert [1, 0][..2] == [1, 0];
    assert 1 in [1, 0];
  }

  lemma BothDrawnLast()
    ensures Drawable([1, 1], 2) && Shuffle([0, 1], [1, 1]) == [1, 0]
  {
    NothingDrawn([0, 1]);
    ShuffleNext([0, 1], [], 1);
    assert [] + [1] == [1];
    assert Shuffle([0, 1], [1]) == [1, 0];
    ShuffleNext([0, 1], [1], 1);
    assert [1] + [1] == [1, 1];
  }

  /** CAddrMan. */
  class Manager {
    const hashing: Hashing
    const routable: NetAddr -> bool
    var nKey: Key
    var nIdCount: int
    var mapInfo: Infos
    var mapAddr: map<NetAddr, int>
    var vRandom: seq<int>
    var nTried: int
    var vvTried: seq<seq<int>>
    var nNew: int
    var vvNew: seq<set<int>>

    ghost function State(): Tables
      reads this
    {
      Tables(nKey, nIdCount, mapInfo, mapAddr, vRandom, nTried, vvTried, nNew, vvNew)
    }

    ghost predicate Valid()
      reads this
    {
      Consistent(hashing, State())
    }

    constructor (hashing: Hashing, routable: NetAddr -> bool, key: Key)
      ensures this.hashing == hashing && this.routable == routable && nKey == key
      ensures Valid() && TimesOk(mapInfo) && mapInfo == map[]
    {
      this.hashing, this.routable, nKey := hashing, routable, key;
      nIdCount, nTried, nNew := 0, 0, 0;
      mapInfo, mapAddr, vRandom := map[], map[], [];
      vvTried := seq(TRIED_BUCKET_COUNT, _ => []);
      vvNew := seq(NEW_BUCKET_COUNT, _ => {});
      new;
      assert TriedIds(mapInfo) == {} == NewIds(mapInfo);
    }

    /** The id of the entry with this network address, if there is one. */
    method Find(net: NetAddr) returns (id: Option<int>)
      requires AddrOk(mapInfo, mapAddr)
      ensures id.Some? ==> id.value in mapInfo && mapInfo[id.value].svc.net == net
      ensures id.Some? ==> net in mapAddr && mapAddr[net] == id.value
      ensures id.None? ==> net !in mapAddr && forall j :: j in mapInfo ==> mapInfo[j].svc.net != net
    {
      if net !in mapAddr {
        return None;
      }
      if mapAddr[net] in mapInfo {
        return Some(mapAddr[net]);
      }
      return None;
    }

    method SwapRandom(nRndPos1: nat, nRndPos2: nat)
      requires nRndPos1 < |vRandom| && nRndPos2 < |vRandom|
      requires vRandom[nRndPos1] in mapInfo && vRandom[nRndPos2] in mapInfo
      modifies this`mapInfo, this`vRandom
      ensures State() == SwapPositions(old(State()), nRndPos1, nRndPos2)
    {
      if nRndPos1 == nRndPos2 {
        return;
      }
      var nId1, nId2 := vRandom[nRndPos1], vRandom[nRndPos2];
      mapInfo := mapInfo[nId1 := mapInfo[nId1].(nRandomPos := nRndPos2)];
      mapInfo := mapInfo[nId2 := mapInfo[nId2].(nRandomPos := nRndPos1)];
      vRandom := vRandom[nRndPos1 := nId2];
      vRandom := vRandom[nRndPos2 := nId1];
    }

    /** The position in a tried bucket to replace: up to four entries are drawn to the front, and the place drawn
        in the round that met the least recently successful of them is returned. */
    method SelectTried(nKBucket: nat) returns (nPos: int, ghost draws: seq<nat>, ghost round: nat)
      requires nKBucket < |vvTried| && Inspectable(mapInfo, vvTried[nKBucket])
      modifies this`vvTried
      ensures |vvTried| == |old(vvTried)|
      ensures vvTried == old(vvTried)[nKBucket := vvTried[nKBucket]]
      ensures Drawable(draws, |old(vvTried[nKBucket])|)
      ensures |draws| == Min(TRIED_ENTRIES_INSPECT_ON_EVICT, |old(vvTried[nKBucket])|)
      ensures vvTried[nKBucket] == Shuffle(old(vvTried[nKBucket]), draws)
      ensures multiset(vvTried[nKBucket]) == multiset(old(vvTried[nKBucket]))
      ensures draws == [] ==> nPos == -1
      ensures draws != [] ==>
                && round < |draws| && nPos == draws[round] && nPos < |vvTried[nKBucket]|
                && FirstLeast(mapInfo, vvTried[nKBucket], |draws|, round)
                && (IsOldestInspected(mapInfo, vvTried[nKBucket], |draws|, nPos) <==>
                    nPos == round ||
                    (nPos < |draws| && vvTried[nKBucket][nPos] in mapInfo &&
                     mapInfo[vvTried[nKBucket][nPos]].nLastSuccess == mapInfo[vvTried[nKBucket][round]].nLastSuccess))
    {
      hide FirstLeast;
      hide Inspectable;
      hide Shuffle;
      hide IsOldestInspected;
      ghost var s := vvTried[nKBucket];
      var vTried;
      vTried, nPos, draws, round := DrawAndInspect(vvTried[nKBucket]);
      ShuffleKeeps(mapInfo, s, draws);
      if draws != [] {
        OldestSelectedExactlyWhen(mapInfo, s, draws, round);
        Known(mapInfo, vTried, draws[round], round);
      }
      vvTried := vvTried[nKBucket := vTried];
    }

    /** The loop: entries are drawn to the front one by one, and the place of the best draw is remembered. */
    method DrawAndInspect(s: seq<int>)
      returns (vTried: seq<int>, nOldestPos: int, ghost draws: seq<nat>, ghost round: nat)
      requires Inspectable(mapInfo, s)
      ensures Drawable(draws, |s|) && |draws| == Min(TRIED_ENTRIES_INSPECT_ON_EVICT, |s|) && vTried == Shuffle(s, draws)
      ensures draws == [] ==> nOldestPos == -1
      ensures draws != [] ==>
              FirstLeast(mapInfo, vTried, |draws|, round) && round < |draws| && nOldestPos == draws[round]
    {
      hide FirstLeast;
      hide Inspectable;
      hide Shuffle;
      hide Distinct;
      vTried, draws, round := s, [], 0;
      NothingDrawn(s);
      var nOldest, i := NOBODY, 0;
      nOldestPos := -1;
      while i < TRIED_ENTRIES_INSPECT_ON_EVICT && i < |vTried|
        invariant 0 <= i <= Min(TRIED_ENTRIES_INSPECT_ON_EVICT, |s|)
        invariant |draws| == i && Drawable(draws, |s|) && vTried == Shuffle(s, draws)
        invariant if i == 0 then nOldest == NOBODY && nOldestPos == -1
                  else FirstLeast(mapInfo, vTried, i, round) && round < i && nOldest == vTried[round] &&
                       nOldestPos == draws[round]
      {
        var nRnd := GetRandInt(|vTried| - i);
        var p := nRnd + i;
        ShuffleKeeps(mapInfo, s, draws);
        Known(mapInfo, vTried, p, if i > 0 then round else p);
        InspectNext(mapInfo, vTried, i, p, round);
        ShuffleNext(s, draws, p);
        draws := draws + [p];
        var nTemp := vTried[p];
        vTried := vTried[p := vTried[i]];
        vTried := vTried[i := nTemp];
        if nOldest == NOBODY || mapInfo[nTemp].nLastSuccess < mapInfo[nOldest].nLastSuccess {
          nOldest, nOldestPos := nTemp, p;
          round := i;
        }
        i := i + 1;
      }
    }

    /** Deletes an entry from every index: it trades places with the last one and is popped. */
    method Delete(nId: int)
      requires nId in mapInfo && 0 <= mapInfo[nId].nRandomPos < |vRandom|
      requires vRandom[mapInfo[nId].nRandomPos] == nId && vRandom[|vRandom| - 1] in mapInfo
      modifies this
      ensures State() == Removed(SwapPositions(old(State()), old(mapInfo)[nId].nRandomPos, |old(vRandom)| - 1), nId)
    {
      SwapRandom(mapInfo[nId].nRandomPos, |vRandom| - 1);
      vRandom := vRandom[..|vRandom| - 1];
      mapAddr := mapAddr - {mapInfo[nId].svc.net};
      mapInfo := mapInfo - {nId};
      nNew := nNew - 1;
    }

    /** The part ShrinkNew does twice: the entry loses its place in bucket `b`, and with its last
        reference it is deleted. */
    method DropReference(b: nat, nId: int)
      requires Unrefable(State(), b, nId)
      modifies this
      ensures State() == Unref(old(State()), b, nId)
    {
      ghost var t := State();
      mapInfo := mapInfo[nId := mapInfo[nId].(nRefCount := mapInfo[nId].nRefCount - 1)];
      if mapInfo[nId].nRefCount == 0 {
        UnrefLast(t, b, nId);
        hide Removed;
        hide SwapPositions;
        hide Unref;
        Delete(nId);
        vvNew := vvNew[b := vvNew[b] - {nId}];
        return;
      }
      vvNew := vvNew[b := vvNew[b] - {nId}];
    }

    /** The first entry of a new bucket that is bad enough to be dropped. */
    method FirstTerrible(b: nat, nNow: int) returns (x: Option<int>)
      requires b < |vvNew| && vvNew[b] <= mapInfo.Keys
      ensures x.Some? ==> x.value in vvNew[b] && IsTerrible(mapInfo[x.value], nNow)
      ensures x.Some? ==> forall y :: y in vvNew[b] && y < x.value ==> !IsTerrible(mapInfo[y], nNow)
      ensures x.None? ==> forall y :: y in vvNew[b] ==> !IsTerrible(mapInfo[y], nNow)
    {
      var rest := vvNew[b];
      ghost var seen: set<int> := {};
      while rest != {}
        invariant seen + rest == vvNew[b]
        invariant forall y :: y in seen ==> !IsTerrible(mapInfo[y], nNow)
        decreases |rest|
      {
        var it := First(rest);
        if IsTerrible(mapInfo[it], nNow) {
          return Some(it);
        }
        rest, seen := rest - {it}, seen + {it};
      }
      return None;
    }

    /** Removes one entry from a full new bucket; `pending` is the entry about to be put there. */
    method ShrinkNew(nUBucket: nat, nNow: int, ghost pending: int) returns (r: int, ghost x: int)
      requires nUBucket < |vvNew| && vvNew[nUBucket] != {}
      requires ConsistentBut(hashing, State(), pending) && pending !in vvNew[nUBucket]
      modifies this
      ensures Unrefable(old(State()), nUBucket, x) && Victim(old(mapInfo), old(vvNew[nUBucket]), nNow, x)
      ensures State() == Unref(old(State()), nUBucket, x)
      ensures ConsistentBut(hashing, State(), pending)
      ensures r == 0 <==> !WorthKeeping(old(mapInfo)[x], nNow)
      ensures r == 0 ==> forall y :: y in old(vvNew[nUBucket]) && y < x ==> WorthKeeping(old(mapInfo)[y], nNow)
      ensures r != 0 ==> r == 1 && forall y :: y in old(vvNew[nUBucket]) ==> WorthKeeping(old(mapInfo)[y], nNow)
    {
      hide IsTerrible;
      hide WorthKeeping;
      WorthKeepingUnlessTerrible(nNow);
      NewBucketsAreKnown(mapInfo, vvNew, nIdCount, nUBucket);
      var it := FirstTerrible(nUBucket, nNow);
      if it.Some? {
        UnrefKeeps(hashing, State(), nUBucket, it.value, pending);
        DropReference(nUBucket, it.value);
        return 0, it.value;
      }
      var nOldest := OldestOfFour(nUBucket);
      UnrefKeeps(hashing, State(), nUBucket, nOldest, pending);
      DropReference(nUBucket, nOldest);
      return 1, nOldest;
    }

    /** The least recently seen of four randomly drawn entries of a new bucket. */
    method OldestOfFour(b: nat) returns (nOldest: int)
      requires b < |vvNew| && vvNew[b] != {} && vvNew[b] <= mapInfo.Keys && NOBODY !in vvNew[b]
      ensures exists drawn :: OldestOf(mapInfo, vvNew[b], drawn, nOldest)
    {
      var n0 := GetRandInt(|vvNew[b]|);
      var n1 := GetRandInt(|vvNew[b]|);
      var n2 := GetRandInt(|vvNew[b]|);
      var n3 := GetRandInt(|vvNew[b]|);
      ghost var drawn, hit := {}, {};
      var nI := 0;
      nOldest := NOBODY;
      var rest := vvNew[b];
      while rest != {}
        invariant rest <= vvNew[b] && drawn <= vvNew[b] - rest
        invariant nI == |vvNew[b]| - |rest|
        invariant |drawn| == |hit| && hit <= {n0, n1, n2, n3} && (n0 < nI ==> drawn != {})
        invariant forall i :: i in hit ==> i < nI
        invariant nOldest == NOBODY <==> drawn == {}
        invariant drawn != {} ==> nOldest in drawn
        invariant forall y :: y in drawn ==> mapInfo[nOldest].nTime <= mapInfo[y].nTime
        decreases |rest|
      {
        var it := First(rest);
        if nI == n0 || nI == n1 || nI == n2 || nI == n3 {
          drawn, hit := drawn + {it}, hit + {nI};
          if nOldest == NOBODY || mapInfo[it].nTime < mapInfo[nOldest].nTime {
            nOldest := it;
          }
        }
        nI := nI + 1;
        rest := rest - {it};
      }
      SubsetSize(hit, {n0, n1, n2, n3});
      assert OldestOf(mapInfo, vvNew[b], drawn, nOldest);
    }

    /** The loop over all new buckets that forgets `nId`. */
    method Detach(nId: int)
      requires Valid() && nId in mapInfo && !mapInfo[nId].fInTried
      modifies this
      ensures State() == Detached(old(State()), nId)
    {
      ghost var t := State();
      UntriedCount(hashing, t, nId);
      hide ConsistentBut;
      var b := 0;
      while b < |vvNew|
        invariant 0 <= b <= |vvNew| == |t.news|
        invariant nId in mapInfo && mapInfo == t.infos[nId := t.infos[nId].(nRefCount := mapInfo[nId].nRefCount)]
        invariant mapInfo[nId].nRefCount == |BucketsOf(vvNew, nId)|
        invariant forall c :: 0 <= c < b ==> vvNew[c] == t.news[c] - {nId}
        invariant forall c :: b <= c < |vvNew| ==> vvNew[c] == t.news[c]
        invariant State() == t.(infos := mapInfo, news := vvNew)
      {
        BucketsOfErase(vvNew, b, nId, nId);
        if nId in vvNew[b] {
          assert b in BucketsOf(vvNew, nId);
          vvNew := vvNew[b := vvNew[b] - {nId}];
          mapInfo := mapInfo[nId := mapInfo[nId].(nRefCount := mapInfo[nId].nRefCount - 1)];
        }
        b := b + 1;
      }
      nNew := nNew - 1;
      assert BucketsOf(vvNew, nId) == {};
      assert vvNew == WithoutId(t.news, nId);
    }

    /** Moves an entry from the new buckets to the tried table. */
    method MakeTried(nId: int, nOrigin: nat)
      requires Valid() && nOrigin < |vvNew| && nId in vvNew[nOrigin]
      modifies this
      ensures Promotes(hashing, old(State()), State(), nId, nOrigin)
      ensures Valid()
    {
      ghost var t := State();
      EntryInNewBucket(hashing, t, nId, nOrigin);
      DetachedIsHomeless(hashing, t, nId);
      OriginHasRoom(t, nId, nOrigin);
      Detach(nId);
      ghost var d := State();
      hide ConsistentBut;
      hide HomelessOk;
      var nKBucket := hashing.TriedBucket(nKey, mapInfo[nId].svc);
      if |vvTried[nKBucket]| < TRIED_BUCKET_SIZE {
        PlacedKeeps(hashing, d, nId);
        Place(nId, nKBucket);
      } else {
        ghost var bucket, pos := Evict(nId, nKBucket, nOrigin, d);
        EvictsToKeeps(hashing, d, State(), nId, nOrigin, bucket, pos);
      }
    }

    method Place(nId: int, nKBucket: nat)
      requires nId in mapInfo && |vvTried| == TRIED_BUCKET_COUNT
      requires nKBucket == hashing.TriedBucket(nKey, mapInfo[nId].svc)
      modifies this
      ensures State() == Placed(hashing, old(State()), nId)
    {
      vvTried := vvTried[nKBucket := vvTried[nKBucket] + [nId]];
      nTried := nTried + 1;
      mapInfo := mapInfo[nId := mapInfo[nId].(fInTried := true)];
    }

    /** The second half of MakeTried, for a full tried bucket. */
    method Evict(nId: int, nKBucket: nat, nOrigin: nat, ghost d: Tables)
      returns (ghost bucket: seq<int>, ghost pos: nat)
      requires State() == d && HomelessOk(hashing, d, nId)
      requires nKBucket == hashing.TriedBucket(nKey, mapInfo[nId].svc) && |vvTried[nKBucket]| >= TRIED_BUCKET_SIZE
      requires nOrigin < |vvNew| && |vvNew[nOrigin]| < NEW_BUCKET_SIZE
      modifies this
      ensures EvictsTo(hashing, d, State(), nId, nOrigin, bucket, pos)
    {
      hide HomelessOk;
      hide Drawable;
      hide Shuffle;
      hide FirstLeast;
      hide IsOldestInspected;
      HomelessShape(hashing, d, nId, nKBucket);
      var nPos, draws, round := SelectTried(nKBucket);
      bucket, pos := vvTried[nKBucket], nPos;
      SameMembers(d.tried[nKBucket], bucket);
      ghost var out: int := bucket[pos];
      assert out in bucket;
      ghost var home := hashing.NewBucket(nKey, mapInfo[out].svc.net, mapInfo[out].source);
      assert Evictable(hashing, d, nId, bucket, pos, if |vvNew[home]| < NEW_BUCKET_SIZE then home else nOrigin);
      Replace(nId, nKBucket, nPos, nOrigin, d.tried);
    }

    /** Puts nId in the place of the tried entry at nPos, which goes back to a new bucket: its own if
        there is place, and otherwise the one nId came from. */
    method Replace(nId: int, nKBucket: nat, nPos: nat, nOrigin: nat, ghost tried: seq<seq<int>>)
      requires |vvTried| == |tried| == TRIED_BUCKET_COUNT && |vvNew| == NEW_BUCKET_COUNT && nOrigin < |vvNew|
      requires nKBucket < |vvTried| && vvTried == tried[nKBucket := vvTried[nKBucket]]
      requires nId in mapInfo && nKBucket == hashing.TriedBucket(nKey, mapInfo[nId].svc)
      requires nPos < |vvTried[nKBucket]|
      requires vvTried[nKBucket][nPos] in mapInfo && vvTried[nKBucket][nPos] != nId
      modifies this
      ensures var t := old(State()).(tried := tried);
              var out := old(mapInfo)[old(vvTried)[nKBucket][nPos]];
              var home := hashing.NewBucket(nKey, out.svc.net, out.source);
              State() == Evicted(hashing, t, nId, old(vvTried)[nKBucket], nPos,
                                 if |t.news[home]| < NEW_BUCKET_SIZE then home else nOrigin)
    {
      var nOld := vvTried[nKBucket][nPos];
      var nUBucket := hashing.NewBucket(nKey, mapInfo[nOld].svc.net, mapInfo[nOld].source);
      mapInfo := mapInfo[nOld := mapInfo[nOld].(fInTried := false, nRefCount := 1)];
      if |vvNew[nUBucket]| < NEW_BUCKET_SIZE {
        vvNew := vvNew[nUBucket := vvNew[nUBucket] + {nOld}];
      } else {
        vvNew := vvNew[nOrigin := vvNew[nOrigin] + {nOld}];
      }
      nNew := nNew + 1;
      vvTried := vvTried[nKBucket := vvTried[nKBucket][nPos := nId]];
      mapInfo := mapInfo[nId := mapInfo[nId].(fInTried := true)];
      assert vvTried == tried[nKBucket := old(vvTried)[nKBucket][nPos := nId]];
    }

    /** The entry for exactly this service: the address is known and so is the port. */
    method FindExact(addr: Service) returns (id: Option<int>)
      requires Valid()
      ensures id.Some? <==> Knows(State(), addr)
      ensures id.Some? ==> mapAddr[addr.net] == id.value
    {
      id := Find(addr.net);
      if id.Some? && mapInfo[id.value].svc != addr {
        return None;
      }
    }

    /** Marks an address as good: a connection to it succeeded. */
    method Good_(addr: Service, nTime: int)
      requires Valid()
      modifies this
      ensures GoodOutcome(hashing, old(State()), State(), addr, nTime)
      ensures Valid()
      ensures mapInfo.Keys == old(mapInfo.Keys)
      ensures Knows(old(State()), addr) ==>
                && mapAddr == old(mapAddr) && mapAddr[addr.net] in mapInfo
                && var id := mapAddr[addr.net]; var info := mapInfo[id];
                && info.fInTried && info.nRefCount == 0 && info.nAttempts == 0
                && info.nLastSuccess == nTime && info.nLastTry == nTime && info.nTime == nTime % 0x1_0000_0000
                && info.svc == addr && info.services == old(mapInfo)[id].services
                && info.source == old(mapInfo)[id].source
                && forall j :: j in mapInfo && j != id ==> SameButTable(old(mapInfo)[j], mapInfo[j])
      ensures nTime > 0 && TimesOk(old(mapInfo)) ==> TimesOk(mapInfo)
    {
      hide ConsistentBut;
      ghost var t := State();
      var found := FindExact(addr);
      if found.None? {
        return;
      }
      var nId := found.value;
      StatsUpdateKeeps(hashing, t, nId, Succeeded(mapInfo[nId], nTime));
      var info := mapInfo[nId];
      info := info.(nLastSuccess := nTime);
      info := info.(nLastTry := nTime);
      info := info.(nTime := nTime % UINT32);
      info := info.(nAttempts := 0);
      mapInfo := mapInfo[nId := info];
      if info.fInTried {
        TriedHasNoReference(hashing, State(), nId);
        return;
      }
      hide Promotes;
      ghost var t1 := State();
      assert t1 == WithEntry(t, nId, Succeeded(t.infos[nId], nTime));
      ghost var origin := PromoteUntried(nId);
    }

    /** The rest of Good_, for an entry not tried yet: finds a bucket it is in and moves it. */
    method PromoteUntried(nId: int) returns (ghost origin: nat)
      requires Valid() && nId in mapInfo && !mapInfo[nId].fInTried
      modifies this
      ensures Promotes(hashing, old(State()), State(), nId, origin)
      ensures Valid()
      ensures mapInfo.Keys == old(mapInfo.Keys) && mapAddr == old(mapAddr)
      ensures mapInfo[nId] == old(mapInfo)[nId].(fInTried := true, nRefCount := 0)
      ensures forall j :: j in mapInfo && j != nId ==> SameButTable(old(mapInfo)[j], mapInfo[j])
      ensures TimesOk(old(mapInfo)) && old(mapInfo[nId].nLastSuccess) > 0 ==> TimesOk(mapInfo)
    {
      hide ConsistentBut;
      var nUBucket := BucketHolding(nId);
      origin := nUBucket;
      MakeTried(nId, nUBucket);
      PromotionKeepsEntries(hashing, old(State()), State(), nId, nUBucket);
    }

    /** A new bucket holding the entry, searched from a random start. An untried entry is in one, so
        the case that none is found, in which CAddrMan::Good_ returns silently, cannot arise. */
    method BucketHolding(nId: int) returns (nB: nat)
      requires Valid() && nId in mapInfo && !mapInfo[nId].fInTried
      ensures nB < |vvNew| && nId in vvNew[nB]
    {
      var nRnd := GetRandInt(|vvNew|);
      for n := 0 to |vvNew|
        invariant forall m :: 0 <= m < n ==> nId !in vvNew[Turn(nRnd, m, |vvNew|)]
      {
        nB := Turn(nRnd, n, |vvNew|);
        if nId in vvNew[nB] {
          return;
        }
      }
      ghost var b := UntriedHasBucket(hashing, State(), nId);
      TurnReaches(nRnd, b, |vvNew|);
      assert false;
    }

    method Attempt_(addr: Service, nTime: int)
      requires Valid()
      modifies this`mapInfo
      ensures Valid()
      ensures var t := old(State());
              State() == if !Knows(t, addr) then t else
                var id := t.byAddr[addr.net];
                WithEntry(t, id, t.infos[id].(nLastTry := nTime, nAttempts := t.infos[id].nAttempts + 1))
      ensures nTime >= 0 && TimesOk(old(mapInfo)) ==> TimesOk(mapInfo)
    {
      hide ConsistentBut;
      var found := FindExact(addr);
      if found.None? {
        return;
      }
      var info := mapInfo[found.value];
      StatsUpdateKeeps(hashing, State(), found.value, info.(nLastTry := nTime, nAttempts := info.nAttempts + 1));
      mapInfo := mapInfo[found.value := info.(nLastTry := nTime, nAttempts := info.nAttempts + 1)];
    }

    method Connected_(addr: Service, nTime: int)
      requires Valid()
      modifies this`mapInfo
      ensures Valid()
      ensures var t := old(State());
              State() == if !Knows(t, addr) || nTime - t.infos[t.byAddr[addr.net]].nTime <= 20 * 60 then t else
                var id := t.byAddr[addr.net];
                WithEntry(t, id, t.infos[id].(nTime := nTime % UINT32))
      ensures TimesOk(old(mapInfo)) ==> TimesOk(mapInfo)
    {
      hide ConsistentBut;
      var found := FindExact(addr);
      if found.None? {
        return;
      }
      var info := mapInfo[found.value];
      if nTime - info.nTime > 20 * 60 {
        StatsUpdateKeeps(hashing, State(), found.value, info.(nTime := nTime % UINT32));
        mapInfo := mapInfo[found.value := info.(nTime := nTime % UINT32)];
      }
    }

    /** A new entry, with no reference yet. */
    method Create(addr: Address, source: NetAddr) returns (nId: int)
      requires Valid() && addr.svc.net !in mapAddr
      modifies this
      ensures nId == old(nIdCount)
      ensures State() == Created(old(State()), Info(addr.svc, addr.services, addr.nTime, 0, source, 0, 0, 0, false, -1))
                         .(nNew := old(nNew))
    {
      nId := nIdCount;
      nIdCount := nIdCount + 1;
      mapInfo := mapInfo[nId := Info(addr.svc, addr.services, addr.nTime, 0, source, 0, 0, 0, false, -1)];
      mapAddr := mapAddr[addr.svc.net := nId];
      mapInfo := mapInfo[nId := mapInfo[nId].(nRandomPos := |vRandom|)];
      vRandom := vRandom + [nId];
    }

    /** Adds an announced address, or news about a known one, to the new table. A known entry gets the services
        announced besides its own, and a later time when the one it has is more than an hour behind, or a day when
        the announcement itself is not of the last day. A new entry gets the next id. */
    method Add_(addr: Address, source: NetAddr, nTimePenalty: int, nNow: int) returns (fNew: bool)
      requires Valid()
      modifies this
      ensures AddOutcome(hashing, routable, old(State()), State(), addr, source, nTimePenalty, nNow, fNew)
      ensures Valid()
      ensures vvTried == old(vvTried) && TriedKept(old(mapInfo), mapInfo)
      ensures TimesOk(old(mapInfo)) ==> TimesOk(mapInfo)
      ensures fNew <==> routable(addr.svc.net) && addr.svc.net !in old(mapAddr)
      ensures routable(addr.svc.net) ==> addr.svc.net in mapAddr && mapAddr[addr.svc.net] in mapInfo
      ensures routable(addr.svc.net) && !fNew ==>
                var id := mapAddr[addr.svc.net];
                && id == old(mapAddr)[addr.svc.net] && id in old(mapInfo)
                && AnnouncedAgain(old(mapInfo)[id], mapInfo[id], addr, nTimePenalty, nNow)
      ensures fNew ==>
                && mapAddr[addr.svc.net] == old(nIdCount) && nIdCount == old(nIdCount) + 1
                && AnnouncedFirst(mapInfo[old(nIdCount)], addr, source, nTimePenalty)
    {
      hide AnnouncedAgain;
      hide AnnouncedFirst;
      hide Refreshed;
      hide Announced;
      hide NoNews;
      hide References;
      hide TimesOk;
      hide ConsistentBut;
      hide Enters;
      if !routable(addr.svc.net) {
        return false;
      }
      var found := FindKnown(addr.svc.net);
      if found.Some? {
        ghost var was := mapInfo[found.value];
        AddKnown(found.value, addr, source, nTimePenalty, nNow);
        RefreshedIs(was, mapInfo[found.value], addr, nTimePenalty, nNow);
        EntryIsIndexed(hashing, State(), found.value);
        return false;
      }
      ghost var nId := nIdCount;
      CreateAndEnter(addr, source, nTimePenalty, nNow);
      AnnouncedIs(mapInfo[nId], addr, source, nTimePenalty);
      EntryIsIndexed(hashing, State(), nId);
      return true;
    }

    /** Add_ for an address known already. */
    method AddKnown(nId: int, addr: Address, source: NetAddr, nTimePenalty: int, nNow: int)
      requires Valid() && nId in mapInfo
      modifies this
      ensures var t1 := WithEntry(old(State()), nId, Refreshed(old(mapInfo)[nId], addr, nTimePenalty, nNow));
              if NoNews(t1.infos[nId], addr) then State() == t1
              else State() == t1 || References(hashing, t1, State(), nId, source, nNow)
      ensures Valid()
      ensures vvTried == old(vvTried) && TriedKept(old(mapInfo), mapInfo)
      ensures TimesOk(old(mapInfo)) ==> TimesOk(mapInfo)
      ensures nId in mapInfo
      ensures var was := Refreshed(old(mapInfo)[nId], addr, nTimePenalty, nNow);
              && mapInfo[nId] == was.(nRefCount := mapInfo[nId].nRefCount, nRandomPos := mapInfo[nId].nRandomPos)
              && was.nRefCount <= mapInfo[nId].nRefCount <= was.nRefCount + 1
              && (mapInfo[nId].nRefCount > was.nRefCount ==> !NoNews(was, addr) && was.nRefCount < 4)
    {
      hide ConsistentBut;
      hide Enters;
      hide Refreshed;
      UntriedIsReferenced(hashing, State(), nId);
      Refresh(nId, addr, nTimePenalty, nNow);
      if addr.nTime == 0 || (mapInfo[nId].nTime != 0 && addr.nTime <= mapInfo[nId].nTime) {
        return;
      }
      if mapInfo[nId].fInTried {
        return;
      }
      if mapInfo[nId].nRefCount == NEW_BUCKETS_PER_ADDRESS {
        return;
      }
      UntriedIsReferenced(hashing, State(), nId);
      var another := AnotherReference(mapInfo[nId].nRefCount);
      if another {
        AddReference(nId, source, nNow);
      }
    }

    /** Time and services of a known entry, as announced. */
    method Refresh(nId: int, addr: Address, nTimePenalty: int, nNow: int)
      requires Valid() && nId in mapInfo
      modifies this`mapInfo
      ensures State() == WithEntry(old(State()), nId, Refreshed(old(mapInfo)[nId], addr, nTimePenalty, nNow))
      ensures Valid() && TriedKept(old(mapInfo), mapInfo)
      ensures TimesOk(old(mapInfo)) ==> TimesOk(mapInfo)
    {
      hide ConsistentBut;
      hide SeenAfter;
      hide Joined;
      var info := mapInfo[nId];
      var nTime := UpdateSeen(info.nTime, addr.nTime, nTimePenalty, nNow);
      info := info.(nTime := nTime, services := Joined(info.services, addr.services));
      StatsUpdateKeeps(hashing, State(), nId, info);
      mapInfo := mapInfo[nId := info];
    }

    method UpdateSeen(was: int, announced: int, nTimePenalty: int, nNow: int) returns (nTime: int)
      ensures nTime == SeenAfter(was, announced, nTimePenalty, nNow)
    {
      nTime := was;
      var fCurrentlyOnline := nNow - announced < 24 * 60 * 60;
      var nUpdateInterval := if fCurrentlyOnline then 60 * 60 else 24 * 60 * 60;
      if announced != 0 && (nTime == 0 || nTime < announced - nUpdateInterval - nTimePenalty) {
        nTime := Max(0, announced - nTimePenalty) % UINT32;
      }
    }

    /** The more references there are already, the harder to get another; the first one is certain. */
    method AnotherReference(nRefCount: int) returns (yes: bool)
      requires nRefCount >= 0
      ensures nRefCount == 0 ==> yes
    {
      var nFactor := 1;
      for n := 0 to nRefCount
        invariant nFactor > 0 && (n == 0 ==> nFactor == 1)
      {
        nFactor := nFactor * 2;
      }
      var nRnd := GetRandInt(nFactor);
      yes := !(nFactor > 1 && nRnd != 0);
    }

    /** Find, for a consistent manager. */
    method FindKnown(net: NetAddr) returns (id: Option<int>)
      requires Valid()
      ensures id.Some? <==> net in mapAddr
      ensures id.Some? ==> id.value == mapAddr[net] && id.value in mapInfo && mapInfo[id.value].svc.net == net
      ensures id.Some? ==> mapInfo[id.value].nRefCount >= 0
    {
      id := Find(net);
    }

    /** The end of Add_ for an address not known before. */
    method CreateAndEnter(addr: Address, source: NetAddr, nTimePenalty: int, nNow: int)
      requires Valid() && addr.svc.net !in mapAddr
      modifies this
      ensures var t := old(State());
              Enters(Created(t, Announced(addr, source, nTimePenalty)), State(), t.nIdCount,
                     hashing.NewBucket(t.key, addr.svc.net, source), nNow)
      ensures old(nIdCount) in mapInfo && nIdCount == old(nIdCount) + 1
      ensures mapInfo[old(nIdCount)] ==
              Announced(addr, source, nTimePenalty).(nRandomPos := mapInfo[old(nIdCount)].nRandomPos)
      ensures Valid() && vvTried == old(vvTried) && TriedKept(old(mapInfo), mapInfo)
      ensures TimesOk(old(mapInfo)) ==> TimesOk(mapInfo)
    {
      hide ConsistentBut;
      hide Enters;
      ghost var t := State();
      var info := Announced(addr, source, nTimePenalty);
      CreatedKeeps(hashing, t, info);
      CreatedKeepsEntries(hashing, t, info);
      var nId := Create(addr, source);
      mapInfo := mapInfo[nId := mapInfo[nId].(nTime := Max(0, mapInfo[nId].nTime - nTimePenalty) % UINT32)];
      nNew := nNew + 1;
      mapInfo := mapInfo[nId := mapInfo[nId].(nRefCount := mapInfo[nId].nRefCount + 1)];
      assert State() == Created(t, info);
      Enter(nId, hashing.NewBucket(nKey, addr.svc.net, source), nNow);
    }

    /** The end of Add_ for a known address that gets another reference. */
    method AddReference(nId: int, source: NetAddr, nNow: int)
      requires Valid() && nId in mapInfo && !mapInfo[nId].fInTried
      requires mapInfo[nId].nRefCount != NEW_BUCKETS_PER_ADDRESS
      modifies this
      ensures References(hashing, old(State()), State(), nId, source, nNow)
      ensures nId in mapInfo
      ensures mapInfo[nId] == old(mapInfo)[nId].(nRefCount := mapInfo[nId].nRefCount, nRandomPos :=
                                                 mapInfo[nId].nRandomPos)
      ensures old(mapInfo)[nId].nRefCount <= mapInfo[nId].nRefCount <= old(mapInfo)[nId].nRefCount + 1
      ensures Valid() && vvTried == old(vvTried) && TriedKept(old(mapInfo), mapInfo)
      ensures TimesOk(old(mapInfo)) ==> TimesOk(mapInfo)
    {
      ghost var t := State();
      hide Enters;
      RaiseReference(hashing, t, nId);
      hide ConsistentBut;
      var nUBucket := hashing.NewBucket(nKey, mapInfo[nId].svc.net, source);
      if nId !in vvNew[nUBucket] {
        mapInfo := mapInfo[nId := mapInfo[nId].(nRefCount := mapInfo[nId].nRefCount + 1)];
        Enter(nId, nUBucket, nNow);
      }
    }

    /** Puts the announced entry into its bucket, making room first if the bucket is full. */
    method Enter(nId: int, nUBucket: nat, nNow: int)
      requires ConsistentBut(hashing, State(), nId) && nId in mapInfo && !mapInfo[nId].fInTried
      requires nUBucket < |vvNew| && nId !in vvNew[nUBucket]
      modifies this
      ensures Enters(old(State()), State(), nId, nUBucket, nNow)
      ensures nIdCount == old(nIdCount) && nId in mapInfo
      ensures mapInfo[nId] == old(mapInfo)[nId].(nRandomPos := mapInfo[nId].nRandomPos)
      ensures Valid() && vvTried == old(vvTried) && TriedKept(old(mapInfo), mapInfo)
      ensures TimesOk(old(mapInfo)) ==> TimesOk(mapInfo)
    {
      hide ConsistentBut;
      hide NewOk;
      hide Victim;
      ghost var t := State();
      BucketBounded(hashing, t, nId, nUBucket);
      if |vvNew[nUBucket]| == NEW_BUCKET_SIZE {
        var r, x := ShrinkNew(nUBucket, nNow, nId);
        UnrefEntries(t, nUBucket, x);
        UnrefShrinks(t, nUBucket, x);
        hide Unref;
        hide Unrefable;
        InsertKeeps(hashing, State(), nUBucket, nId);
        vvNew := vvNew[nUBucket := vvNew[nUBucket] + {nId}];
        assert Displaces(t, State(), nId, nUBucket, nNow, x);
      } else {
        InsertKeeps(hashing, State(), nUBucket, nId);
        vvNew := vvNew[nUBucket := vvNew[nUBucket] + {nId}];
      }
      EnteringKeepsEntries(hashing, t, State(), nId, nUBucket, nNow);
    }

    /** A random selection of known addresses: the first nNodes of the order after shuffling them in. */
    method GetAddr_() returns (vAddr: seq<Address>)
      requires Valid()
      modifies this`mapInfo, this`vRandom
      ensures Valid()
      ensures SameButPos(old(mapInfo), mapInfo) && multiset(vRandom) == multiset(old(vRandom))
      ensures |vAddr| == if 23 * |vRandom| / 100 > 2500 then 2500 else 23 * |vRandom| / 100
      ensures |vAddr| <= |vRandom| && forall i :: 0 <= i < |vAddr| ==>
                && vRandom[i] in old(mapInfo)
                && vAddr[i].svc == old(mapInfo)[vRandom[i]].svc
                && vAddr[i].services == old(mapInfo)[vRandom[i]].services
                && vAddr[i].nTime == old(mapInfo)[vRandom[i]].nTime
    {
      hide ConsistentBut;
      var nNodes := GETADDR_MAX_PCT * |vRandom| / 100;
      if nNodes > GETADDR_MAX {
        nNodes := GETADDR_MAX;
      }
      ghost var infos, order := mapInfo, vRandom;
      vAddr := [];
      for n := 0 to nNodes
        invariant nNodes <= |vRandom| == |order| && |vAddr| == n
        invariant Valid()
        invariant SameButPos(infos, mapInfo) && multiset(vRandom) == multiset(order)
        invariant forall i :: 0 <= i < n ==> vRandom[i] in infos && IsAddressOf(vAddr[i], infos[vRandom[i]])
      {
        ghost var before := mapInfo;
        var a := ShuffleIn(n);
        SameAddress(infos, before, vRandom[n]);
        vAddr := vAddr + [a];
      }
    }

    /** One step of the shuffle: a random one of the entries from place n on moves there. */
    method ShuffleIn(n: nat) returns (a: Address)
      requires Valid() && n < |vRandom|
      modifies this`mapInfo, this`vRandom
      ensures Valid()
      ensures SameButPos(old(mapInfo), mapInfo) && multiset(vRandom) == multiset(old(vRandom))
      ensures |vRandom| == |old(vRandom)| && forall i :: 0 <= i < n ==> vRandom[i] == old(vRandom)[i]
      ensures vRandom[n] in old(mapInfo) && IsAddressOf(a, old(mapInfo)[vRandom[n]])
    {
      hide ConsistentBut;
      var nRnd := GetRandInt(|vRandom| - n);
      SwapPositionsKeeps(hashing, State(), n, nRnd + n, NOBODY);
      SwappedIsPermutation(vRandom, n, nRnd + n);
      SwapRandom(n, nRnd + n);
      var info := mapInfo[vRandom[n]];
      a := Address(info.svc, info.services, info.nTime);
    }
  }

  /** The bucket visited after `m` steps from `start`, going round. */
  function Turn(start: nat, m: nat, n: nat): (r: nat)
    requires n > 0
    ensures r < n
  {
    (m + start) % n
  }

  lemma TurnReaches(start: nat, b: nat, n: nat)
    requires start < n && b < n
    ensures exists m :: 0 <= m < n && Turn(start, m, n) == b
  {
    var m := if b >= start then b - start else b - start + n;
    assert (b + n) % n == b;
    assert Turn(start, m, n) == b;
  }

  /** A promotion deletes nobody, and the promoted entry ends up tried. */
  lemma PromotionKeepsEntries(h: Hashing, t: Tables, t': Tables, id: int, origin: nat)
    requires Promotes(h, t, t', id, origin)
    ensures t'.infos.Keys == t.infos.Keys && t'.byAddr == t.byAddr
    ensures t'.infos[id] == t.infos[id].(fInTried := true, nRefCount := 0)
    ensures forall j :: j in t.infos && j != id ==> SameButTable(t.infos[j], t'.infos[j])
    ensures TimesOk(t.infos) && t.infos[id].nLastSuccess > 0 ==> TimesOk(t'.infos)
  {
    var d := Detached(t, id);
    if |t.tried[h.TriedBucket(t.key, t.infos[id].svc)]| < TRIED_BUCKET_SIZE {
      PlacementKeepsTimes(t.infos, t'.infos, id);
    } else {
      var bucket: seq<int>, pos: nat :| EvictsTo(h, d, t', id, origin, bucket, pos);
      ReplacementKeepsEntries(h, d, t', id, origin, bucket, pos);
      assert TimesOk(t.infos) ==> TimesOk(d.infos);
    }
  }

  /** The same entry, in another table. */
  ghost predicate SameButTable(info: Info, info': Info) {
    info' == info.(fInTried := info'.fInTried, nRefCount := info'.nRefCount)
  }

  lemma TriedHasNoReference(h: Hashing, t: Tables, id: int)
    requires Consistent(h, t) && id in t.infos && t.infos[id].fInTried
    ensures t.infos[id].nRefCount == 0
  {
    UntriedCount(h, t, id);
    assert BucketsOf(t.news, id) == {};
  }

  lemma PlacementKeepsTimes(m: Infos, m': Infos, id: int)
    requires id in m && m' == m[id := m[id].(nRefCount := 0)][id := m[id].(nRefCount := 0, fInTried := true)]
    ensures TimesOk(m) && m[id].nLastSuccess > 0 ==> TimesOk(m')
  {
  }

  lemma ReplacementKeepsEntries(h: Hashing, d: Tables, t': Tables, id: int, origin: nat, bucket: seq<int>, pos: nat)
    requires EvictsTo(h, d, t', id, origin, bucket, pos)
    ensures t'.infos.Keys == d.infos.Keys && t'.byAddr == d.byAddr
    ensures t'.infos[id] == d.infos[id].(fInTried := true)
    ensures forall j :: j in d.infos && j != id ==> SameButTable(d.infos[j], t'.infos[j])
    ensures TimesOk(d.infos) && d.infos[id].nLastSuccess > 0 ==> TimesOk(t'.infos)
  {
  }

  lemma SameAddress(m: Infos, m': Infos, id: int)
    requires SameButPos(m, m') && id in m'
    ensures id in m && forall a :: IsAddressOf(a, m'[id]) <==> IsAddressOf(a, m[id])
  {
  }

  ghost predicate IsAddressOf(a: Address, info: Info) {
    a.svc == info.svc && a.services == info.services && a.nTime == info.nTime
  }

  // ---------------------------------------------------------------- whole runs

  datatype Op =
    | Add(addr: Address, source: NetAddr, nTimePenalty: int, nNow: int)
    | Good(svc: Service, nTime: int)
    | Attempt(svc: Service, nTime: int)
    | Connected(svc: Service, nTime: int)
    | GetAddr

  predicate PositiveTime(op: Op) {
    (op.Good? || op.Attempt?) ==> op.nTime > 0
  }

  /** One operation. Only Good_ can take an entry out of the tried table, and it deletes nobody. */
  method Step(m: Manager, op: Op)
    requires m.Valid()
    modifies m
    ensures m.Valid()
    ensures PositiveTime(op) && TimesOk(old(m.mapInfo)) ==> TimesOk(m.mapInfo)
    ensures !op.Good? ==> forall id :: id in old(m.mapInfo) && old(m.mapInfo)[id].fInTried ==>
              id in m.mapInfo && m.mapInfo[id].fInTried
    ensures op.Good? ==> m.mapInfo.Keys == old(m.mapInfo.Keys)
  {
    hide ConsistentBut;
    match op
    case Add(addr, source, nTimePenalty, nNow) => var _ := m.Add_(addr, source, nTimePenalty, nNow);
    case Good(svc, nTime) => m.Good_(svc, nTime);
    case Attempt(svc, nTime) => m.Attempt_(svc, nTime);
    case Connected(svc, nTime) => m.Connected_(svc, nTime);
    case GetAddr => var _ := m.GetAddr_();
  }

  /** From the empty manager, any run with any hashing and any random draws keeps the manager
      consistent, and its times in order if the times it is given are positive. */
  method Run(hashing: Hashing, routable: NetAddr -> bool, key: Key, ops: seq<Op>) returns (m: Manager)
    ensures m.Valid()
    ensures (forall i :: 0 <= i < |ops| ==> PositiveTime(ops[i])) ==> TimesOk(m.mapInfo)
  {
    hide ConsistentBut;
    m := new Manager(hashing, routable, key);
    for i := 0 to |ops|
      invariant m.Valid() && fresh(m)
      invariant (forall j :: 0 <= j < i ==> PositiveTime(ops[j])) ==> TimesOk(m.mapInfo)
    {
      Step(m, ops[i]);
    }
  }

  /** Certainly there is place in the bucket the promoted entry has just left. */
  lemma OriginHasRoom(t: Tables, id: int, origin: nat)
    requires NewOk(t.infos, t.news) && origin < |t.news| && id in t.news[origin]
    ensures |WithoutId(t.news, id)[origin]| < NEW_BUCKET_SIZE
  {
  }

  /** Entering a bucket deletes at most an untried entry other than the one that enters. */
  lemma EnteringKeepsEntries(h: Hashing, t: Tables, t': Tables, id: int, b: nat, nNow: int)
    requires NewOk(t.infos, t.news) && id in t.infos && Enters(t, t', id, b, nNow) && id !in t.news[b]
    ensures t'.tried == t.tried && t'.nIdCount == t.nIdCount
    ensures id in t'.infos && t'.infos[id] == t.infos[id].(nRandomPos := t'.infos[id].nRandomPos)
    ensures TriedKept(t.infos, t'.infos)
    ensures TimesOk(t.infos) ==> TimesOk(t'.infos)
  {
    if |t.news[b]| == NEW_BUCKET_SIZE {
      var x :| Displaces(t, t', id, b, nNow, x);
      UnrefEntries(t, b, x);
      UnrefShrinks(t, b, x);
      hide Unref;
      LossKeepsTried(t.infos, t'.infos, x);
    }
  }

  lemma LossKeepsTried(m: Infos, m': Infos, x: int)
    requires m'.Keys <= m.Keys && m.Keys - {x} <= m'.Keys && x in m && !m[x].fInTried
    requires x in m' ==> m'[x] == m[x].(nRefCount := m[x].nRefCount - 1)
    requires forall j :: j in m' && j != x ==> m'[j] == m[j].(nRandomPos := m'[j].nRandomPos)
    ensures TriedKept(m, m')
    ensures TimesOk(m) ==> TimesOk(m')
  {
    forall j | j in m && m[j].fInTried
      ensures j in m'
    {
      assert j in m.Keys - {x};
    }
  }

  /** Every tried entry is still there and tried; at most its position and what was announced
      about it have changed. */
  ghost predicate TriedKept(m: Infos, m': Infos) {
    forall j :: j in m && m[j].fInTried ==>
      j in m' && m'[j] == m[j].(nRandomPos := m'[j].nRandomPos, nTime := m'[j].nTime, services := m'[j].services)
  }

  lemma RaiseReference(h: Hashing, t: Tables, id: int)
    requires Consistent(h, t) && id in t.infos && !t.infos[id].fInTried
    requires t.infos[id].nRefCount != NEW_BUCKETS_PER_ADDRESS
    ensures |t.news| == NEW_BUCKET_COUNT
    ensures ConsistentBut(h, WithEntry(t, id, t.infos[id].(nRefCount := t.infos[id].nRefCount + 1)), id)
  {
    RefRaiseKeeps(h, t, id);
  }

  lemma CreatedKeepsEntries(h: Hashing, t: Tables, info: Info)
    requires Consistent(h, t) && !info.fInTried && info.nLastTry == 0 == info.nLastSuccess
    ensures |t.news| == NEW_BUCKET_COUNT
    ensures TriedKept(t.infos, Created(t, info).infos)
    ensures TimesOk(t.infos) ==> TimesOk(Created(t, info).infos)
  {
  }

  lemma BucketBounded(h: Hashing, t: Tables, id: int, b: nat)
    requires ConsistentBut(h, t, id) && b < |t.news|
    ensures |t.news[b]| <= NEW_BUCKET_SIZE && NewOk(t.infos, t.news)
  {
  }

  lemma UnrefShrinks(t: Tables, b: nat, id: int)
    requires Unrefable(t, b, id)
    ensures var u := Unref(t, b, id); u.news == t.news[b := t.news[b] - {id}] && |u.news[b]| == |t.news[b]| - 1
    ensures Unref(t, b, id).tried == t.tried && Unref(t, b, id).nIdCount == t.nIdCount
  {
  }

  lemma EvictsToKeeps(h: Hashing, d: Tables, t': Tables, id: int, origin: nat, bucket: seq<int>, pos: nat)
    requires HomelessOk(h, d, id) && EvictsTo(h, d, t', id, origin, bucket, pos)
    ensures Consistent(h, t')
  {
    var home := h.NewBucket(d.key, d.infos[bucket[pos]].svc.net, d.infos[bucket[pos]].source);
    EvictedKeeps(h, d, id, bucket, pos, if |d.news[home]| < NEW_BUCKET_SIZE then home else origin);
  }

  lemma EntryIsIndexed(h: Hashing, t: Tables, id: int)
    requires Consistent(h, t) && id in t.infos
    ensures t.infos[id].svc.net in t.byAddr && t.byAddr[t.infos[id].svc.net] == id
  {
  }

  lemma UntriedIsReferenced(h: Hashing, t: Tables, id: int)
    requires Consistent(h, t) && id in t.infos
    ensures !t.infos[id].fInTried ==> 1 <= t.infos[id].nRefCount <= NEW_BUCKETS_PER_ADDRESS
  {
    assert RefOk(t.infos[id], t.news, id, NOBODY);
  }

  lemma UntriedCount(h: Hashing, t: Tables, id: int)
    requires Consistent(h, t) && id in t.infos
    ensures t.infos[id].nRefCount == |BucketsOf(t.news, id)|
  {
    assert id != NOBODY;
    assert RefOk(t.infos[id], t.news, id, NOBODY);
  }

  lemma EntryInNewBucket(h: Hashing, t: Tables, id: int, b: nat)
    requires Consistent(h, t) && b < |t.news| && id in t.news[b]
    ensures id in t.infos && !t.infos[id].fInTried
    ensures |t.tried| == TRIED_BUCKET_COUNT && |t.news| == NEW_BUCKET_COUNT && NewOk(t.infos, t.news)
  {
  }

  lemma HomelessShape(h: Hashing, t: Tables, id: int, b: nat)
    requires HomelessOk(h, t, id) && b < TRIED_BUCKET_COUNT
    ensures |t.tried| == TRIED_BUCKET_COUNT && |t.news| == NEW_BUCKET_COUNT && id in t.infos
    ensures Distinct(t.tried[b]) && id !in t.tried[b]
    ensures forall x :: x in t.tried[b] ==> x in t.infos && x != NOBODY
  {
    assert forall x :: x in t.tried[b] ==> x in t.infos;
  }

  lemma NewBucketsAreKnown(infos: Infos, news: seq<set<int>>, nIdCount: int, b: nat)
    requires IdsOk(infos, nIdCount) && NewOk(infos, news) && b < |news|
    ensures news[b] <= infos.Keys && NOBODY !in news[b]
  {
    assert forall x :: x in news[b] ==> x in infos;
  }
}
