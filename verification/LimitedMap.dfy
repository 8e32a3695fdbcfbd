/** A map that makes room for new entries by dropping those of least value, found through a reverse index. */
module LimitedMap {

  /** The reverse index: a multimap from values to the keys that hold them, equal values in order of insertion. */
  type Index<K> = seq<(int, K)>

  ghost predicate Ordered<K>(r: Index<K>) {
    forall i, j :: 0 <= i < j < |r| ==> r[i].0 <= r[j].0
  }

  ghost predicate DistinctKeys<K>(r: Index<K>) {
    forall i, j :: 0 <= i < j < |r| ==> r[i].1 != r[j].1
  }

  ghost predicate Current<K(!new)>(r: Index<K>, m: map<K, int>) {
    forall i :: 0 <= i < |r| ==> r[i].1 in m && m[r[i].1] == r[i].0
  }

  ghost predicate Listed<K>(r: Index<K>, k: K) {
    exists i :: 0 <= i < |r| && r[i].1 == k
  }

  /** The index has exactly one entry per entry of the map, under its current value. */
  ghost predicate Mirrors<K(!new)>(r: Index<K>, m: map<K, int>) {
    DistinctKeys(r) && Current(r, m) && (forall k :: k in m ==> Listed(r, k)) && |r| == |m|
  }

  lemma FirstIsLeast<K(!new)>(r: Index<K>, m: map<K, int>)
    requires Ordered(r) && Mirrors(r, m)
    ensures m != map[] ==> r != [] && forall k :: k in m ==> m[r[0].1] <= m[k]
  {
    if m != map[] {
      assert |m| != 0;
      forall k | k in m
        ensures m[r[0].1] <= m[k]
      {
        assert Listed(r, k);
      }
    }
  }

  lemma NothingListed<K(!new)>(r: Index<K>, m: map<K, int>)
    requires Mirrors(r, m)
    ensures r == [] <==> m == map[]
    ensures |m| == 0 <==> m == map[]
  {
  }

  /** The index without its i-th entry. */
  function Without<K>(r: Index<K>, i: nat): (w: Index<K>)
    requires i < |r|
    ensures |w| == |r| - 1
  {
    r[..i] + r[i + 1..]
  }

  /** The index with an entry put in at place i. */
  function With<K>(r: Index<K>, i: nat, v: int, k: K): (w: Index<K>)
    requires i <= |r|
    ensures |w| == |r| + 1
  {
    r[..i] + [(v, k)] + r[i..]
  }

  lemma DroppedOrder<K>(r: Index<K>, i: nat)
    requires i < |r|
    ensures Ordered(r) ==> Ordered(Without(r, i))
    ensures DistinctKeys(r) ==> DistinctKeys(Without(r, i))
  {
  }

  lemma DroppedCurrent<K(!new)>(r: Index<K>, m: map<K, int>, i: nat)
    requires Current(r, m) && DistinctKeys(r) && i < |r|
    ensures Current(Without(r, i), m - {r[i].1})
  {
  }

  lemma DroppedListed<K>(r: Index<K>, i: nat, l: K)
    requires i < |r| && Listed(r, l) && l != r[i].1
    ensures Listed(Without(r, i), l)
  {
    var j :| 0 <= j < |r| && r[j].1 == l;
    assert Without(r, i)[if j < i then j else j - 1] == r[j];
  }

  lemma Dropped<K(!new)>(r: Index<K>, m: map<K, int>, i: nat)
    requires Ordered(r) && Mirrors(r, m) && i < |r|
    ensures Ordered(Without(r, i)) && Mirrors(Without(r, i), m - {r[i].1})
    ensures |m - {r[i].1}| == |m| - 1 && r[i].1 in m
  {
    DroppedOrder(r, i);
    DroppedCurrent(r, m, i);
    assert r[i].1 in m;
    hide Ordered;
    hide DistinctKeys;
    hide Current;
    hide Listed;
    hide Without;
    assert (m - {r[i].1}).Keys == m.Keys - {r[i].1};
    forall l | l in m - {r[i].1}
      ensures Listed(Without(r, i), l)
    {
      DroppedListed(r, i, l);
    }
  }

  lemma AddedOrder<K>(r: Index<K>, i: nat, v: int, k: K)
    requires i <= |r| && (forall j :: 0 <= j < i ==> r[j].0 <= v) && forall j :: i <= j < |r| ==> v <= r[j].0
    ensures Ordered(r) ==> Ordered(With(r, i, v, k))
  {
  }

  lemma AddedKeys<K(!new)>(r: Index<K>, m: map<K, int>, i: nat, v: int, k: K)
    requires DistinctKeys(r) && Current(r, m) && i <= |r| && k !in m
    ensures DistinctKeys(With(r, i, v, k)) && Current(With(r, i, v, k), m[k := v])
  {
  }

  lemma AddedListed<K>(r: Index<K>, i: nat, v: int, k: K, l: K)
    requires i <= |r| && (l == k || Listed(r, l))
    ensures Listed(With(r, i, v, k), l)
  {
    if l == k {
      assert With(r, i, v, k)[i].1 == k;
    } else {
      var j :| 0 <= j < |r| && r[j].1 == l;
      assert With(r, i, v, k)[if j < i then j else j + 1] == r[j];
    }
  }

  lemma Added<K(!new)>(r: Index<K>, m: map<K, int>, i: nat, k: K, v: int)
    requires Ordered(r) && Mirrors(r, m) && k !in m
    requires i <= |r| && (forall j :: 0 <= j < i ==> r[j].0 <= v) && forall j :: i <= j < |r| ==> v <= r[j].0
    ensures Ordered(With(r, i, v, k)) && Mirrors(With(r, i, v, k), m[k := v])
  {
    AddedOrder(r, i, v, k);
    AddedKeys(r, m, i, v, k);
    hide Ordered;
    hide DistinctKeys;
    hide Current;
    hide Listed;
    hide With;
    forall l | l in m[k := v]
      ensures Listed(With(r, i, v, k), l)
    {
      AddedListed(r, i, v, k, l);
    }
  }

  class Limited<K(==, !new)> {
    var entries: map<K, int>
    var rmap: Index<K>
    var nMaxSize: nat

    ghost predicate Valid()
      reads this
    {
      Ordered(rmap) && Mirrors(rmap, entries)
    }

    /** With a limit of at least two fixed at construction. */
    ghost predicate Bounded()
      reads this
    {
      Valid() && nMaxSize >= 2 && |entries| < nMaxSize
    }

    constructor (nMaxSizeIn: nat)
      ensures Valid() && entries == map[] && nMaxSize == nMaxSizeIn
    {
      entries, rmap, nMaxSize := map[], [], nMaxSizeIn;
    }

    /** The place after all entries of at most this value. */
    method UpperBound(v: int) returns (i: nat)
      requires Ordered(rmap)
      ensures i <= |rmap| && (forall j :: 0 <= j < i ==> rmap[j].0 <= v)
      ensures forall j :: i <= j < |rmap| ==> v < rmap[j].0
    {
      i := 0;
      while i < |rmap| && rmap[i].0 <= v
        invariant i <= |rmap| && forall j :: 0 <= j < i ==> rmap[j].0 <= v
      {
        i := i + 1;
      }
    }

    method LowerBound(v: int) returns (i: nat)
      requires Ordered(rmap)
      ensures i <= |rmap| && (forall j :: 0 <= j < i ==> rmap[j].0 < v)
      ensures forall j :: i <= j < |rmap| ==> v <= rmap[j].0
    {
      i := 0;
      while i < |rmap| && rmap[i].0 < v
        invariant i <= |rmap| && forall j :: 0 <= j < i ==> rmap[j].0 < v
      {
        i := i + 1;
      }
    }

    /** A new key is added; when that fills the map, an entry of least value among the old ones goes. With a limit of
        one and nothing in the map there is no old entry, and the first one of an empty index is read: the behaviour
        is undefined exactly then. */
    method Insert(k: K, v: int) returns (defined: bool)
      requires Valid()
      modifies this
      ensures nMaxSize == old(nMaxSize) && (defined <==> !old(nMaxSize == 1 && entries == map[]))
      ensures defined ==> Valid()
      ensures k in old(entries) ==> entries == old(entries)
      ensures k !in old(entries) && old(nMaxSize == 0 || |entries| + 1 != nMaxSize) ==> entries == old(entries)[k := v]
      ensures defined && k !in old(entries) && old(nMaxSize != 0 && |entries| + 1 == nMaxSize) ==>
                exists e :: IsLeast(old(entries), e) && entries == old(entries)[k := v] - {e}
      ensures old(Bounded()) ==> Bounded()
    {
      hide Ordered;
      hide Mirrors;
      hide With;
      hide Without;
      defined := true;
      if k !in entries {
        ghost var m, base := entries, entries;
        entries := entries[k := v];
        if nMaxSize != 0 && |entries| == nMaxSize {
          NothingListed(rmap, m);
          if rmap == [] {
            return false;
          }
          FirstIsLeast(rmap, m);
          Dropped(rmap, m, 0);
          ghost var e := rmap[0].1;
          base := m - {e};
          assert IsLeast(m, e);
          assert entries - {e} == base[k := v];
          entries := entries - {rmap[0].1};
          rmap := Without(rmap, 0);
        }
        assert entries == base[k := v];
        var i := UpperBound(v);
        Added(rmap, base, i, k, v);
        rmap := With(rmap, i, v, k);
      }
    }

    /** Removes the key, if it is there; the search through the equal values cannot miss it. */
    method Erase(k: K)
      requires Valid()
      modifies this
      ensures Valid() && nMaxSize == old(nMaxSize)
      ensures entries == old(entries) - {k}
      ensures old(Bounded()) ==> Bounded()
    {
      hide Ordered;
      hide Mirrors;
      hide With;
      hide Without;
      if k !in entries {
        assert entries - {k} == entries;
        return;
      }
      var it := Position(k);
      Dropped(rmap, entries, it);
      rmap := Without(rmap, it);
      entries := entries - {k};
    }

    /** Gives the key a new value, if it is there. */
    method Update(k: K, v: int)
      requires Valid()
      modifies this
      ensures Valid() && nMaxSize == old(nMaxSize)
      ensures entries == if k in old(entries) then old(entries)[k := v] else old(entries)
      ensures old(Bounded()) ==> Bounded()
    {
      hide Ordered;
      hide Mirrors;
      hide With;
      hide Without;
      if k !in entries {
        return;
      }
      var it := Position(k);
      Dropped(rmap, entries, it);
      ghost var without := entries - {k};
      rmap := Without(rmap, it);
      entries := entries[k := v];
      assert without[k := v] == entries;
      var i := UpperBound(v);
      Added(rmap, without, i, k, v);
      rmap := With(rmap, i, v, k);
    }

    /** The search shared by erase and update: through the range of equal values for the entry of the key. */
    method Position(k: K) returns (it: nat)
      requires Valid() && k in entries
      ensures it < |rmap| && rmap[it].1 == k
    {
      var first := LowerBound(entries[k]);
      var last := UpperBound(entries[k]);
      it := first;
      ghost var p: nat :| p < |rmap| && rmap[p].1 == k by {
        assert Listed(rmap, k);
      }
      while it < last
        invariant first <= it <= p < last
        decreases last - it
      {
        if rmap[it].1 == k {
          return;
        }
        it := it + 1;
      }
      assert false;
    }

    /** The setter drops entries of least value down to the new size, no further. */
    method SetMaxSize(s: nat)
      requires Valid()
      modifies this
      ensures Valid() && nMaxSize == s
      ensures |entries| == if s != 0 && s < |old(entries)| then s else |old(entries)|
      ensures forall k :: k in entries ==> k in old(entries) && entries[k] == old(entries)[k]
      ensures forall k, e :: k in entries && e in old(entries) && e !in entries ==> old(entries)[e] <= entries[k]
      ensures s >= 2 ==> (Bounded() <==> |old(entries)| < s)
    {
      hide Ordered;
      hide Mirrors;
      hide With;
      hide Without;
      if s != 0 {
        ghost var m := entries;
        while |entries| > s
          invariant Valid() && (if s < |m| then s else |m|) <= |entries| <= |m|
          invariant forall k :: k in entries ==> k in m && entries[k] == m[k]
          invariant forall k, e :: k in entries && e in m && e !in entries ==> m[e] <= entries[k]
          decreases |entries|
        {
          FirstIsLeast(rmap, entries);
          Dropped(rmap, entries, 0);
          entries := entries - {rmap[0].1};
          rmap := Without(rmap, 0);
        }
      }
      nMaxSize := s;
    }
  }

  ghost predicate IsLeast<K(!new)>(m: map<K, int>, e: K) {
    e in m && forall k :: k in m ==> m[e] <= m[k]
  }

  /** No entry dropped has a higher value than one kept. */
  ghost predicate KeepsHighest<K(!new)>(all: map<K, int>, kept: map<K, int>) {
    forall e, k :: e in all && e !in kept && k in kept ==> all[e] <= kept[k]
  }

  /** The header says that the elements of highest value are kept. An insertion that drops an entry does so
      exactly when the new value is not below the least of the old ones. */
  lemma KeepsHighestExactlyWhen<K(!new)>(m: map<K, int>, k: K, v: int, e: K)
    requires k !in m && IsLeast(m, e)
    ensures KeepsHighest(m[k := v], m[k := v] - {e}) <==> v >= m[e]
  {
    var all, kept := m[k := v], m[k := v] - {e};
    if v < m[e] {
      assert k in kept && e in all && e !in kept && all[e] > kept[k];
    }
  }

  /** The same insertion with a low value: the higher entry goes. */
  lemma HighestCanGo()
    ensures var m: map<int, int> := map[1 := 5];
            IsLeast(m, 1) && m[2 := 3] - {1} == map[2 := 3] && !KeepsHighest(m[2 := 3], m[2 := 3] - {1})
  {
    var m: map<int, int> := map[1 := 5];
    KeepsHighestExactlyWhen(m, 2, 3, 1);
  }

  // ---------------------------------------------------------------- whole runs

  datatype Op<K> = Insert(k: K, v: int) | Erase(k: K) | Update(k: K, v: int)

  /** Every run without limit, or under one of at least two, is defined, and stays below the limit. Under a limit of
      one a run is defined exactly when it inserts nothing. */
  method Run<K(==, !new)>(nMaxSize: nat, ops: seq<Op<K>>) returns (defined: bool, l: Limited<K>)
    ensures defined <==> nMaxSize != 1 || forall i :: 0 <= i < |ops| ==> !ops[i].Insert?
    ensures defined ==> l.Valid() && l.nMaxSize == nMaxSize && (nMaxSize >= 2 ==> l.Bounded())
  {
    l := new Limited(nMaxSize);
    for i := 0 to |ops|
      invariant fresh(l) && l.Valid() && l.nMaxSize == nMaxSize && (nMaxSize >= 2 ==> l.Bounded())
      invariant nMaxSize == 1 ==> l.entries == map[] && forall j :: 0 <= j < i ==> !ops[j].Insert?
    {
      match ops[i] {
        case Insert(k, v) =>
          var ok := l.Insert(k, v);
          if !ok {
            return false, l;
          }
        case Erase(k) => l.Erase(k);
        case Update(k, v) => l.Update(k, v);
      }
    }
    return true, l;
  }
}
