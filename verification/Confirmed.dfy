/** When a transaction of the wallet counts as confirmed through the transactions it rests on. */
module Confirmed {
  import opened Common

  type Hash = int

  /** A transaction: the hashes its inputs name, and what the chain and the wallet say of it. */
  datatype Tx = Tx(hash: Hash, vin: seq<Hash>, final: bool, depth: int, fromMe: bool)

  type Prev = map<Hash, Tx>

  /** The supporting transactions by hash; of two with one hash the later stands. */
  ghost function MapOf(vtxPrev: seq<Tx>): Prev {
    if vtxPrev == [] then map[] else
      var t := vtxPrev[|vtxPrev| - 1];
      MapOf(vtxPrev[..|vtxPrev| - 1])[t.hash := t]
  }

  /** A hash leads to a transaction with it, exactly when there is one, and to the last of several. */
  lemma {:induction false} MapOfIs(vtxPrev: seq<Tx>, h: Hash)
    ensures h in MapOf(vtxPrev) <==> exists k :: 0 <= k < |vtxPrev| && vtxPrev[k].hash == h
    ensures h in MapOf(vtxPrev) ==>
              exists k :: 0 <= k < |vtxPrev| && vtxPrev[k].hash == h && MapOf(vtxPrev)[h] == vtxPrev[k]
                          && forall j :: k < j < |vtxPrev| ==> vtxPrev[j].hash != h
  {
    if vtxPrev != [] {
      var n := |vtxPrev| - 1;
      MapOfIs(vtxPrev[..n], h);
      if vtxPrev[n].hash != h && h in MapOf(vtxPrev[..n]) {
        var k :| 0 <= k < n && vtxPrev[..n][k].hash == h && MapOf(vtxPrev[..n])[h] == vtxPrev[..n][k]
                 && forall j :: k < j < n ==> vtxPrev[..n][j].hash != h;
        assert vtxPrev[k].hash == h;
        forall j | k < j < |vtxPrev|
          ensures vtxPrev[j].hash != h
        {
          if j < n {
            assert vtxPrev[..n][j] == vtxPrev[j];
          }
        }
      }
    }
  }

  /** No transaction rests on itself: there is a rank that falls along every input. */
  ghost predicate Acyclic(prev: Prev, rank: Tx -> nat) {
    forall t: Tx, i :: 0 <= i < |t.vin| && t.vin[i] in prev ==> rank(prev[t.vin[i]]) < rank(t)
  }

  /** Final, and in the chain or ours with all it rests on settled. */
  ghost predicate Settled(prev: Prev, rank: Tx -> nat, t: Tx)
    requires Acyclic(prev, rank)
    decreases rank(t)
  {
    && t.final
    && (t.depth >= 1 || (t.fromMe && forall i :: 0 <= i < |t.vin| ==>
                           t.vin[i] in prev && Settled(prev, rank, prev[t.vin[i]])))
  }

  // ---------------------------------------------------------------- the same by reachability

  /** What a transaction must satisfy by itself. */
  ghost predicate Good(prev: Prev, t: Tx) {
    t.final && (t.depth >= 1 || (t.fromMe && forall i :: 0 <= i < |t.vin| ==> t.vin[i] in prev))
  }

  /** The transaction reached by following inputs, which goes on only from unconfirmed ones. */
  ghost function Reached(prev: Prev, t: Tx, path: seq<nat>): Option<Tx>
    decreases |path|
  {
    if path == [] then Some(t)
    else if t.depth < 1 && path[0] < |t.vin| && t.vin[path[0]] in prev then
        Reached(prev, prev[t.vin[path[0]]], path[1..])
    else None
  }

  lemma {:induction false} SettledReachesGood(prev: Prev, rank: Tx -> nat, t: Tx, path: seq<nat>)
    requires Acyclic(prev, rank) && Settled(prev, rank, t)
    ensures Reached(prev, t, path).Some? ==> Good(prev, Reached(prev, t, path).value)
    decreases |path|
  {
    if path != [] && t.depth < 1 && path[0] < |t.vin| && t.vin[path[0]] in prev {
      SettledReachesGood(prev, rank, prev[t.vin[path[0]]], path[1..]);
    }
  }

  lemma {:induction false} UnsettledReachesBad(prev: Prev, rank: Tx -> nat, t: Tx) returns (path: seq<nat>)
    requires Acyclic(prev, rank) && !Settled(prev, rank, t)
    ensures Reached(prev, t, path).Some? && !Good(prev, Reached(prev, t, path).value)
    decreases rank(t)
  {
    path := [];
    if Good(prev, t) {
      var i :| 0 <= i < |t.vin| && !Settled(prev, rank, prev[t.vin[i]]);
      var rest := UnsettledReachesBad(prev, rank, prev[t.vin[i]]);
      path := [i] + rest;
      assert path[1..] == rest;
    }
  }

  /** Settled means that everything reachable through unconfirmed transactions is final, present, and
      confirmed or ours. */
  lemma SettledCharacterized(prev: Prev, rank: Tx -> nat, start: Tx)
    requires Acyclic(prev, rank)
    ensures Settled(prev, rank, start) <==>
            forall path :: Reached(prev, start, path).Some? ==> Good(prev, Reached(prev, start, path).value)
  {
    if Settled(prev, rank, start) {
      forall path | Reached(prev, start, path).Some?
        ensures Good(prev, Reached(prev, start, path).value)
      {
        SettledReachesGood(prev, rank, start, path);
      }
    } else {
      var path := UnsettledReachesBad(prev, rank, start);
    }
  }

  // ---------------------------------------------------------------- the work queue

  /** The transactions the inputs name. */
  function Parents(prev: Prev, vin: seq<Hash>): seq<Tx>
    requires forall i :: 0 <= i < |vin| ==> vin[i] in prev
  {
    if vin == [] then [] else Parents(prev, vin[..|vin| - 1]) + [prev[vin[|vin| - 1]]]
  }

  /** The size of the tree below a transaction: what the queue may grow to on its account. */
  ghost function TreeSize(prev: Prev, rank: Tx -> nat, t: Tx): nat
    requires Acyclic(prev, rank)
    decreases rank(t), |t.vin| + 1
  {
    1 + ParentsSize(prev, rank, t, |t.vin|)
  }

  /** The trees of the first n inputs together. */
  ghost function ParentsSize(prev: Prev, rank: Tx -> nat, t: Tx, n: nat): nat
    requires Acyclic(prev, rank) && n <= |t.vin|
    decreases rank(t), n
  {
    if n == 0 then 0 else
      ParentsSize(prev, rank, t, n - 1) +
      if t.vin[n - 1] in prev then TreeSize(prev, rank, prev[t.vin[n - 1]]) else 0
  }

  ghost function Work(prev: Prev, rank: Tx -> nat, queue: seq<Tx>): nat
    requires Acyclic(prev, rank)
  {
    if queue == [] then 0 else Work(prev, rank, queue[..|queue| - 1]) + TreeSize(prev, rank, queue[|queue| - 1])
  }

  lemma {:induction false} WorkConcat(prev: Prev, rank: Tx -> nat, a: seq<Tx>, b: seq<Tx>)
    requires Acyclic(prev, rank)
    ensures Work(prev, rank, a + b) == Work(prev, rank, a) + Work(prev, rank, b)
  {
    if b == [] {
      assert a + b == a;
    } else {
      WorkConcat(prev, rank, a, b[..|b| - 1]);
      assert (a + b)[..|a + b| - 1] == a + b[..|b| - 1];
    }
  }

  ghost predicate AllSettled(prev: Prev, rank: Tx -> nat, queue: seq<Tx>)
    requires Acyclic(prev, rank)
  {
    forall j :: 0 <= j < |queue| ==> Settled(prev, rank, queue[j])
  }

  lemma AllSettledConcat(prev: Prev, rank: Tx -> nat, a: seq<Tx>, b: seq<Tx>)
    requires Acyclic(prev, rank)
    ensures AllSettled(prev, rank, a + b) <==> AllSettled(prev, rank, a) && AllSettled(prev, rank, b)
  {
    if AllSettled(prev, rank, a + b) {
      assert forall j :: 0 <= j < |a| ==> a[j] == (a + b)[j];
      assert forall j :: 0 <= j < |b| ==> b[j] == (a + b)[|a| + j];
    }
  }

  /** The parents are less work than the transaction, and settle it together with what it is itself. */
  lemma {:induction false} ParentsInstead(prev: Prev, rank: Tx -> nat, t: Tx, n: nat)
    requires Acyclic(prev, rank) && n <= |t.vin| && forall i :: 0 <= i < |t.vin| ==> t.vin[i] in prev
    ensures Work(prev, rank, Parents(prev, t.vin[..n])) == ParentsSize(prev, rank, t, n)
    ensures AllSettled(prev, rank, Parents(prev, t.vin[..n])) <==>
            forall i :: 0 <= i < n ==> Settled(prev, rank, prev[t.vin[i]])
    decreases n
  {
    if n > 0 {
      ParentsInstead(prev, rank, t, n - 1);
      var p := prev[t.vin[n - 1]];
      assert t.vin[..n][..n - 1] == t.vin[..n - 1];
      WorkConcat(prev, rank, Parents(prev, t.vin[..n - 1]), [p]);
      AllSettledConcat(prev, rank, Parents(prev, t.vin[..n - 1]), [p]);
      OneTx(prev, rank, p);
    }
  }

  lemma OneTx(prev: Prev, rank: Tx -> nat, t: Tx)
    requires Acyclic(prev, rank)
    ensures Work(prev, rank, [t]) == TreeSize(prev, rank, t)
    ensures AllSettled(prev, rank, [t]) <==> Settled(prev, rank, t)
  {
    assert [t][..0] == [];
    assert [t][0] == t;
  }

  lemma QueueFirst(prev: Prev, rank: Tx -> nat, t: Tx, rest: seq<Tx>)
    requires Acyclic(prev, rank)
    ensures Work(prev, rank, [t] + rest) == TreeSize(prev, rank, t) + Work(prev, rank, rest)
    ensures AllSettled(prev, rank, [t] + rest) <==> Settled(prev, rank, t) && AllSettled(prev, rank, rest)
    ensures TreeSize(prev, rank, t) > 0
  {
    WorkConcat(prev, rank, [t], rest);
    AllSettledConcat(prev, rank, [t], rest);
    OneTx(prev, rank, t);
  }

  /** A transaction of ours at the head of the queue gives way to its parents. */
  lemma HeadGivesWay(prev: Prev, rank: Tx -> nat, t: Tx, rest: seq<Tx>)
    requires Acyclic(prev, rank) && t.final && t.depth < 1 && t.fromMe
    requires forall i :: 0 <= i < |t.vin| ==> t.vin[i] in prev
    ensures Work(prev, rank, rest + Parents(prev, t.vin)) < Work(prev, rank, [t] + rest)
    ensures AllSettled(prev, rank, rest + Parents(prev, t.vin)) <==> AllSettled(prev, rank, [t] + rest)
  {
    QueueFirst(prev, rank, t, rest);
    WorkConcat(prev, rank, rest, Parents(prev, t.vin));
    AllSettledConcat(prev, rank, rest, Parents(prev, t.vin));
    ParentsInstead(prev, rank, t, |t.vin|);
    assert t.vin[..|t.vin|] == t.vin;
  }

  /** The queue search answers whether the transaction is settled; it ends on every acyclic graph. */
  method IsConfirmed(wtx: Tx, vtxPrev: seq<Tx>, ghost rank: Tx -> nat) returns (r: bool)
    requires Acyclic(MapOf(vtxPrev), rank)
    ensures r <==> Settled(MapOf(vtxPrev), rank, wtx)
  {
    hide Work;
    hide AllSettled;
    hide Parents;
    hide Acyclic;
    hide TreeSize;
    if !wtx.final { return false; }
    if wtx.depth >= 1 { return true; }
    if !wtx.fromMe { return false; }
    ghost var prev := MapOf(vtxPrev);
    var mapPrev: Prev := map[];
    var vWorkQueue := [wtx];
    OneTx(prev, rank, wtx);
    var i := 0;
    while i < |vWorkQueue|
      invariant 0 <= i <= |vWorkQueue|
      invariant mapPrev == map[] || mapPrev == prev
      invariant Settled(prev, rank, wtx) <==> AllSettled(prev, rank, vWorkQueue[i..])
      decreases Work(prev, rank, vWorkQueue[i..])
    {
      var ptx := vWorkQueue[i];
      ghost var rest := vWorkQueue[i + 1..];
      assert vWorkQueue[i..] == [ptx] + rest;
      QueueFirst(prev, rank, ptx, rest);
      if !ptx.final { return false; }
      if ptx.depth >= 1 {
        i := i + 1;
        continue;
      }
      if !ptx.fromMe { return false; }
      if mapPrev == map[] {
        mapPrev := Index(vtxPrev);
      }
      var present, parents := Lookup(mapPrev, ptx.vin);
      if !present { return false; }
      HeadGivesWay(prev, rank, ptx, rest);
      vWorkQueue := vWorkQueue + parents;
      i := i + 1;
      assert vWorkQueue[i..] == rest + parents;
    }
    AllSettledNothing(prev, rank);
    assert vWorkQueue[i..] == [];
    return true;
  }

  lemma AllSettledNothing(prev: Prev, rank: Tx -> nat)
    requires Acyclic(prev, rank)
    ensures AllSettled(prev, rank, [])
  {
  }

  /** The loop over the inputs, up to the first that is missing. */
  method Lookup(mapPrev: Prev, vin: seq<Hash>) returns (present: bool, parents: seq<Tx>)
    ensures present <==> forall i :: 0 <= i < |vin| ==> vin[i] in mapPrev
    ensures present ==> parents == Parents(mapPrev, vin)
  {
    parents := [];
    for k := 0 to |vin|
      invariant forall i :: 0 <= i < k ==> vin[i] in mapPrev
      invariant parents == Parents(mapPrev, vin[..k])
    {
      if vin[k] !in mapPrev { return false, parents; }
      assert vin[..k + 1][..k] == vin[..k];
      parents := parents + [mapPrev[vin[k]]];
    }
    assert vin[..|vin|] == vin;
    return true, parents;
  }

  method Index(vtxPrev: seq<Tx>) returns (mapPrev: Prev)
    ensures mapPrev == MapOf(vtxPrev)
  {
    mapPrev := map[];
    for k := 0 to |vtxPrev|
      invariant mapPrev == MapOf(vtxPrev[..k])
    {
      assert vtxPrev[..k + 1][..k] == vtxPrev[..k];
      mapPrev := mapPrev[vtxPrev[k].hash := vtxPrev[k]];
    }
    assert vtxPrev[..|vtxPrev|] == vtxPrev;
  }
}
