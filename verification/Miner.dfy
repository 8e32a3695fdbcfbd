/** Block template assembly: which transactions of the memory pool go into the block, in what order. */
module Miner {
  import opened Common

  type Hash = int

  datatype OutPoint = OutPoint(hash: Hash, n: nat)

  datatype Tx = Tx(hash: Hash, vin: seq<OutPoint>, vout: seq<int>, final: bool, size: nat, legacySigOps: nat)

  const NULL_OUT: OutPoint := OutPoint(0, 0xFFFF_FFFF)

  predicate IsCoinBase(tx: Tx) { |tx.vin| == 1 && tx.vin[0] == NULL_OUT }

  type Pool = map<Hash, Tx>

  /** The coin view: the unspent outputs and their values. */
  type View = map<OutPoint, int>

  /** What the selection consults but does not compute: the two sort keys of a transaction, the
      script checks and the signature operations that show only with the inputs. */
  datatype Env = Env(prio: Tx -> int, feePerKb: Tx -> int, checkInputs: (Tx, View) -> bool,
                     p2shSigOps: (Tx, View) -> nat)

  datatype Limits = Limits(maxSize: nat, prioritySize: nat, minSize: nat, maxSigOps: nat, minTxFee: int,
                           prioThreshold: int)

  // ---------------------------------------------------------------- the coin view

  /** The view knows some output of the transaction. */
  predicate HaveCoins(view: View, h: Hash) {
    exists o :: o in view && o.hash == h
  }

  predicate HaveInputs(view: View, tx: Tx) {
    forall i :: 0 <= i < |tx.vin| ==> tx.vin[i] in view
  }

  function ValueIn(view: View, vin: seq<OutPoint>): int
    requires forall i :: 0 <= i < |vin| ==> vin[i] in view
  {
    if vin == [] then 0 else ValueIn(view, vin[..|vin| - 1]) + view[vin[|vin| - 1]]
  }

  function Sum(s: seq<int>): int {
    if s == [] then 0 else Sum(s[..|s| - 1]) + s[|s| - 1]
  }

  function Outputs(tx: Tx): View {
    map i: nat | i < |tx.vout| :: OutPoint(tx.hash, i) := tx.vout[i]
  }

  /** Spends the inputs and adds the outputs. */
  function UpdateCoins(view: View, tx: Tx): View {
    (view - (set i | 0 <= i < |tx.vin| :: tx.vin[i])) + Outputs(tx)
  }

  ghost function ViewAfter(view: View, txs: seq<Tx>): View {
    if txs == [] then view else UpdateCoins(ViewAfter(view, txs[..|txs| - 1]), txs[|txs| - 1])
  }

  // ---------------------------------------------------------------- the pool

  /** What acceptance to the pool establishes: entries are filed under their hash, no transaction
      spends the same output twice, and none is in the chain already. */
  ghost predicate PoolOk(pool: Pool, view: View) {
    && (forall h :: h in pool ==> pool[h].hash == h)
    && (forall h :: h in pool ==> DistinctInputs(pool[h]))
    && (forall h :: h in pool ==> !HaveCoins(view, h))
  }

  ghost predicate DistinctInputs(tx: Tx) {
    forall i, j :: 0 <= i < j < |tx.vin| ==> tx.vin[i] != tx.vin[j]
  }

  /** Input i has to wait for a transaction of the pool. */
  ghost predicate Waits(pool: Pool, view: View, tx: Tx, i: nat)
    requires i < |tx.vin|
  {
    !HaveCoins(view, tx.vin[i].hash) && tx.vin[i].hash in pool
  }

  /** Input i is to be found nowhere. */
  ghost predicate Missing(pool: Pool, view: View, tx: Tx, i: nat)
    requires i < |tx.vin|
  {
    !HaveCoins(view, tx.vin[i].hash) && tx.vin[i].hash !in pool
  }

  /** Input i waits, and a later input is the first found missing: the record of the waiting transaction is dropped,
      while the reference to it on the list for input i remains. */
  ghost predicate Drops(pool: Pool, view: View, tx: Tx, i: nat)
    requires i < |tx.vin|
  {
    && Waits(pool, view, tx, i) && (forall j :: 0 <= j < i ==> !Missing(pool, view, tx, j))
    && exists j :: i < j < |tx.vin| && Missing(pool, view, tx, j)
  }

  /** One of these transactions leaves a dangling reference on the list for g. */
  ghost predicate Dangles(pool: Pool, view: View, seen: set<Hash>, g: Hash) {
    exists h, i :: h in seen && h in pool && !IsCoinBase(pool[h]) && pool[h].final && 0 <= i < |pool[h].vin| &&
      Drops(pool, view, pool[h], i) && pool[h].vin[i].hash == g
  }

  ghost predicate NoDangling(pool: Pool, view: View) {
    forall g :: !Dangles(pool, view, pool.Keys, g)
  }

  /** Closed under parents: every input is in the chain or in the pool. */
  ghost predicate Closed(pool: Pool, view: View) {
    forall h, i :: h in pool && 0 <= i < |pool[h].vin| ==> !Missing(pool, view, pool[h], i)
  }

  /** A transaction that is considered at all. */
  ghost predicate Candidate(pool: Pool, view: View, h: Hash) {
    && h in pool && !IsCoinBase(pool[h]) && pool[h].final
    && forall i :: 0 <= i < |pool[h].vin| ==> !Missing(pool, view, pool[h], i)
  }

  /** The parents in the pool. */
  ghost function Parents(pool: Pool, view: View, tx: Tx): set<Hash> {
    set i | 0 <= i < |tx.vin| && Waits(pool, view, tx, i) :: tx.vin[i].hash
  }

  // ---------------------------------------------------------------- the scan of the pool

  /** COrphan: a transaction waiting for others, and those it still waits for. */
  datatype Orphan = Orphan(tx: Tx, dependsOn: set<Hash>)

  /** For each transaction waited for, the places of those waiting in the list of orphans. */
  type Dependers = map<Hash, seq<nat>>

  function At(d: Dependers, h: Hash): seq<nat> {
    if h in d then d[h] else []
  }

  /** An entry of the priority queue. */
  datatype TxPriority = TxPriority(prio: int, feePerKb: int, tx: Tx)

  function Entry(env: Env, tx: Tx): TxPriority {
    TxPriority(env.prio(tx), env.feePerKb(tx), tx)
  }

  ghost function ParentsUpTo(pool: Pool, view: View, tx: Tx, n: nat): set<Hash>
    requires n <= |tx.vin|
  {
    set i | 0 <= i < n && Waits(pool, view, tx, i) :: tx.vin[i].hash
  }

  /** Place i is on the list for h exactly when orphan i waits for h. */
  ghost predicate DependersOk(orphans: seq<Orphan>, d: Dependers) {
    forall h, i: nat :: i in At(d, h) <==> i < |orphans| && h in orphans[i].dependsOn
  }

  /** The loop over the inputs of one transaction. When its record is dropped, the references to it become invalid:
      they no longer name a place, and the transactions on whose lists they are make up `dangling`. */
  method ScanInputs(pool: Pool, view: View, tx: Tx, orphans0: seq<Orphan>, dependers0: Dependers, dangling0: set<Hash>)
    returns (missing: bool, waiting: bool, orphans: seq<Orphan>, dependers: Dependers, dangling: set<Hash>)
    requires DependersOk(orphans0, dependers0)
    ensures missing <==> exists i :: 0 <= i < |tx.vin| && Missing(pool, view, tx, i)
    ensures !missing ==> (waiting <==> Parents(pool, view, tx) != {})
    ensures missing || !waiting ==> orphans == orphans0 && dependers == dependers0
    ensures !missing && waiting ==> orphans == orphans0 + [Orphan(tx, Parents(pool, view, tx))]
    ensures DependersOk(orphans, dependers)
    ensures forall g :: g in dangling <==>
              g in dangling0 || exists i :: 0 <= i < |tx.vin| && Drops(pool, view, tx, i) && tx.vin[i].hash == g
  {
    hide Drops;
    hide DependersOk;
    missing, waiting, orphans, dependers, dangling := false, false, orphans0, dependers0, dangling0;
    for k := 0 to |tx.vin|
      invariant forall i :: 0 <= i < k ==> !Missing(pool, view, tx, i)
      invariant !missing && (waiting <==> ParentsUpTo(pool, view, tx, k) != {})
      invariant !waiting ==> orphans == orphans0 && dependers == dependers0
      invariant waiting ==> orphans == orphans0 + [Orphan(tx, ParentsUpTo(pool, view, tx, k))]
      invariant DependersOk(orphans, dependers) && dangling == dangling0
    {
      var h := tx.vin[k].hash;
      ParentsNext(pool, view, tx, k);
      if !HaveCoins(view, h) {
        if h !in pool {
          assert Missing(pool, view, tx, k);
          missing := true;
          DroppedAt(pool, view, tx, k);
          if waiting {
            var p := |orphans| - 1;
            dangling := dangling + orphans[p].dependsOn;
            orphans, dependers := orphans[..p], dependers0;
          }
          assert dangling == dangling0 + ParentsUpTo(pool, view, tx, k);
          return;
        }
        assert Waits(pool, view, tx, k);
        if !waiting {
          AddOrphan(orphans, dependers, tx);
          orphans, waiting := orphans + [Orphan(tx, {})], true;
        }
        var p := |orphans| - 1;
        AddDepender(orphans, dependers, p, h);
        dependers := dependers[h := At(dependers, h) + [p]];
        orphans := orphans[p := orphans[p].(dependsOn := orphans[p].dependsOn + {h})];
        assert orphans[p] == Orphan(tx, ParentsUpTo(pool, view, tx, k + 1));
        assert orphans == orphans0 + [orphans[p]];
      }
    }
    NothingDropped(pool, view, tx);
  }

  lemma NothingDropped(pool: Pool, view: View, tx: Tx)
    requires forall i :: 0 <= i < |tx.vin| ==> !Missing(pool, view, tx, i)
    ensures forall i :: 0 <= i < |tx.vin| ==> !Drops(pool, view, tx, i)
    ensures ParentsUpTo(pool, view, tx, |tx.vin|) == Parents(pool, view, tx)
  {
  }

  /** The references left when the first missing input is k. */
  lemma DroppedAt(pool: Pool, view: View, tx: Tx, k: nat)
    requires k < |tx.vin| && Missing(pool, view, tx, k) && forall i :: 0 <= i < k ==> !Missing(pool, view, tx, i)
    ensures forall g :: g in ParentsUpTo(pool, view, tx, k) <==>
              exists i :: 0 <= i < |tx.vin| && Drops(pool, view, tx, i) && tx.vin[i].hash == g
  {
    forall g | g in ParentsUpTo(pool, view, tx, k)
      ensures exists i :: 0 <= i < |tx.vin| && Drops(pool, view, tx, i) && tx.vin[i].hash == g
    {
      var i :| 0 <= i < k && Waits(pool, view, tx, i) && tx.vin[i].hash == g;
      assert Drops(pool, view, tx, i);
    }
  }

  lemma AddOrphan(orphans: seq<Orphan>, d: Dependers, tx: Tx)
    requires DependersOk(orphans, d)
    ensures DependersOk(orphans + [Orphan(tx, {})], d)
  {
  }

  lemma AddDepender(orphans: seq<Orphan>, d: Dependers, p: nat, h: Hash)
    requires DependersOk(orphans, d) && p < |orphans|
    ensures DependersOk(orphans[p := orphans[p].(dependsOn := orphans[p].dependsOn + {h})], d[h := At(d, h) + [p]])
  {
    var d', o := d[h := At(d, h) + [p]], orphans[p];
    var orphans' := orphans[p := o.(dependsOn := o.dependsOn + {h})];
    forall g, i: nat
      ensures i in At(d', g) <==> i < |orphans'| && g in orphans'[i].dependsOn
    {
      OnTheList(orphans, d, g, i);
      assert At(d', g) == if g == h then At(d, h) + [p] else At(d, g);
    }
  }

  lemma ParentsNext(pool: Pool, view: View, tx: Tx, k: nat)
    requires k < |tx.vin|
    ensures ParentsUpTo(pool, view, tx, k + 1) ==
            if Waits(pool, view, tx, k) then ParentsUpTo(pool, view, tx, k) + {tx.vin[k].hash}
            else ParentsUpTo(pool, view, tx, k)
    ensures ParentsUpTo(pool, view, tx, 0) == {}
    ensures ParentsUpTo(pool, view, tx, |tx.vin|) == Parents(pool, view, tx)
  {
  }

  ghost predicate DistinctTxs(txs: seq<Tx>) {
    forall i, j :: 0 <= i < j < |txs| ==> txs[i].hash != txs[j].hash
  }

  ghost predicate Holds(txs: seq<Tx>, h: Hash) {
    exists i :: 0 <= i < |txs| && txs[i].hash == h
  }

  function TxsOf(orphans: seq<Orphan>): (r: seq<Tx>)
    ensures |r| == |orphans|
  {
    seq(|orphans|, i requires 0 <= i < |orphans| => orphans[i].tx)
  }

  function QueuedTxs(vec: seq<TxPriority>): (r: seq<Tx>)
    ensures |r| == |vec|
  {
    seq(|vec|, i requires 0 <= i < |vec| => vec[i].tx)
  }

  /** The candidates among `seen`, each once: with parents in the pool as orphans, the others queued. */
  ghost predicate Scanned(env: Env, pool: Pool, view: View, seen: set<Hash>,
                          orphans: seq<Orphan>, vec: seq<TxPriority>) {
    && DistinctTxs(TxsOf(orphans)) && DistinctTxs(QueuedTxs(vec))
    && (forall h :: Holds(TxsOf(orphans), h) <==>
          h in seen && Candidate(pool, view, h) && Parents(pool, view, pool[h]) != {})
    && (forall h :: Holds(QueuedTxs(vec), h) <==>
          h in seen && Candidate(pool, view, h) && Parents(pool, view, pool[h]) == {})
    && (forall i :: 0 <= i < |orphans| ==>
          && orphans[i].tx.hash in pool && orphans[i].tx == pool[orphans[i].tx.hash]
          && orphans[i].dependsOn == Parents(pool, view, orphans[i].tx))
    && (forall i :: 0 <= i < |vec| ==>
          vec[i].tx.hash in pool && vec[i].tx == pool[vec[i].tx.hash] && vec[i] == Entry(env, vec[i].tx))
  }

  lemma HoldsAppend(txs: seq<Tx>, tx: Tx)
    ensures forall h :: Holds(txs + [tx], h) <==> Holds(txs, h) || h == tx.hash
    ensures DistinctTxs(txs) && !Holds(txs, tx.hash) ==> DistinctTxs(txs + [tx])
  {
    forall h
      ensures Holds(txs + [tx], h) <==> Holds(txs, h) || h == tx.hash
    {
      if Holds(txs, h) {
        var i :| 0 <= i < |txs| && txs[i].hash == h;
        assert (txs + [tx])[i].hash == h;
      }
      assert (txs + [tx])[|txs|] == tx;
    }
  }

  lemma ScannedStep(env: Env, pool: Pool, view: View, seen: set<Hash>, orphans: seq<Orphan>, vec: seq<TxPriority>,
                    h: Hash)
    requires Scanned(env, pool, view, seen, orphans, vec) && h in pool && h !in seen && pool[h].hash == h
    ensures !Candidate(pool, view, h) ==> Scanned(env, pool, view, seen + {h}, orphans, vec)
    ensures Candidate(pool, view, h) && Parents(pool, view, pool[h]) != {} ==>
              Scanned(env, pool, view, seen + {h}, orphans + [Orphan(pool[h], Parents(pool, view, pool[h]))], vec)
    ensures Candidate(pool, view, h) && Parents(pool, view, pool[h]) == {} ==>
              Scanned(env, pool, view, seen + {h}, orphans, vec + [Entry(env, pool[h])])
  {
    var o := Orphan(pool[h], Parents(pool, view, pool[h]));
    assert TxsOf(orphans + [o]) == TxsOf(orphans) + [pool[h]];
    assert QueuedTxs(vec + [Entry(env, pool[h])]) == QueuedTxs(vec) + [pool[h]];
    HoldsAppend(TxsOf(orphans), pool[h]);
    HoldsAppend(QueuedTxs(vec), pool[h]);
  }

  /** The scan of the pool in hash order. */
  method BuildQueues(env: Env, pool: Pool, view: View)
    returns (orphans: seq<Orphan>, dependers: Dependers, dangling: set<Hash>, vec: seq<TxPriority>)
    requires PoolOk(pool, view)
    ensures Scanned(env, pool, view, pool.Keys, orphans, vec) && DependersOk(orphans, dependers)
    ensures forall g :: g in dangling <==> Dangles(pool, view, pool.Keys, g)
  {
    orphans, dependers, dangling, vec := [], map[], {}, [];
    var rest := pool.Keys;
    ghost var seen: set<Hash> := {};
    hide Scanned;
    hide Drops;
    hide Dangles;
    NothingScanned(env, pool, view);
    while rest != {}
      invariant seen + rest == pool.Keys && seen !! rest
      invariant Scanned(env, pool, view, seen, orphans, vec) && DependersOk(orphans, dependers)
      invariant forall g :: g in dangling <==> Dangles(pool, view, seen, g)
      decreases |rest|
    {
      var h := First(rest);
      var tx := pool[h];
      ScannedStep(env, pool, view, seen, orphans, vec, h);
      DanglesNext(pool, view, seen, h);
      rest, seen := rest - {h}, seen + {h};
      if !IsCoinBase(tx) && tx.final {
        var missing, waiting;
        missing, waiting, orphans, dependers, dangling := ScanInputs(pool, view, tx, orphans, dependers, dangling);
        if !missing && !waiting {
          vec := vec + [Entry(env, tx)];
        }
      }
    }
  }

  lemma NothingScanned(env: Env, pool: Pool, view: View)
    ensures Scanned(env, pool, view, {}, [], []) && DependersOk([], map[])
    ensures forall g :: !Dangles(pool, view, {}, g)
  {
    var d: Dependers := map[];
    assert forall h: Hash :: At(d, h) == [];
  }

  lemma DanglesNext(pool: Pool, view: View, seen: set<Hash>, h: Hash)
    requires h in pool
    ensures forall g :: Dangles(pool, view, seen + {h}, g) <==>
              || Dangles(pool, view, seen, g)
              || (!IsCoinBase(pool[h]) && pool[h].final &&
                  exists i :: 0 <= i < |pool[h].vin| && Drops(pool, view, pool[h], i) && pool[h].vin[i].hash == g)
  {
    hide Drops;
  }

  /** A pool with a dangling reference: transaction 1 spends an output of transaction 2 and one to be found nowhere. */
  lemma DanglingArises(view: View)
    requires view == map[OutPoint(9, 0) := 50]
    ensures var tx1 := Tx(1, [OutPoint(2, 0), OutPoint(3, 0)], [5], true, 100, 1);
            var tx2 := Tx(2, [OutPoint(9, 0)], [40], true, 100, 1);
            var pool: Pool := map[1 := tx1, 2 := tx2];
            PoolOk(pool, view) && Dangles(pool, view, pool.Keys, 2)
  {
    var tx1 := Tx(1, [OutPoint(2, 0), OutPoint(3, 0)], [5], true, 100, 1);
    var pool: Pool := map[1 := tx1, 2 := Tx(2, [OutPoint(9, 0)], [40], true, 100, 1)];
    assert Waits(pool, view, tx1, 0) && Missing(pool, view, tx1, 1);
    assert Drops(pool, view, pool[1], 0);
  }

  /** In a pool closed under parents the dropped record cannot arise. */
  lemma ClosedIsNotDangling(pool: Pool, view: View)
    requires Closed(pool, view)
    ensures NoDangling(pool, view)
  {
  }

  // ---------------------------------------------------------------- the priority queue

  /** TxPriorityCompare. */
  predicate Less(a: TxPriority, b: TxPriority, byFee: bool) {
    if byFee then
      if a.feePerKb == b.feePerKb then a.prio < b.prio else a.feePerKb < b.feePerKb
    else
      if a.prio == b.prio then a.feePerKb < b.feePerKb else a.prio < b.prio
  }

  predicate IsTop(vec: seq<TxPriority>, i: nat, byFee: bool)
    requires i < |vec|
  {
    forall j :: 0 <= j < |vec| ==> !Less(vec[i], vec[j], byFee)
  }

  lemma {:induction false} TopExists(vec: seq<TxPriority>, byFee: bool)
    requires vec != []
    ensures exists i :: 0 <= i < |vec| && IsTop(vec, i, byFee)
  {
    var n := |vec| - 1;
    if n == 0 {
      assert IsTop(vec, 0, byFee);
    } else {
      TopExists(vec[..n], byFee);
      var i :| 0 <= i < n && IsTop(vec[..n], i, byFee);
      assert forall j :: 0 <= j < n ==> vec[..n][j] == vec[j];
      if Less(vec[i], vec[n], byFee) {
        assert IsTop(vec, n, byFee);
      } else {
        assert IsTop(vec, i, byFee);
      }
    }
  }

  /** front, pop_heap and pop_back: any entry none is greater than. */
  method PopHeap(vec: seq<TxPriority>, byFee: bool) returns (top: TxPriority, rest: seq<TxPriority>)
    requires vec != []
    ensures exists i :: 0 <= i < |vec| && IsTop(vec, i, byFee) && top == vec[i] && rest == vec[..i] + vec[i + 1..]
    ensures forall e :: e in vec ==>
              if byFee then e.feePerKb < top.feePerKb || (e.feePerKb == top.feePerKb && e.prio <= top.prio)
              else e.prio < top.prio || (e.prio == top.prio && e.feePerKb <= top.feePerKb)
  {
    TopExists(vec, byFee);
    var i :| 0 <= i < |vec| && IsTop(vec, i, byFee);
    top, rest := vec[i], vec[..i] + vec[i + 1..];
  }

  // ---------------------------------------------------------------- what a selection is

  /** The running totals. */
  datatype Totals = Totals(byFee: bool, size: nat, sigOps: nat, view: View)

  /** One transaction taken from the queue: the totals found, and whether it went into the block. */
  datatype Examined = Examined(entry: TxPriority, before: Totals, taken: bool)

  ghost predicate WithinSize(l: Limits, t: Totals, tx: Tx) {
    t.size + tx.size < l.maxSize && t.sigOps + tx.legacySigOps < l.maxSigOps
  }

  /** Free transactions only fill the block up to the minimum size. */
  ghost predicate TooCheap(l: Limits, t: Totals, e: TxPriority) {
    t.byFee && e.feePerKb < l.minTxFee && t.size + e.tx.size >= l.minSize
  }

  ghost predicate Admissible(l: Limits, env: Env, t: Totals, e: TxPriority) {
    && WithinSize(l, t, e.tx) && !TooCheap(l, t, e) && HaveInputs(t.view, e.tx)
    && t.sigOps + e.tx.legacySigOps + env.p2shSigOps(e.tx, t.view) < l.maxSigOps
    && env.checkInputs(e.tx, t.view)
  }

  /** The part of the block reserved for priority is full, or priorities have become low. */
  ghost predicate TurnsToFee(l: Limits, t: Totals, e: TxPriority) {
    && WithinSize(l, t, e.tx) && !TooCheap(l, t, e)
    && (t.size + e.tx.size >= l.prioritySize || e.prio < l.prioThreshold)
  }

  ghost function After(l: Limits, env: Env, view: View, log: seq<Examined>): Totals {
    if log == [] then Totals(l.prioritySize == 0, 1000, 100, view) else
      var e := log[|log| - 1];
      var byFee := e.before.byFee || TurnsToFee(l, e.before, e.entry);
      if e.taken then
        var tx := e.entry.tx;
        Totals(byFee, e.before.size + tx.size,
               e.before.sigOps + tx.legacySigOps + env.p2shSigOps(tx, e.before.view), UpdateCoins(e.before.view, tx))
      else e.before.(byFee := byFee)
  }

  ghost function Taken(log: seq<Examined>): seq<Tx> {
    if log == [] then [] else
      var e := log[|log| - 1];
      if e.taken then Taken(log[..|log| - 1]) + [e.entry.tx] else Taken(log[..|log| - 1])
  }

  ghost function Chosen(log: seq<Examined>): set<Hash> {
    set i | 0 <= i < |log| && log[i].taken :: log[i].entry.tx.hash
  }

  ghost function Seen(log: seq<Examined>): set<Hash> {
    set i | 0 <= i < |log| :: log[i].entry.tx.hash
  }

  /** A candidate none of whose parents in the pool is missing from the block so far. */
  ghost predicate Ready(pool: Pool, view: View, log: seq<Examined>, h: Hash) {
    Candidate(pool, view, h) && Parents(pool, view, pool[h]) <= Chosen(log)
  }

  /** The next transaction examined: ready, new, none better is ready, and taken exactly when admissible. */
  ghost predicate Step(l: Limits, env: Env, pool: Pool, view: View, log: seq<Examined>, e: Examined) {
    var h := e.entry.tx.hash;
    && Ready(pool, view, log, h) && h !in Seen(log) && e.entry == Entry(env, pool[h])
    && e.before == After(l, env, view, log)
    && (forall g :: Ready(pool, view, log, g) && g !in Seen(log) ==>
        !Less(e.entry, Entry(env, pool[g]), e.before.byFee))
    && (e.taken <==> Admissible(l, env, e.before, e.entry))
  }

  ghost predicate Selection(l: Limits, env: Env, pool: Pool, view: View, log: seq<Examined>) {
    log == [] ||
    (Selection(l, env, pool, view, log[..|log| - 1]) && Step(l, env, pool, view, log[..|log| - 1], log[|log| - 1]))
  }

  /** Nothing that is ready is left. */
  ghost predicate Complete(pool: Pool, view: View, log: seq<Examined>) {
    forall h :: Ready(pool, view, log, h) <==> h in Seen(log)
  }

  ghost function Fees(log: seq<Examined>): seq<int> {
    if log == [] then [] else
      var e := log[|log| - 1];
      if e.taken && HaveInputs(e.before.view, e.entry.tx)
      then Fees(log[..|log| - 1]) + [ValueIn(e.before.view, e.entry.tx.vin) - Sum(e.entry.tx.vout)]
      else Fees(log[..|log| - 1])
  }

  ghost function SigOps(env: Env, log: seq<Examined>): seq<int> {
    if log == [] then [] else
      var e := log[|log| - 1];
      if e.taken
      then SigOps(env, log[..|log| - 1]) + [e.entry.tx.legacySigOps + env.p2shSigOps(e.entry.tx, e.before.view)]
      else SigOps(env, log[..|log| - 1])
  }

  // ---------------------------------------------------------------- the queue holds what is ready

  ghost predicate Waiting(orphans0: seq<Orphan>, orphans: seq<Orphan>, chosen: set<Hash>) {
    && |orphans| == |orphans0|
    && forall i :: 0 <= i < |orphans| ==>
         orphans[i].tx == orphans0[i].tx && orphans[i].dependsOn == orphans0[i].dependsOn - chosen
  }

  ghost predicate EntriesOk(env: Env, pool: Pool, vec: seq<TxPriority>) {
    && DistinctTxs(QueuedTxs(vec))
    && forall i :: 0 <= i < |vec| ==> vec[i].tx.hash in pool && vec[i] == Entry(env, pool[vec[i].tx.hash])
  }

  ghost predicate HoldsReady(pool: Pool, view: View, log: seq<Examined>, vec: seq<TxPriority>) {
    && (forall h :: Holds(QueuedTxs(vec), h) <==> Ready(pool, view, log, h) && h !in Seen(log))
    && (forall h :: h in Seen(log) ==> Ready(pool, view, log, h))
  }

  ghost predicate Queued(env: Env, pool: Pool, view: View, orphans0: seq<Orphan>,
                         log: seq<Examined>, orphans: seq<Orphan>, vec: seq<TxPriority>) {
    Waiting(orphans0, orphans, Chosen(log)) && EntriesOk(env, pool, vec) && HoldsReady(pool, view, log, vec)
  }

  lemma QueuedAtFirst(env: Env, pool: Pool, view: View, orphans: seq<Orphan>, vec: seq<TxPriority>)
    requires PoolOk(pool, view) && Scanned(env, pool, view, pool.Keys, orphans, vec)
    ensures Queued(env, pool, view, orphans, [], orphans, vec)
  {
    forall h
      ensures Holds(QueuedTxs(vec), h) <==> Ready(pool, view, [], h)
    {
    }
  }

  lemma HoldsAfterPop(env: Env, pool: Pool, vec: seq<TxPriority>, i: nat)
    requires EntriesOk(env, pool, vec) && i < |vec|
    ensures EntriesOk(env, pool, vec[..i] + vec[i + 1..])
    ensures forall h :: Holds(QueuedTxs(vec[..i] + vec[i + 1..]), h) <==>
            Holds(QueuedTxs(vec), h) && h != vec[i].tx.hash
    ensures Holds(QueuedTxs(vec), vec[i].tx.hash)
  {
    var rest := vec[..i] + vec[i + 1..];
    var a, b := QueuedTxs(vec), QueuedTxs(rest);
    assert forall j :: 0 <= j < |b| ==> b[j] == a[if j < i then j else j + 1];
    assert a[i].hash == vec[i].tx.hash;
    forall h | Holds(a, h) && h != vec[i].tx.hash
      ensures Holds(b, h)
    {
      var j :| 0 <= j < |a| && a[j].hash == h;
      assert b[if j < i then j else j - 1] == a[j];
    }
  }

  lemma SeenChosenAppend(log: seq<Examined>, e: Examined)
    ensures Seen(log + [e]) == Seen(log) + {e.entry.tx.hash}
    ensures Chosen(log + [e]) == if e.taken then Chosen(log) + {e.entry.tx.hash} else Chosen(log)
    ensures Chosen(log) <= Seen(log)
  {
    var more := log + [e];
    assert more[|log|] == e;
    forall h
      ensures h in Seen(more) <==> h in Seen(log) || h == e.entry.tx.hash
      ensures h in Chosen(more) <==> h in Chosen(log) || (e.taken && h == e.entry.tx.hash)
    {
      if h in Seen(log) {
        var i :| 0 <= i < |log| && log[i].entry.tx.hash == h;
        assert more[i] == log[i];
      }
      if h in Chosen(log) {
        var i :| 0 <= i < |log| && log[i].taken && log[i].entry.tx.hash == h;
        assert more[i] == log[i];
      }
    }
  }

  /** What the queue holds after a transaction was examined and not taken. */
  lemma PassedOver(env: Env, pool: Pool, view: View, orphans0: seq<Orphan>,
                   log: seq<Examined>, orphans: seq<Orphan>, vec: seq<TxPriority>, i: nat, e: Examined)
    requires Queued(env, pool, view, orphans0, log, orphans, vec) && i < |vec| && e.entry == vec[i] && !e.taken
    ensures Queued(env, pool, view, orphans0, log + [e], orphans, vec[..i] + vec[i + 1..])
  {
    SeenChosenAppend(log, e);
    HoldsAfterPop(env, pool, vec, i);
    assert forall h :: Ready(pool, view, log + [e], h) <==> Ready(pool, view, log, h);
  }

  /** One of the orphans at these places waits for h alone and is the transaction g. */
  ghost predicate Freed(orphans: seq<Orphan>, h: Hash, places: seq<nat>, g: Hash) {
    exists i: nat :: i in places && i < |orphans| && orphans[i].dependsOn == {h} && orphans[i].tx.hash == g
  }

  lemma FreedNext(orphans: seq<Orphan>, h: Hash, places: seq<nat>, k: nat, g: Hash)
    requires k < |places| && places[k] < |orphans|
    ensures Freed(orphans, h, places[..k + 1], g) <==>
            Freed(orphans, h, places[..k], g) ||
                (orphans[places[k]].dependsOn == {h} && orphans[places[k]].tx.hash == g)
  {
    assert places[..k + 1] == places[..k] + [places[k]];
  }

  lemma Enqueued(env: Env, pool: Pool, vec: seq<TxPriority>, tx: Tx)
    requires tx.hash in pool && tx == pool[tx.hash]
    requires EntriesOk(env, pool, vec) && !Holds(QueuedTxs(vec), tx.hash)
    ensures EntriesOk(env, pool, vec + [Entry(env, tx)])
    ensures forall g :: Holds(QueuedTxs(vec + [Entry(env, tx)]), g) <==> Holds(QueuedTxs(vec), g) || g == tx.hash
  {
    assert QueuedTxs(vec + [Entry(env, tx)]) == QueuedTxs(vec) + [tx];
    HoldsAppend(QueuedTxs(vec), tx);
  }

  /** The loop over those waiting for h. */
  method Release(env: Env, ghost pool: Pool, places: seq<nat>, h: Hash, orphans0: seq<Orphan>, vec0: seq<TxPriority>)
    returns (orphans: seq<Orphan>, vec: seq<TxPriority>)
    requires forall i: nat :: i in places <==> i < |orphans0| && h in orphans0[i].dependsOn
    requires DistinctTxs(TxsOf(orphans0)) && EntriesOk(env, pool, vec0)
    requires forall i :: 0 <= i < |orphans0| ==>
             orphans0[i].tx.hash in pool && orphans0[i].tx == pool[orphans0[i].tx.hash]
    requires forall i :: 0 <= i < |orphans0| && orphans0[i].dependsOn != {} ==>
             !Holds(QueuedTxs(vec0), orphans0[i].tx.hash)
    ensures Waiting(orphans0, orphans, {h})
    ensures EntriesOk(env, pool, vec)
    ensures forall g :: Holds(QueuedTxs(vec), g) <==> Holds(QueuedTxs(vec0), g) || Freed(orphans0, h, places, g)
  {
    orphans, vec := orphans0, vec0;
    hide EntriesOk;
    hide Holds;
    hide QueuedTxs;
    for k := 0 to |places|
      invariant |orphans| == |orphans0|
      invariant forall i: nat :: i < |orphans| ==>
                  orphans[i] == orphans0[i].(dependsOn := orphans0[i].dependsOn - if i in places[..k] then {h} else {})
      invariant EntriesOk(env, pool, vec)
      invariant forall g :: Holds(QueuedTxs(vec), g) <==>
                Holds(QueuedTxs(vec0), g) || Freed(orphans0, h, places[..k], g)
    {
      var p := places[k];
      assert p in places;
      assert places[..k + 1] == places[..k] + [p];
      forall g {
        FreedNext(orphans0, h, places, k, g);
      }
      var o := orphans[p];
      if o.dependsOn != {} {
        orphans := orphans[p := o.(dependsOn := o.dependsOn - {h})];
        if o.dependsOn - {h} == {} {
          NotYetFreed(orphans0, h, places, k);
          Enqueued(env, pool, vec, o.tx);
          vec := vec + [Entry(env, o.tx)];
        }
      }
    }
    assert places[..|places|] == places;
  }

  lemma NotYetFreed(orphans: seq<Orphan>, h: Hash, places: seq<nat>, k: nat)
    requires k < |places| && places[k] < |orphans| && places[k] !in places[..k] && DistinctTxs(TxsOf(orphans))
    ensures !Freed(orphans, h, places[..k], orphans[places[k]].tx.hash)
  {
    var txs := TxsOf(orphans);
    forall i: nat | i < |orphans| && i != places[k]
      ensures orphans[i].tx.hash != orphans[places[k]].tx.hash
    {
      assert txs[i].hash != txs[places[k]].hash;
    }
  }

  /** The orphans as scanned, and the lists that say who waits for whom. */
  ghost predicate ScannedOrphans(pool: Pool, view: View, orphans: seq<Orphan>, d: Dependers) {
    && DependersOk(orphans, d) && DistinctTxs(TxsOf(orphans))
    && (forall h :: Candidate(pool, view, h) && Parents(pool, view, pool[h]) != {} ==> Holds(TxsOf(orphans), h))
    && (forall i :: 0 <= i < |orphans| ==>
          && Candidate(pool, view, orphans[i].tx.hash) && orphans[i].tx == pool[orphans[i].tx.hash]
          && orphans[i].dependsOn == Parents(pool, view, orphans[i].tx))
  }

  lemma OrphansScanned(env: Env, pool: Pool, view: View, orphans: seq<Orphan>, d: Dependers, vec: seq<TxPriority>)
    requires Scanned(env, pool, view, pool.Keys, orphans, vec) && DependersOk(orphans, d)
    ensures ScannedOrphans(pool, view, orphans, d)
  {
    forall i | 0 <= i < |orphans|
      ensures Candidate(pool, view, orphans[i].tx.hash)
    {
      assert TxsOf(orphans)[i] == orphans[i].tx;
      assert Holds(TxsOf(orphans), orphans[i].tx.hash);
    }
  }

  lemma OnTheList(orphans: seq<Orphan>, d: Dependers, h: Hash, p: nat)
    requires DependersOk(orphans, d)
    ensures p in At(d, h) <==> p < |orphans| && h in orphans[p].dependsOn
  {
  }

  /** The list for a transaction just taken names exactly those that still wait for it, and none of them is queued. */
  lemma ReleaseIsDue(env: Env, pool: Pool, view: View, orphans0: seq<Orphan>, d: Dependers,
                     log: seq<Examined>, orphans: seq<Orphan>, vec: seq<TxPriority>, i: nat, e: Examined)
    requires ScannedOrphans(pool, view, orphans0, d) && Queued(env, pool, view, orphans0, log, orphans, vec)
    requires i < |vec| && e.entry == vec[i] && e.taken
    ensures forall p: nat :: p in At(d, e.entry.tx.hash) <==> p < |orphans| && e.entry.tx.hash in orphans[p].dependsOn
    ensures DistinctTxs(TxsOf(orphans)) && EntriesOk(env, pool, vec[..i] + vec[i + 1..])
    ensures forall p :: 0 <= p < |orphans| ==> orphans[p].tx.hash in pool && orphans[p].tx == pool[orphans[p].tx.hash]
    ensures forall p :: 0 <= p < |orphans| && orphans[p].dependsOn != {} ==>
              !Holds(QueuedTxs(vec[..i] + vec[i + 1..]), orphans[p].tx.hash)
  {
    var h := e.entry.tx.hash;
    SeenChosenAppend(log, e);
    HoldsAfterPop(env, pool, vec, i);
    assert TxsOf(orphans) == TxsOf(orphans0);
    assert h !in Chosen(log);
    forall p: nat
      ensures p in At(d, h) <==> p < |orphans| && h in orphans[p].dependsOn
    {
      assert p < |orphans| ==> orphans[p].dependsOn == orphans0[p].dependsOn - Chosen(log);
      OnTheList(orphans0, d, h, p);
    }
    forall p | 0 <= p < |orphans| && Ready(pool, view, log, orphans[p].tx.hash)
      ensures orphans[p].dependsOn == {}
    {
      assert orphans0[p].dependsOn <= Chosen(log);
    }
  }

  /** What the queue holds after a transaction was taken and those waiting for it released. */
  lemma TakenOver(env: Env, pool: Pool, view: View, orphans0: seq<Orphan>, d: Dependers, log: seq<Examined>,
                  orphans: seq<Orphan>, vec: seq<TxPriority>, i: nat, e: Examined,
                  orphans': seq<Orphan>, vec': seq<TxPriority>)
    requires ScannedOrphans(pool, view, orphans0, d) && Queued(env, pool, view, orphans0, log, orphans, vec)
    requires i < |vec| && e.entry == vec[i] && e.taken
    requires Waiting(orphans, orphans', {e.entry.tx.hash}) && EntriesOk(env, pool, vec')
    requires forall g :: Holds(QueuedTxs(vec'), g) <==>
               Holds(QueuedTxs(vec[..i] + vec[i + 1..]), g) ||
                   Freed(orphans, e.entry.tx.hash, At(d, e.entry.tx.hash), g)
    ensures Queued(env, pool, view, orphans0, log + [e], orphans', vec')
  {
    var h := e.entry.tx.hash;
    SeenChosenAppend(log, e);
    HoldsAfterPop(env, pool, vec, i);
    forall g
      ensures Ready(pool, view, log + [e], g) <==>
              Ready(pool, view, log, g) || Freed(orphans, h, At(d, h), g)
    {
      FreedBecomesReady(env, pool, view, orphans0, d, log, orphans, vec, i, e, g);
    }
    forall g
      ensures Holds(QueuedTxs(vec'), g) <==> Ready(pool, view, log + [e], g) && g !in Seen(log + [e])
    {
      if Freed(orphans, h, At(d, h), g) {
        FreedIsNew(env, pool, view, orphans0, d, log, orphans, vec, i, e, g);
      }
    }
  }

  lemma FreedBecomesReady(env: Env, pool: Pool, view: View, orphans0: seq<Orphan>, d: Dependers, log: seq<Examined>,
                          orphans: seq<Orphan>, vec: seq<TxPriority>, i: nat, e: Examined, g: Hash)
    requires ScannedOrphans(pool, view, orphans0, d) && Queued(env, pool, view, orphans0, log, orphans, vec)
    requires i < |vec| && e.entry == vec[i] && e.taken
    ensures Ready(pool, view, log + [e], g) <==>
            Ready(pool, view, log, g) || Freed(orphans, e.entry.tx.hash, At(d, e.entry.tx.hash), g)
  {
    var h := e.entry.tx.hash;
    SeenChosenAppend(log, e);
    if Ready(pool, view, log + [e], g) && !Ready(pool, view, log, g) {
      assert h in Parents(pool, view, pool[g]);
      var p :| 0 <= p < |orphans0| && TxsOf(orphans0)[p].hash == g;
      assert orphans0[p].dependsOn == Parents(pool, view, pool[g]);
      HoldsAfterPop(env, pool, vec, i);
      assert orphans[p].dependsOn == {h};
      assert p in At(d, h);
      assert Freed(orphans, h, At(d, h), g);
    }
  }

  lemma FreedIsNew(env: Env, pool: Pool, view: View, orphans0: seq<Orphan>, d: Dependers, log: seq<Examined>,
                   orphans: seq<Orphan>, vec: seq<TxPriority>, i: nat, e: Examined, g: Hash)
    requires ScannedOrphans(pool, view, orphans0, d) && Queued(env, pool, view, orphans0, log, orphans, vec)
    requires i < |vec| && e.entry == vec[i] && e.taken
    requires Freed(orphans, e.entry.tx.hash, At(d, e.entry.tx.hash), g)
    ensures g !in Seen(log + [e])
  {
    SeenChosenAppend(log, e);
    HoldsAfterPop(env, pool, vec, i);
  }

  // ---------------------------------------------------------------- the selection loop

  lemma SelectionAppend(l: Limits, env: Env, pool: Pool, view: View, log: seq<Examined>, e: Examined)
    requires Selection(l, env, pool, view, log) && Step(l, env, pool, view, log, e)
    ensures Selection(l, env, pool, view, log + [e])
  {
    hide Step;
    assert (log + [e])[..|log|] == log;
  }

  lemma TakenAppend(env: Env, log: seq<Examined>, e: Examined)
    ensures Taken(log + [e]) == if e.taken then Taken(log) + [e.entry.tx] else Taken(log)
    ensures SigOps(env, log + [e]) ==
            if !e.taken then SigOps(env, log)
            else SigOps(env, log) + [e.entry.tx.legacySigOps + env.p2shSigOps(e.entry.tx, e.before.view)]
  {
    assert (log + [e])[..|log|] == log;
  }

  lemma FeesAppend(log: seq<Examined>, e: Examined)
    requires e.taken ==> HaveInputs(e.before.view, e.entry.tx)
    ensures Fees(log + [e]) == if !e.taken then Fees(log)
                               else Fees(log) + [ValueIn(e.before.view, e.entry.tx.vin) - Sum(e.entry.tx.vout)]
    ensures Sum(Fees(log + [e])) == if !e.taken then Sum(Fees(log))
                                    else Sum(Fees(log)) + ValueIn(e.before.view, e.entry.tx.vin) - Sum(e.entry.tx.vout)
  {
    assert (log + [e])[..|log|] == log;
    if e.taken {
      var fee := ValueIn(e.before.view, e.entry.tx.vin) - Sum(e.entry.tx.vout);
      assert (Fees(log) + [fee])[..|Fees(log)|] == Fees(log);
    }
  }

  /** The transaction at the top of the queue is the next that may be examined. */
  lemma TopIsNext(l: Limits, env: Env, pool: Pool, view: View, orphans0: seq<Orphan>,
                  log: seq<Examined>, orphans: seq<Orphan>, vec: seq<TxPriority>, i: nat, e: Examined)
    requires PoolOk(pool, view)
    requires Queued(env, pool, view, orphans0, log, orphans, vec)
    requires i < |vec| && e.entry == vec[i] && e.before == After(l, env, view, log)
    requires IsTop(vec, i, e.before.byFee) && (e.taken <==> Admissible(l, env, e.before, e.entry))
    ensures Step(l, env, pool, view, log, e)
    ensures Seen(log) < Seen(log + [e]) <= pool.Keys
  {
    var h := e.entry.tx.hash;
    HoldsAfterPop(env, pool, vec, i);
    SeenChosenAppend(log, e);
    forall g | Ready(pool, view, log, g) && g !in Seen(log)
      ensures !Less(e.entry, Entry(env, pool[g]), e.before.byFee)
    {
      assert Holds(QueuedTxs(vec), g);
      var j :| 0 <= j < |vec| && QueuedTxs(vec)[j].hash == g;
      assert vec[j] == Entry(env, pool[g]);
    }
  }

  lemma NothingExamined(l: Limits, env: Env, pool: Pool, view: View)
    ensures Selection(l, env, pool, view, []) && Seen([]) == {} && Taken([]) == []
    ensures Fees([]) == [] && SigOps(env, []) == [] && Sum([]) == 0
  {
  }

  lemma NothingLeft(env: Env, pool: Pool, view: View, orphans0: seq<Orphan>, log: seq<Examined>, orphans: seq<Orphan>)
    requires Queued(env, pool, view, orphans0, log, orphans, [])
    ensures Complete(pool, view, log)
  {
  }

  /** The transactions of the block after the coinbase, the fees with the balancing entry in front, the
      signature operations and the size are those of this selection. */
  ghost predicate Outcome(l: Limits, env: Env, pool: Pool, view: View, log: seq<Examined>,
                          vtx: seq<Tx>, vTxFees: seq<int>, vTxSigOps: seq<int>, nBlockSize: nat) {
    && Selection(l, env, pool, view, log) && Complete(pool, view, log)
    && vtx == Taken(log) && vTxFees == [-Sum(Fees(log))] + Fees(log) && vTxSigOps == SigOps(env, log)
    && nBlockSize == After(l, env, view, log).size
  }

  lemma ThisIsOutcome(l: Limits, env: Env, pool: Pool, view: View, log: seq<Examined>,
                      vtx: seq<Tx>, vTxFees: seq<int>, vTxSigOps: seq<int>, nBlockSize: nat)
    requires Selection(l, env, pool, view, log) && Complete(pool, view, log)
    requires vtx == Taken(log) && vTxFees == [-Sum(Fees(log))] + Fees(log) && vTxSigOps == SigOps(env, log)
    requires nBlockSize == After(l, env, view, log).size
    ensures Outcome(l, env, pool, view, log, vtx, vTxFees, vTxSigOps, nBlockSize)
  {
  }

  /** No transaction taken has a dangling reference on its list. */
  ghost predicate NoneDangles(pool: Pool, view: View, log: seq<Examined>) {
    forall h :: h in Chosen(log) ==> !Dangles(pool, view, pool.Keys, h)
  }

  /** The last transaction examined is taken, and is the first to have a dangling reference on its list. */
  ghost predicate ReadsDangling(pool: Pool, view: View, log: seq<Examined>) {
    && log != [] && NoneDangles(pool, view, log[..|log| - 1])
    && log[|log| - 1].taken && Dangles(pool, view, pool.Keys, log[|log| - 1].entry.tx.hash)
  }

  lemma NoneDanglesYet(pool: Pool, view: View)
    ensures NoneDangles(pool, view, [])
  {
  }

  lemma DanglesAppend(pool: Pool, view: View, log: seq<Examined>, e: Examined)
    requires NoneDangles(pool, view, log)
    ensures !(e.taken && Dangles(pool, view, pool.Keys, e.entry.tx.hash)) ==> NoneDangles(pool, view, log + [e])
    ensures e.taken && Dangles(pool, view, pool.Keys, e.entry.tx.hash) ==> ReadsDangling(pool, view, log + [e])
  {
    SeenChosenAppend(log, e);
    assert (log + [e])[..|log|] == log;
  }

  /** Fills the block from the pool. The behaviour is undefined exactly from the moment a transaction is taken on
      whose list a dropped record left its reference. */
  method CreateNewBlock(l: Limits, env: Env, pool: Pool, view: View)
    returns (defined: bool, vtx: seq<Tx>, vTxFees: seq<int>, vTxSigOps: seq<int>, nBlockSize: nat)
    requires PoolOk(pool, view)
    ensures defined ==>
              exists log :: Outcome(l, env, pool, view, log, vtx, vTxFees, vTxSigOps, nBlockSize) &&
                  NoneDangles(pool, view, log)
    ensures !defined ==> exists log :: Selection(l, env, pool, view, log) && ReadsDangling(pool, view, log)
    ensures NoDangling(pool, view) ==> defined
  {
    hide Outcome;
    hide Complete;
    hide Queued;
    hide Selection;
    hide Step;
    hide ScannedOrphans;
    hide Scanned;
    hide DependersOk;
    hide PoolOk;
    hide NoneDangles;
    hide Dangles;
    hide Seen;
    hide Taken;
    hide Fees;
    hide SigOps;
    hide UpdateCoins;
    hide ValueIn;
    hide Sum;
    hide Waiting;
    hide EntriesOk;
    hide Freed;
    hide Holds;
    hide DistinctTxs;
    hide QueuedTxs;
    hide TxsOf;
    hide IsTop;
    hide Less;
    hide Chosen;
    var orphans, dependers, dangling, vec := BuildQueues(env, pool, view);
    defined := true;
    ghost var orphans0 := orphans;
    NothingExamined(l, env, pool, view);
    var coins, nBlockSigOps, nFees, fSortedByFee := view, 100, 0, l.prioritySize == 0;
    vtx, vTxFees, vTxSigOps, nBlockSize := [], [-1], [], 1000;
    ghost var log: seq<Examined> := [];
    NoneDanglesYet(pool, view);
    OrphansScanned(env, pool, view, orphans, dependers, vec);
    QueuedAtFirst(env, pool, view, orphans, vec);
    while vec != []
      invariant nBlockSigOps >= 0
      invariant ScannedOrphans(pool, view, orphans0, dependers)
      invariant Queued(env, pool, view, orphans0, log, orphans, vec)
      invariant Selection(l, env, pool, view, log) && Seen(log) <= pool.Keys
      invariant After(l, env, view, log) == Totals(fSortedByFee, nBlockSize, nBlockSigOps, coins)
      invariant vtx == Taken(log) && vTxFees == [-1] + Fees(log) && vTxSigOps == SigOps(env, log)
      invariant nFees == Sum(Fees(log)) && NoneDangles(pool, view, log)
      decreases pool.Keys - Seen(log)
    {
      ghost var queue, totals := vec, Totals(fSortedByFee, nBlockSize, nBlockSigOps, coins);
      var top;
      top, vec := PopHeap(vec, fSortedByFee);
      ghost var i :| 0 <= i < |queue| && IsTop(queue, i, fSortedByFee) && top == queue[i] &&
          vec == queue[..i] + queue[i + 1..];
      ghost var e := Examined(top, totals, Admissible(l, env, totals, top));
      TopIsNext(l, env, pool, view, orphans0, log, orphans, queue, i, e);
      SelectionAppend(l, env, pool, view, log, e);
      TakenAppend(env, log, e);
      FeesAppend(log, e);
      DanglesAppend(pool, view, log, e);
      var tx := top.tx;
      if e.taken {
        ReleaseIsDue(env, pool, view, orphans0, dependers, log, orphans, queue, i, e);
      } else {
        PassedOver(env, pool, view, orphans0, log, orphans, queue, i, e);
      }
      log := log + [e];
      if nBlockSize + tx.size >= l.maxSize { continue; }
      if nBlockSigOps + tx.legacySigOps >= l.maxSigOps { continue; }
      if fSortedByFee && top.feePerKb < l.minTxFee && nBlockSize + tx.size >= l.minSize { continue; }
      if !fSortedByFee && (nBlockSize + tx.size >= l.prioritySize || top.prio < l.prioThreshold) {
        fSortedByFee := true;
      }
      if !HaveInputs(coins, tx) { continue; }
      var nTxFees := ValueIn(coins, tx.vin) - Sum(tx.vout);
      var nTxSigOps := tx.legacySigOps + env.p2shSigOps(tx, coins);
      if nBlockSigOps + nTxSigOps >= l.maxSigOps { continue; }
      if !env.checkInputs(tx, coins) { continue; }
      coins := UpdateCoins(coins, tx);
      vtx, vTxFees, vTxSigOps := vtx + [tx], vTxFees + [nTxFees], vTxSigOps + [nTxSigOps];
      nBlockSize, nBlockSigOps, nFees := nBlockSize + tx.size, nBlockSigOps + nTxSigOps, nFees + nTxFees;
      if tx.hash in dangling {
        return false, vtx, vTxFees, vTxSigOps, nBlockSize;
      }
      ghost var waiting := orphans;
      orphans, vec := Release(env, pool, At(dependers, tx.hash), tx.hash, orphans, vec);
      TakenOver(env, pool, view, orphans0, dependers, log[..|log| - 1], waiting, queue, i, e, orphans, vec);
    }
    NothingLeft(env, pool, view, orphans0, log, orphans);
    vTxFees := vTxFees[0 := -nFees];
    ThisIsOutcome(l, env, pool, view, log, vtx, vTxFees, vTxSigOps, nBlockSize);
  }
}
