/** Which transaction a selection examines next and which it takes, in terms of fee rates, priorities, sizes and
    inputs alone. */
module MinerChoice {
  import opened Miner
  import opened MinerSafety

  /** A final transaction of the pool, not a coinbase, whose inputs are all of transactions with outputs in the chain or
      of pool transactions taken before step k. */
  ghost predicate CanGo(pool: Pool, view: View, log: seq<Examined>, k: nat, g: Hash)
    requires k <= |log|
  {
    && g in pool && pool[g].final && (|pool[g].vin| == 1 ==> pool[g].vin[0] != OutPoint(0, 0xFFFF_FFFF))
    && forall i :: 0 <= i < |pool[g].vin| ==>
         || (exists o :: o in view && o.hash == pool[g].vin[i].hash)
         || (pool[g].vin[i].hash in pool
             && exists j :: 0 <= j < k && log[j].taken && log[j].entry.tx.hash == pool[g].vin[i].hash)
  }

  lemma ReadyCanGo(pool: Pool, view: View, log: seq<Examined>, k: nat, g: Hash)
    requires k <= |log|
    ensures Ready(pool, view, log[..k], g) <==> CanGo(pool, view, log, k, g)
  {
    var some := log[..k];
    forall h
      ensures h in Chosen(some) <==> exists j :: 0 <= j < k && log[j].taken && log[j].entry.tx.hash == h
    {
      if j :| 0 <= j < k && log[j].taken && log[j].entry.tx.hash == h {
        assert some[j] == log[j];
      }
    }
    if g in pool {
      var tx := pool[g];
      if Ready(pool, view, some, g) {
        forall i | 0 <= i < |tx.vin| && !HaveCoins(view, tx.vin[i].hash)
          ensures tx.vin[i].hash in pool && tx.vin[i].hash in Chosen(some)
        {
          assert !Missing(pool, view, tx, i);
          assert Waits(pool, view, tx, i);
          assert tx.vin[i].hash in Parents(pool, view, tx);
        }
      }
      if CanGo(pool, view, log, k, g) {
        forall h | h in Parents(pool, view, tx)
          ensures h in Chosen(some)
        {
          var i :| 0 <= i < |tx.vin| && Waits(pool, view, tx, i) && tx.vin[i].hash == h;
        }
      }
    }
  }

  lemma SeenBefore(log: seq<Examined>, k: nat, g: Hash)
    requires k <= |log|
    ensures g in Seen(log[..k]) <==> exists j :: 0 <= j < k && log[j].entry.tx.hash == g
  {
    if j :| 0 <= j < k && log[j].entry.tx.hash == g {
      assert log[..k][j] == log[j];
    }
  }

  /** The transaction examined at step k is one that can go and was not examined before. Once the selection is by fee,
      no other such transaction has a higher fee rate, or the same one and a higher priority; before, none has a
      higher priority, or the same one and a higher fee rate. */
  lemma BestGoesFirst(l: Limits, env: Env, pool: Pool, view: View, log: seq<Examined>, k: nat, g: Hash)
    requires PoolOk(pool, view) && Selection(l, env, pool, view, log) && k < |log|
    ensures var tx := log[k].entry.tx;
            && CanGo(pool, view, log, k, tx.hash) && tx == pool[tx.hash]
            && forall j :: 0 <= j < k ==> log[j].entry.tx.hash != tx.hash
    ensures CanGo(pool, view, log, k, g) && (forall j :: 0 <= j < k ==> log[j].entry.tx.hash != g) ==>
              var tx, other := log[k].entry.tx, pool[g];
              if log[k].before.byFee
              then env.feePerKb(other) < env.feePerKb(tx)
                   || (env.feePerKb(other) == env.feePerKb(tx) && env.prio(other) <= env.prio(tx))
              else env.prio(other) < env.prio(tx)
                   || (env.prio(other) == env.prio(tx) && env.feePerKb(other) <= env.feePerKb(tx))
  {
    hide Ready;
    hide CanGo;
    hide Seen;
    hide After;
    StepAt(l, env, pool, view, log, k);
    var h := log[k].entry.tx.hash;
    ReadyCanGo(pool, view, log, k, h);
    SeenBefore(log, k, h);
    ReadyCanGo(pool, view, log, k, g);
    SeenBefore(log, k, g);
    ReadyIsInPool(pool, view, log[..k], h);
  }

  lemma ReadyIsInPool(pool: Pool, view: View, log: seq<Examined>, h: Hash)
    requires PoolOk(pool, view) && Ready(pool, view, log, h)
    ensures h in pool && pool[h].hash == h
  {
  }

  /** The transaction examined here fits, is not a free one past the minimum size, and fills the part of the block
      reserved for priority or has a low priority. */
  ghost predicate Turns(l: Limits, env: Env, e: Examined) {
    var tx := e.entry.tx;
    && e.before.size + tx.size < l.maxSize && e.before.sigOps + tx.legacySigOps < l.maxSigOps
    && !(e.before.byFee && env.feePerKb(tx) < l.minTxFee && e.before.size + tx.size >= l.minSize)
    && (e.before.size + tx.size >= l.prioritySize || env.prio(tx) < l.prioThreshold)
  }

  /** The selection is by fee from the start when no part of the block is reserved for priority, and otherwise from the
      first transaction on that turns it. */
  lemma {:induction false} WhenByFee(l: Limits, env: Env, pool: Pool, view: View, log: seq<Examined>, k: nat)
    requires Selection(l, env, pool, view, log) && k < |log|
    ensures log[k].before.byFee <==> l.prioritySize == 0 || exists j :: 0 <= j < k && Turns(l, env, log[j])
  {
    hide Selection;
    hide Turns;
    ModeAt(l, env, pool, view, log, k);
    if k > 0 {
      WhenByFee(l, env, pool, view, log, k - 1);
    }
  }

  lemma ModeAt(l: Limits, env: Env, pool: Pool, view: View, log: seq<Examined>, k: nat)
    requires Selection(l, env, pool, view, log) && k < |log|
    ensures k == 0 ==> (log[k].before.byFee <==> l.prioritySize == 0)
    ensures k > 0 ==> (log[k].before.byFee <==> log[k - 1].before.byFee || Turns(l, env, log[k - 1]))
  {
    hide Ready;
    hide Seen;
    hide Selection;
    hide Admissible;
    hide UpdateCoins;
    StepAt(l, env, pool, view, log, k);
    if k > 0 {
      StepAt(l, env, pool, view, log, k - 1);
      assert log[..k][..k - 1] == log[..k - 1] && log[..k][k - 1] == log[k - 1];
    }
  }

  /** A transaction is taken exactly when it keeps the block within both budgets, is not a free one past the minimum
      size once the selection is by fee, has all its inputs unspent after those taken before, and passes the script
      checks. */
  lemma TakenExactlyWhen(l: Limits, env: Env, pool: Pool, view: View, log: seq<Examined>, k: nat)
    requires Selection(l, env, pool, view, log) && k < |log|
    ensures var tx, block := log[k].entry.tx, Taken(log[..k]);
            var size, sigOps, coins := 1000 + SizeOf(block), 100 + Sum(SigOps(env, log[..k])), ViewAfter(view, block);
            && log[k].before.size == size && log[k].before.sigOps == sigOps && log[k].before.view == coins
            && (log[k].taken <==>
                  && size + tx.size < l.maxSize
                  && sigOps + tx.legacySigOps + env.p2shSigOps(tx, coins) < l.maxSigOps
                  && (log[k].before.byFee ==> env.feePerKb(tx) >= l.minTxFee || size + tx.size < l.minSize)
                  && (forall i :: 0 <= i < |tx.vin| ==> tx.vin[i] in coins)
                  && env.checkInputs(tx, coins))
  {
    hide After;
    hide Ready;
    hide Seen;
    StepAt(l, env, pool, view, log, k);
    TotalsOfBlock(l, env, pool, view, log[..k]);
  }

  /** At the end nothing that can go is left unexamined. */
  lemma NothingIsPassedBy(l: Limits, env: Env, pool: Pool, view: View, log: seq<Examined>,
                          vtx: seq<Tx>, vTxFees: seq<int>, vTxSigOps: seq<int>, nBlockSize: nat, g: Hash)
    requires Outcome(l, env, pool, view, log, vtx, vTxFees, vTxSigOps, nBlockSize)
    requires CanGo(pool, view, log, |log|, g)
    ensures exists j :: 0 <= j < |log| && log[j].entry.tx.hash == g
  {
    assert log[..|log|] == log;
    ReadyCanGo(pool, view, log, |log|, g);
    SeenBefore(log, |log|, g);
  }

  /** Beside each transaction of the block stand its signature operations, those that show only with the inputs
      included, and its fee: what it spends less what it pays. */
  lemma {:induction false} BlockEntries(l: Limits, env: Env, pool: Pool, view: View, log: seq<Examined>, b: nat)
    requires Selection(l, env, pool, view, log) && b < |Taken(log)|
    ensures |SigOps(env, log)| == |Fees(log)| == |Taken(log)|
    ensures var tx, coins := Taken(log)[b], ViewAfter(view, Taken(log)[..b]);
            && HaveInputs(coins, tx)
            && SigOps(env, log)[b] == tx.legacySigOps + env.p2shSigOps(tx, coins)
            && Fees(log)[b] == ValueIn(coins, tx.vin) - Sum(tx.vout)
  {
    hide ViewAfter;
    hide ValueIn;
    hide Sum;
    hide HaveInputs;
    hide UpdateCoins;
    hide Ready;
    hide Seen;
    var n := |log| - 1;
    var block := Taken(log[..n]);
    TotalsOfBlock(l, env, pool, view, log);
    TotalsOfBlock(l, env, pool, view, log[..n]);
    if b < |block| {
      BlockEntries(l, env, pool, view, log[..n], b);
      assert Taken(log)[..b] == block[..b];
    } else {
      InputsUnspent(l, env, pool, view, log, b);
      assert Taken(log)[..b] == block;
    }
  }

  /** The unspent outputs after one more transaction of the block: output n of the transaction itself with its value,
      and of those before, what it does not spend. */
  lemma CoinsAfterOneMore(view: View, txs: seq<Tx>, b: nat, o: OutPoint)
    requires b < |txs|
    ensures var tx, coins, coins' := txs[b], ViewAfter(view, txs[..b]), ViewAfter(view, txs[..b + 1]);
            if o.hash == tx.hash && o.n < |tx.vout| then o in coins' && coins'[o] == tx.vout[o.n]
            else if exists i :: 0 <= i < |tx.vin| && tx.vin[i] == o then o !in coins'
            else (o in coins' <==> o in coins) && (o in coins ==> coins'[o] == coins[o])
  {
    assert txs[..b + 1][..b] == txs[..b];
  }
}
