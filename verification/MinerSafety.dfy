/** What every selection guarantees of the block it fills. */
module MinerSafety {
  import opened Miner

  /** The log up to k, and the entry there. */
  lemma {:induction false} StepAt(l: Limits, env: Env, pool: Pool, view: View, log: seq<Examined>, k: nat)
    requires Selection(l, env, pool, view, log) && k < |log|
    ensures Selection(l, env, pool, view, log[..k]) && Step(l, env, pool, view, log[..k], log[k])
  {
    hide Step;
    var n := |log| - 1;
    if k < n {
      StepAt(l, env, pool, view, log[..n], k);
      assert log[..n][..k] == log[..k];
    }
  }

  // ---------------------------------------------------------------- each once, parents first

  /** No transaction is examined twice, so none is in the block twice. */
  lemma {:induction false} ExaminedOnce(l: Limits, env: Env, pool: Pool, view: View, log: seq<Examined>)
    requires Selection(l, env, pool, view, log)
    ensures forall i, j :: 0 <= i < j < |log| ==> log[i].entry.tx.hash != log[j].entry.tx.hash
  {
    forall i, j | 0 <= i < j < |log|
      ensures log[i].entry.tx.hash != log[j].entry.tx.hash
    {
      StepAt(l, env, pool, view, log, j);
      assert log[..j][i] == log[i];
      assert log[i].entry.tx.hash in Seen(log[..j]);
    }
  }

  /** What is in the block was examined and found admissible. */
  lemma {:induction false} TakenIsChosen(log: seq<Examined>)
    ensures forall h :: Holds(Taken(log), h) <==> h in Chosen(log)
  {
    if log != [] {
      var n := |log| - 1;
      TakenIsChosen(log[..n]);
      SeenChosenAppend(log[..n], log[n]);
      assert log == log[..n] + [log[n]];
      HoldsAppend(Taken(log[..n]), log[n].entry.tx);
    }
  }

  lemma {:induction false} BlockDistinct(l: Limits, env: Env, pool: Pool, view: View, log: seq<Examined>)
    requires Selection(l, env, pool, view, log)
    ensures DistinctTxs(Taken(log))
  {
    if log != [] {
      var n := |log| - 1;
      BlockDistinct(l, env, pool, view, log[..n]);
      TakenIsChosen(log[..n]);
      SeenChosenAppend(log[..n], log[n]);
      HoldsAppend(Taken(log[..n]), log[n].entry.tx);
    }
  }

  /** Every transaction of the block is from the pool, and its parents in the pool come before it. */
  lemma {:induction false} ParentsComeFirst(l: Limits, env: Env, pool: Pool, view: View, log: seq<Examined>, b: nat,
                                            h: Hash)
    requires PoolOk(pool, view) && Selection(l, env, pool, view, log) && b < |Taken(log)|
    ensures Candidate(pool, view, Taken(log)[b].hash) && Taken(log)[b] == pool[Taken(log)[b].hash]
    ensures h in Parents(pool, view, Taken(log)[b]) ==> exists a :: 0 <= a < b && Taken(log)[a].hash == h
  {
    var n := |log| - 1;
    var block := Taken(log[..n]);
    if b < |block| {
      ParentsComeFirst(l, env, pool, view, log[..n], b, h);
      if h in Parents(pool, view, block[b]) {
        var a :| 0 <= a < b && block[a].hash == h;
        assert Taken(log)[a].hash == h;
      }
    } else if h in Parents(pool, view, Taken(log)[b]) {
      TakenIsChosen(log[..n]);
      assert Holds(block, h);
      var a :| 0 <= a < |block| && block[a].hash == h;
      assert Taken(log)[a].hash == h;
    }
  }

  // ---------------------------------------------------------------- the coins

  /** The totals the loop carries are those of the block so far. */
  lemma {:induction false} TotalsOfBlock(l: Limits, env: Env, pool: Pool, view: View, log: seq<Examined>)
    requires Selection(l, env, pool, view, log)
    ensures After(l, env, view, log).view == ViewAfter(view, Taken(log))
    ensures After(l, env, view, log).size == 1000 + SizeOf(Taken(log))
    ensures After(l, env, view, log).sigOps == 100 + Sum(SigOps(env, log))
    ensures |SigOps(env, log)| == |Fees(log)| == |Taken(log)|
  {
    if log != [] {
      var n := |log| - 1;
      var e := log[n];
      TotalsOfBlock(l, env, pool, view, log[..n]);
      if e.taken {
        var block, ops := Taken(log[..n]), SigOps(env, log[..n]);
        assert Taken(log)[..|block|] == block;
        assert SigOps(env, log)[..|ops|] == ops;
      }
    }
  }

  ghost function SizeOf(txs: seq<Tx>): nat {
    if txs == [] then 0 else SizeOf(txs[..|txs| - 1]) + txs[|txs| - 1].size
  }

  /** The block keeps within both budgets. */
  lemma {:induction false} WithinBudgets(l: Limits, env: Env, pool: Pool, view: View, log: seq<Examined>)
    requires Selection(l, env, pool, view, log)
    ensures Taken(log) != [] ==> 1000 + SizeOf(Taken(log)) < l.maxSize
    ensures Taken(log) != [] ==> 100 + Sum(SigOps(env, log)) < l.maxSigOps
  {
    if log != [] {
      WithinBudgets(l, env, pool, view, log[..|log| - 1]);
    }
    TotalsOfBlock(l, env, pool, view, log);
  }

  /** When its turn comes, every input of a transaction of the block is unspent. */
  lemma {:induction false} InputsUnspent(l: Limits, env: Env, pool: Pool, view: View, log: seq<Examined>, b: nat)
    requires Selection(l, env, pool, view, log) && b < |Taken(log)|
    ensures HaveInputs(ViewAfter(view, Taken(log)[..b]), Taken(log)[b])
  {
    var n := |log| - 1;
    var block := Taken(log[..n]);
    if b < |block| {
      InputsUnspent(l, env, pool, view, log[..n], b);
      assert Taken(log)[..b] == block[..b];
    } else {
      TotalsOfBlock(l, env, pool, view, log[..n]);
      assert Taken(log)[..b] == block;
    }
  }

  /** An unspent output was there before or is of a transaction of the block. */
  lemma {:induction false} OriginOfCoin(view: View, txs: seq<Tx>, o: OutPoint)
    requires o in ViewAfter(view, txs)
    ensures o in view || Holds(txs, o.hash)
  {
    if txs != [] {
      var n := |txs| - 1;
      assert txs == txs[..n] + [txs[n]];
      HoldsAppend(txs[..n], txs[n]);
      if o in ViewAfter(view, txs[..n]) {
        OriginOfCoin(view, txs[..n], o);
      } else {
        assert o in Outputs(txs[n]);
      }
    }
  }

  /** A spent output of a transaction that does not follow stays spent. */
  lemma {:induction false} StaysSpent(view: View, txs: seq<Tx>, a: nat, b: nat, o: OutPoint)
    requires a < b <= |txs| && o in txs[a].vin
    requires forall c :: a <= c < b ==> txs[c].hash != o.hash
    ensures o !in ViewAfter(view, txs[..b])
  {
    assert txs[..b][..b - 1] == txs[..b - 1];
    assert o !in Outputs(txs[b - 1]);
    if a < b - 1 {
      StaysSpent(view, txs, a, b - 1, o);
    } else {
      var i :| 0 <= i < |txs[a].vin| && txs[a].vin[i] == o;
    }
  }

  /** No output is spent twice in the block. */
  lemma {:induction false} NothingSpentTwice(l: Limits, env: Env, pool: Pool, view: View, log: seq<Examined>,
                                             a: nat, b: nat, i: nat, j: nat)
    requires PoolOk(pool, view) && Selection(l, env, pool, view, log)
    requires a <= b < |Taken(log)| && i < |Taken(log)[a].vin| && j < |Taken(log)[b].vin| && (a == b ==> i != j)
    ensures Taken(log)[a].vin[i] != Taken(log)[b].vin[j]
  {
    var txs := Taken(log);
    var o := txs[a].vin[i];
    BlockDistinct(l, env, pool, view, log);
    ParentsComeFirst(l, env, pool, view, log, b, 0);
    if a < b && o == txs[b].vin[j] {
      InputsUnspent(l, env, pool, view, log, a);
      OriginOfCoin(view, txs[..a], o);
      forall c | a <= c < b
        ensures txs[c].hash != o.hash
      {
        ParentsComeFirst(l, env, pool, view, log, c, 0);
      }
      StaysSpent(view, txs, a, b, o);
      InputsUnspent(l, env, pool, view, log, b);
      assert false;
    }
  }

  // ---------------------------------------------------------------- fees

  lemma {:induction false} SumPrepend(x: int, s: seq<int>)
    ensures Sum([x] + s) == x + Sum(s)
  {
    if s == [] {
      assert Sum([x]) == Sum([]) + x by { assert [x][..0] == []; }
      assert [x] + s == [x];
    } else {
      SumPrepend(x, s[..|s| - 1]);
      assert ([x] + s)[..|s|] == [x] + s[..|s| - 1];
    }
  }

  /** The first entry of the fees takes back all the others. */
  lemma FeesBalance(fees: seq<int>)
    ensures Sum([-Sum(fees)] + fees) == 0
  {
    hide Sum;
    SumPrepend(-Sum(fees), fees);
  }

  // ---------------------------------------------------------------- together

  /** Every block the selection can return: distinct pool transactions, each with all its inputs unspent at its
      turn, within both budgets, fees that balance, and no ready transaction left unexamined. */
  lemma EveryBlockIsSafe(l: Limits, env: Env, pool: Pool, view: View, log: seq<Examined>,
                         vtx: seq<Tx>, vTxFees: seq<int>, vTxSigOps: seq<int>, nBlockSize: nat)
    requires PoolOk(pool, view) && Outcome(l, env, pool, view, log, vtx, vTxFees, vTxSigOps, nBlockSize)
    ensures DistinctTxs(vtx)
    ensures forall b: nat :: b < |vtx| ==> vtx[b].hash in pool && HaveInputs(ViewAfter(view, vtx[..b]), vtx[b])
    ensures nBlockSize == 1000 + SizeOf(vtx) &&
            (vtx != [] ==> nBlockSize < l.maxSize && 100 + Sum(vTxSigOps) < l.maxSigOps)
    ensures |vTxFees| == |vtx| + 1 && |vTxSigOps| == |vtx| && Sum(vTxFees) == 0
  {
    hide Selection;
    hide Complete;
    hide After;
    hide Taken;
    hide Fees;
    hide SigOps;
    hide Sum;
    hide SizeOf;
    hide PoolOk;
    hide HaveInputs;
    hide ViewAfter;
    hide DistinctTxs;
    BlockDistinct(l, env, pool, view, log);
    forall b: nat | b < |vtx|
      ensures vtx[b].hash in pool && HaveInputs(ViewAfter(view, vtx[..b]), vtx[b])
    {
      ParentsComeFirst(l, env, pool, view, log, b, 0);
      InputsUnspent(l, env, pool, view, log, b);
    }
    WithinBudgets(l, env, pool, view, log);
    TotalsOfBlock(l, env, pool, view, log);
    FeesBalance(Fees(log));
  }
}
