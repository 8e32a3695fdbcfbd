/** What a selection does to the value of the unspent outputs: the block's fees are all that disappears. */
module MinerValue {
  import opened Common
  import opened Miner
  import opened MinerSafety

  /** The value of all unspent outputs. */
  ghost function Worth(view: View): int
    decreases |view|
  {
    if view == map[] then 0 else
      var o := Pick(view.Keys);
      SmallerView(view, o);
      view[o] + Worth(view - {o})
  }

  lemma SmallerView(view: View, o: OutPoint)
    requires o in view
    ensures |view - {o}| == |view| - 1 && view - {o} != view
  {
    assert (view - {o}).Keys == view.Keys - {o};
  }

  lemma {:induction false} WorthWithout(view: View, o: OutPoint)
    requires o in view
    ensures Worth(view) == view[o] + Worth(view - {o})
    decreases |view|
  {
    var p := Pick(view.Keys);
    if p != o {
      SmallerView(view, p);
      SmallerView(view, o);
      WorthWithout(view - {p}, o);
      WorthWithout(view - {o}, p);
      assert view - {p} - {o} == view - {o} - {p};
    }
  }

  lemma WorthWith(view: View, o: OutPoint, v: int)
    requires o !in view
    ensures Worth(view[o := v]) == v + Worth(view)
  {
    WorthWithout(view[o := v], o);
    assert view[o := v] - {o} == view;
  }

  /** The view without the first n inputs. */
  ghost function Without(view: View, vin: seq<OutPoint>, n: nat): View
    requires n <= |vin|
  {
    view - (set i | 0 <= i < n :: vin[i])
  }

  lemma {:induction false} SpendingInputs(view: View, tx: Tx, n: nat)
    requires n <= |tx.vin| && DistinctInputs(tx) && HaveInputs(view, tx)
    ensures Worth(Without(view, tx.vin, n)) == Worth(view) - ValueIn(view, tx.vin[..n])
  {
    if n == 0 {
      assert Without(view, tx.vin, 0) == view;
    } else {
      var before, o := Without(view, tx.vin, n - 1), tx.vin[n - 1];
      SpendingInputs(view, tx, n - 1);
      assert tx.vin[..n][..n - 1] == tx.vin[..n - 1];
      assert o in before;
      WorthWithout(before, o);
      assert Without(view, tx.vin, n) == before - {o};
    }
  }

  /** The first n outputs. */
  ghost function OutputsUpTo(tx: Tx, n: nat): View
    requires n <= |tx.vout|
  {
    if n == 0 then map[] else OutputsUpTo(tx, n - 1)[OutPoint(tx.hash, n - 1) := tx.vout[n - 1]]
  }

  lemma {:induction false} OutputsListed(tx: Tx, n: nat)
    requires n <= |tx.vout|
    ensures forall o :: o in OutputsUpTo(tx, n) <==> o.hash == tx.hash && o.n < n
    ensures forall o :: o in OutputsUpTo(tx, n) ==> OutputsUpTo(tx, n)[o] == tx.vout[o.n]
  {
    if n > 0 {
      OutputsListed(tx, n - 1);
    }
  }

  lemma OutputsAreAll(tx: Tx)
    ensures Outputs(tx) == OutputsUpTo(tx, |tx.vout|)
  {
    OutputsListed(tx, |tx.vout|);
  }

  lemma {:induction false} AddingOutputs(view: View, tx: Tx, n: nat)
    requires n <= |tx.vout| && forall o :: o in view ==> o.hash != tx.hash
    ensures Worth(view + OutputsUpTo(tx, n)) == Worth(view) + Sum(tx.vout[..n])
  {
    hide Worth;
    if n == 0 {
      assert view + OutputsUpTo(tx, 0) == view;
    } else {
      var before, o := view + OutputsUpTo(tx, n - 1), OutPoint(tx.hash, n - 1);
      AddingOutputs(view, tx, n - 1);
      assert tx.vout[..n][..n - 1] == tx.vout[..n - 1];
      OutputsListed(tx, n - 1);
      assert o !in before;
      WorthWith(before, o, tx.vout[n - 1]);
      assert view + OutputsUpTo(tx, n) == before[o := tx.vout[n - 1]];
    }
  }

  /** Taking a transaction that is not in the view yet costs exactly its fee. */
  lemma TakingCostsTheFee(view: View, tx: Tx)
    requires HaveInputs(view, tx) && DistinctInputs(tx) && forall o :: o in view ==> o.hash != tx.hash
    ensures Worth(UpdateCoins(view, tx)) == Worth(view) - (ValueIn(view, tx.vin) - Sum(tx.vout))
  {
    hide Worth;
    hide Outputs;
    hide OutputsUpTo;
    hide ValueIn;
    hide Sum;
    var n, m := |tx.vin|, |tx.vout|;
    SpendingInputs(view, tx, n);
    AddingOutputs(Without(view, tx.vin, n), tx, m);
    assert tx.vin[..n] == tx.vin && tx.vout[..m] == tx.vout;
    OutputsAreAll(tx);
    assert UpdateCoins(view, tx) == Without(view, tx.vin, n) + OutputsUpTo(tx, m);
  }

  /** The fees of the block are what the unspent outputs lose in value: nothing else is created or lost. */
  lemma {:induction false} FeesAreAllThatDisappears(l: Limits, env: Env, pool: Pool, view: View, log: seq<Examined>)
    requires PoolOk(pool, view) && Selection(l, env, pool, view, log)
    ensures Worth(view) == Worth(ViewAfter(view, Taken(log))) + Sum(Fees(log))
  {
    if log != [] {
      var n := |log| - 1;
      var e, block := log[n], Taken(log[..n]);
      FeesAreAllThatDisappears(l, env, pool, view, log[..n]);
      assert log == log[..n] + [e];
      TakenAppend(env, log[..n], e);
      FeesAppend(log[..n], e);
      if e.taken {
        TotalsOfBlock(l, env, pool, view, log[..n]);
        assert (block + [e.entry.tx])[..|block|] == block;
        NotInView(l, env, pool, view, log[..n], e);
        TakingCostsTheFee(e.before.view, e.entry.tx);
      }
    }
  }

  /** No output of the transaction examined next is known yet. */
  lemma NotInView(l: Limits, env: Env, pool: Pool, view: View, log: seq<Examined>, e: Examined)
    requires PoolOk(pool, view) && Selection(l, env, pool, view, log) && Step(l, env, pool, view, log, e)
    ensures forall o :: o in e.before.view ==> o.hash != e.entry.tx.hash
  {
    TotalsOfBlock(l, env, pool, view, log);
    forall o | o in e.before.view
      ensures o.hash != e.entry.tx.hash
    {
      OriginOfCoin(view, Taken(log), o);
      TakenIsChosen(log);
      SeenChosenAppend(log, e);
    }
  }
}
