/** Building a payment: choosing coins, change and fee together. */
module CreateTransaction {
  import opened Common
  import CS = CoinSelection
  import KP = KeyPool

  type Amount = int

  datatype Script = ToPayee(id: int) | ToChange(key: Option<KP.Key>)

  datatype TxOut = TxOut(value: Amount, script: Script)

  datatype Input = Input(tx: int, n: nat)

  datatype WalletTx = WalletTx(vin: seq<Input>, vout: seq<TxOut>)

  /** What the loop consults: the configured fee, limits, and for a transaction its size, the fee asked of it
      when it spends these coins, and whether an input can be signed. */
  datatype Env = Env(nTransactionFee: Amount, minTxFee: Amount, cent: Amount, maxBytes: nat,
                     size: WalletTx -> nat, minFee: (WalletTx, seq<CS.Coin>) -> Amount, signs: (WalletTx, nat) -> bool)

  datatype Payee = Payee(id: int, value: Amount)

  function ValueOf(payees: seq<Payee>): Amount {
    if payees == [] then 0 else ValueOf(payees[..|payees| - 1]) + payees[|payees| - 1].value
  }

  /** The running sum of the amounts is never negative. */
  ghost predicate AmountsOk(payees: seq<Payee>) {
    payees != [] && forall k :: 0 <= k <= |payees| ==> ValueOf(payees[..k]) >= 0
  }

  ghost function Payments(payees: seq<Payee>): (r: seq<TxOut>)
    ensures |r| == |payees|
  {
    if payees == [] then [] else
      var p := payees[|payees| - 1];
      Payments(payees[..|payees| - 1]) + [TxOut(p.value, ToPayee(p.id))]
  }

  function OutTotal(outs: seq<TxOut>): Amount {
    if outs == [] then 0 else OutTotal(outs[..|outs| - 1]) + outs[|outs| - 1].value
  }

  ghost predicate Signed(env: Env, tx: WalletTx) {
    forall i :: 0 <= i < |tx.vin| ==> env.signs(tx, i)
  }

  /** What the wallet could spend at all. */
  ghost function Available(vCoins: seq<CS.Coin>): Amount {
    CS.Total(CS.EligibleOnly(vCoins, 0, 1))
  }

  /** Each payee gets the value sent, in order, with the change, if there is any, put in before payee p. */
  ghost predicate PaysEach(vout: seq<TxOut>, payees: seq<Payee>, change: Amount, key: Option<KP.Key>, p: nat) {
    && (if change > 0
        then p < |payees| && |vout| == |payees| + 1 && vout[p] == TxOut(change, ToChange(key))
        else p == |payees| == |vout|)
    && (forall k :: 0 <= k < p ==> vout[k] == TxOut(payees[k].value, ToPayee(payees[k].id)))
    && (forall k :: p <= k < |payees| ==> vout[k + 1] == TxOut(payees[k].value, ToPayee(payees[k].id)))
  }

  ghost predicate PaysInOrder(vout: seq<TxOut>, payees: seq<Payee>, change: Amount, key: Option<KP.Key>) {
    exists p: nat :: PaysEach(vout, payees, change, key, p)
  }

  /** Each coin is spent by one input, in order. */
  ghost predicate SpendsEach(vin: seq<Input>, coins: seq<CS.Coin>) {
    |vin| == |coins| && forall k :: 0 <= k < |vin| ==> vin[k] == Input(coins[k].tx, coins[k].n)
  }

  lemma {:induction false} PaymentsAt(payees: seq<Payee>, k: nat)
    requires k < |payees|
    ensures Payments(payees)[k] == TxOut(payees[k].value, ToPayee(payees[k].id))
  {
    if k < |payees| - 1 {
      PaymentsAt(payees[..|payees| - 1], k);
    }
  }

  /** The outputs are the payments with the change between. */
  lemma PaysIsPayments(vout: seq<TxOut>, payees: seq<Payee>, change: Amount, key: Option<KP.Key>, p: nat)
    requires PaysEach(vout, payees, change, key, p)
    ensures vout == Payments(payees)[..p] + (if change > 0 then [TxOut(change, ToChange(key))] else []) +
            Payments(payees)[p..]
  {
    var paid := Payments(payees)[..p] + (if change > 0 then [TxOut(change, ToChange(key))] else []) +
        Payments(payees)[p..];
    forall k | 0 <= k < |payees|
      ensures Payments(payees)[k] == TxOut(payees[k].value, ToPayee(payees[k].id))
    {
      PaymentsAt(payees, k);
    }
    forall i | 0 <= i < |vout|
      ensures vout[i] == paid[i]
    {
      if i > p {
        assert vout[(i - 1) + 1] == vout[i];
      }
    }
  }

  lemma {:induction false} PaymentsTotal(payees: seq<Payee>)
    ensures OutTotal(Payments(payees)) == ValueOf(payees)
  {
    if payees != [] {
      PaymentsTotal(payees[..|payees| - 1]);
      OutTotalConcat(Payments(payees[..|payees| - 1]), [Payments(payees)[|payees| - 1]]);
      OneOut(Payments(payees)[|payees| - 1]);
    }
  }

  lemma OneOut(out: TxOut)
    ensures OutTotal([out]) == out.value
  {
    assert [out][..0] == [];
  }

  lemma {:induction false} OutTotalConcat(a: seq<TxOut>, b: seq<TxOut>)
    ensures OutTotal(a + b) == OutTotal(a) + OutTotal(b)
  {
    if b == [] {
      assert a + b == a;
    } else {
      OutTotalConcat(a, b[..|b| - 1]);
      assert (a + b)[..|a + b| - 1] == a + b[..|b| - 1];
    }
  }

  /** However it is placed, the change adds its value. */
  lemma OutputsTotal(vout: seq<TxOut>, payees: seq<Payee>, change: Amount, key: Option<KP.Key>)
    requires PaysInOrder(vout, payees, change, key) && change >= 0
    ensures OutTotal(vout) == ValueOf(payees) + change
  {
    hide OutTotal;
    hide ValueOf;
    hide Payments;
    PaymentsTotal(payees);
    var p: nat :| PaysEach(vout, payees, change, key, p);
    PaysIsPayments(vout, payees, change, key, p);
    var before, after := Payments(payees)[..p], Payments(payees)[p..];
    assert Payments(payees) == before + after;
    OutTotalConcat(before, after);
    if change > 0 {
      var out := TxOut(change, ToChange(key));
      OutTotalConcat(before + [out], after);
      OutTotalConcat(before, [out]);
      OneOut(out);
    } else {
      assert vout == before + after;
    }
  }

  /** The sum of the amounts, unless it goes negative on the way. */
  method AddUp(vecSend: seq<Payee>) returns (ok: bool, nValue: Amount)
    ensures ok <==> AmountsOk(vecSend)
    ensures ok ==> nValue == ValueOf(vecSend) >= 0
  {
    nValue := 0;
    for k := 0 to |vecSend|
      invariant nValue == ValueOf(vecSend[..k])
      invariant forall j :: 0 <= j < k ==> ValueOf(vecSend[..j]) >= 0
    {
      if nValue < 0 {
        return false, nValue;
      }
      assert vecSend[..k + 1][..k] == vecSend[..k];
      nValue := nValue + vecSend[k].value;
    }
    assert vecSend[..|vecSend|] == vecSend;
    return vecSend != [] && nValue >= 0, nValue;
  }

  /** What a finished transaction satisfies. */
  ghost predicate Balanced(env: Env, payees: seq<Payee>, coins: seq<CS.Coin>, tx: WalletTx, change: Amount,
                           fee: Amount, key: Option<KP.Key>) {
    && CS.Total(coins) == ValueOf(payees) + change + fee && change >= 0
    && PaysInOrder(tx.vout, payees, change, key) && SpendsEach(tx.vin, coins)
    && (0 < change < env.cent ==> fee >= env.minTxFee)
  }

  /** Without change the loan holds no key. With change it holds one, unless a locked wallet has run out of keys:
      then the change goes to the default key. */
  ghost predicate ChangeKeyOk(reservekey: KP.CReserveKey, change: Amount, safe: bool)
    reads reservekey, reservekey.pwallet
  {
    && (change == 0 ==> reservekey.nIndex == -1)
    && (safe && change > 0 && reservekey.nIndex == -1 ==>
          reservekey.pwallet.locked && reservekey.pwallet.setKeyPool == {}
          && reservekey.vchPubKey == reservekey.pwallet.vchDefaultKey)
  }

  /** The retry loop. It ends because every retry raises the fee and no coins can be found once fee and
      payments exceed what is available. On success the inputs pay exactly for payees, change and fee, and the fee
      is at least the one required. */
  method Create(env: Env, vecSend: seq<Payee>, vCoins: seq<CS.Coin>, reservekey: KP.CReserveKey)
    returns (ok: bool, wtxNew: WalletTx, nFeeRet: Amount, ghost coins: seq<CS.Coin>, ghost change: Amount)
    requires CS.Distinct(vCoins) && CS.Amounts(vCoins) && env.cent > 0
    modifies reservekey, reservekey.pwallet
    ensures old(reservekey.Safe()) ==> reservekey.Safe()
    ensures CS.IsPart(coins, vCoins, 0, 1)
    ensures ok ==> AmountsOk(vecSend) && nFeeRet >= env.nTransactionFee
    ensures ok ==> Balanced(env, vecSend, coins, wtxNew, change, nFeeRet, reservekey.vchPubKey)
    ensures ok ==> OutTotal(wtxNew.vout) + nFeeRet == CS.Total(coins)
    ensures ok ==> nFeeRet >= env.nTransactionFee * (1 + env.size(wtxNew) / 1000)
    ensures ok ==> nFeeRet >= env.minFee(wtxNew, coins)
    ensures ok ==> Signed(env, wtxNew) && env.size(wtxNew) < env.maxBytes
    ensures ok ==> ChangeKeyOk(reservekey, change, old(reservekey.Safe()))
    ensures !ok ==>
              || !AmountsOk(vecSend) || !CS.Affords(vCoins, 0, 1, ValueOf(vecSend) + nFeeRet)
              || !Signed(env, wtxNew) || env.size(wtxNew) >= env.maxBytes
  {
    hide PaysInOrder;
    hide SpendsEach;
    hide ValueOf;
    hide OutTotal;
    hide Signed;
    hide CS.Total;
    hide CS.EligibleOnly;
    hide CS.Amounts;
    hide CS.Eligible;
    hide CS.Affords;
    hide CS.IsPart;
    hide KP.State.Sound;
    hide KP.NewestInPool;
    hide KP.ToppedBy;
    hide KP.CReserveKey.Safe;
    hide KP.CReserveKey.Valid;
    hide KP.Wallet.LoansKept;
    CS.AffordsExactlyWhen(vCoins, 0, 1);
    CS.NothingIsPart(vCoins, 0, 1);
    wtxNew, nFeeRet, coins, change := WalletTx([], []), 0, [], 0;
    var amountsOk, nValue := AddUp(vecSend);
    if !amountsOk {
      return false, wtxNew, nFeeRet, coins, change;
    }
    nFeeRet := env.nTransactionFee;
    while true
      invariant old(reservekey.Safe()) ==> reservekey.Safe()
      invariant nFeeRet >= env.nTransactionFee
      decreases Max(0, Available(vCoins) + 1 - nValue - nFeeRet)
    {
      var found, setCoins, nValueIn := CS.SelectCoins(nValue + nFeeRet, vCoins, env.cent);
      coins := setCoins;
      if !found {
        return false, wtxNew, nFeeRet, coins, change;
      }
      var nFee, nChange := MoveToFee(env, nFeeRet, nValueIn - nValue - nFeeRet);
      wtxNew := BuildTx(vecSend, setCoins, nChange, reservekey);
      change := nChange;
      ghost var before := nFeeRet;
      nFeeRet := nFee;
      var signed := SignAll(env, wtxNew);
      if !signed {
        return false, wtxNew, nFeeRet, coins, change;
      }
      if env.size(wtxNew) >= env.maxBytes {
        return false, wtxNew, nFeeRet, coins, change;
      }
      var nPayFee := env.nTransactionFee * (1 + env.size(wtxNew) / 1000);
      var nMinFee := env.minFee(wtxNew, setCoins);
      if nFeeRet < Max(nPayFee, nMinFee) {
        nFeeRet := Max(nPayFee, nMinFee);
        continue;
      }
      OutputsTotal(wtxNew.vout, vecSend, nChange, reservekey.vchPubKey);
      return true, wtxNew, nFeeRet, coins, change;
    }
  }

  /** Change of less than a cent is moved to a fee that is still below the minimum. */
  method MoveToFee(env: Env, nFeeRet: Amount, nChange0: Amount) returns (fee: Amount, nChange: Amount)
    requires nChange0 >= 0
    ensures fee + nChange == nFeeRet + nChange0 && fee >= nFeeRet && nChange >= 0
    ensures 0 < nChange < env.cent ==> fee >= env.minTxFee
    ensures nChange0 >= env.cent || nFeeRet >= env.minTxFee ==> fee == nFeeRet
    ensures fee <= Max(nFeeRet, env.minTxFee)
  {
    fee, nChange := nFeeRet, nChange0;
    if nFeeRet < env.minTxFee && 0 < nChange < env.cent {
      var nMoveToFee := Min(nChange, env.minTxFee - nFeeRet);
      nChange, fee := nChange - nMoveToFee, fee + nMoveToFee;
    }
  }

  /** The outputs, the change key and the inputs of one attempt. */
  method BuildTx(vecSend: seq<Payee>, setCoins: seq<CS.Coin>, nChange: Amount, reservekey: KP.CReserveKey)
    returns (tx: WalletTx)
    requires vecSend != [] && nChange >= 0
    modifies reservekey, reservekey.pwallet
    ensures old(reservekey.Safe()) ==> reservekey.Safe()
    ensures PaysInOrder(tx.vout, vecSend, nChange, reservekey.vchPubKey) && SpendsEach(tx.vin, setCoins)
    ensures ChangeKeyOk(reservekey, nChange, old(reservekey.Safe()))
  {
    hide KP.State.Sound;
    hide KP.NewestInPool;
    hide KP.ToppedBy;
    hide KP.CReserveKey.Safe;
    hide KP.CReserveKey.Valid;
    hide KP.Wallet.LoansKept;
    var vout := PayEach(vecSend);
    ghost var p := |vecSend|;
    if nChange > 0 {
      var vchPubKey := reservekey.GetReservedKey();
      var position := GetRandInt(|vout|);
      vout := vout[..position] + [TxOut(nChange, ToChange(vchPubKey))] + vout[position..];
      p := position;
    } else {
      reservekey.ReturnKey();
    }
    assert PaysEach(vout, vecSend, nChange, reservekey.vchPubKey, p);
    var vin := [];
    for k := 0 to |setCoins|
      invariant |vin| == k && forall i :: 0 <= i < k ==> vin[i] == Input(setCoins[i].tx, setCoins[i].n)
    {
      vin := vin + [Input(setCoins[k].tx, setCoins[k].n)];
    }
    tx := WalletTx(vin, vout);
  }

  /** The outputs to the payees. */
  method PayEach(vecSend: seq<Payee>) returns (vout: seq<TxOut>)
    ensures PaysEach(vout, vecSend, 0, None, |vecSend|)
  {
    vout := [];
    for k := 0 to |vecSend|
      invariant |vout| == k && forall i :: 0 <= i < k ==> vout[i] == TxOut(vecSend[i].value, ToPayee(vecSend[i].id))
    {
      vout := vout + [TxOut(vecSend[k].value, ToPayee(vecSend[k].id))];
    }
  }

  /** Signs input after input, up to the first that cannot be signed. */
  method SignAll(env: Env, tx: WalletTx) returns (ok: bool)
    ensures ok <==> Signed(env, tx)
  {
    for nIn := 0 to |tx.vin|
      invariant forall i :: 0 <= i < nIn ==> env.signs(tx, i)
    {
      if !env.signs(tx, nIn) {
        return false;
      }
    }
    return true;
  }
}
