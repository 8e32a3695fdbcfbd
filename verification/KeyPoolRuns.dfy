/** Whole runs of the key pool: when an index is issued a second time, and what holds as long as none is. */
module KeyPoolRuns {
  import opened KeyPool
  import opened Common

  // ---------------------------------------------------------------- indices issued again

  lemma FirstTwo()
    ensures Next({}) == 1 && Next({1}) == 2 && Next({1, 2}) == 3
    ensures ToppedBy({}, 1) == {1} && ToppedBy({}, 2) == {1, 2} && ToppedBy({1}, 1) == {1, 2}
  {
    assert IsLargest({1}, Largest({1})) && IsLargest({1, 2}, Largest({1, 2}));
    assert {} + {1} == {1} && {1} + {2} == {1, 2};
    assert ToppedBy({1}, 0) == {1} && ToppedBy({1, 2}, 0) == {1, 2};
    assert ToppedBy({1}, 1) == ToppedBy({1} + {Next({1})}, 0);
    assert ToppedBy({}, 1) == ToppedBy({} + {1}, 0);
    assert ToppedBy({}, 2) == ToppedBy({} + {1}, 1);
  }

  lemma TwoTaken(a: int, b: int)
    requires IsLeast({1, 2}, a) && IsLeast({1, 2} - {a}, b)
    ensures a == 1 && b == 2 && {1, 2} - {a} == {2} && {1, 2} - {a} - {b} == {} && {} + {1} == {1}
  {
    assert 1 in {1, 2} && 2 in {1, 2} - {1};
  }

  method LockedWithTwo() returns (w: Wallet)
    ensures w.nTarget == 1 && w.locked && w.setKeyPool == {1, 2} && fresh(w)
  {
    hide State.Sound;
    hide State.Steady;
    hide State.AddedBy;
    hide ToppedBy;
    FirstTwo();
    w := new Wallet(true, 1);
    var _ := w.TopUpKeyPool();
    w.Lock();
  }

  /** Both keys of a locked wallet are lent. */
  method LendTwo() returns (w: Wallet, older: CReserveKey, loan: CReserveKey)
    ensures w.nTarget == 1 && w.locked && w.setKeyPool == {} && older != loan
    ensures older.pwallet == w && older.nIndex == 1 && loan.pwallet == w && loan.nIndex == 2
    ensures 2 in w.held && w.held[2] == loan && fresh(w) && fresh(older) && fresh(loan)
  {
    hide State.Sound;
    hide State.Steady;
    hide State.AddedBy;
    hide NewestInPool;
    hide ToppedBy;
    hide IsLeast;
    hide CReserveKey.Safe;
    hide CReserveKey.Valid;
    hide Wallet.LoansKept;
    hide State.Repeats;
    hide Wallet.CanReserve;
    w := LockedWithTwo();
    older := new CReserveKey(w);
    var _ := older.GetReservedKey();
    TwoAreLeft({1, 2}, older.nIndex);
    loan := new CReserveKey(w);
    var _ := loan.GetReservedKey();
    TwoTaken(older.nIndex, loan.nIndex);
  }

  lemma TwoAreLeft(s: set<int>, i: int)
    requires |s| == 2
    ensures s != {} && s - {i} != {}
  {
    if i in s {
      assert |s - {i}| == 1;
    }
  }

  /** A pool that is not empty can still issue an index again. Locked with two keys, the wallet lends both and takes
      the older one back; unlocked, it puts the index that is still on loan into the pool a second time. */
  method LentAndIssuedAgain() returns (w: Wallet, loan: CReserveKey)
    ensures loan.pwallet == w && loan.nIndex == 2 && 2 in w.setKeyPool && 2 in w.held && w.held[2] == loan
    ensures w.nTarget == 1 && !w.locked
  {
    hide State.Sound;
    hide State.Steady;
    hide State.AddedBy;
    hide NewestInPool;
    hide ToppedBy;
    hide CReserveKey.Safe;
    hide CReserveKey.Valid;
    hide Wallet.LoansKept;
    FirstTwo();
    var older;
    w, older, loan := LendTwo();
    older.ReturnKey();
    assert w.setKeyPool == {1};
    w.Unlock();
    var _ := w.TopUpKeyPool();
  }

  /** With a target of zero every loan is of index 1. */
  method TargetOfZeroReissues(fFileBacked: bool, n: nat) returns (w: Wallet, loans: seq<CReserveKey>)
    ensures |loans| == n && forall a, b :: 0 <= a < b < n ==> loans[a] != loans[b]
    ensures forall a :: 0 <= a < n ==> loans[a].pwallet == w && loans[a].nIndex == 1
  {
    w := new Wallet(fFileBacked, 0);
    loans := [];
    FirstTwo();
    while |loans| < n
      invariant fresh(w) && w.nTarget == 0 && !w.locked && w.setKeyPool == {} && |loans| <= n
      invariant forall a :: 0 <= a < |loans| ==> fresh(loans[a]) && loans[a].pwallet == w && loans[a].nIndex == 1
      invariant forall a, b :: 0 <= a < b < |loans| ==> loans[a] != loans[b]
    {
      var l := new CReserveKey(w);
      var _ := l.GetReservedKey();
      loans := loans + [l];
    }
  }

  // ---------------------------------------------------------------- whole runs

  datatype Op =
    TopUp | Loan | GetReserved(i: nat) | Keep(i: nat) | Return(i: nat) | GetKey(fAllowReuse: bool) | Oldest
    | Lock | Unlock

  ghost predicate LoansOf(w: Wallet, loans: seq<CReserveKey>) {
    && (forall i :: 0 <= i < |loans| ==> loans[i].pwallet == w)
    && (forall i, j :: 0 <= i < j < |loans| ==> loans[i] != loans[j])
  }

  ghost predicate AllValid(w: Wallet, loans: seq<CReserveKey>)
    reads w, loans
  {
    w.Now().Sound() && forall i :: 0 <= i < |loans| ==> loans[i].pwallet == w && loans[i].Valid()
  }

  /** Whether the call tops the pool up. */
  ghost predicate Reserves(loans: seq<CReserveKey>, op: Op)
    reads loans
  {
    match op
    case GetReserved(i) => i < |loans| && loans[i].nIndex == -1
    case _ => op.TopUp? || op.GetKey? || op.Oldest?
  }

  /** No index is issued a second time by this call. */
  ghost predicate IssuesNewOnly(w: Wallet, loans: seq<CReserveKey>, op: Op)
    reads w, loans
  {
    Reserves(loans, op) ==> w.CanReserve()
  }

  /** Whether the wallet is locked after a call. */
  predicate LockedAfter(locked: bool, op: Op) {
    op.Lock? || (locked && !op.Unlock?)
  }

  /** A call on the wallet itself. */
  method OnWallet(w: Wallet, loans: seq<CReserveKey>, op: Op)
    requires LoansOf(w, loans) && (op.TopUp? || op.GetKey? || op.Oldest? || op.Lock? || op.Unlock?)
    modifies w
    ensures w.locked == LockedAfter(old(w.locked), op) && w.Now().Repeats() >= old(w.Now().Repeats())
    ensures old(w.Now().Sound() && !IssuesNewOnly(w, loans, op)) ==> w.Now().Repeats() > 0
    ensures old(AllValid(w, loans) && IssuesNewOnly(w, loans, op)) ==>
              AllValid(w, loans) && old(w.kept) <= w.kept && old(w.issued) <= w.issued
    ensures old(w.Now().Steady() && !w.locked) && w.nTarget > 0 && !op.Lock? ==> w.Now().Steady()
  {
    hide State.Sound;
    hide State.AddedBy;
    hide NewestInPool;
    hide ToppedBy;
    hide IsLeast;
    hide State.Steady;
    hide State.Repeats;
    hide Wallet.CanReserve;
    hide Wallet.ToppedUp;
    match op {
      case TopUp =>
        var _ := w.TopUpKeyPool();
      case GetKey(fAllowReuse) =>
        var _, _ := w.GetKeyFromPool(fAllowReuse);
      case Oldest =>
        var _ := w.GetOldestKeyPoolTime();
      case Lock =>
        w.Lock();
      case Unlock =>
        w.Unlock();
    }
  }

  /** A call on one of the loans. */
  method OnLoan(w: Wallet, loans: seq<CReserveKey>, i: nat, op: Op)
    requires LoansOf(w, loans) && i < |loans| && (op == GetReserved(i) || op == Keep(i) || op == Return(i))
    modifies w, loans[i]
    ensures op.GetReserved? && old(loans[i].nIndex) != -1 ==> w.Now() == old(w.Now())
    ensures w.Now().Repeats() >= old(w.Now().Repeats()) && w.locked == old(w.locked)
    ensures old(w.Now().Sound() && !IssuesNewOnly(w, loans, op)) ==> w.Now().Repeats() > 0
    ensures old(AllValid(w, loans) && IssuesNewOnly(w, loans, op)) ==>
              AllValid(w, loans) && old(w.kept) <= w.kept && old(w.issued) <= w.issued
    ensures old(AllValid(w, loans) && w.Now().Steady() && !w.locked) && w.nTarget > 0 ==> w.Now().Steady()
  {
    hide State.Sound;
    hide State.AddedBy;
    hide NewestInPool;
    hide ToppedBy;
    hide IsLeast;
    hide Wanting;
    SteadyIs(w.Now());
    match op {
      case GetReserved(_) =>
        var _ := loans[i].GetReservedKey();
      case Keep(_) =>
        loans[i].KeepKey();
      case Return(_) =>
        loans[i].ReturnKey();
    }
  }

  /** One call on the wallet, or on one of the loans. */
  method Step(w: Wallet, loans: seq<CReserveKey>, op: Op) returns (loans': seq<CReserveKey>)
    requires LoansOf(w, loans)
    modifies w, loans
    ensures op.GetReserved? && !old(Reserves(loans, op)) ==> w.Now() == old(w.Now())
    ensures LoansOf(w, loans') && (loans' == loans || (exists l :: loans' == loans + [l] && fresh(l)))
    ensures w.locked == LockedAfter(old(w.locked), op) && w.Now().Repeats() >= old(w.Now().Repeats())
    ensures old(w.Now().Sound() && !IssuesNewOnly(w, loans, op)) ==> w.Now().Repeats() > 0
    ensures old(AllValid(w, loans) && IssuesNewOnly(w, loans, op)) ==>
              AllValid(w, loans') && old(w.kept) <= w.kept && old(w.issued) <= w.issued
    ensures old(AllValid(w, loans) && w.Now().Steady() && !w.locked) && w.nTarget > 0 && !op.Lock? ==>
              w.Now().Steady()
  {
    hide State.Sound;
    hide NewestInPool;
    hide ToppedBy;
    loans' := loans;
    match op {
      case Loan =>
        var l := new CReserveKey(w);
        loans' := loans + [l];
      case GetReserved(i) =>
        if i < |loans| {
          OnLoan(w, loans, i, op);
        }
      case Keep(i) =>
        if i < |loans| {
          OnLoan(w, loans, i, op);
        }
      case Return(i) =>
        if i < |loans| {
          OnLoan(w, loans, i, op);
        }
      case _ =>
        OnWallet(w, loans, op);
    }
  }

  /** One call of a run: whether it tops the pool up, whether the wallet was locked, and the pool before and after. */
  datatype Call = Call(tops: bool, locked: bool, before: State, after: State)
  {
    /** The call wants more keys, and the newest index is not in the pool. */
    ghost predicate IssuesAgain(nTarget: nat) {
      tops && !locked && Wanting(before.pool, nTarget) > 0 && !NewestInPool(before.pool, before.issued)
    }
  }

  ghost predicate AnyIssuesAgain(calls: seq<Call>, nTarget: nat) {
    exists k :: 0 <= k < |calls| && calls[k].IssuesAgain(nTarget)
  }

  /** What is kept stays kept, and is never in the pool or on loan again. */
  ghost predicate KeptForGood(calls: seq<Call>) {
    forall a, b :: 0 <= a <= b < |calls| ==>
      && calls[a].after.kept <= calls[b].after.kept && calls[a].after.issued <= calls[b].after.issued
      && calls[a].after.kept !! calls[b].after.pool + calls[b].after.held
  }

  lemma KeptForGoodGrows(calls: seq<Call>, c: Call)
    requires KeptForGood(calls) && c.after.Sound()
    requires |calls| > 0 ==>
               var last := calls[|calls| - 1].after;
               last.kept <= c.after.kept && last.issued <= c.after.issued
    ensures KeptForGood(calls + [c])
  {
    hide State.Numbered;
    hide State.Recorded;
    var all := calls + [c];
    forall a, b | 0 <= a <= b < |all|
      ensures all[a].after.kept <= all[b].after.kept && all[a].after.issued <= all[b].after.issued
      ensures all[a].after.kept !! all[b].after.pool + all[b].after.held
    {
      if b == |calls| && a < b {
        assert calls[a].after.kept <= calls[|calls| - 1].after.kept;
        assert calls[a].after.issued <= calls[|calls| - 1].after.issued;
      }
    }
  }

  lemma OneMoreCall(calls: seq<Call>, c: Call, nTarget: nat)
    ensures AnyIssuesAgain(calls + [c], nTarget) <==> AnyIssuesAgain(calls, nTarget) || c.IssuesAgain(nTarget)
  {
    var all := calls + [c];
    assert all[|calls|] == c;
    if k :| 0 <= k < |calls| && calls[k].IssuesAgain(nTarget) {
      assert all[k].IssuesAgain(nTarget);
    }
  }

  /** In every run an index is issued a second time exactly when some call tops the pool up while the newest index is
      not in it. As long as none does, the state is sound, the loans are apart, and what is kept never comes back.
      None does if the target is not zero and the wallet is never locked. */
  method Run(fFileBacked: bool, nTarget: nat, ops: seq<Op>)
    returns (w: Wallet, loans: seq<CReserveKey>, ghost calls: seq<Call>)
    ensures LoansOf(w, loans) && |calls| == |ops|
    ensures forall k :: 0 <= k < |ops| - 1 ==> calls[k + 1].before == calls[k].after
    ensures |ops| > 0 ==>
              calls[0].before.issued == {} && !calls[0].locked && w.Now() == calls[|ops| - 1].after
    ensures forall k :: 0 <= k < |ops| - 1 ==> calls[k + 1].locked == LockedAfter(calls[k].locked, ops[k])
    ensures forall k :: 0 <= k < |ops| ==>
              if ops[k].GetReserved? then calls[k].tops || calls[k].before == calls[k].after
              else calls[k].tops == (ops[k].TopUp? || ops[k].GetKey? || ops[k].Oldest?)
    ensures w.Now().Repeats() > 0 <==> AnyIssuesAgain(calls, nTarget)
    ensures !AnyIssuesAgain(calls, nTarget) ==> AllValid(w, loans) && KeptForGood(calls)
    ensures nTarget > 0 && Lock !in ops ==> w.Now().Steady() && !AnyIssuesAgain(calls, nTarget)
  {
    hide State.Sound;
    hide State.Steady;
    hide State.Repeats;
    hide NewestInPool;
    hide AnyIssuesAgain;
    hide KeptForGood;
    w := new Wallet(fFileBacked, nTarget);
    SteadyIs(w.Now());
    loans, calls := [], [];
    NoCalls(nTarget);
    for k := 0 to |ops|
      invariant fresh(w) && fresh(loans) && w.nTarget == nTarget && LoansOf(w, loans) && |calls| == k
      invariant forall j :: 0 <= j < k - 1 ==> calls[j + 1].before == calls[j].after
      invariant if k == 0 then w.Now().issued == {} && !w.locked
                else calls[0].before.issued == {} && !calls[0].locked && w.Now() == calls[k - 1].after
                     && w.locked == LockedAfter(calls[k - 1].locked, ops[k - 1])
      invariant forall j :: 0 <= j < k - 1 ==> calls[j + 1].locked == LockedAfter(calls[j].locked, ops[j])
      invariant forall j :: 0 <= j < k ==>
                  if ops[j].GetReserved? then calls[j].tops || calls[j].before == calls[j].after
                  else calls[j].tops == (ops[j].TopUp? || ops[j].GetKey? || ops[j].Oldest?)
      invariant AnyIssuesAgain(calls, nTarget) ==> w.Now().Repeats() > 0
      invariant !AnyIssuesAgain(calls, nTarget) ==> AllValid(w, loans) && KeptForGood(calls)
      invariant nTarget > 0 && Lock !in ops[..k] ==>
                  w.Now().Steady() && !w.locked && !AnyIssuesAgain(calls, nTarget)
    {
      ghost var tops := Reserves(loans, ops[k]);
      ghost var locked := w.locked;
      ghost var before := w.Now();
      SteadyIs(before);
      loans := Step(w, loans, ops[k]);
      ghost var c := Call(tops, locked, before, w.Now());
      OneMoreCall(calls, c, nTarget);
      if !AnyIssuesAgain(calls + [c], nTarget) {
        KeptForGoodGrows(calls, c);
      }
      calls := calls + [c];
    }
    SteadyIs(w.Now());
    assert ops[..|ops|] == ops;
  }

  lemma NoCalls(nTarget: nat)
    ensures !AnyIssuesAgain([], nTarget) && KeptForGood([])
  {
  }
}
