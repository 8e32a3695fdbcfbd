/** The pool of keys made ahead of time: taking keys out, keeping them, giving them back. */
module KeyPool {
  import opened Common

  /** A public key, named by the number of keys generated before it. */
  type Key = nat

  // ---------------------------------------------------------------- the indices

  lemma {:induction false} LargestExists(s: set<int>) returns (m: int)
    requires s != {}
    ensures m in s && forall i :: i in s ==> i <= m
    decreases |s|
  {
    m := Pick(s);
    var rest := s - {m};
    assert forall i :: i in s ==> i == m || i in rest;
    if rest != {} {
      var m' := LargestExists(rest);
      m := if m < m' then m' else m;
    }
  }

  ghost predicate IsLargest(s: set<int>, m: int) {
    m in s && forall i :: i in s ==> i <= m
  }

  lemma MaxExists(s: set<int>)
    requires s != {}
    ensures exists m :: IsLargest(s, m)
  {
    var m := LargestExists(s);
    assert IsLargest(s, m);
  }

  ghost function Largest(s: set<int>): (m: int)
    requires s != {}
    ensures IsLargest(s, m)
  {
    MaxExists(s);
    var m :| IsLargest(s, m);
    m
  }

  lemma MaxStays(s: set<int>, first: int)
    requires first in s && |s| > 1 && forall i :: i in s ==> first <= i
    ensures s - {first} != {} && Largest(s - {first}) == Largest(s)
  {
    var rest := s - {first};
    assert |rest| == |s| - 1;
    var other := Pick(rest);
    assert other in s && first < other;
    assert IsLargest(rest, Largest(s));
  }

  ghost predicate IsLeast(s: set<int>, m: int) {
    m in s && forall i :: i in s ==> m <= i
  }

  /** The index the next key gets. */
  ghost function Next(s: set<int>): int {
    if s == {} then 1 else Largest(s) + 1
  }

  lemma NextIsFresh(s: set<int>)
    ensures Next(s) !in s
    ensures Next(s) == if s == {} then 1 else Largest(s) + 1
  {
  }

  /** n more indices. */
  ghost function ToppedBy(s: set<int>, n: nat): set<int>
    decreases n
  {
    if n == 0 then s else ToppedBy(s + {Next(s)}, n - 1)
  }

  ghost function Wanting(s: set<int>, target: nat): nat {
    if |s| < target + 1 then target + 1 - |s| else 0
  }

  lemma {:induction false} ToppedByGrows(s: set<int>, n: nat)
    ensures s <= ToppedBy(s, n) && |ToppedBy(s, n)| == |s| + n
    ensures forall i :: i in ToppedBy(s, n) - s ==> i >= Next(s)
    ensures n > 0 ==> Next(s) in ToppedBy(s, n) - s
    decreases n
  {
    if n > 0 {
      var t := s + {Next(s)};
      assert Next(s) !in s;
      ToppedByGrows(t, n - 1);
      assert Next(t) > Next(s);
      assert forall i :: i in ToppedBy(s, n) - s ==> i in ToppedBy(t, n - 1) - t || i == Next(s);
    }
  }

  lemma ToppedBySize(s: set<int>, n: nat)
    ensures |ToppedBy(s, n)| == |s| + n
  {
    ToppedByGrows(s, n);
  }

  lemma {:induction false} ToppedByOneMore(s: set<int>, n: nat)
    ensures ToppedBy(s, n + 1) == ToppedBy(s, n) + {Next(ToppedBy(s, n))}
    decreases n
  {
    if n > 0 {
      ToppedByOneMore(s + {Next(s)}, n - 1);
    }
  }

  /** The indices added are the n that follow the largest. */
  lemma {:induction false} ToppedByRange(s: set<int>, n: nat)
    ensures forall i :: i in ToppedBy(s, n) - s <==> Next(s) <= i < Next(s) + n
    decreases n
  {
    if n > 0 {
      var t := s + {Next(s)};
      assert Next(s) !in s;
      assert IsLargest(t, Next(s)) && Next(t) == Next(s) + 1;
      ToppedByRange(t, n - 1);
      ToppedByGrows(t, n - 1);
      forall i
        ensures i in ToppedBy(s, n) - s <==> Next(s) <= i < Next(s) + n
      {
        assert i in ToppedBy(t, n - 1) - t <==> Next(t) <= i < Next(t) + n - 1;
      }
    }
  }

  /** The indices 1 up to some number. */
  ghost predicate InitialSegment(issued: set<int>) {
    forall i :: i in issued <==> 1 <= i <= |issued|
  }

  /** The newest index issued is still in the pool. */
  ghost predicate NewestInPool(pool: set<int>, issued: set<int>) {
    issued != {} ==> pool != {} && forall i :: i in issued ==> i <= Largest(pool)
  }

  lemma NextIsNew(pool: set<int>, issued: set<int>)
    requires InitialSegment(issued) && pool <= issued
    ensures NewestInPool(pool, issued) ==> Next(pool) == |issued| + 1
    ensures !NewestInPool(pool, issued) ==> 1 <= Next(pool) <= |issued|
  {
    if issued != {} {
      var i := Pick(issued);
      assert 1 in issued && |issued| in issued;
      if pool != {} {
        assert Largest(pool) in issued;
      }
    }
  }

  /** Topping up issues an index a second time exactly when the newest index issued is no longer in the pool:
      the pool has been emptied, or emptied and then refilled by older keys given back. */
  lemma ReissuedExactlyWhenNewestIsGone(pool: set<int>, issued: set<int>, n: nat)
    requires n > 0 && InitialSegment(issued) && pool <= issued
    ensures (ToppedBy(pool, n) - pool) * issued != {} <==> !NewestInPool(pool, issued)
  {
    ToppedByRange(pool, n);
    NextIsNew(pool, issued);
    var again := (ToppedBy(pool, n) - pool) * issued;
    if again != {} {
      var i := Pick(again);
      assert i in ToppedBy(pool, n) - pool && Next(pool) <= i <= |issued|;
    }
    if !NewestInPool(pool, issued) {
      var i := Next(pool);
      assert i in ToppedBy(pool, n) - pool && i in issued;
      assert i in again;
    }
  }

  /** Taking the oldest key empties the pool exactly when the target is zero and it held at most one key. */
  lemma DrainedExactlyWhenTargetIsZero(pool: set<int>, target: nat, i: int)
    requires i in ToppedBy(pool, Wanting(pool, target))
    ensures ToppedBy(pool, Wanting(pool, target)) - {i} == {} <==> target == 0 && |pool| <= 1
  {
    var t := ToppedBy(pool, Wanting(pool, target));
    ToppedByGrows(pool, Wanting(pool, target));
    assert |t - {i}| == |t| - 1;
    if |t| == 1 {
      assert t - {i} == {};
    }
  }

  // ---------------------------------------------------------------- what holds of a pool

  /** The pool, the indices reserved and kept, all indices issued in order and as a set, the stored records, how
      many keys were generated and which were kept. */
  datatype State = State(pool: set<int>, held: set<int>, kept: set<int>, history: seq<int>, issued: set<int>,
                         records: map<int, Key>, generated: nat, keptKeys: set<Key>, fFileBacked: bool)
  {
    /** How many of the indices issued had been issued before. */
    ghost function Repeats(): int {
      |history| - |issued|
    }

    /** The indices were issued one after the other from 1, none twice. */
    ghost predicate Numbered() {
      InitialSegment(issued) && Repeats() == 0 && forall k :: 0 <= k < |history| ==> history[k] == k + 1
    }

    /** Every index issued is in the pool, reserved or kept, and only one of these. */
    ghost predicate Apart() {
      pool !! held && pool !! kept && held !! kept && issued == pool + held + kept
    }

    /** What is not kept has its record, of a key of its own. */
    ghost predicate Recorded() {
      && (forall i :: i in pool + held ==> i >= 1 && i in records && records[i] < generated && records[i] !in keptKeys)
      && (forall i, j :: i in pool + held && j in pool + held && i != j ==> records[i] != records[j])
      && (forall k :: k in keptKeys ==> k < generated)
      && (fFileBacked ==> kept !! records.Keys)
    }

    ghost predicate Sound() {
      Numbered() && Apart() && Recorded()
    }

    ghost predicate Steady() {
      Sound() && NewestInPool(pool, issued)
    }

    ghost function Added(): State {
      var i := Next(pool);
      this.(pool := pool + {i}, issued := issued + {i}, history := history + [i],
            records := records[i := generated], generated := generated + 1)
    }

    ghost function AddedBy(n: nat): State {
      if n == 0 then this else AddedBy(n - 1).Added()
    }

    ghost function Taken(i: int): State {
      this.(pool := pool - {i}, held := held + {i})
    }

    ghost function Kept(i: int): State {
      this.(records := if fFileBacked then records - {i} else records, held := held - {i}, kept := kept + {i},
            keptKeys := keptKeys + if i in records then {records[i]} else {})
    }

    ghost function Returned(i: int): State {
      this.(pool := pool + {i}, held := held - {i})
    }
  }

  ghost predicate SameRecords(indices: set<int>, before: map<int, Key>, after: map<int, Key>) {
    forall i :: i in indices ==> i in before && i in after && before[i] == after[i]
  }

  /** Adding a key keeps what is sound while the newest index is in the pool; otherwise it repeats an index. */
  lemma AddedKeeps(s: State)
    ensures s.Added().Repeats() >= s.Repeats()
    ensures s.Steady() ==>
              && s.Added().Steady() && Next(s.pool) !in s.issued
              && SameRecords(s.held, s.records, s.Added().records)
    ensures s.Sound() && !s.Steady() ==> s.Added().Repeats() > 0
  {
    hide State.Recorded;
    hide Largest;
    var i := Next(s.pool);
    if i in s.issued {
      assert s.issued + {i} == s.issued;
    }
    if s.Sound() {
      NextIsNew(s.pool, s.issued);
      if s.Steady() {
        AddedIsNumbered(s);
        AddedIsRecorded(s);
      }
    }
  }

  lemma AddedIsNumbered(s: State)
    requires s.Numbered() && s.Apart() && NewestInPool(s.pool, s.issued)
    ensures s.Added().Numbered() && s.Added().Apart() && NewestInPool(s.Added().pool, s.Added().issued)
  {
    hide Largest;
    NextIsNew(s.pool, s.issued);
    var i := Next(s.pool);
    assert i !in s.issued && |s.issued + {i}| == |s.issued| + 1;
    assert IsLargest(s.pool + {i}, i) && Largest(s.pool + {i}) == i;
  }

  lemma AddedIsRecorded(s: State)
    requires s.Apart() && s.Recorded() && Next(s.pool) !in s.issued && Next(s.pool) >= 1
    ensures s.Added().Recorded() && SameRecords(s.held, s.records, s.Added().records)
  {
  }

  lemma {:induction false} AddedByShape(s: State, n: nat)
    ensures var t := s.AddedBy(n);
            && t.pool == ToppedBy(s.pool, n) && s.pool <= t.pool && |t.pool| == |s.pool| + n
            && t.held == s.held && t.kept == s.kept && t.keptKeys == s.keptKeys && t.fFileBacked == s.fFileBacked
  {
    hide Next;
    hide Largest;
    if n > 0 {
      AddedByShape(s, n - 1);
      ToppedByOneMore(s.pool, n - 1);
    }
    ToppedByGrows(s.pool, n);
  }

  lemma {:induction false} AddedByIssues(s: State, n: nat)
    ensures s.AddedBy(n).issued == s.issued + (s.AddedBy(n).pool - s.pool)
  {
    hide Next;
    hide Largest;
    if n > 0 {
      var t := s.AddedBy(n - 1);
      AddedByIssues(s, n - 1);
      AddedByShape(s, n - 1);
      NextIsFresh(t.pool);
      AddedToBoth(s.pool, t.pool, s.issued, t.issued, Next(t.pool));
    }
  }

  lemma AddedToBoth(pool: set<int>, s: set<int>, issued: set<int>, issued': set<int>, i: int)
    requires pool <= s && issued' == issued + (s - pool) && i !in s
    ensures issued' + {i} == issued + (s + {i} - pool)
  {
  }

  /** While the newest index is in the pool, keys can be added and none gets an index issued before. */
  lemma {:induction false} AddedByKeeps(s: State, n: nat)
    requires s.Steady()
    ensures s.AddedBy(n).Steady() && SameRecords(s.held, s.records, s.AddedBy(n).records)
  {
    hide State.Sound;
    hide NewestInPool;
    hide ToppedBy;
    hide Next;
    hide Largest;
    HeldHaveRecords(s);
    if n > 0 {
      var t := s.AddedBy(n - 1);
      AddedByKeeps(s, n - 1);
      AddedKeeps(t);
      AddedByShape(s, n - 1);
    }
  }

  lemma {:induction false} AddedByRepeats(s: State, n: nat)
    ensures s.AddedBy(n).Repeats() >= s.Repeats()
    ensures s.Sound() && !s.Steady() && n > 0 ==> s.AddedBy(n).Repeats() > 0
  {
    hide State.Sound;
    hide NewestInPool;
    hide Next;
    hide Largest;
    if n > 0 {
      AddedByRepeats(s, n - 1);
      AddedKeeps(s.AddedBy(n - 1));
    }
  }

  lemma NothingAdded(s: State)
    ensures ToppedBy(s.pool, 0) == s.pool
  {
  }

  lemma AddedByIsNew(s: State, n: nat)
    requires s.Steady()
    ensures ToppedBy(s.pool, n) - s.pool !! s.issued
  {
    if n == 0 {
      NothingAdded(s);
    } else {
      ReissuedExactlyWhenNewestIsGone(s.pool, s.issued, n);
    }
  }

  lemma ToppedUpKeeps(s: State, n: nat)
    ensures var t := s.AddedBy(n);
            && t.pool == ToppedBy(s.pool, n) && t.held == s.held && t.kept == s.kept && t.keptKeys == s.keptKeys
            && t.issued == s.issued + (t.pool - s.pool) && t.Repeats() >= s.Repeats()
    ensures s.Steady() ==> s.AddedBy(n).Steady()
    ensures s.Sound() && (n == 0 || NewestInPool(s.pool, s.issued)) ==>
              && s.AddedBy(n).Sound() && SameRecords(s.held, s.records, s.AddedBy(n).records)
              && s.AddedBy(n).pool - s.pool !! s.issued
    ensures s.Sound() && n > 0 && !NewestInPool(s.pool, s.issued) ==> s.AddedBy(n).Repeats() > 0
  {
    hide State.Sound;
    hide NewestInPool;
    hide ToppedBy;
    hide State.Added;
    AddedByShape(s, n);
    AddedByIssues(s, n);
    AddedByRepeats(s, n);
    HeldHaveRecords(s);
    NothingAdded(s);
    if s.Steady() {
      AddedByKeeps(s, n);
      AddedByIsNew(s, n);
    }
  }

  lemma SteadyIs(s: State)
    ensures s.Steady() <==> s.Sound() && NewestInPool(s.pool, s.issued)
    ensures s.Sound() ==> s.Repeats() == 0 && SameRecords(s.held, s.records, s.records)
  {
  }

  lemma HeldHaveRecords(s: State)
    ensures s.Sound() ==> s.Repeats() == 0 && s.pool !! s.held && SameRecords(s.held, s.records, s.records)
  {
  }

  lemma TakenKeeps(s: State, first: int)
    requires s.Sound() && IsLeast(s.pool, first)
    ensures s.Taken(first).Sound()
    ensures first >= 1 && first !in s.held && first in s.records && s.records[first] !in s.keptKeys
    ensures |s.pool| > 1 && s.Steady() ==> s.Taken(first).Steady()
  {
    assert s.pool - {first} + (s.held + {first}) == s.pool + s.held;
    if |s.pool| > 1 {
      MaxStays(s.pool, first);
    }
  }

  lemma KeptKeeps(s: State, i: int)
    requires s.Sound() && i in s.held
    ensures s.Kept(i).Sound() && (s.Steady() ==> s.Kept(i).Steady())
  {
    hide State.Recorded;
    KeptIsRecorded(s, i);
    assert s.held - {i} + (s.kept + {i}) == s.held + s.kept;
  }

  lemma KeptIsRecorded(s: State, i: int)
    requires s.Apart() && s.Recorded() && i in s.held
    ensures s.Kept(i).Recorded()
  {
    assert i in s.pool + s.held;
    assert forall j :: j in s.pool + (s.held - {i}) ==> j in s.pool + s.held && j != i;
  }

  lemma ReturnedKeeps(s: State, i: int)
    requires s.Sound() && i in s.held
    ensures s.Returned(i).Sound() && (s.Steady() ==> s.Returned(i).Steady())
  {
    assert s.pool + {i} + (s.held - {i}) == s.pool + s.held;
    if s.pool != {} && s.Steady() {
      assert IsLargest(s.pool + {i}, Largest(s.pool));
    }
  }

  // ---------------------------------------------------------------- the wallet

  class Wallet {
    const fFileBacked: bool
    const nTarget: nat
    var setKeyPool: set<int>
    var records: map<int, Key>
    var generated: nat
    var locked: bool
    var vchDefaultKey: Option<Key>
    /** The indices ever issued, in order and as a set, those reserved and by whom, those kept, and the keys kept. */
    ghost var history: seq<int>
    ghost var issued: set<int>
    ghost var held: map<int, CReserveKey?>
    ghost var kept: set<int>
    ghost var keptKeys: set<Key>

    ghost function Now(): State
      reads this
    {
      State(setKeyPool, held.Keys, kept, history, issued, records, generated, keptKeys, fFileBacked)
    }

    /** The next top-up adds nothing, or nothing that was issued before. */
    ghost predicate CanReserve()
      reads this
    {
      locked || Wanting(setKeyPool, nTarget) == 0 || NewestInPool(setKeyPool, issued)
    }

    /** The pool after a top-up. */
    ghost function ToppedUp(): set<int>
      reads this
    {
      if locked then setKeyPool else ToppedBy(setKeyPool, Wanting(setKeyPool, nTarget))
    }

    constructor (fFileBacked: bool, nTarget: nat)
      ensures Now() == State({}, {}, {}, [], {}, map[], 0, {}, fFileBacked) && Now().Steady()
      ensures this.fFileBacked == fFileBacked && this.nTarget == nTarget && held == map[] && !locked
    {
      this.fFileBacked, this.nTarget := fFileBacked, nTarget;
      setKeyPool, records, generated, locked, vchDefaultKey := {}, map[], 0, false, None;
      history, issued, held, kept, keptKeys := [], {}, map[], {}, {};
    }

    method Lock()
      modifies `locked
      ensures locked
    {
      locked := true;
    }

    method Unlock()
      modifies `locked
      ensures !locked
    {
      locked := false;
    }

    method GenerateNewKey() returns (k: Key)
      modifies `generated
      ensures k == old(generated) && generated == old(generated) + 1
    {
      k := generated;
      generated := generated + 1;
    }

    method Last(s: set<int>) returns (m: int)
      requires s != {}
      ensures m == Largest(s)
    {
      ghost var top := Largest(s);
      m :| m in s && forall i :: i in s ==> i <= m;
    }

    /** Reserved keys stay with their holders, and their records are left alone. */
    twostate predicate LoansKept()
      reads this
    {
      && (forall i :: i in old(held) ==> i in held && held[i] == old(held[i]))
      && SameRecords(old(held).Keys, old(records), records)
    }

    /** A locked wallet is left alone; otherwise the pool gets the indices it wants, each with a new key. What is
        sound stays sound exactly when no index is issued a second time. */
    method TopUpKeyPool() returns (ok: bool)
      modifies `setKeyPool, `records, `generated, `issued, `history
      ensures ok == !locked
      ensures Now() == old(if locked then Now() else Now().AddedBy(Wanting(setKeyPool, nTarget)))
      ensures setKeyPool == old(ToppedUp()) && issued == old(issued) + (setKeyPool - old(setKeyPool))
      ensures Now().Repeats() >= old(Now().Repeats())
      ensures old(Now().Steady()) ==> Now().Steady()
      ensures old(Now().Sound() && CanReserve()) ==>
                Now().Sound() && LoansKept() && setKeyPool - old(setKeyPool) !! old(issued)
      ensures old(Now().Sound() && !CanReserve()) ==> Now().Repeats() > 0
    {
      hide State.Sound;
      hide NewestInPool;
      hide ToppedBy;
      hide State.Added;
      ghost var n := 0;
      ghost var before := Now();
      if locked {
        ToppedUpKeeps(before, 0);
        return false;
      }
      ToppedUpKeeps(before, Wanting(setKeyPool, nTarget));
      while |setKeyPool| < nTarget + 1
        invariant Now() == before.AddedBy(n) && |setKeyPool| == |before.pool| + n && n <= Wanting(before.pool, nTarget)
        decreases nTarget + 1 - |setKeyPool|
      {
        AddOne();
        n := n + 1;
      }
      return true;
    }

    method AddOne()
      modifies `setKeyPool, `records, `generated, `issued, `history
      ensures Now() == old(Now()).Added() && |setKeyPool| == old(|setKeyPool|) + 1
    {
      hide Largest;
      NextIsFresh(setKeyPool);
      var nEnd := 1;
      if setKeyPool != {} {
        var last := Last(setKeyPool);
        nEnd := last + 1;
      }
      var key := GenerateNewKey();
      records := records[nEnd := key];
      setKeyPool := setKeyPool + {nEnd};
      issued, history := issued + {nEnd}, history + [nEnd];
    }

    /** The oldest index leaves the pool for its holder. */
    method TakeFirst(ghost holder: CReserveKey?) returns (nIndex: int, key: Option<Key>)
      requires setKeyPool != {}
      modifies `setKeyPool, `held
      ensures IsLeast(old(setKeyPool), nIndex) && Now() == old(Now()).Taken(nIndex)
      ensures setKeyPool == old(setKeyPool) - {nIndex} && held == old(held)[nIndex := holder]
      ensures key == if nIndex in records then Some(records[nIndex]) else None
      ensures old(Now().Sound()) ==>
                Now().Sound() && nIndex >= 1 && nIndex !in old(held) && key.Some? && key.value !in keptKeys
      ensures old(Now().Steady()) && old(|setKeyPool|) > 1 ==> Now().Steady()
    {
      hide State.Sound;
      hide NewestInPool;
      nIndex := First(setKeyPool);
      if Now().Sound() {
        TakenKeeps(Now(), nIndex);
      }
      setKeyPool := setKeyPool - {nIndex};
      assert held[nIndex := holder].Keys == held.Keys + {nIndex};
      held := held[nIndex := holder];
      key := if nIndex in records then Some(records[nIndex]) else None;
    }

    /** Tops the pool up and takes the oldest key out for its new holder; -1 when there is none. The stored record
        cannot be missing while the wallet is sound, and it stays sound exactly when the top-up issues no index a
        second time. */
    method ReserveKeyFromKeyPool(ghost holder: CReserveKey?) returns (nIndex: int, key: Option<Key>)
      modifies `setKeyPool, `records, `generated, `issued, `history, `held
      ensures old(ToppedUp()) == {} <==> old(locked && setKeyPool == {})
      ensures old(ToppedUp()) == {} ==> nIndex == -1 && key.None? && Now() == old(Now()) && held == old(held)
      ensures old(ToppedUp()) != {} ==>
                && IsLeast(old(ToppedUp()), nIndex) && setKeyPool == old(ToppedUp()) - {nIndex}
                && held == old(held)[nIndex := holder]
                && key == if nIndex in records then Some(records[nIndex]) else None
      ensures issued == old(issued) + (old(ToppedUp()) - old(setKeyPool))
      ensures Now().Repeats() >= old(Now().Repeats())
      ensures old(Now().Sound() && !CanReserve()) ==> Now().Repeats() > 0
      ensures old(Now().Sound() && CanReserve()) ==>
                && Now().Sound() && LoansKept()
                && (nIndex != -1 ==> nIndex >= 1 && nIndex !in old(held) && key.Some? && key.value !in keptKeys)
      ensures old(Now().Sound() && CanReserve() && ToppedUp() != {}) ==> nIndex != -1
      ensures old(Now().Steady()) && ((!locked && nTarget > 0) || old(|setKeyPool|) > 1) ==> Now().Steady()
    {
      hide State.Sound;
      hide NewestInPool;
      hide ToppedBy;
      hide IsLeast;
      hide State.Steady;
      hide State.Taken;
      hide State.AddedBy;
      SteadyIs(Now());
      ToppedBySize(setKeyPool, Wanting(setKeyPool, nTarget));
      if !locked {
        var _ := TopUpKeyPool();
      }
      if setKeyPool == {} {
        return -1, None;
      }
      nIndex, key := TakeFirst(holder);
    }

    /** The index is used up: it leaves the pool for good, and its record is erased. */
    method KeepKey(nIndex: int)
      modifies `records, `held, `kept, `keptKeys
      ensures Now() == old(Now()).Kept(nIndex) && held == old(held) - {nIndex}
      ensures nIndex in old(held) ==>
                (old(Now().Sound()) ==> Now().Sound()) && (old(Now().Steady()) ==> Now().Steady())
    {
      hide State.Sound;
      if Now().Sound() && nIndex in held {
        KeptKeeps(Now(), nIndex);
      }
      assert (held - {nIndex}).Keys == held.Keys - {nIndex};
      if nIndex in records {
        keptKeys := keptKeys + {records[nIndex]};
      }
      if fFileBacked {
        records := records - {nIndex};
      }
      held, kept := held - {nIndex}, kept + {nIndex};
    }

    /** The index goes back to the pool. */
    method ReturnKey(nIndex: int)
      modifies `setKeyPool, `held
      ensures Now() == old(Now()).Returned(nIndex) && held == old(held) - {nIndex}
      ensures nIndex in old(held) ==>
                (old(Now().Sound()) ==> Now().Sound()) && (old(Now().Steady()) ==> Now().Steady())
    {
      hide State.Sound;
      if Now().Sound() && nIndex in held {
        ReturnedKeeps(Now(), nIndex);
      }
      assert (held - {nIndex}).Keys == held.Keys - {nIndex};
      setKeyPool := setKeyPool + {nIndex};
      held := held - {nIndex};
    }

    /** A key for immediate use: it was never kept before, and is kept from now on. */
    method GetKeyFromPool(fAllowReuse: bool) returns (ok: bool, key: Option<Key>)
      modifies this
      ensures locked == old(locked) && old(kept) <= kept && old(issued) <= issued
      ensures Now().Repeats() >= old(Now().Repeats())
      ensures old(Now().Sound() && !CanReserve()) ==> Now().Repeats() > 0
      ensures old(Now().Sound() && CanReserve()) ==> Now().Sound() && LoansKept()
      ensures old(Now().Sound() && CanReserve() && ToppedUp() != {}) ==>
                ok && key.Some? && key.value !in old(keptKeys) && key.value in keptKeys
      ensures old(Now().Sound() && CanReserve() && ToppedUp() == {}) ==>
                ok == (fAllowReuse && vchDefaultKey.Some?) && (ok ==> key == vchDefaultKey)
      ensures old(Now().Steady()) && ((!locked && nTarget > 0) || old(|setKeyPool|) > 1) ==> Now().Steady()
    {
      hide State.Sound;
      hide NewestInPool;
      hide ToppedBy;
      HeldHaveRecords(Now());
      var nIndex;
      nIndex, key := ReserveKeyFromKeyPool(null);
      if nIndex == -1 {
        if fAllowReuse && vchDefaultKey.Some? {
          return true, vchDefaultKey;
        }
        if locked {
          return false, None;
        }
        var newKey := GenerateNewKey();
        return true, Some(newKey);
      }
      KeepKey(nIndex);
      return true, key;
    }

    /** Looks at the oldest key: it goes back at once. */
    method GetOldestKeyPoolTime() returns (nIndex: int)
      modifies this
      ensures locked == old(locked) && kept == old(kept) && old(issued) <= issued
      ensures Now().Repeats() >= old(Now().Repeats())
      ensures old(Now().Sound() && !CanReserve()) ==> Now().Repeats() > 0
      ensures old(Now().Sound() && CanReserve()) ==>
                && Now().Sound() && LoansKept() && held == old(held) && setKeyPool == old(ToppedUp())
                && (if setKeyPool == {} then nIndex == -1 else IsLeast(setKeyPool, nIndex))
      ensures old(Now().Steady()) && ((!locked && nTarget > 0) || old(|setKeyPool|) > 1) ==> Now().Steady()
    {
      hide State.Sound;
      hide NewestInPool;
      hide ToppedBy;
      HeldHaveRecords(Now());
      var key;
      nIndex, key := ReserveKeyFromKeyPool(null);
      if nIndex == -1 {
        return;
      }
      ReturnKey(nIndex);
    }
  }

  /** A key on loan from the pool. */
  class CReserveKey {
    const pwallet: Wallet
    var nIndex: int
    var vchPubKey: Option<Key>

    ghost predicate Valid()
      reads this, pwallet
    {
      nIndex != -1 ==>
        && nIndex in pwallet.held && pwallet.held[nIndex] == this
        && nIndex in pwallet.records && vchPubKey == Some(pwallet.records[nIndex])
    }

    /** The pool with this loan back in it. */
    ghost function Home(): set<int>
      reads this, pwallet
    {
      pwallet.setKeyPool + if nIndex == -1 then {} else {nIndex}
    }

    /** After returning this loan, the next top-up issues no index a second time. */
    ghost predicate Safe()
      reads this, pwallet
    {
      && pwallet.Now().Sound() && Valid()
      && (pwallet.locked || Wanting(Home(), pwallet.nTarget) == 0 || NewestInPool(Home(), pwallet.issued))
    }

    constructor (pwallet: Wallet)
      ensures Valid() && this.pwallet == pwallet && nIndex == -1
    {
      this.pwallet, nIndex, vchPubKey := pwallet, -1, None;
    }

    /** The same key until it is kept or returned. The default key is handed out only when a locked wallet has run
        out of keys. */
    method GetReservedKey() returns (key: Option<Key>)
      modifies this, pwallet
      ensures key == vchPubKey
      ensures pwallet.kept == old(pwallet.kept) && pwallet.locked == old(pwallet.locked)
      ensures old(pwallet.issued) <= pwallet.issued && pwallet.Now().Repeats() >= old(pwallet.Now().Repeats())
      ensures old(nIndex) != -1 ==>
                pwallet.Now() == old(pwallet.Now()) && pwallet.held == old(pwallet.held)
                && nIndex == old(nIndex) && vchPubKey == old(vchPubKey)
      ensures old(nIndex == -1 && pwallet.ToppedUp() != {}) ==>
                IsLeast(old(pwallet.ToppedUp()), nIndex) && pwallet.setKeyPool == old(pwallet.ToppedUp()) - {nIndex}
                && pwallet.held == old(pwallet.held)[nIndex := this]
      ensures old(pwallet.Now().Sound() && nIndex == -1 && !pwallet.CanReserve()) ==> pwallet.Now().Repeats() > 0
      ensures old(pwallet.Now().Sound() && Valid() && (nIndex == -1 ==> pwallet.CanReserve())) ==>
                && pwallet.Now().Sound() && Valid() && pwallet.LoansKept()
                && (nIndex == -1 <==> old(nIndex == -1 && pwallet.locked && pwallet.setKeyPool == {}))
                && (if nIndex == -1 then key == pwallet.vchDefaultKey else key.Some?)
      ensures old(Safe()) ==> Safe()
      ensures old(Safe()) && nIndex == -1 ==>
                pwallet.locked && pwallet.setKeyPool == {} && vchPubKey == pwallet.vchDefaultKey
      ensures old(pwallet.Now().Steady()) &&
              ((!pwallet.locked && pwallet.nTarget > 0) || old(|pwallet.setKeyPool|) > 1) ==>
                pwallet.Now().Steady()
    {
      hide State.Sound;
      hide NewestInPool;
      hide ToppedBy;
      SteadyIs(pwallet.Now());
      ToppedBySize(pwallet.setKeyPool, Wanting(pwallet.setKeyPool, pwallet.nTarget));
      if nIndex == -1 {
        var keypool;
        nIndex, keypool := pwallet.ReserveKeyFromKeyPool(this);
        if nIndex != -1 {
          vchPubKey := keypool;
        } else {
          vchPubKey := pwallet.vchDefaultKey;
        }
      }
      return vchPubKey;
    }

    method KeepKey()
      modifies this, pwallet
      ensures nIndex == -1 && vchPubKey.None? && pwallet.locked == old(pwallet.locked)
      ensures if old(nIndex) == -1 then pwallet.Now() == old(pwallet.Now()) && pwallet.held == old(pwallet.held)
              else pwallet.Now() == old(pwallet.Now()).Kept(old(nIndex)) &&
                   pwallet.held == old(pwallet.held) - {old(nIndex)}
      ensures old(pwallet.Now().Sound() && Valid()) ==> pwallet.Now().Sound()
      ensures old(pwallet.Now().Steady() && Valid()) ==> pwallet.Now().Steady()
    {
      hide State.Sound;
      hide NewestInPool;
      if nIndex != -1 {
        pwallet.KeepKey(nIndex);
      }
      nIndex, vchPubKey := -1, None;
    }

    method ReturnKey()
      modifies this, pwallet
      ensures nIndex == -1 && vchPubKey.None? && pwallet.locked == old(pwallet.locked)
      ensures if old(nIndex) == -1 then pwallet.Now() == old(pwallet.Now()) && pwallet.held == old(pwallet.held)
              else pwallet.Now() == old(pwallet.Now()).Returned(old(nIndex))
                   && pwallet.held == old(pwallet.held) - {old(nIndex)}
      ensures old(pwallet.Now().Sound() && Valid()) ==> pwallet.Now().Sound()
      ensures old(pwallet.Now().Steady() && Valid()) ==> pwallet.Now().Steady()
      ensures old(Safe()) ==> Safe()
    {
      hide State.Sound;
      hide NewestInPool;
      if nIndex != -1 {
        pwallet.ReturnKey(nIndex);
      }
      nIndex, vchPubKey := -1, None;
    }
  }

  /** Two loans of one wallet never share an index or a key, and neither is still in the pool. */
  lemma LoansAreApart(a: CReserveKey, b: CReserveKey)
    requires a.pwallet == b.pwallet && a != b && a.pwallet.Now().Sound() && a.Valid() && b.Valid()
    requires a.nIndex != -1 && b.nIndex != -1
    ensures a.nIndex != b.nIndex && a.vchPubKey != b.vchPubKey && a.vchPubKey.Some?
    ensures a.nIndex !in a.pwallet.setKeyPool && a.nIndex !in a.pwallet.kept
  {
  }
}
