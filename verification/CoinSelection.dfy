/** Choosing which coins to spend. */
module CoinSelection {
  import opened Common

  type Amount = int

  const MAX_AMOUNT: int := 0x7FFF_FFFF_FFFF_FFFF

  /** An output of a wallet transaction (COutput): value, place, depth in the chain. */
  datatype Coin = Coin(value: Amount, tx: int, n: nat, spendable: bool, depth: int, fromMe: bool)

  predicate SameOutput(a: Coin, b: Coin) { a.tx == b.tx && a.n == b.n }

  /** No output is listed twice. */
  ghost predicate Distinct(coins: seq<Coin>) {
    forall i, j :: 0 <= i < j < |coins| ==> !SameOutput(coins[i], coins[j])
  }

  /** Values are positive amounts. */
  ghost predicate Amounts(coins: seq<Coin>) {
    forall c :: c in coins ==> 0 < c.value < MAX_AMOUNT
  }

  ghost predicate Eligible(c: Coin, confMine: int, confTheirs: int) {
    c.spendable && c.depth >= if c.fromMe then confMine else confTheirs
  }

  function Total(coins: seq<Coin>): Amount {
    if coins == [] then 0 else Total(coins[..|coins| - 1]) + coins[|coins| - 1].value
  }

  ghost function EligibleOnly(coins: seq<Coin>, confMine: int, confTheirs: int): seq<Coin> {
    if coins == [] then [] else
      var c := coins[|coins| - 1];
      var rest := EligibleOnly(coins[..|coins| - 1], confMine, confTheirs);
      if Eligible(c, confMine, confTheirs) then rest + [c] else rest
  }

  /** Coins of the list, each once, all spendable and deep enough. */
  ghost predicate IsPart(part: seq<Coin>, coins: seq<Coin>, confMine: int, confTheirs: int) {
    && Distinct(part)
    && forall c :: c in part ==>
         && c in coins && c.spendable
         && (c.fromMe ==> c.depth >= confMine) && (!c.fromMe ==> c.depth >= confTheirs)
  }

  /** Some such coins are worth the target. */
  ghost predicate Affords(coins: seq<Coin>, confMine: int, confTheirs: int, target: Amount) {
    exists part :: IsPart(part, coins, confMine, confTheirs) && Total(part) >= target
  }

  /** The coins marked. */
  function Marked(coins: seq<Coin>, marks: seq<bool>): seq<Coin>
    requires |coins| == |marks|
  {
    if coins == [] then [] else
      var n := |coins| - 1;
      if marks[n] then Marked(coins[..n], marks[..n]) + [coins[n]] else Marked(coins[..n], marks[..n])
  }

  // ---------------------------------------------------------------- totals

  lemma TotalAppend(coins: seq<Coin>, c: Coin)
    ensures Total(coins + [c]) == Total(coins) + c.value
  {
    assert (coins + [c])[..|coins|] == coins;
  }

  lemma {:induction false} TotalConcat(a: seq<Coin>, b: seq<Coin>)
    ensures Total(a + b) == Total(a) + Total(b)
  {
    if b == [] {
      assert a + b == a;
    } else {
      TotalConcat(a, b[..|b| - 1]);
      assert (a + b)[..|a + b| - 1] == a + b[..|b| - 1];
    }
  }

  lemma {:induction false} TotalNonNegative(coins: seq<Coin>)
    requires Amounts(coins)
    ensures Total(coins) >= 0
    ensures forall c :: c in coins ==> c.value <= Total(coins)
  {
    if coins != [] {
      var rest := coins[..|coins| - 1];
      assert coins == rest + [coins[|coins| - 1]];
      TotalNonNegative(rest);
    }
  }

  /** Marking or unmarking one coin changes the total by its value. */
  lemma {:induction false} MarkOne(coins: seq<Coin>, marks: seq<bool>, i: nat)
    requires |coins| == |marks| && i < |coins| && !marks[i]
    ensures Total(Marked(coins, marks[i := true])) == Total(Marked(coins, marks)) + coins[i].value
  {
    var n := |coins| - 1;
    if i == n {
      assert marks[i := true][..n] == marks[..n];
      TotalAppend(Marked(coins[..n], marks[..n]), coins[n]);
    } else {
      MarkOne(coins[..n], marks[..n], i);
      assert marks[i := true][..n] == marks[..n][i := true];
      TotalAppend(Marked(coins[..n], marks[..n]), coins[n]);
      TotalAppend(Marked(coins[..n], marks[..n][i := true]), coins[n]);
    }
  }

  function All(n: nat, b: bool): (r: seq<bool>)
    ensures |r| == n
  {
    seq(n, i => b)
  }

  lemma {:induction false} MarkedAllOrNone(coins: seq<Coin>)
    ensures Marked(coins, All(|coins|, true)) == coins
    ensures Marked(coins, All(|coins|, false)) == [] && Total([]) == 0
  {
    if coins != [] {
      var n := |coins| - 1;
      MarkedAllOrNone(coins[..n]);
      assert All(|coins|, true)[..n] == All(n, true) && All(|coins|, false)[..n] == All(n, false);
    }
  }

  /** The coins marked are among the coins, each once, and weigh no more. */
  lemma {:induction false} MarkedIsPart(coins: seq<Coin>, marks: seq<bool>)
    requires |coins| == |marks| && Distinct(coins) && Amounts(coins)
    ensures Distinct(Marked(coins, marks)) && Amounts(Marked(coins, marks))
    ensures forall c :: c in Marked(coins, marks) ==> c in coins
    ensures Total(Marked(coins, marks)) <= Total(coins)
  {
    if coins != [] {
      var n := |coins| - 1;
      MarkedIsPart(coins[..n], marks[..n]);
      TotalAppend(Marked(coins[..n], marks[..n]), coins[n]);
      assert forall c :: c in coins[..n] ==> !SameOutput(c, coins[n]);
    }
  }

  // ---------------------------------------------------------------- the subset search

  method InsecureRand() returns (bit: bool) {
    bit := *;
  }

  /** Whatever the random bits: a set of coins worth at least the target and no more than all of them. */
  method ApproximateBestSubset(vValue: seq<Coin>, nTotalLower: Amount, nTargetValue: Amount, iterations: nat)
    returns (vfBest: seq<bool>, nBest: Amount)
    requires nTotalLower == Total(vValue) >= nTargetValue
    ensures |vfBest| == |vValue| && nBest == Total(Marked(vValue, vfBest))
    ensures nTargetValue <= nBest <= nTotalLower
  {
    hide Marked;
    hide Total;
    vfBest, nBest := All(|vValue|, true), nTotalLower;
    MarkedAllOrNone(vValue);
    var nRep := 0;
    while nRep < iterations && nBest != nTargetValue
      invariant |vfBest| == |vValue| && nBest == Total(Marked(vValue, vfBest))
      invariant nTargetValue <= nBest <= nTotalLower
      decreases iterations - nRep
    {
      var vfIncluded, nTotal, fReachedTarget := All(|vValue|, false), 0, false;
      MarkedAllOrNone(vValue);
      var nPass := 0;
      while nPass < 2 && !fReachedTarget
        invariant |vfIncluded| == |vValue| && nTotal == Total(Marked(vValue, vfIncluded))
        invariant |vfBest| == |vValue| && nBest == Total(Marked(vValue, vfBest))
        invariant nTargetValue <= nBest <= nTotalLower
        invariant nPass == 0 ==> vfIncluded == All(|vValue|, false)
        decreases 2 - nPass
      {
        for i := 0 to |vValue|
          invariant |vfIncluded| == |vValue| && nTotal == Total(Marked(vValue, vfIncluded))
          invariant |vfBest| == |vValue| && nBest == Total(Marked(vValue, vfBest))
          invariant nTargetValue <= nBest <= nTotalLower
          invariant nPass == 0 ==> forall j :: i <= j < |vValue| ==> !vfIncluded[j]
        {
          var bit := InsecureRand();
          if if nPass == 0 then bit else !vfIncluded[i] {
            MarkOne(vValue, vfIncluded, i);
            assert vfIncluded[i := true][i := false] == vfIncluded;
            nTotal := nTotal + vValue[i].value;
            vfIncluded := vfIncluded[i := true];
            if nTotal >= nTargetValue {
              fReachedTarget := true;
              if nTotal < nBest {
                nBest, vfBest := nTotal, vfIncluded;
              }
              nTotal := nTotal - vValue[i].value;
              vfIncluded := vfIncluded[i := false];
            }
          }
        }
        nPass := nPass + 1;
      }
      nRep := nRep + 1;
    }
  }

  // ---------------------------------------------------------------- sorting by value

  ghost predicate Descending(coins: seq<Coin>) {
    forall i, j :: 0 <= i < j < |coins| ==> coins[i].value >= coins[j].value
  }

  ghost predicate Rearranged(a: seq<Coin>, b: seq<Coin>) {
    && Total(a) == Total(b) && |a| == |b|
    && (forall c :: c in a <==> c in b)
    && (Distinct(a) ==> Distinct(b))
  }

  method SortByValue(coins: seq<Coin>) returns (sorted: seq<Coin>)
    requires Distinct(coins)
    ensures Rearranged(coins, sorted) && Descending(sorted)
  {
    sorted := [];
    for k := 0 to |coins|
      invariant Rearranged(coins[..k], sorted) && Descending(sorted)
    {
      var p := 0;
      while p < |sorted| && sorted[p].value >= coins[k].value
        invariant 0 <= p <= |sorted|
        invariant forall j :: 0 <= j < p ==> sorted[j].value >= coins[k].value
      {
        p := p + 1;
      }
      InsertAt(coins, k, sorted, p);
      sorted := sorted[..p] + [coins[k]] + sorted[p..];
    }
    assert coins[..|coins|] == coins;
  }

  lemma InsertAt(coins: seq<Coin>, k: nat, sorted: seq<Coin>, p: nat)
    requires k < |coins| && Distinct(coins) && Rearranged(coins[..k], sorted) && p <= |sorted|
    ensures Rearranged(coins[..k + 1], sorted[..p] + [coins[k]] + sorted[p..])
  {
    hide Total;
    var c := coins[k];
    assert coins[..k + 1] == coins[..k] + [c];
    TotalAppend(coins[..k], c);
    InsertedTotal(sorted, p, c);
    InsertedElements(sorted, p, c);
    forall d | d in sorted
      ensures !SameOutput(d, c)
    {
      assert d in coins[..k];
    }
    InsertedDistinct(sorted, p, c);
  }

  lemma InsertedTotal(s: seq<Coin>, p: nat, c: Coin)
    requires p <= |s|
    ensures Total(s[..p] + [c] + s[p..]) == Total(s) + c.value
  {
    hide Total;
    TotalConcat(s[..p] + [c], s[p..]);
    TotalAppend(s[..p], c);
    TotalConcat(s[..p], s[p..]);
    assert s == s[..p] + s[p..];
  }

  lemma InsertedElements(s: seq<Coin>, p: nat, c: Coin)
    requires p <= |s|
    ensures forall d :: d in s[..p] + [c] + s[p..] <==> d in s || d == c
  {
    assert s == s[..p] + s[p..];
  }

  lemma InsertedDistinct(s: seq<Coin>, p: nat, c: Coin)
    requires p <= |s| && Distinct(s) && forall d :: d in s ==> !SameOutput(d, c)
    ensures Distinct(s[..p] + [c] + s[p..])
  {
    var r := s[..p] + [c] + s[p..];
    forall i, j | 0 <= i < j < |r|
      ensures !SameOutput(r[i], r[j])
    {
      var a, b := if i < p then i else i - 1, if j < p then j else j - 1;
      assert i != p ==> r[i] == s[a] && s[a] in s;
      assert j != p ==> r[j] == s[b] && s[b] in s;
    }
  }

  // ---------------------------------------------------------------- the selection

  lemma EligibleNext(coins: seq<Coin>, k: nat, confMine: int, confTheirs: int)
    requires k < |coins|
    ensures EligibleOnly(coins[..k + 1], confMine, confTheirs) ==
            if Eligible(coins[k], confMine, confTheirs) then EligibleOnly(coins[..k], confMine, confTheirs) + [coins[k]]
            else EligibleOnly(coins[..k], confMine, confTheirs)
  {
    assert coins[..k + 1][..k] == coins[..k];
  }

  /** The eligible coins are those of the list that are eligible, each once. */
  lemma {:induction false} EligibleIsPart(coins: seq<Coin>, confMine: int, confTheirs: int)
    ensures forall c :: c in EligibleOnly(coins, confMine, confTheirs) <==>
            c in coins && Eligible(c, confMine, confTheirs)
    ensures Distinct(coins) ==> Distinct(EligibleOnly(coins, confMine, confTheirs))
  {
    if coins != [] {
      var n := |coins| - 1;
      EligibleIsPart(coins[..n], confMine, confTheirs);
      assert coins == coins[..n] + [coins[n]];
      assert Distinct(coins) ==> forall c :: c in coins[..n] ==> !SameOutput(c, coins[n]);
    }
  }

  ghost predicate Within(a: seq<Coin>, b: seq<Coin>) {
    forall c :: c in a ==> c in b
  }

  lemma {:induction false} PartWeighsLess(part: seq<Coin>, coins: seq<Coin>)
    requires Distinct(part) && Distinct(coins) && Amounts(coins) && Within(part, coins)
    ensures Total(part) <= Total(coins)
    decreases |part|
  {
    hide Amounts;
    hide Distinct;
    hide Within;
    if part == [] {
      TotalNonNegative(coins);
    } else {
      var rest := WithoutLast(part, coins);
      PartWeighsLess(part[..|part| - 1], rest);
    }
  }

  /** The last coin of a part, taken out of both. */
  lemma WithoutLast(part: seq<Coin>, coins: seq<Coin>) returns (rest: seq<Coin>)
    requires part != [] && Distinct(part) && Distinct(coins) && Amounts(coins) && Within(part, coins)
    ensures Distinct(part[..|part| - 1]) && Distinct(rest) && Amounts(rest) && Within(part[..|part| - 1], rest)
    ensures Total(coins) == Total(rest) + part[|part| - 1].value
  {
    hide Total;
    var c := part[|part| - 1];
    assert c in part;
    var i :| 0 <= i < |coins| && coins[i] == c;
    rest := coins[..i] + coins[i + 1..];
    OthersAreLeft(part, coins, i);
    OthersAreDistinct(coins, i);
    InsertedTotal(rest, i, c);
    assert rest[..i] + [c] + rest[i..] == coins;
  }

  lemma OthersAreLeft(part: seq<Coin>, coins: seq<Coin>, i: nat)
    requires part != [] && Distinct(part) && Within(part, coins)
    requires i < |coins| && coins[i] == part[|part| - 1]
    ensures Within(part[..|part| - 1], coins[..i] + coins[i + 1..])
  {
    var n := |part| - 1;
    var rest := coins[..i] + coins[i + 1..];
    forall d | d in part[..n]
      ensures d in rest
    {
      var k :| 0 <= k < n && part[k] == d;
      assert d in part && !SameOutput(d, part[n]);
      var j :| 0 <= j < |coins| && coins[j] == d;
      assert rest[if j < i then j else j - 1] == d;
    }
  }

  lemma OthersAreDistinct(coins: seq<Coin>, i: nat)
    requires Distinct(coins) && i < |coins|
    ensures var rest := coins[..i] + coins[i + 1..]; Distinct(rest) && (Amounts(coins) ==> Amounts(rest))
  {
    var rest := coins[..i] + coins[i + 1..];
    forall j | 0 <= j < |rest|
      ensures rest[j] == coins[if j < i then j else j + 1]
    {
    }
    assert forall c :: c in rest ==> c in coins;
  }

  /** The eligible coins together are worth the target exactly when some of them are. */
  lemma AffordsExactlyWhen(coins: seq<Coin>, confMine: int, confTheirs: int)
    requires Distinct(coins) && Amounts(coins)
    ensures forall c :: Eligible(c, confMine, confTheirs) <==>
              c.spendable && (c.fromMe ==> c.depth >= confMine) && (!c.fromMe ==> c.depth >= confTheirs)
    ensures forall target :: Affords(coins, confMine, confTheirs, target) <==>
              Total(EligibleOnly(coins, confMine, confTheirs)) >= target
  {
    hide Total;
    var eligible := EligibleOnly(coins, confMine, confTheirs);
    EligibleIsPart(coins, confMine, confTheirs);
    assert IsPart(eligible, coins, confMine, confTheirs);
    forall part | IsPart(part, coins, confMine, confTheirs)
      ensures Total(part) <= Total(eligible)
    {
      PartWeighsLess(part, eligible);
    }
  }

  lemma EligibleWeigh(eligible: seq<Coin>)
    ensures Amounts(eligible) ==> forall c :: c in eligible ==> c.value <= Total(eligible)
  {
    if Amounts(eligible) {
      TotalNonNegative(eligible);
    }
  }

  lemma EligibleTotalGrows(coins: seq<Coin>, k: nat, confMine: int, confTheirs: int)
    requires k <= |coins| && Amounts(coins)
    ensures Total(EligibleOnly(coins[..k], confMine, confTheirs)) <= Total(EligibleOnly(coins, confMine, confTheirs))
    decreases |coins| - k
  {
    if k == |coins| {
      assert coins[..k] == coins;
    } else {
      EligibleNext(coins, k, confMine, confTheirs);
      TotalAppend(EligibleOnly(coins[..k], confMine, confTheirs), coins[k]);
      EligibleTotalGrows(coins, k + 1, confMine, confTheirs);
      assert coins[k] in coins;
    }
  }

  lemma EligibleSplit(coins: seq<Coin>, k: nat, confMine: int, confTheirs: int)
    requires k < |coins| && Amounts(coins) && Distinct(coins) && Eligible(coins[k], confMine, confTheirs)
    ensures var eligible := EligibleOnly(coins[..k], confMine, confTheirs);
            && EligibleOnly(coins[..k + 1], confMine, confTheirs) == eligible + [coins[k]]
            && Total(eligible) >= 0 && Amounts(eligible)
            && forall c :: c in eligible ==> !SameOutput(c, coins[k])
    ensures Total(EligibleOnly(coins, confMine, confTheirs)) >= coins[k].value
  {
    var eligible := EligibleOnly(coins[..k], confMine, confTheirs);
    EligibleNext(coins, k, confMine, confTheirs);
    EligibleIsPart(coins[..k], confMine, confTheirs);
    assert forall c :: c in coins[..k] ==> c in coins && !SameOutput(c, coins[k]);
    TotalNonNegative(eligible);
    TotalAppend(eligible, coins[k]);
    EligibleTotalGrows(coins, k + 1, confMine, confTheirs);
  }

  /** What the scan has sorted the eligible coins into. */
  ghost predicate Scanned(eligible: seq<Coin>, target: Amount, cent: Amount, vValue: seq<Coin>, larger: Option<Coin>) {
    && Distinct(vValue) && Amounts(vValue)
    && (forall c :: c in vValue ==> c in eligible)
    && (forall c :: c in eligible ==> c.value != target)
    && (larger.Some? ==> larger.value in eligible && target + cent <= larger.value.value < MAX_AMOUNT)
    && (forall c :: c in eligible && c.value >= target + cent ==> larger.Some? && larger.value.value <= c.value)
    && (larger.None? ==> Total(vValue) == Total(eligible))
    && (larger.Some? ==> Total(vValue) + larger.value.value <= Total(eligible))
  }

  lemma ScannedNext(eligible: seq<Coin>, c: Coin, target: Amount, cent: Amount, vValue: seq<Coin>, larger: Option<Coin>)
    requires Scanned(eligible, target, cent, vValue, larger) && Amounts(eligible)
    requires 0 < c.value < MAX_AMOUNT && c.value != target && forall d :: d in eligible ==> !SameOutput(d, c)
    ensures c.value < target + cent ==> Scanned(eligible + [c], target, cent, vValue + [c], larger)
    ensures c.value >= target + cent && (larger.Some? ==> c.value <= larger.value.value) ==>
              Scanned(eligible + [c], target, cent, vValue, Some(c))
    ensures c.value >= target + cent && larger.Some? && larger.value.value <= c.value ==>
            Scanned(eligible + [c], target, cent, vValue, larger)
  {
    hide Total;
    TotalAppend(eligible, c);
    TotalAppend(vValue, c);
  }

  lemma NothingScanned(confMine: int, confTheirs: int, target: Amount, cent: Amount)
    ensures EligibleOnly([], confMine, confTheirs) == [] && Total([]) == 0
    ensures Scanned([], target, cent, [], None)
  {
  }

  lemma OneCoin(c: Coin)
    ensures Total([c]) == c.value
  {
    TotalAppend([], c);
    assert [] + [c] == [c];
  }

  /** What each outcome of the scan says of the eligible coins. */
  lemma SelectedIsDue(eligible: seq<Coin>, target: Amount, cent: Amount, vValue: seq<Coin>, larger: Option<Coin>)
    requires Scanned(eligible, target, cent, vValue, larger) && Amounts(eligible)
    ensures Distinct(vValue) && Amounts(vValue) && forall c :: c in vValue ==> c in eligible
    ensures forall c :: c in eligible ==> c.value != target
    ensures forall c :: c in eligible && c.value >= target + cent ==> larger.Some? && larger.value.value <= c.value
    ensures 0 <= Total(vValue) <= Total(eligible)
    ensures larger.None? ==> Total(vValue) == Total(eligible)
    ensures larger.Some? ==>
              larger.value in eligible && target + cent <= larger.value.value <= Total(eligible) &&
                  Total([larger.value]) == larger.value.value
  {
    TotalNonNegative(vValue);
    TotalNonNegative(eligible);
    if larger.Some? {
      OneCoin(larger.value);
    }
  }

  lemma SortedIsPart(coins: seq<Coin>, sorted: seq<Coin>)
    requires Rearranged(coins, sorted) && Distinct(coins) && Amounts(coins)
    ensures Distinct(sorted) && Amounts(sorted) && Total(sorted) == Total(coins)
    ensures forall c :: c in sorted ==> c in coins
  {
  }

  /** Whatever the order of the coins and the random bits: false exactly when the eligible coins are worth
      less than the target; otherwise distinct eligible coins worth at least the target, and either the
      target itself, or at least a cent more, unless all eligible coins together leave less than a cent.
      A single coin that would do with change to spare is never exceeded. */
  method SelectCoinsMinConf(nTargetValue: Amount, nConfMine: int, nConfTheirs: int, vCoins: seq<Coin>, cent: Amount)
    returns (ok: bool, setCoinsRet: seq<Coin>, nValueRet: Amount)
    requires Distinct(vCoins) && Amounts(vCoins) && cent > 0
    ensures ok <==> Affords(vCoins, nConfMine, nConfTheirs, nTargetValue)
    ensures nValueRet == Total(setCoinsRet) && (!ok ==> setCoinsRet == [])
    ensures IsPart(setCoinsRet, vCoins, nConfMine, nConfTheirs)
    ensures forall c :: c in setCoinsRet ==>
            c in vCoins && c.spendable && c.depth >= if c.fromMe then nConfMine else nConfTheirs
    ensures ok ==>
              || nValueRet == nTargetValue
              || nValueRet >= nTargetValue + cent
              || (nTargetValue <= nValueRet && !Affords(vCoins, nConfMine, nConfTheirs, nTargetValue + cent))
    ensures forall c :: c in vCoins && c.spendable && c.depth >= (if c.fromMe then nConfMine else nConfTheirs) ==>
              && (c.value >= nTargetValue ==> ok)
              && (c.value >= nTargetValue + cent ==> nValueRet <= c.value)
              && (c.value == nTargetValue ==> |setCoinsRet| == 1 && nValueRet == nTargetValue)
  {
    hide Total;
    hide EligibleOnly;
    hide Scanned;
    hide Rearranged;
    hide Descending;
    hide Marked;
    NothingScanned(nConfMine, nConfTheirs, nTargetValue, cent);
    hide Affords;
    ghost var eligible := EligibleOnly(vCoins, nConfMine, nConfTheirs);
    EligibleIsPart(vCoins, nConfMine, nConfTheirs);
    AffordsExactlyWhen(vCoins, nConfMine, nConfTheirs);
    EligibleWeigh(eligible);
    var larger, vValue, nTotalLower := None, [], 0;
    for k := 0 to |vCoins|
      invariant Scanned(EligibleOnly(vCoins[..k], nConfMine, nConfTheirs), nTargetValue, cent, vValue, larger)
      invariant nTotalLower == Total(vValue)
    {
      var output := vCoins[k];
      EligibleNext(vCoins, k, nConfMine, nConfTheirs);
      assert output in vCoins;
      if !output.spendable || output.depth < (if output.fromMe then nConfMine else nConfTheirs) { continue; }
      EligibleSplit(vCoins, k, nConfMine, nConfTheirs);
      if output.value == nTargetValue {
        OneCoin(output);
        return true, [output], output.value;
      }
      ScannedNext(EligibleOnly(vCoins[..k], nConfMine, nConfTheirs), output, nTargetValue, cent, vValue, larger);
      if output.value < nTargetValue + cent {
        TotalAppend(vValue, output);
        vValue, nTotalLower := vValue + [output], nTotalLower + output.value;
      } else if output.value < (if larger.Some? then larger.value.value else MAX_AMOUNT) {
        larger := Some(output);
      }
    }
    assert vCoins[..|vCoins|] == vCoins;
    SelectedIsDue(eligible, nTargetValue, cent, vValue, larger);
    if nTotalLower == nTargetValue {
      return true, vValue, nTotalLower;
    }
    if nTotalLower < nTargetValue {
      if larger.None? {
        return false, [], 0;
      }
      return true, [larger.value], larger.value.value;
    }
    var sorted := SortByValue(vValue);
    SortedIsPart(vValue, sorted);
    var vfBest, nBest := ApproximateBestSubset(sorted, nTotalLower, nTargetValue, 1000);
    if nBest != nTargetValue && nTotalLower >= nTargetValue + cent {
      vfBest, nBest := ApproximateBestSubset(sorted, nTotalLower, nTargetValue + cent, 1000);
    }
    if larger.Some? && ((nBest != nTargetValue && nBest < nTargetValue + cent) || larger.value.value <= nBest) {
      return true, [larger.value], larger.value.value;
    }
    MarkedIsPart(sorted, vfBest);
    return true, Marked(sorted, vfBest), nBest;
  }

  /** SelectCoins: deep coins first, then shallower ones, then even unconfirmed change. */
  method SelectCoins(nTargetValue: Amount, vCoins: seq<Coin>, cent: Amount)
    returns (ok: bool, setCoinsRet: seq<Coin>, nValueRet: Amount)
    requires Distinct(vCoins) && Amounts(vCoins) && cent > 0
    ensures ok <==> Affords(vCoins, 0, 1, nTargetValue)
    ensures nValueRet == Total(setCoinsRet) && (!ok ==> setCoinsRet == [])
    ensures IsPart(setCoinsRet, vCoins, 0, 1)
    ensures forall c :: c in setCoinsRet ==> c in vCoins && c.spendable && (!c.fromMe ==> c.depth >= 1) && c.depth >= 0
    ensures Affords(vCoins, 1, 6, nTargetValue) ==>
              forall c :: c in setCoinsRet ==> c.depth >= 1 && (!c.fromMe ==> c.depth >= 6)
    ensures Affords(vCoins, 1, 1, nTargetValue) ==> forall c :: c in setCoinsRet ==> c.depth >= 1
    ensures forall c :: c in vCoins && c.spendable && c.depth >= (if c.fromMe then 0 else 1) ==>
              (c.value >= nTargetValue ==> ok)
    ensures ok ==> nValueRet >= nTargetValue
  {
    hide Affords;
    AffordsMore(vCoins, 1, 6, 1, 1, nTargetValue);
    AffordsMore(vCoins, 1, 1, 0, 1, nTargetValue);
    ok, setCoinsRet, nValueRet := SelectCoinsMinConf(nTargetValue, 1, 6, vCoins, cent);
    if !ok {
      ok, setCoinsRet, nValueRet := SelectCoinsMinConf(nTargetValue, 1, 1, vCoins, cent);
    }
    if !ok {
      ok, setCoinsRet, nValueRet := SelectCoinsMinConf(nTargetValue, 0, 1, vCoins, cent);
    }
  }

  lemma NothingIsPart(coins: seq<Coin>, mine: int, theirs: int)
    ensures IsPart([], coins, mine, theirs)
  {
  }

  lemma AffordsMore(coins: seq<Coin>, mine: int, theirs: int, mine': int, theirs': int, target: Amount)
    requires mine' <= mine && theirs' <= theirs
    ensures Affords(coins, mine, theirs, target) ==> Affords(coins, mine', theirs', target)
  {
    if Affords(coins, mine, theirs, target) {
      var part :| IsPart(part, coins, mine, theirs) && Total(part) >= target;
      assert IsPart(part, coins, mine', theirs');
    }
  }
}
