/** Which outputs of a wallet transaction are spent, and the cached credit of the others. */
module SpentFlags {
  import opened Common

  /** An output counts as unspent when its flag is missing or not set. */
  ghost predicate Spent(vfSpent: seq<bool>, n: nat) {
    n < |vfSpent| && vfSpent[n]
  }

  /** The credit of the first n outputs that are unspent. */
  ghost function Unspent(credits: seq<int>, vfSpent: seq<bool>, n: nat): int
    requires n <= |credits|
  {
    if n == 0 then 0 else Unspent(credits, vfSpent, n - 1) + if Spent(vfSpent, n - 1) then 0 else credits[n - 1]
  }

  /** On the way to the sum no partial sum leaves the range of money. */
  ghost predicate InRange(credits: seq<int>, vfSpent: seq<bool>, n: nat, maxMoney: int)
    requires n <= |credits|
  {
    n == 0 || (InRange(credits, vfSpent, n - 1, maxMoney) &&
               (Spent(vfSpent, n - 1) || 0 <= Unspent(credits, vfSpent, n) <= maxMoney))
  }

  lemma {:induction false} SameFlagsSameCredit(credits: seq<int>, a: seq<bool>, b: seq<bool>, n: nat)
    requires n <= |credits| && forall i :: 0 <= i < n ==> (Spent(a, i) <==> Spent(b, i))
    ensures Unspent(credits, a, n) == Unspent(credits, b, n)
  {
    if n > 0 {
      SameFlagsSameCredit(credits, a, b, n - 1);
    }
  }

  /** Spending more never leaves more. */
  lemma {:induction false} SpendingTakesAway(credits: seq<int>, a: seq<bool>, b: seq<bool>, n: nat)
    requires n <= |credits| && forall i :: 0 <= i < |credits| ==> credits[i] >= 0
    requires forall i :: 0 <= i < n && Spent(a, i) ==> Spent(b, i)
    ensures Unspent(credits, b, n) <= Unspent(credits, a, n)
  {
    if n > 0 {
      SpendingTakesAway(credits, a, b, n - 1);
    }
  }

  ghost function Sum(credits: seq<int>): int {
    if credits == [] then 0 else Sum(credits[..|credits| - 1]) + credits[|credits| - 1]
  }

  /** The outputs without a set flag count with their credit, the others with nothing. */
  lemma {:induction false} UnspentIsSum(credits: seq<int>, vfSpent: seq<bool>, n: nat)
    requires n <= |credits|
    ensures Unspent(credits, vfSpent, n) ==
            Sum(seq(n, i requires 0 <= i < n => if i < |vfSpent| && vfSpent[i] then 0 else credits[i]))
  {
    if n > 0 {
      UnspentIsSum(credits, vfSpent, n - 1);
      assert seq(n, i requires 0 <= i < n => if i < |vfSpent| && vfSpent[i] then 0 else credits[i])[..n - 1] ==
             seq(n - 1, i requires 0 <= i < n - 1 => if i < |vfSpent| && vfSpent[i] then 0 else credits[i]);
    }
  }

  class Outputs {
    const credits: seq<int>
    const maxMoney: int
    var vfSpent: seq<bool>
    var fAvailableCreditCached: bool
    var nAvailableCreditCached: int

    /** A cached credit is the credit. */
    ghost predicate Valid()
      reads this
    {
      fAvailableCreditCached ==>
        && nAvailableCreditCached == Unspent(credits, vfSpent, |credits|)
        && InRange(credits, vfSpent, |credits|, maxMoney)
    }

    constructor (credits: seq<int>, maxMoney: int, vfSpent: seq<bool>)
      ensures Valid() && this.credits == credits && this.maxMoney == maxMoney && this.vfSpent == vfSpent
    {
      this.credits, this.maxMoney, this.vfSpent := credits, maxMoney, vfSpent;
      fAvailableCreditCached, nAvailableCreditCached := false, 0;
    }

    /** False stands for the exception. */
    method MarkSpent(nOut: nat) returns (ok: bool)
      requires Valid()
      modifies this
      ensures Valid() && ok == (nOut < |credits|)
      ensures !ok ==> vfSpent == old(vfSpent)
      ensures ok ==> |vfSpent| == |credits|
      ensures ok ==> forall i :: 0 <= i < |credits| ==>
                (vfSpent[i] <==> i == nOut || (i < |old(vfSpent)| && old(vfSpent)[i]))
    {
      if nOut >= |credits| {
        return false;
      }
      ghost var before := vfSpent;
      vfSpent :=
        if |vfSpent| < |credits| then vfSpent + seq(|credits| - |vfSpent|, i => false) else vfSpent[..|credits|];
      SameUpTo(before, vfSpent);
      if !vfSpent[nOut] {
        vfSpent := vfSpent[nOut := true];
        fAvailableCreditCached := false;
      }
      return true;
    }

    lemma SameUpTo(a: seq<bool>, b: seq<bool>)
      requires forall i :: 0 <= i < |credits| ==> (Spent(a, i) <==> Spent(b, i))
      ensures Unspent(credits, a, |credits|) == Unspent(credits, b, |credits|)
      ensures InRange(credits, a, |credits|, maxMoney) == InRange(credits, b, |credits|, maxMoney)
    {
      SameFlagsSameCredit(credits, a, b, |credits|);
      SameRange(a, b, |credits|);
    }

    lemma {:induction false} SameRange(a: seq<bool>, b: seq<bool>, n: nat)
      requires n <= |credits| && forall i :: 0 <= i < n ==> (Spent(a, i) <==> Spent(b, i))
      ensures InRange(credits, a, n, maxMoney) == InRange(credits, b, n, maxMoney)
      decreases n
    {
      if n > 0 {
        SameRange(a, b, n - 1);
        SameFlagsSameCredit(credits, a, b, n);
      }
    }

    /** Takes over the flags set elsewhere, as far as there are flags here; reports whether anything changed. */
    method UpdateSpent(vfNewSpent: seq<bool>) returns (changed: bool)
      requires Valid()
      modifies this
      ensures Valid() && |vfSpent| == |old(vfSpent)|
      ensures forall i :: 0 <= i < |vfSpent| ==>
              (vfSpent[i] <==> old(vfSpent)[i] || (i < |vfNewSpent| && vfNewSpent[i]))
      ensures changed <==> vfSpent != old(vfSpent)
    {
      changed := false;
      var i := 0;
      while i < |vfNewSpent|
        invariant 0 <= i <= |vfNewSpent| && i <= |vfSpent| == |old(vfSpent)|
        invariant forall j :: 0 <= j < |vfSpent| ==> vfSpent[j] == (old(vfSpent)[j] || (j < i && vfNewSpent[j]))
        invariant changed <==> exists j :: 0 <= j < i && vfNewSpent[j] && !old(vfSpent)[j]
        invariant changed ==> !fAvailableCreditCached
        invariant !changed ==> vfSpent == old(vfSpent) && fAvailableCreditCached == old(fAvailableCreditCached)
        invariant nAvailableCreditCached == old(nAvailableCreditCached)
      {
        if i == |vfSpent| {
          break;
        }
        if vfNewSpent[i] && !vfSpent[i] {
          vfSpent := vfSpent[i := true];
          changed := true;
          fAvailableCreditCached := false;
        }
        i := i + 1;
      }
    }

    /** From the cache or not, the credit of the unspent outputs; None stands for the exception. */
    method GetAvailableCredit(immatureCoinBase: bool, fUseCache: bool) returns (r: Option<int>)
      requires Valid()
      modifies `fAvailableCreditCached, `nAvailableCreditCached
      ensures Valid()
      ensures r == if immatureCoinBase then Some(0)
                   else if InRange(credits, vfSpent, |credits|, maxMoney) then
                       Some(Unspent(credits, vfSpent, |credits|))
                   else None
    {
      if immatureCoinBase {
        return Some(0);
      }
      if fUseCache && fAvailableCreditCached {
        return Some(nAvailableCreditCached);
      }
      var nCredit := 0;
      for i := 0 to |credits|
        invariant nCredit == Unspent(credits, vfSpent, i) && InRange(credits, vfSpent, i, maxMoney)
        invariant Valid()
      {
        if i >= |vfSpent| || !vfSpent[i] {
          nCredit := nCredit + credits[i];
          if !(0 <= nCredit <= maxMoney) {
            RangeLost(i + 1);
            return None;
          }
        }
      }
      nAvailableCreditCached, fAvailableCreditCached := nCredit, true;
      return Some(nCredit);
    }

    lemma {:induction false} RangeLost(n: nat)
      requires n <= |credits| && !InRange(credits, vfSpent, n, maxMoney)
      ensures !InRange(credits, vfSpent, |credits|, maxMoney)
      decreases |credits| - n
    {
      if n < |credits| {
        RangeLost(n + 1);
      }
    }
  }
}
