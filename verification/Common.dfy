/** Small facts and types shared by the other modules. */
module Common {

  datatype Option<+T> = None | Some(value: T)

  function Min(a: int, b: int): int { if a < b then a else b }

  function Max(a: int, b: int): int { if a < b then b else a }

  function Pow2(n: nat): (r: nat)
    ensures r > 0
  {
    if n == 0 then 1 else 2 * Pow2(n - 1)
  }

  /** Some element of a nonempty set. */
  ghost function Pick<T>(s: set<T>): (x: T)
    requires s != {}
    ensures x in s
  {
    var x :| x in s; x
  }

  lemma SubsetSize<T>(a: set<T>, b: set<T>)
    requires a <= b
    ensures |a| <= |b|
  {
    assert b == a + (b - a);
  }

  /** A random number below nMax (0 when nMax is 0). */
  method GetRandInt(nMax: nat) returns (r: nat)
    ensures r < nMax || (nMax == 0 && r == 0)
  {
    if nMax == 0 {
      return 0;
    }
    r :| r < nMax;
  }

  lemma {:induction false} SmallestExists(s: set<int>) returns (m: int)
    requires s != {}
    ensures m in s && forall y :: y in s ==> m <= y
    decreases |s|
  {
    m := Pick(s);
    var rest := s - {m};
    assert forall y :: y in s ==> y == m || y in rest;
    if rest != {} {
      var m' := SmallestExists(rest);
      m := if m' < m then m' else m;
    }
  }

  /** The first element in the iteration order of an ordered set. */
  method First(s: set<int>) returns (x: int)
    requires s != {}
    ensures x in s && forall y :: y in s ==> x <= y
  {
    ghost var m := SmallestExists(s);
    x :| x in s && forall y :: y in s ==> x <= y;
  }
}
