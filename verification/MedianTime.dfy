/** The median of the last eleven block times, and why it never runs backwards. */
module MedianTime {
  import opened Common

  import opened Chain

  const SPAN: nat := 11

  // ---------------------------------------------------------------- sorting

  function Insert(x: int, s: seq<int>): seq<int> {
    if s == [] || x <= s[0] then [x] + s else [s[0]] + Insert(x, s[1..])
  }

  function Sorted(s: seq<int>): (r: seq<int>) {
    if s == [] then [] else Insert(s[0], Sorted(s[1..]))
  }

  ghost predicate Ascending(s: seq<int>) {
    forall i, j :: 0 <= i < j < |s| ==> s[i] <= s[j]
  }

  lemma {:induction false} InsertElements(x: int, s: seq<int>)
    ensures multiset(Insert(x, s)) == multiset(s) + multiset{x} && |Insert(x, s)| == |s| + 1
    ensures forall i :: 0 <= i < |Insert(x, s)| ==> Insert(x, s)[i] == x || Insert(x, s)[i] in s
  {
    if s == [] || x <= s[0] {
      assert multiset([x] + s) == multiset{x} + multiset(s);
    } else {
      InsertElements(x, s[1..]);
      assert s == [s[0]] + s[1..];
    }
  }

  lemma {:induction false} InsertSorts(x: int, s: seq<int>)
    requires Ascending(s)
    ensures Ascending(Insert(x, s))
  {
    if s != [] && x > s[0] {
      InsertSorts(x, s[1..]);
      InsertElements(x, s[1..]);
      var r := Insert(x, s[1..]);
      forall i | 0 <= i < |r|
        ensures s[0] <= r[i]
      {
      }
    }
  }

  lemma {:induction false} SortedSorts(s: seq<int>)
    ensures Ascending(Sorted(s)) && multiset(Sorted(s)) == multiset(s) && |Sorted(s)| == |s|
  {
    if s != [] {
      SortedSorts(s[1..]);
      InsertSorts(s[0], Sorted(s[1..]));
      InsertElements(s[0], Sorted(s[1..]));
      assert s == [s[0]] + s[1..];
    }
  }

  // ---------------------------------------------------------------- counting

  /** How many times are earlier than v. */
  function Below(s: seq<int>, v: int): (n: nat)
    ensures n <= |s|
  {
    if s == [] then 0 else (if s[0] < v then 1 else 0) + Below(s[1..], v)
  }

  lemma {:induction false} BelowInsert(x: int, s: seq<int>, v: int)
    ensures Below(Insert(x, s), v) == Below(s, v) + if x < v then 1 else 0
  {
    if s == [] || x <= s[0] {
      assert ([x] + s)[1..] == s;
    } else {
      BelowInsert(x, s[1..], v);
      assert ([s[0]] + Insert(x, s[1..]))[1..] == Insert(x, s[1..]);
    }
  }

  lemma {:induction false} BelowSorted(s: seq<int>, v: int)
    ensures Below(Sorted(s), v) == Below(s, v)
  {
    if s != [] {
      BelowSorted(s[1..], v);
      BelowInsert(s[0], Sorted(s[1..]), v);
    }
  }

  /** In an ascending list the k-th entry is at least v exactly when no more than k entries are below v. */
  lemma {:induction false} RankOf(s: seq<int>, k: nat, v: int)
    requires Ascending(s) && k < |s|
    ensures s[k] >= v <==> Below(s, v) <= k
  {
    if s[0] >= v {
      NoneBelow(s, v);
    } else if k > 0 {
      RankOf(s[1..], k - 1, v);
    }
  }

  lemma {:induction false} NoneBelow(s: seq<int>, v: int)
    requires forall i :: 0 <= i < |s| ==> s[i] >= v
    ensures Below(s, v) == 0
  {
    if s != [] {
      NoneBelow(s[1..], v);
    }
  }

  lemma {:induction false} BelowTake(s: seq<int>, n: nat, v: int)
    requires n <= |s|
    ensures Below(s[..n], v) <= Below(s, v)
  {
    if n > 0 {
      assert s[..n][1..] == s[1..][..n - 1];
      BelowTake(s[1..], n - 1, v);
    }
  }

  // ---------------------------------------------------------------- the median

  /** The times of the block and of the blocks before it, at most n. */
  function Times(b: CBlockIndex?, n: nat): (r: seq<int>)
    ensures |r| <= n && (b != null && n > 0 ==> |r| > 0)
  {
    if b == null || n == 0 then [] else [b.nTime] + Times(b.pprev, n - 1)
  }

  /** Entry i is the time of the i-th block before, as far back as n blocks or genesis. */
  lemma {:induction false} TimesAre(b: CBlockIndex, n: nat, i: nat)
    requires Linked(b)
    ensures |Times(b, n)| == Min(n, b.nHeight + 1)
    ensures i < |Times(b, n)| ==> Times(b, n)[i] == Ancestor(b, b.nHeight - i).nTime
    decreases n
  {
    if n > 0 && b.pprev != null {
      TimesAre(b.pprev, n - 1, if i > 0 then i - 1 else 0);
    }
  }

  /** The median time is the middle one of the last eleven, or of all near genesis. */
  lemma MedianTimePastIs(b: CBlockIndex)
    requires Linked(b)
    ensures var times := Times(b, 11);
            MedianTimePast(b) == Median(times) && |times| == if b.nHeight < 10 then b.nHeight + 1 else 11
  {
    TimesAre(b, 11, 0);
  }

  lemma TimesUnfold(b: CBlockIndex?, n: nat)
    ensures Times(b, n) == if b == null || n == 0 then [] else [b.nTime] + Times(b.pprev, n - 1)
  {
  }

  function Median(s: seq<int>): int
    requires s != []
  {
    SortedSorts(s);
    Sorted(s)[|s| / 2]
  }

  function MedianTimePast(b: CBlockIndex): int {
    Median(Times(b, SPAN))
  }

  /** The median is a time of the list such that no more than half of them are earlier and no more than half later. */
  lemma MedianIsMiddle(s: seq<int>)
    requires s != []
    ensures Median(s) in s
    ensures Below(s, Median(s)) <= |s| / 2 && Below(s, Median(s) + 1) > |s| / 2
  {
    hide Sorted;
    hide Below;
    hide Ascending;
    var r, k := Sorted(s), |s| / 2;
    SortedSorts(s);
    assert r[k] in multiset(r);
    BelowSorted(s, r[k]);
    RankOf(r, k, r[k]);
    BelowSorted(s, r[k] + 1);
    RankOf(r, k, r[k] + 1);
  }

  lemma MedianAtLeast(s: seq<int>, v: int)
    requires s != []
    ensures Median(s) >= v <==> Below(s, v) <= |s| / 2
  {
    SortedSorts(s);
    BelowSorted(s, v);
    RankOf(Sorted(s), |s| / 2, v);
  }

  /** Fills the end of a fixed array backwards, sorts what was filled and takes the middle. */
  method GetMedianTimePast(b: CBlockIndex) returns (m: int)
    ensures m == MedianTimePast(b)
  {
    hide Sorted;
    hide Median;
    hide Times;
    var pmedian := new int[SPAN];
    var pbegin := SPAN;
    var pindex: CBlockIndex? := b;
    var i := 0;
    ghost var times := [];
    while i < SPAN && pindex != null
      invariant 0 <= i <= SPAN && pbegin == SPAN - i && |times| == i
      invariant forall k :: 0 <= k < i ==> pmedian[SPAN - 1 - k] == times[k]
      invariant times + Times(pindex, SPAN - i) == Times(b, SPAN)
      invariant i == 0 ==> pindex == b
    {
      pbegin := pbegin - 1;
      pmedian[pbegin] := pindex.nTime;
      TimesUnfold(pindex, SPAN - i);
      times := times + [pindex.nTime];
      i := i + 1;
      pindex := pindex.pprev;
    }
    TimesUnfold(pindex, SPAN - i);
    assert times == Times(b, SPAN);
    MirrorHasSameMedian(times, pmedian[pbegin..]);
    m := Sorted(pmedian[pbegin..])[(SPAN - pbegin) / 2];
  }

  /** The middle of the sorted list does not depend on the order before. */
  lemma MirrorHasSameMedian(a: seq<int>, b: seq<int>)
    requires a != [] && |a| == |b| && forall k :: 0 <= k < |a| ==> b[|b| - 1 - k] == a[k]
    ensures |Sorted(b)| == |b| && Sorted(b)[|b| / 2] == Median(a)
  {
    var m, n := Median(a), Median(b);
    MirrorBelow(a, b, m);
    MirrorBelow(a, b, n);
    MedianAtLeast(a, m);
    MedianAtLeast(b, m);
    MedianAtLeast(a, n);
    MedianAtLeast(b, n);
    SortedSorts(b);
  }

  lemma {:induction false} MirrorBelow(a: seq<int>, b: seq<int>, v: int)
    requires |a| == |b| && forall k :: 0 <= k < |a| ==> b[|b| - 1 - k] == a[k]
    ensures Below(a, v) == Below(b, v)
  {
    if a != [] {
      var n := |b| - 1;
      MirrorBelow(a[1..], b[..n], v);
      assert b == b[..n] + [b[n]];
      BelowAppend(b[..n], b[n], v);
    }
  }

  lemma {:induction false} BelowAppend(s: seq<int>, x: int, v: int)
    ensures Below(s + [x], v) == Below(s, v) + if x < v then 1 else 0
  {
    if s == [] {
      assert s + [x] == [x];
    } else {
      BelowAppend(s[1..], x, v);
      assert (s + [x])[1..] == s[1..] + [x];
    }
  }

  // ---------------------------------------------------------------- along the chain

  /** The time a new block gets; the field holds 32 bits. */
  method UpdateTime(pindexPrev: CBlockIndex, adjusted: int) returns (nTime: int)
    ensures nTime == Max(MedianTimePast(pindexPrev) + 1, adjusted) % 0x1_0000_0000
    ensures Max(MedianTimePast(pindexPrev) + 1, adjusted) < 0x1_0000_0000 && MedianTimePast(pindexPrev) >= 0 ==>
              nTime > MedianTimePast(pindexPrev) && nTime >= adjusted
  {
    var median := GetMedianTimePast(pindexPrev);
    nTime := Max(median + 1, adjusted) % 0x1_0000_0000;
  }

  /** A list with a later time in front, cut to the span, has no earlier median. */
  lemma NewTimeInFront(s: seq<int>, t: int, n: nat)
    requires s != [] && t > Median(s) && (n == |s| + 1 || (n == |s| && n % 2 == 1))
    ensures Median(([t] + s)[..n]) >= Median(s)
  {
    var m := Median(s);
    var w := ([t] + s)[..n];
    MedianIsMiddle(s);
    assert w == [t] + s[..n - 1];
    assert w[1..] == s[..n - 1];
    BelowTake(s, n - 1, m);
    MedianAtLeast(w, m);
  }

  /** When the time of a block is past the median before it, the median does not fall. */
  lemma MedianStep(b: CBlockIndex)
    requires b.pprev != null && b.nTime > MedianTimePast(b.pprev)
    ensures MedianTimePast(b) >= MedianTimePast(b.pprev)
  {
    var s := Times(b.pprev, SPAN);
    TimesTake(b.pprev, SPAN);
    assert Times(b, SPAN) == [b.nTime] + Times(b.pprev, SPAN - 1);
    if |s| == SPAN {
      assert Times(b, SPAN) == ([b.nTime] + s)[..SPAN];
      NewTimeInFront(s, b.nTime, SPAN);
    } else {
      assert Times(b, SPAN) == ([b.nTime] + s)[..|s| + 1];
      NewTimeInFront(s, b.nTime, |s| + 1);
    }
  }

  lemma {:induction false} TimesTake(b: CBlockIndex?, n: nat)
    requires n > 0
    ensures Times(b, n - 1) == if |Times(b, n)| < n then Times(b, n) else Times(b, n)[..n - 1]
  {
    if b != null && n > 1 {
      TimesTake(b.pprev, n - 1);
    }
  }

  /** Every block's time is past the median before it, as the time update makes it. */
  ghost predicate TimesFollow(b: CBlockIndex)
    requires Linked(b)
    decreases b.nHeight
  {
    b.pprev != null ==> b.nTime > MedianTimePast(b.pprev) && TimesFollow(b.pprev)
  }

  /** Along such a chain the median never decreases, from any ancestor on, genesis included. */
  lemma {:induction false} MedianNeverDecreases(b: CBlockIndex, h: nat)
    requires Linked(b) && TimesFollow(b) && h <= b.nHeight
    ensures MedianTimePast(Ancestor(b, h)) <= MedianTimePast(b)
    decreases b.nHeight
  {
    if h < b.nHeight {
      MedianStep(b);
      MedianNeverDecreases(b.pprev, h);
    }
  }
}
