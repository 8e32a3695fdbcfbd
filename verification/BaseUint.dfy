/** Unsigned integers of any number of 32-bit limbs, lowest limb first. */
module BaseUint {
  import opened Common

  const B: int := 0x1_0000_0000

  type Limb = x: int | 0 <= x < B

  // ---------------------------------------------------------------- powers of two

  lemma {:induction false} Pow2Add(a: nat, b: nat)
    ensures Pow2(a + b) == Pow2(a) * Pow2(b)
    decreases a
  {
    if a > 0 {
      Pow2Add(a - 1, b);
      MulAssoc(2, Pow2(a - 1), Pow2(b));
    }
  }

  lemma MulAssoc(a: int, b: int, c: int)
    ensures (a * b) * c == a * (b * c)
  {
  }

  lemma Pow2Of32()
    ensures Pow2(32) == B
  {
    assert Pow2(8) == 256;
    Pow2Add(8, 8);
    Pow2Add(16, 16);
  }

  /** The weight of limb i. */
  function W(i: nat): (r: nat)
    ensures r > 0
  {
    Pow2(32 * i)
  }

  lemma WNext(i: nat)
    ensures W(i + 1) == B * W(i) && W(0) == 1
  {
    Pow2Of32();
    Pow2Add(32, 32 * i);
  }

  // ---------------------------------------------------------------- values

  function Value(s: seq<Limb>): int {
    if s == [] then 0 else Value(s[..|s| - 1]) + s[|s| - 1] as int * W(|s| - 1)
  }

  lemma {:induction false} ValueBound(s: seq<Limb>)
    ensures 0 <= Value(s) < W(|s|)
  {
    if s == [] {
      WNext(0);
    } else {
      var n := |s| - 1;
      ValueBound(s[..n]);
      WNext(n);
      var top: int := s[n];
      MulMono(top, B - 1, W(n));
      assert (B - 1) * W(n) == B * W(n) - W(n);
    }
  }

  lemma MulMono(a: int, b: int, c: int)
    requires 0 <= a <= b && 0 <= c
    ensures 0 <= a * c <= b * c
  {
  }

  lemma ValuePrefix(s: seq<Limb>, i: nat)
    requires i < |s|
    ensures Value(s[..i + 1]) == Value(s[..i]) + s[i] as int * W(i)
    ensures Value(s[..0]) == 0 && s[..|s|] == s
  {
    assert s[..i + 1][..i] == s[..i];
  }

  lemma {:induction false} ValueUpdate(s: seq<Limb>, j: nat, x: Limb)
    requires j < |s|
    ensures Value(s[j := x]) == Value(s) + (x as int - s[j] as int) * W(j)
  {
    var n := |s| - 1;
    var t := s[j := x];
    if j == n {
      assert t[..n] == s[..n];
      Distribute(x as int, s[n] as int, W(n));
    } else {
      ValueUpdate(s[..n], j, x);
      assert t[..n] == s[..n][j := x];
    }
  }

  lemma Distribute(a: int, b: int, c: int)
    ensures (a - b) * c == a * c - b * c
    ensures (a + b) * c == a * c + b * c
  {
  }

  lemma {:induction false} ValueOfZeros(n: nat)
    ensures Value(seq(n, i => 0 as Limb)) == 0
  {
    if n > 0 {
      assert seq(n, i => 0 as Limb)[..n - 1] == seq(n - 1, i => 0 as Limb);
      ValueOfZeros(n - 1);
    }
  }

  lemma SmallMultiple(k: int, m: int)
    requires -m < k * m < m
    ensures k == 0
  {
    if k >= 1 {
      MulMono(1, k, m);
    } else if k <= -1 {
      MulMono(1, -k, m);
    }
  }

  lemma DivMod(x: int, m: int)
    requires m > 0
    ensures x == (x / m) * m + x % m && 0 <= x % m < m
  {
  }

  /** A value in range is the remainder of anything it differs from by a multiple. */
  lemma ModUnique(x: int, r: int, q: int, m: int)
    requires 0 <= r < m && x == r + q * m
    ensures x % m == r && x / m == q
  {
    var d, e := x / m, x % m;
    DivMod(x, m);
    Distribute(d, q, m);
    assert (d - q) * m == r - e;
    SmallMultiple(d - q, m);
  }

  /** The highest limb that differs decides. */
  lemma {:induction false} TopDecides(a: seq<Limb>, b: seq<Limb>, i: nat)
    requires |a| == |b| && i < |a| && a[i] < b[i] && forall j :: i < j < |a| ==> a[j] == b[j]
    ensures Value(a) < Value(b)
  {
    var n := |a| - 1;
    if i == n {
      ValueBound(a[..n]);
      ValueBound(b[..n]);
      var x: int, y: int := a[n], b[n];
      MulMono(x + 1, y, W(n));
      Distribute(x, 1, W(n));
    } else {
      TopDecides(a[..n], b[..n], i);
    }
  }

  // ---------------------------------------------------------------- bits

  /** Bitwise or. */
  function BitOr(a: nat, b: nat): nat {
    if a == 0 && b == 0 then 0 else 2 * BitOr(a / 2, b / 2) + if a % 2 == 1 || b % 2 == 1 then 1 else 0
  }

  lemma {:induction false} BitOrZero(a: nat)
    ensures BitOr(a, 0) == a && BitOr(0, a) == a
  {
    if a > 0 {
      BitOrZero(a / 2);
    }
  }

  /** Bits that do not overlap add up. */
  lemma {:induction false} BitOrDisjoint(low: nat, high: nat, s: nat)
    requires low < Pow2(s)
    ensures BitOr(low, high * Pow2(s)) == low + high * Pow2(s)
    ensures BitOr(high * Pow2(s), low) == low + high * Pow2(s)
    decreases s
  {
    if s == 0 {
      BitOrZero(high);
    } else {
      var h := high * Pow2(s - 1);
      MulSwap(high, Pow2(s - 1));
      assert high * Pow2(s) == 2 * h;
      BitOrDisjoint(low / 2, high, s - 1);
      assert 2 * h / 2 == h && 2 * h % 2 == 0;
      if low == 0 && h == 0 { } else {
        assert BitOr(low, 2 * h) == 2 * BitOr(low / 2, h) + low % 2;
        assert BitOr(2 * h, low) == 2 * BitOr(h, low / 2) + low % 2;
      }
    }
  }

  lemma MulSwap(a: int, b: int)
    ensures a * (2 * b) == 2 * (a * b)
  {
  }

  // ---------------------------------------------------------------- the integers

  class Uint {
    const pn: array<Limb>

    ghost function Val(): int
      reads pn
    {
      Value(pn[..])
    }

    /** 2 to the number of bits. */
    function Modulus(): int {
      W(pn.Length)
    }

    constructor (n: nat)
      ensures fresh(pn) && pn.Length == n && Val() == 0
    {
      pn := new Limb[n](i => 0);
      new;
      assert pn[..] == seq(n, i => 0 as Limb);
      ValueOfZeros(n);
    }

    constructor Copy(b: Uint)
      ensures fresh(pn) && pn[..] == b.pn[..]
    {
      var a := new Limb[b.pn.Length](i requires 0 <= i < b.pn.Length reads b.pn => b.pn[i]);
      pn := a;
    }

    /** The limbs of a number. */
    constructor FromInt(n: nat, v: nat)
      requires v < W(n)
      ensures fresh(pn) && pn.Length == n && Val() == v
    {
      hide Value;
      hide Pow2;
      hide W;
      pn := new Limb[n](i => 0);
      new;
      var rest := v;
      WNext(0);
      NothingYet(pn[..], 1);
      assert pn[..0] == pn[..][..0];
      for i := 0 to n
        invariant rest >= 0 && v == Value(pn[..i]) + rest * W(i)
      {
        ghost var before := pn[..i];
        pn[i] := rest % B;
        assert pn[..i] == before && pn[..i + 1][..i] == pn[..i];
        ValuePrefix(pn[..i + 1], i);
        assert pn[..i + 1][..i + 1] == pn[..i + 1];
        WNext(i);
        Distribute(rest % B, rest / B * B, W(i));
        MulAssoc(rest / B, B, W(i));
        rest := rest / B;
      }
      assert pn[..n] == pn[..];
      ValueBound(pn[..]);
      SmallQuotient(v, Value(pn[..]), rest, W(n));
    }

    /** ~pn: every limb complemented. */
    method Complement() returns (r: Uint)
      ensures fresh(r) && fresh(r.pn) && r.pn.Length == pn.Length && r.Val() == Modulus() - 1 - Val()
    {
      r := new Uint(pn.Length);
      WNext(0);
      for i := 0 to pn.Length
        invariant Value(r.pn[..i]) + Value(pn[..i]) == W(i) - 1
        invariant pn[..] == old(pn[..])
      {
        var limb: int := pn[i];
        r.pn[i] := B - 1 - limb;
        ValuePrefix(r.pn[..], i);
        ValuePrefix(pn[..], i);
        assert r.pn[..][..i] == r.pn[..i] && r.pn[..][..i + 1] == r.pn[..i + 1];
        assert pn[..][..i] == pn[..i] && pn[..][..i + 1] == pn[..i + 1];
        WNext(i);
        Distribute(B - 1 - limb, limb, W(i));
        Distribute(B, 1, W(i));
      }
      assert r.pn[..r.pn.Length] == r.pn[..] && pn[..pn.Length] == pn[..];
    }

    /** += : limb by limb with carry. */
    method AddAssign(b: Uint)
      requires pn.Length == b.pn.Length
      modifies pn
      ensures Val() == old(Val() + b.Val()) % Modulus()
    {
      hide Value;
      hide Pow2;
      hide W;
      ghost var x, y := pn[..], b.pn[..];
      var carry := 0;
      WNext(0);
      NothingYet(x, 1);
      NothingYet(y, 1);
      NothingYet(pn[..], 1);
      assert pn[..0] == pn[..][..0];
      for i := 0 to pn.Length
        invariant 0 <= carry <= 1
        invariant Value(pn[..i]) + carry * W(i) == Value(x[..i]) + Value(y[..i])
        invariant pn[i..] == x[i..] && b.pn[i..] == y[i..]
      {
        var u: int, v: int := pn[i], b.pn[i];
        assert u == x[i] && v == y[i];
        ghost var before := pn[..i];
        var n := carry + u + v;
        pn[i] := n % B;
        assert pn[..i] == before;
        ValuePrefix(pn[..i + 1], i);
        assert pn[..i + 1][..i] == pn[..i] && pn[..i + 1][..i + 1] == pn[..i + 1];
        ValuePrefix(x, i);
        ValuePrefix(y, i);
        WNext(i);
        CarryStep(carry, u, v, n, W(i));
        carry := n / B;
      }
      assert pn[..pn.Length] == pn[..] && x[..|x|] == x && y[..|y|] == y;
      ValueBound(pn[..]);
      ModUnique(Value(x) + Value(y), Value(pn[..]), carry, W(pn.Length));
    }

    /** ++ : the carry runs up as long as limbs wrap to zero. */
    method Increment()
      requires pn.Length > 0
      modifies pn
      ensures Val() == (old(Val()) + 1) % Modulus()
    {
      hide Value;
      hide Pow2;
      hide W;
      var i := 0;
      WNext(0);
      while true
        invariant 0 <= i < pn.Length && Val() + W(i) == old(Val()) + 1
        decreases pn.Length - i
      {
        var limb: int := pn[i];
        ghost var before := pn[..];
        var x: Limb := (limb + 1) % B;
        pn[i] := x;
        assert pn[..] == before[i := x];
        ValueUpdate(before, i, x);
        WNext(i);
        ValueBound(pn[..]);
        if !(x == 0 && i < pn.Length - 1) {
          if x == 0 {
            Distribute(0, limb, W(i));
            Distribute(B, 1, W(i));
            ModUnique(old(Val()) + 1, Val(), 1, Modulus());
          } else {
            assert x == limb + 1;
            ModUnique(old(Val()) + 1, Val(), 0, Modulus());
          }
          break;
        }
        Distribute(0, limb, W(i));
        Distribute(B, 1, W(i));
        i := i + 1;
      }
    }

    /** -- : the borrow runs up as long as limbs wrap to all ones. */
    method Decrement()
      requires pn.Length > 0
      modifies pn
      ensures Val() == (old(Val()) - 1) % Modulus()
    {
      hide Value;
      hide Pow2;
      hide W;
      var i := 0;
      WNext(0);
      while true
        invariant 0 <= i < pn.Length && Val() - W(i) == old(Val()) - 1
        decreases pn.Length - i
      {
        var limb: int := pn[i];
        ghost var before := pn[..];
        var x: Limb := (limb - 1) % B;
        pn[i] := x;
        assert pn[..] == before[i := x];
        ValueUpdate(before, i, x);
        WNext(i);
        ValueBound(pn[..]);
        if !(x == B - 1 && i < pn.Length - 1) {
          if limb == 0 {
            Distribute(B, 1, W(i));
            ModUnique(old(Val()) - 1, Val(), -1, Modulus());
          } else {
            assert x == limb - 1;
            ModUnique(old(Val()) - 1, Val(), 0, Modulus());
          }
          break;
        }
        assert limb == 0;
        Distribute(B, 1, W(i));
        i := i + 1;
      }
    }

    /** Unary minus: complement and add one. */
    method Negate() returns (r: Uint)
      requires pn.Length > 0
      ensures fresh(r) && fresh(r.pn) && r.pn.Length == pn.Length && r.Val() == (-Val()) % Modulus()
    {
      r := Complement();
      r.Increment();
      ValueBound(pn[..]);
      ValueBound(r.pn[..]);
      if Val() == 0 {
        ModUnique(Modulus(), 0, 1, Modulus());
        ModUnique(0, 0, 0, Modulus());
      } else {
        ModUnique(Modulus() - Val(), Modulus() - Val(), 0, Modulus());
        ModUnique(-Val(), Modulus() - Val(), -1, Modulus());
      }
    }

    /** -= : the negation is added. */
    method SubAssign(b: Uint)
      requires pn.Length == b.pn.Length > 0
      modifies pn
      ensures Val() == old(Val() - b.Val()) % Modulus()
    {
      hide Value;
      hide Pow2;
      hide W;
      ghost var x, y := Val(), b.Val();
      var minus := b.Negate();
      AddAssign(minus);
      ModSub(x, y, Modulus());
    }

    /** < : the limbs are compared from the top. */
    method Less(b: Uint) returns (r: bool)
      requires pn.Length == b.pn.Length
      ensures r <==> Val() < b.Val()
    {
      var i := pn.Length - 1;
      while i >= 0
        invariant -1 <= i < pn.Length
        invariant forall j :: i < j < pn.Length ==> pn[j] == b.pn[j]
      {
        if pn[i] < b.pn[i] {
          TopDecides(pn[..], b.pn[..], i);
          return true;
        } else if pn[i] > b.pn[i] {
          TopDecides(b.pn[..], pn[..], i);
          return false;
        }
        i := i - 1;
      }
      assert pn[..] == b.pn[..];
      return false;
    }

    /** == : limb by limb. */
    method Equals(b: Uint) returns (r: bool)
      requires pn.Length == b.pn.Length
      ensures r <==> Val() == b.Val()
    {
      for i := 0 to pn.Length
        invariant forall j :: 0 <= j < i ==> pn[j] == b.pn[j]
      {
        if pn[i] != b.pn[i] {
          assert pn[..][i] != b.pn[..][i];
          ValueIsInjective(pn[..], b.pn[..]);
          return false;
        }
      }
      assert pn[..] == b.pn[..];
      return true;
    }

    /** Ors bits into a place whose bits so far are all below them. */
    method OrInto(j: nat, x: Limb, ghost s: nat, ghost l: nat)
      requires j < pn.Length && s <= 32
      requires pn[j] == 0 || (pn[j] as int < Pow2(s) && x as int == l * Pow2(s))
      modifies pn
      ensures pn[..] == old(pn[..])[j := pn[j]] && pn[j] as int == old(pn[j]) as int + x as int
      ensures Val() == old(Val()) + x as int * W(j)
    {
      var low: int, high: int := pn[j], x;
      ghost var before := pn[..];
      if low == 0 {
        BitOrZero(high);
      } else {
        BitOrDisjoint(low, l, s);
        NoOverlap(low, l, s);
      }
      pn[j] := BitOr(low, high);
      assert pn[..] == before[j := pn[j]];
      ValueUpdate(before, j, pn[j]);
    }

    /** <<= : each limb goes to two neighbouring places, what leaves at the top is lost. */
    method ShiftLeft(shift: nat)
      modifies pn
      ensures Val() == (old(Val()) * Pow2(shift)) % Modulus()
    {
      hide Value;
      hide Pow2;
      hide W;
      var a := new Uint.Copy(this);
      ghost var x := a.pn[..];
      Clear();
      var k, s := shift / 32, shift % 32;
      ghost var lost := 0;
      NothingYet(x, Pow2(shift));
      for i := 0 to pn.Length
        invariant a.pn[..] == x
        invariant forall j: nat :: j < pn.Length && j > i + k ==> pn[j] == 0
        invariant i + k < pn.Length ==> pn[i + k] == 0 || (s > 0 && pn[i + k] as int < Pow2(s))
        invariant Value(x[..i]) * Pow2(shift) == Val() + lost * Modulus()
      {
        var limb: int := a.pn[i];
        assert limb == x[i];
        ghost var l := SplitLeft(limb, s);
        ghost var lo, hi := limb * Pow2(s) % B, limb / Pow2(32 - s);
        LimbShifted(x, i, k, s, shift, lo, hi);
        PlacedOrLost(lo, i + k, pn.Length);
        PlacedOrLost(hi, i + k + 1, pn.Length);
        Distribute(lost, (if i + k < pn.Length then 0 else lo * W(i + k - pn.Length)), Modulus());
        Distribute(lost + (if i + k < pn.Length then 0 else lo * W(i + k - pn.Length)),
                   (if i + k + 1 < pn.Length then 0 else hi * W(i + k + 1 - pn.Length)), Modulus());
        if i + k + 1 < pn.Length && s != 0 {
          OrInto(i + k + 1, limb / Pow2(32 - s), 0, 0);
        }
        if i + k < pn.Length {
          OrInto(i + k, limb * Pow2(s) % B, s, l);
        }
        lost := lost + (if i + k < pn.Length then 0 else lo * W(i + k - pn.Length))
                     + (if i + k + 1 < pn.Length then 0 else hi * W(i + k + 1 - pn.Length));
      }
      assert x[..pn.Length] == x;
      ValueBound(pn[..]);
      ModUnique(Value(x) * Pow2(shift), Val(), lost, Modulus());
    }

    /** >>= : what leaves at the bottom is lost. */
    method ShiftRight(shift: nat)
      modifies pn
      ensures Val() == old(Val()) / Pow2(shift)
    {
      hide Value;
      hide Pow2;
      hide W;
      var a := new Uint.Copy(this);
      ghost var x := a.pn[..];
      Clear();
      var k, s := shift / 32, shift % 32;
      ghost var rem := 0;
      NothingYet(x, 1);
      WNext(0);
      for i := 0 to pn.Length
        invariant a.pn[..] == x
        invariant forall j: nat :: j < pn.Length && j >= i - k ==> pn[j] == 0
        invariant i > k ==> pn[i - k - 1] as int < Pow2(32 - s)
        invariant Value(x[..i]) == Val() * Pow2(shift) + rem
        invariant 0 <= rem < if i <= k then W(i) else Pow2(shift)
      {
        var limb: int := a.pn[i];
        assert limb == x[i];
        SplitRight(limb, s);
        ghost var low := limb % Pow2(s);
        rem := RightStep(x, i, k, s, shift, Val(), rem);
        if i - k - 1 >= 0 && s != 0 {
          OrInto(i - k - 1, limb * Pow2(32 - s) % B, 32 - s, low);
        }
        if i - k >= 0 {
          OrInto(i - k, limb / Pow2(s), 0, 0);
        }
      }
      assert x[..pn.Length] == x;
      WBelowShift(pn.Length, k, s, shift);
      ModUnique(Value(x), rem, Val(), Pow2(shift));
    }

    method Clear()
      modifies pn
      ensures Val() == 0 && forall j :: 0 <= j < pn.Length ==> pn[j] == 0
    {
      for i := 0 to pn.Length
        invariant forall j :: 0 <= j < i ==> pn[j] == 0
      {
        pn[i] := 0;
      }
      assert pn[..] == seq(pn.Length, i => 0 as Limb);
      ValueOfZeros(pn.Length);
    }
  }

  /** Below 2^32 there is room for bits under a multiple of 2^s. */
  lemma NoOverlap(low: int, l: nat, s: nat)
    requires 0 <= low < Pow2(s) && s <= 32 && l * Pow2(s) < B
    ensures low + l * Pow2(s) < B
  {
    var m := Pow2(32 - s);
    Pow2Of32();
    Pow2Add(32 - s, s);
    if l >= m {
      MulMono(m, l, Pow2(s));
    }
    MulMono(l + 1, m, Pow2(s));
    Distribute(l, 1, Pow2(s));
  }

  lemma NothingYet(x: seq<Limb>, p: int)
    ensures Value(x[..0]) == 0 && Value(x[..0]) * p == 0
  {
  }

  /** A limb shifted left by s: its low bits stay a multiple of 2^s, its high bits come out below 2^s. */
  lemma SplitLeft(limb: int, s: nat) returns (l: nat)
    requires 0 <= limb < B && s < 32
    ensures limb * Pow2(s) % B == l * Pow2(s)
    ensures limb * Pow2(s) == limb * Pow2(s) % B + (limb / Pow2(32 - s)) * B
    ensures 0 <= limb / Pow2(32 - s) < Pow2(s) && limb / Pow2(32 - s) < B
    ensures s == 0 ==> limb / Pow2(32 - s) == 0
  {
    var t, p := Pow2(32 - s), Pow2(s);
    Pow2Of32();
    Pow2Add(32 - s, s);
    DivMod(limb, t);
    l := limb % t;
    var h := limb / t;
    DivBound(limb, t, p);
    Distribute(h * t, l, p);
    MulAssoc(h, t, p);
    assert limb * p == h * B + l * p;
    MulMono(l + 1, t, p);
    Distribute(l, 1, p);
    MulMono(0, l, p);
    ModUnique(limb * p, l * p, h, B);
    MulMono(1, t, p);
    assert Pow2(0) == 1;
  }

  lemma DivBound(x: int, t: int, p: int)
    requires 0 <= x < t * p && t > 0
    ensures 0 <= x / t < p
  {
    DivMod(x, t);
    var h := x / t;
    if h >= p {
      MulMono(p, h, t);
    } else if h < 0 {
      MulMono(1, -h, t);
    }
  }

  lemma LimbShifted(x: seq<Limb>, i: nat, k: nat, s: nat, shift: nat, lo: int, hi: int)
    requires i < |x| && shift == 32 * k + s && x[i] as int * Pow2(s) == lo + hi * B
    ensures Value(x[..i + 1]) * Pow2(shift) == Value(x[..i]) * Pow2(shift) + lo * W(i + k) + hi * W(i + k + 1)
  {
    hide Pow2;
    hide Value;
    var limb: int := x[i];
    ValuePrefix(x, i);
    Distribute(Value(x[..i]), limb * W(i), Pow2(shift));
    Pow2Add(32 * i, shift);
    Pow2Add(32 * (i + k), s);
    assert 32 * i + shift == 32 * (i + k) + s;
    var w, p := W(i + k), Pow2(s);
    assert W(i) * Pow2(shift) == w * p;
    MulAssoc(limb, W(i), Pow2(shift));
    Reorder(limb, w, p);
    Distribute(lo, hi * B, w);
    MulAssoc(hi, B, w);
    WNext(i + k);
  }

  /** A limb shifted right by s: what stays, and the bits that move on to the place below. */
  lemma SplitRight(limb: int, s: nat)
    requires 0 <= limb < B && s < 32
    ensures 0 <= limb / Pow2(s) < Pow2(32 - s) && limb / Pow2(s) < B
    ensures 0 <= limb % Pow2(s) < Pow2(s) && limb == limb / Pow2(s) * Pow2(s) + limb % Pow2(s)
    ensures limb * Pow2(32 - s) % B == limb % Pow2(s) * Pow2(32 - s)
    ensures s == 0 ==> limb % Pow2(s) == 0
  {
    var p, t := Pow2(s), Pow2(32 - s);
    Pow2Of32();
    Pow2Add(s, 32 - s);
    Pow2Add(32 - s, s);
    DivMod(limb, p);
    DivBound(limb, p, t);
    var h, low := limb / p, limb % p;
    Distribute(h * p, low, t);
    MulAssoc(h, p, t);
    MulMono(low + 1, p, t);
    Distribute(low, 1, t);
    MulMono(0, low, t);
    ModUnique(limb * t, low * t, h, B);
    MulMono(1, p, t);
    MulMono(h, h, p);
    assert Pow2(0) == 1;
  }

  lemma LimbBound(limb: int, rem: int, i: nat)
    requires 0 <= limb < B
    ensures 0 <= limb * W(i) && (rem < W(i) ==> rem + limb * W(i) < W(i + 1))
  {
    WNext(i);
    MulMono(limb + 1, B, W(i));
    Distribute(limb, 1, W(i));
    MulMono(0, limb, W(i));
  }

  /** What one more limb adds to the quotient and to the remainder. */
  lemma RightStep(x: seq<Limb>, i: nat, k: nat, s: nat, shift: nat, val: int, rem: int) returns (rem': int)
    requires i < |x| && s < 32 && shift == 32 * k + s
    requires Value(x[..i]) == val * Pow2(shift) + rem && 0 <= rem < if i <= k then W(i) else Pow2(shift)
    ensures var limb := x[i] as int;
            var stays, moves := if i >= k then limb / Pow2(s) * W(i - k) else 0,
                                if i > k then limb % Pow2(s) * Pow2(32 - s) * W(i - k - 1) else 0;
            Value(x[..i + 1]) == (val + stays + moves) * Pow2(shift) + rem'
    ensures 0 <= rem' < if i + 1 <= k then W(i + 1) else Pow2(shift)
  {
    hide Value;
    hide Pow2;
    hide W;
    var limb: int := x[i];
    SplitRight(limb, s);
    var h, low := limb / Pow2(s), limb % Pow2(s);
    ValuePrefix(x, i);
    LimbBound(limb, rem, i);
    rem' := rem;
    if i < k {
      rem' := rem + limb * W(i);
    } else {
      LimbDropped(limb, h, low, i, k, s, shift);
      Distribute(val, h * W(i - k), Pow2(shift));
      if i == k {
        RestBound(rem, low, k, s, shift);
        rem' := rem + low * W(k);
      } else {
        Distribute(val + h * W(i - k), low * Pow2(32 - s) * W(i - k - 1), Pow2(shift));
      }
    }
  }

  /** The weight of what stays of limb i, and of the bits moved on. */
  lemma LimbDropped(limb: int, h: int, low: int, i: nat, k: nat, s: nat, shift: nat)
    requires k <= i && s < 32 && shift == 32 * k + s && limb == h * Pow2(s) + low
    ensures limb * W(i) == h * W(i - k) * Pow2(shift) + low * W(i)
    ensures i > k ==> low * W(i) == low * Pow2(32 - s) * W(i - k - 1) * Pow2(shift)
  {
    Distribute(h * Pow2(s), low, W(i));
    Pow2Add(s, 32 * i);
    Pow2Add(32 * (i - k), shift);
    assert s + 32 * i == 32 * (i - k) + shift;
    MulAssoc(h, Pow2(s), W(i));
    MulAssoc(h, W(i - k), Pow2(shift));
    if i > k {
      Pow2Add(32 - s, 32 * (i - k - 1));
      Pow2Add(32 - s + 32 * (i - k - 1), shift);
      assert 32 - s + 32 * (i - k - 1) + shift == 32 * i;
      MulAssoc(low, Pow2(32 - s), W(i - k - 1));
      MulAssoc(low, Pow2(32 - s) * W(i - k - 1), Pow2(shift));
    }
  }

  lemma RestBound(rem: int, low: int, k: nat, s: nat, shift: nat)
    requires shift == 32 * k + s && 0 <= rem < W(k) && 0 <= low < Pow2(s)
    ensures 0 <= rem + low * W(k) < Pow2(shift)
  {
    Pow2Add(s, 32 * k);
    MulMono(low + 1, Pow2(s), W(k));
    Distribute(low, 1, W(k));
    MulMono(0, low, W(k));
  }

  lemma WBelowShift(n: nat, k: nat, s: nat, shift: nat)
    requires shift == 32 * k + s
    ensures n <= k ==> W(n) <= Pow2(shift)
  {
    hide Pow2;
    if n <= k {
      var more := shift - 32 * n;
      Pow2Add(more, 32 * n);
      MulMono(1, Pow2(more), W(n));
    }
  }

  lemma Reorder(a: int, w: int, p: int)
    ensures a * (w * p) == (a * p) * w
  {
  }

  lemma PlacedOrLost(x: int, j: nat, n: nat)
    ensures x * W(j) == (if j < n then x * W(j) else 0) + (if j < n then 0 else x * W(j - n)) * W(n)
  {
    if j >= n {
      Pow2Add(32 * (j - n), 32 * n);
      assert 32 * (j - n) + 32 * n == 32 * j;
      MulAssoc(x, W(j - n), W(n));
    }
  }

  lemma SmallQuotient(v: int, r: int, q: int, m: int)
    requires v == r + q * m && 0 <= v < m && 0 <= r < m
    ensures q == 0 && v == r
  {
    SmallMultiple(q, m);
  }

  lemma {:induction false} ValueIsInjective(a: seq<Limb>, b: seq<Limb>)
    requires |a| == |b| && a != b
    ensures Value(a) != Value(b)
  {
    var n := |a| - 1;
    if a[n] == b[n] {
      assert a == a[..n] + [a[n]] && b == b[..n] + [b[n]];
      ValueIsInjective(a[..n], b[..n]);
    } else if a[n] < b[n] {
      TopDecides(a, b, n);
    } else {
      TopDecides(b, a, n);
    }
  }

  lemma ModSub(x: int, y: int, m: int)
    requires m > 0
    ensures (x + (-y) % m) % m == (x - y) % m
  {
    var p, q := (-y) / m, (x + (-y) % m) / m;
    DivMod(-y, m);
    DivMod(x + (-y) % m, m);
    Distribute(q, p, m);
    ModUnique(x - y, (x + (-y) % m) % m, q + p, m);
  }

  lemma CarryStep(carry: int, u: int, v: int, n: int, w: int)
    requires n == carry + u + v
    ensures (n % B) * w + (n / B) * (B * w) == carry * w + u * w + v * w
  {
    assert n == (n / B) * B + n % B;
    MulAssoc(n / B, B, w);
    Distribute(n % B, (n / B) * B, w);
    Distribute(carry + u, v, w);
    Distribute(carry, u, w);
  }

  // ---------------------------------------------------------------- the work of a block

  /** Division by its meaning. */
  method Divide(a: Uint, b: Uint) returns (r: Uint)
    requires a.pn.Length == b.pn.Length && b.Val() > 0
    ensures fresh(r) && fresh(r.pn) && r.pn.Length == a.pn.Length && r.Val() == a.Val() / b.Val()
  {
    ValueBound(a.pn[..]);
    QuotientBound(a.Val(), b.Val());
    r := new Uint.FromInt(a.pn.Length, Value(a.pn[..]) / Value(b.pn[..]));
  }

  lemma QuotientBound(x: int, d: int)
    requires x >= 0 && d > 0
    ensures 0 <= x / d <= x
  {
    DivMod(x, d);
    var q := x / d;
    if q < 0 {
      MulMono(1, -q, d);
    } else {
      MulMono(1, d, q);
    }
  }

  /** The expected number of hashes: 2^256 over one more than the target, though 2^256 itself does not fit. */
  method GetBlockProof(bnTarget: Uint, fNegative: bool, fOverflow: bool) returns (r: Uint)
    requires bnTarget.pn.Length == 8 && bnTarget.Val() < Pow2(256) - 1
    ensures r.pn.Length == 8
    ensures fNegative || fOverflow || bnTarget.Val() == 0 ==> r.Val() == 0
    ensures !fNegative && !fOverflow && bnTarget.Val() > 0 ==> r.Val() == Pow2(256) / (bnTarget.Val() + 1)
  {
    hide Value;
    hide Pow2;
    ghost var t := bnTarget.Val();
    ValueBound(bnTarget.pn[..]);
    var zero := new Uint(8);
    var isZero := bnTarget.Equals(zero);
    if fNegative || fOverflow || isZero {
      return zero;
    }
    var complement := bnTarget.Complement();
    var plusOne := new Uint.Copy(bnTarget);
    plusOne.Increment();
    ModUnique(t + 1, t + 1, 0, Pow2(256));
    r := Divide(complement, plusOne);
    OneQuotientMore(Pow2(256), t + 1);
    r.Increment();
    ModUnique(Pow2(256) / (t + 1), Pow2(256) / (t + 1), 0, Pow2(256));
  }

  lemma OneQuotientMore(n: int, d: int)
    requires 2 <= d <= n
    ensures (n - d) / d + 1 == n / d && 0 <= n / d < n
  {
    DivMod(n - d, d);
    ModUnique(n, (n - d) % d, (n - d) / d + 1, d);
    DivMod(n, d);
    var q := n / d;
    QuotientBound(n, d);
    MulMono(2, d, q);
  }
}
