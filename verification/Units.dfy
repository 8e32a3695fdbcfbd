/** Printing amounts in one of three units and reading them back. */
module Units {
  import opened Common

  datatype Unit = DYST | mDYST | uDYST | Unknown

  predicate Valid(unit: Unit) { unit != Unknown }

  function Factor(unit: Unit): int {
    match unit
    case DYST => 100000000
    case mDYST => 100000
    case uDYST => 100
    case Unknown => 100000000
  }

  function Decimals(unit: Unit): nat {
    match unit
    case DYST => 8
    case mDYST => 5
    case uDYST => 2
    case Unknown => 0
  }

  // ---------------------------------------------------------------- digits

  function Pow10(k: nat): (r: nat)
    ensures r > 0
  {
    if k == 0 then 1 else 10 * Pow10(k - 1)
  }

  function Digit(d: int): char
    requires 0 <= d < 10
  {
    "0123456789"[d]
  }

  predicate IsDigit(c: char) { '0' <= c <= '9' }

  function DigitValue(c: char): nat
    requires IsDigit(c)
  {
    c as int - '0' as int
  }

  /** The decimal digits of a number. */
  function Number(n: nat): (s: string)
    ensures s != []
  {
    if n < 10 then [Digit(n)] else Number(n / 10) + [Digit(n % 10)]
  }

  predicate AllDigits(s: string) {
    forall i :: 0 <= i < |s| ==> IsDigit(s[i])
  }

  function Value(s: string): nat
    requires AllDigits(s)
  {
    if s == [] then 0 else 10 * Value(s[..|s| - 1]) + DigitValue(s[|s| - 1])
  }

  function Zeros(n: nat): (s: string)
    ensures |s| == n
  {
    seq(n, i => '0')
  }

  /** Padded on the left, on the right. */
  function RightJustified(s: string, width: nat): string {
    if |s| < width then Zeros(width - |s|) + s else s
  }

  function LeftJustified(s: string, width: nat): string {
    if |s| < width then s + Zeros(width - |s|) else s
  }

  lemma {:induction false} NumberIsDigits(n: nat)
    ensures AllDigits(Number(n)) && Value(Number(n)) == n
  {
    DigitHasValue(n % 10);
    if n < 10 {
      assert Number(n)[..0] == [];
    } else {
      NumberIsDigits(n / 10);
      assert Number(n)[..|Number(n)| - 1] == Number(n / 10);
    }
  }

  lemma DigitHasValue(d: int)
    requires 0 <= d < 10
    ensures IsDigit(Digit(d)) && DigitValue(Digit(d)) == d
  {
  }

  /** A number has at most k digits exactly when it is below 10^k. */
  lemma {:induction false} NumberLength(n: nat, k: nat)
    requires k > 0
    ensures |Number(n)| <= k <==> n < Pow10(k)
    decreases k
  {
    assert Pow10(k) == 10 * Pow10(k - 1);
    if n >= 10 {
      if k == 1 {
        assert Pow10(0) == 1;
      } else {
        NumberLength(n / 10, k - 1);
      }
    } else {
      assert Pow10(k - 1) >= 1;
    }
  }

  lemma {:induction false} ValueConcat(a: string, b: string)
    requires AllDigits(a) && AllDigits(b)
    ensures AllDigits(a + b) && Value(a + b) == Value(a) * Pow10(|b|) + Value(b)
  {
    if b == [] {
      assert a + b == a;
    } else {
      var n := |b| - 1;
      ValueConcat(a, b[..n]);
      assert (a + b)[..|a + b| - 1] == a + b[..n];
      Reorder(Value(a), Pow10(n));
    }
  }

  lemma Reorder(v: int, p: int)
    ensures v * (10 * p) == 10 * (v * p)
  {
  }

  lemma {:induction false} ValueOfZeros(n: nat)
    ensures AllDigits(Zeros(n)) && Value(Zeros(n)) == 0
  {
    if n > 0 {
      ValueOfZeros(n - 1);
      assert Zeros(n)[..n - 1] == Zeros(n - 1);
    }
  }

  lemma {:induction false} ValueBound(s: string)
    requires AllDigits(s)
    ensures Value(s) < Pow10(|s|)
  {
    if s != [] {
      ValueBound(s[..|s| - 1]);
    }
  }

  lemma {:induction false} Pow10Grows(a: nat, b: nat)
    requires a <= b
    ensures Pow10(a) <= Pow10(b)
    decreases b
  {
    if a < b {
      Pow10Grows(a, b - 1);
    }
  }

  // ---------------------------------------------------------------- printing

  /** Zeros at the end go, but two places stay. */
  function Trimmed(s: string): (r: string)
    ensures |r| <= |s|
  {
    if |s| > 2 && s[|s| - 1] == '0' then Trimmed(s[..|s| - 1]) else s
  }

  function Sign(n: int, fPlus: bool): string {
    if n < 0 then "-" else if fPlus && n > 0 then "+" else ""
  }

  function Abs(n: int): nat { if n > 0 then n else -n }

  function Formatted(unit: Unit, n: int, fPlus: bool): string {
    if !Valid(unit) then "" else
      Sign(n, fPlus) + Number(Abs(n) / Factor(unit)) + "." +
      Trimmed(RightJustified(Number(Abs(n) % Factor(unit)), Decimals(unit)))
  }

  /** How many decimal places the smallest amount has in each unit. */
  ghost predicate Places(unit: Unit, d: nat, f: nat) {
    && (unit == DYST ==> d == 8 && f == 100000000)
    && (unit == mDYST ==> d == 5 && f == 100000)
    && (unit == uDYST ==> d == 2 && f == 100)
  }

  /** The text is a minus sign for a negative amount, a plus sign for a positive one if asked for, a whole number, a
      point, and at least two decimal places, of which more than two do not end in zero; read in the unit it is the
      amount. */
  ghost predicate Denotes(s: string, unit: Unit, n: int, fPlus: bool) {
    exists sign, whole, places ::
      && s == sign + whole + "." + places && sign == (if n < 0 then "-" else if fPlus && n > 0 then "+" else "")
      && exists d: nat, f: nat :: Places(unit, d, f) && Spells(whole, places, d, f, if n < 0 then -n else n)
  }

  ghost predicate Spells(whole: string, places: string, d: nat, f: nat, a: nat) {
    && whole != "" && AllDigits(whole) && (|whole| > 1 ==> whole[0] != '0')
    && AllDigits(places) && 2 <= |places| <= d && (|places| > 2 ==> places[|places| - 1] != '0')
    && Value(whole) * f + Value(places) * Pow10(d - |places|) == a
  }

  lemma SpelledDenotes(sign: string, whole: string, places: string, d: nat, f: nat, unit: Unit, n: int, fPlus: bool)
    requires sign == (if n < 0 then "-" else if fPlus && n > 0 then "+" else "")
    requires Places(unit, d, f) && Spells(whole, places, d, f, if n < 0 then -n else n)
    ensures Denotes(sign + whole + "." + places, unit, n, fPlus)
  {
    hide Spells;
    hide Places;
  }

  const MAX_INT64: int := 0x7FFF_FFFF_FFFF_FFFF

  method Format(unit: Unit, n: int, fPlus: bool) returns (s: string)
    requires -MAX_INT64 <= n <= MAX_INT64
    ensures s == Formatted(unit, n, fPlus)
    ensures if unit == Unknown then s == "" else Denotes(s, unit, n, fPlus)
  {
    hide Denotes;
    hide Number;
    hide RightJustified;
    hide Trimmed;
    if !Valid(unit) {
      return "";
    }
    FormattedDenotes(unit, n, fPlus);
    var coin, numDecimals := Factor(unit), Decimals(unit);
    var nAbs := if n > 0 then n else -n;
    var quotientStr := Number(nAbs / coin);
    var remainderStr := RightJustified(Number(nAbs % coin), numDecimals);
    remainderStr := Trim(remainderStr);
    if n < 0 {
      quotientStr := "-" + quotientStr;
    } else if fPlus && n > 0 {
      quotientStr := "+" + quotientStr;
    }
    s := quotientStr + "." + remainderStr;
  }

  /** The loop that counts the zeros at the end, and the cut. */
  method Trim(s: string) returns (r: string)
    ensures r == Trimmed(s)
  {
    var nTrim, i := 0, |s| - 1;
    assert s[..|s|] == s;
    while i >= 2 && s[i] == '0'
      invariant 0 <= nTrim <= |s| && i == |s| - 1 - nTrim
      invariant Trimmed(s[..|s| - nTrim]) == Trimmed(s)
      decreases i
    {
      assert s[..i + 1][..i] == s[..i];
      nTrim, i := nTrim + 1, i - 1;
    }
    r := s[..|s| - nTrim];
  }

  // ---------------------------------------------------------------- reading

  function Split(s: string): (parts: seq<string>)
    ensures |parts| > 0
  {
    if s == "" then [""] else
      var parts := Split(s[..|s| - 1]);
      if s[|s| - 1] == '.' then parts + [""]
      else parts[..|parts| - 1] + [parts[|parts| - 1] + [s[|s| - 1]]]
  }

  /** toLongLong: an optional sign and at least one digit. */
  function ToLongLong(s: string): Option<int> {
    var negative := s != "" && s[0] == '-';
    var digits := if s != "" && (s[0] == '-' || s[0] == '+') then s[1..] else s;
    if digits == "" || !AllDigits(digits) then None
    else if negative then Some(-(Value(digits) as int)) else Some(Value(digits))
  }

  function Parse(unit: Unit, value: string): Option<int> {
    if !Valid(unit) || value == "" then None else
      var parts := Split(value);
      if |parts| > 2 then None else
        var whole := parts[0];
        var decimals := if |parts| > 1 then parts[1] else "";
        if |decimals| > Decimals(unit) then None else
          var str := whole + LeftJustified(decimals, Decimals(unit));
          if |str| > 18 then None else ToLongLong(str)
  }

  // ---------------------------------------------------------------- the round trip

  predicate NoDot(s: string) {
    forall i :: 0 <= i < |s| ==> s[i] != '.'
  }

  lemma {:induction false} SplitWhole(s: string)
    requires NoDot(s)
    ensures Split(s) == [s]
  {
    if s != "" {
      SplitWhole(s[..|s| - 1]);
      assert s == s[..|s| - 1] + [s[|s| - 1]];
    }
  }

  lemma {:induction false} SplitAtDot(a: string, b: string)
    requires NoDot(a) && NoDot(b)
    ensures Split(a + "." + b) == [a, b]
  {
    var s := a + "." + b;
    if b == "" {
      assert s[..|s| - 1] == a;
      SplitWhole(a);
    } else {
      var b' := b[..|b| - 1];
      SplitAtDot(a, b');
      assert s[..|s| - 1] == a + "." + b';
      assert b == b' + [b[|b| - 1]];
    }
  }

  /** Padding brings back what trimming took. */
  lemma {:induction false} TrimmingIsUndone(s: string)
    ensures LeftJustified(Trimmed(s), |s|) == s
    ensures AllDigits(s) ==> AllDigits(Trimmed(s))
  {
    if |s| > 2 && s[|s| - 1] == '0' {
      var t := s[..|s| - 1];
      TrimmingIsUndone(t);
      assert s == t + ['0'];
      var r := Trimmed(t);
      assert Zeros(|s| - |r|) == Zeros(|t| - |r|) + ['0'];
      assert r + Zeros(|t| - |r|) == t;
    } else {
      assert s + Zeros(0) == s;
    }
  }

  /** The decimal places as printed: exactly as many digits as the unit has. */
  lemma PlacesOf(unit: Unit, rest: nat)
    requires Valid(unit) && rest < Factor(unit)
    ensures var s := RightJustified(Number(rest), Decimals(unit));
            |s| == Decimals(unit) && AllDigits(s) && Value(s) == rest
    ensures Factor(unit) == Pow10(Decimals(unit))
  {
    hide Number;
    hide Value;
    hide AllDigits;
    hide Pow10;
    FactorIsPower(unit);
    NumberLength(rest, Decimals(unit));
    NumberIsDigits(rest);
    ZerosInFront(Decimals(unit) - |Number(rest)|, Number(rest));
  }

  lemma ZerosInFront(n: nat, s: string)
    requires AllDigits(s)
    ensures AllDigits(Zeros(n) + s) && Value(Zeros(n) + s) == Value(s)
  {
    ValueOfZeros(n);
    ValueConcat(Zeros(n), s);
  }

  lemma FactorIsPower(unit: Unit)
    requires Valid(unit)
    ensures Factor(unit) == Pow10(Decimals(unit))
  {
    assert Pow10(2) == 100;
    assert Pow10(5) == 1000 * Pow10(2) by {
      assert Pow10(3) == 10 * Pow10(2);
    }
    assert Pow10(8) == 1000 * Pow10(5) by {
      assert Pow10(6) == 10 * Pow10(5);
    }
  }

  /** The digits of a printed amount, without sign and point. */
  function DigitsOf(unit: Unit, n: nat): string {
    Number(n / Factor(unit)) + RightJustified(Number(n % Factor(unit)), Decimals(unit))
  }

  lemma DigitsOfAmount(unit: Unit, n: nat)
    requires Valid(unit)
    ensures AllDigits(DigitsOf(unit, n)) && DigitsOf(unit, n) != "" && Value(DigitsOf(unit, n)) == n
  {
    hide Number;
    hide RightJustified;
    hide Pow10;
    hide Value;
    hide AllDigits;
    var f := Factor(unit);
    FactorPositive(unit);
    PlacesOf(unit, n % f);
    NumberIsDigits(n / f);
    ValueConcat(Number(n / f), RightJustified(Number(n % f), Decimals(unit)));
    assert n == n / f * f + n % f;
  }

  lemma FactorPositive(unit: Unit)
    ensures Factor(unit) > 0
  {
  }

  lemma DigitsLength(unit: Unit, n: nat, k: nat)
    requires Valid(unit) && k > Decimals(unit)
    ensures |DigitsOf(unit, n)| <= k <==> n < Pow10(k)
  {
    hide Number;
    hide RightJustified;
    hide Pow10;
    var f, d := Factor(unit), Decimals(unit);
    FactorPositive(unit);
    PlacesOf(unit, n % f);
    NumberLength(n / f, k - d);
    Pow10Splits(k - d, d);
    QuotientBelow(n, f, Pow10(k - d));
  }

  lemma {:induction false} Pow10Splits(a: nat, b: nat)
    ensures Pow10(a + b) == Pow10(a) * Pow10(b)
    decreases a
  {
    if a > 0 {
      Pow10Splits(a - 1, b);
      assert 10 * Pow10(a - 1) * Pow10(b) == 10 * (Pow10(a - 1) * Pow10(b));
    }
  }

  lemma QuotientBelow(n: nat, f: nat, m: nat)
    requires f > 0
    ensures n / f < m <==> n < m * f
  {
    var q := n / f;
    assert n == q * f + n % f;
    if q < m {
      assert (q + 1) * f <= m * f;
    } else {
      assert q * f >= m * f;
    }
  }

  lemma {:induction false} TrimmedPlaces(s: string)
    requires AllDigits(s) && |s| >= 2
    ensures var r := Trimmed(s);
            && AllDigits(r) && 2 <= |r| <= |s| && (|r| > 2 ==> r[|r| - 1] != '0')
            && Value(r) * Pow10(|s| - |r|) == Value(s)
  {
    if |s| > 2 && s[|s| - 1] == '0' {
      var t := s[..|s| - 1];
      TrimmedPlaces(t);
      var r := Trimmed(t);
      assert Pow10(|s| - |r|) == 10 * Pow10(|t| - |r|);
      Reorder(Value(r), Pow10(|t| - |r|));
    } else {
      assert Pow10(0) == 1;
    }
  }

  lemma {:induction false} NumberStarts(n: nat)
    ensures |Number(n)| > 1 ==> Number(n)[0] != '0'
    ensures n > 0 ==> Number(n)[0] != '0'
  {
    if n >= 10 {
      NumberStarts(n / 10);
    }
  }

  lemma AmountSpelled(unit: Unit, a: nat)
    requires unit != Unknown
    ensures Places(unit, Decimals(unit), Factor(unit)) && Factor(unit) > 0
    ensures Spells(Number(a / Factor(unit)), Trimmed(RightJustified(Number(a % Factor(unit)), Decimals(unit))),
                   Decimals(unit), Factor(unit), a)
  {
    hide Number;
    hide RightJustified;
    hide Trimmed;
    hide Value;
    hide AllDigits;
    hide Pow10;
    var f, d := Factor(unit), Decimals(unit);
    FactorPositive(unit);
    PlacesOf(unit, a % f);
    TrimmedPlaces(RightJustified(Number(a % f), d));
    NumberIsDigits(a / f);
    NumberStarts(a / f);
    assert a == a / f * f + a % f;
  }

  lemma FormattedDenotes(unit: Unit, n: int, fPlus: bool)
    requires unit != Unknown
    ensures Denotes(Formatted(unit, n, fPlus), unit, n, fPlus)
  {
    hide Number;
    hide RightJustified;
    hide Trimmed;
    hide Spells;
    hide Places;
    hide Denotes;
    var a, f, d := Abs(n), Factor(unit), Decimals(unit);
    AmountSpelled(unit, a);
    SpelledDenotes(Sign(n, fPlus), Number(a / f), Trimmed(RightJustified(Number(a % f), d)), d, f, unit, n, fPlus);
  }

  /** Reading a whole number with decimal places, with or without a sign: the amount, unless the unit has fewer places
      or there would be more than eighteen characters without the point. */
  lemma ReadingMeans(unit: Unit, sign: string, whole: string, places: string)
    requires unit != Unknown && (sign == "" || sign == "+" || sign == "-")
    requires AllDigits(whole) && AllDigits(places)
    ensures var d, f := Decimals(unit), Factor(unit);
            && Places(unit, d, f)
            && Parse(unit, sign + whole + "." + places) ==
               if |places| > d || |sign| + |whole| + d > 18 then None
               else
                 var v := Value(whole) * f + Value(places) * Pow10(d - |places|);
                 Some(if sign == "-" then -v else v)
  {
    hide Value;
    hide AllDigits;
    hide Pow10;
    hide Parse;
    hide ToLongLong;
    hide LeftJustified;
    DigitsHaveNoDot(sign, whole);
    DigitsHaveNoDot("", places);
    assert "" + places == places;
    ParseParts(unit, sign + whole, places);
    UnitPlaces(unit);
    if |places| <= Decimals(unit) {
      PaddedValue(unit, whole, places);
      var padded := LeftJustified(places, Decimals(unit));
      assert (sign + whole) + padded == sign + (whole + padded);
      SignedNumber(sign, whole + padded);
    }
  }

  lemma UnitPlaces(unit: Unit)
    requires unit != Unknown
    ensures Places(unit, Decimals(unit), Factor(unit)) && Decimals(unit) > 0
  {
  }

  lemma ParseParts(unit: Unit, whole: string, places: string)
    requires unit != Unknown && NoDot(whole) && NoDot(places)
    ensures Parse(unit, whole + "." + places) ==
            if |places| > Decimals(unit) || |whole + LeftJustified(places, Decimals(unit))| > 18 then None
            else ToLongLong(whole + LeftJustified(places, Decimals(unit)))
  {
    hide Split;
    hide ToLongLong;
    hide LeftJustified;
    SplitAtDot(whole, places);
  }

  lemma PaddedValue(unit: Unit, whole: string, places: string)
    requires unit != Unknown && AllDigits(whole) && AllDigits(places) && |places| <= Decimals(unit)
    ensures var d, padded := Decimals(unit), LeftJustified(places, Decimals(unit));
            && |padded| == d && AllDigits(whole + padded)
            && Value(whole + padded) == Value(whole) * Factor(unit) + Value(places) * Pow10(d - |places|)
  {
    hide Value;
    hide AllDigits;
    hide Pow10;
    hide Zeros;
    var d := Decimals(unit);
    var zeros := Zeros(d - |places|);
    FactorIsPower(unit);
    ValueOfZeros(d - |places|);
    ValueConcat(places, zeros);
    ValueConcat(whole, places + zeros);
    assert |places| == d ==> places + zeros == places;
  }

  lemma DigitsHaveNoDot(sign: string, s: string)
    requires (sign == "" || sign == "+" || sign == "-") && AllDigits(s)
    ensures NoDot(sign + s)
  {
  }

  lemma SignedNumber(sign: string, digits: string)
    requires (sign == "" || sign == "+" || sign == "-") && AllDigits(digits) && digits != ""
    ensures ToLongLong(sign + digits) == Some(if sign == "-" then -(Value(digits) as int) else Value(digits))
  {
    hide Value;
    if sign == "" {
      assert sign + digits == digits && IsDigit(digits[0]);
    } else {
      assert (sign + digits)[1..] == digits;
    }
  }

  lemma ReadsBack(unit: Unit, n: int, fPlus: bool, digits: string)
    requires Valid(unit) && AllDigits(digits) && digits != ""
    requires Parse(unit, Formatted(unit, n, fPlus)) ==
             if |Sign(n, fPlus) + digits| > 18 then None else ToLongLong(Sign(n, fPlus) + digits)
    requires Value(digits) == Abs(n)
    ensures Parse(unit, Formatted(unit, n, fPlus)) == if |Sign(n, fPlus)| + |digits| <= 18 then Some(n) else None
  {
    hide Parse;
    hide Formatted;
    hide Value;
    var sign := Sign(n, fPlus);
    if sign == "" {
      assert sign + digits == digits;
      assert IsDigit(digits[0]);
    } else {
      assert (sign + digits)[1..] == digits;
    }
  }

  /** For every unit and every amount but the least 64-bit number: what is printed reads back exactly when
      the amount, with its sign if one is printed, has at most eighteen characters, and then as itself. */
  lemma RoundTrip(unit: Unit, n: int, fPlus: bool)
    requires Valid(unit) && -MAX_INT64 <= n <= MAX_INT64
    ensures Parse(unit, Formatted(unit, n, fPlus)) ==
            if n < 0 || (fPlus && n > 0) then
              if Abs(n) < Pow10(17) then Some(n) else None
            else
              if n < Pow10(18) then Some(n) else None
  {
    hide Number;
    hide RightJustified;
    hide Pow10;
    hide Value;
    hide Split;
    hide Trimmed;
    hide ToLongLong;
    var d := Decimals(unit);
    var sign, whole := Sign(n, fPlus), Number(Abs(n) / Factor(unit));
    var places := RightJustified(Number(Abs(n) % Factor(unit)), d);
    var digits := DigitsOf(unit, Abs(n));
    DigitsOfAmount(unit, Abs(n));
    DigitsLength(unit, Abs(n), 17);
    DigitsLength(unit, Abs(n), 18);
    PlacesOf(unit, Abs(n) % Factor(unit));
    TrimmingIsUndone(places);
    NumberIsDigits(Abs(n) / Factor(unit));
    SplitAtDot(sign + whole, Trimmed(places));
    assert sign + whole + "." + Trimmed(places) == Formatted(unit, n, fPlus);
    assert (sign + whole) + places == sign + digits;
    ReadsBack(unit, n, fPlus, digits);
  }

  /** Without plus sign: exactly the amounts between -10^17 and 10^18. */
  lemma RoundTripWithoutPlus(unit: Unit, n: int)
    requires Valid(unit) && -MAX_INT64 <= n <= MAX_INT64
    ensures Parse(unit, Formatted(unit, n, false)) ==
            if -100_000_000_000_000_000 < n < 1_000_000_000_000_000_000 then Some(n) else None
  {
    RoundTrip(unit, n, false);
    TenTo17();
  }

  lemma TenTo17()
    ensures Pow10(17) == 100_000_000_000_000_000 && Pow10(18) == 1_000_000_000_000_000_000
  {
    assert Pow10(4) == 10000;
    Pow10Splits(4, 4);
    Pow10Splits(8, 8);
    assert Pow10(17) == 10 * Pow10(16);
    assert Pow10(18) == 10 * Pow10(17);
  }

  /** Whatever was read prints to something that reads back the same. */
  lemma ReadingIsStable(unit: Unit, value: string)
    requires Parse(unit, value).Some?
    ensures Parse(unit, Formatted(unit, Parse(unit, value).value, false)) == Parse(unit, value)
  {
    var parts := Split(value);
    var decimals := if |parts| > 1 then parts[1] else "";
    var str := parts[0] + LeftJustified(decimals, Decimals(unit));
    var digits := if str[0] == '-' || str[0] == '+' then str[1..] else str;
    ValueBound(digits);
    Pow10Grows(|digits|, if str[0] == '-' then 17 else 18);
    TenTo17();
    RoundTripWithoutPlus(unit, Parse(unit, value).value);
  }
}
