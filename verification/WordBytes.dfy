/** What the words and bytes of SHA-512 mean as numbers. */
module WordBytes {
  import opened Fips180
  import opened Primes

  /** The number the bytes spell, the first being the most significant. */
  ghost function BigEndian(b: seq<Byte>): nat {
    if b == [] then 0 else 256 * BigEndian(b[..|b| - 1]) + b[|b| - 1] as nat
  }

  function Pow256(k: nat): (r: nat)
    ensures r > 0
  {
    if k == 0 then 1 else 256 * Pow256(k - 1)
  }

  lemma PowersOf256()
    ensures Pow256(0) == 1 && Pow256(1) == 0x100 && Pow256(2) == 0x1_0000 && Pow256(3) == 0x100_0000
    ensures Pow256(4) == 0x1_0000_0000 && Pow256(5) == 0x100_0000_0000 && Pow256(6) == 0x1_0000_0000_0000
    ensures Pow256(7) == 0x100_0000_0000_0000 && Pow256(8) == TWO64
  {
    assert Pow256(4) == 256 * Pow256(3);
    assert Pow256(8) == 256 * Pow256(7);
  }

  lemma {:induction false} BigEndianConcat(a: seq<Byte>, b: seq<Byte>)
    ensures BigEndian(a + b) == Pow256(|b|) * BigEndian(a) + BigEndian(b)
  {
    if b == [] {
      assert a + b == a;
    } else {
      var n := |b| - 1;
      BigEndianConcat(a, b[..n]);
      assert (a + b)[..|a + b| - 1] == a + b[..n];
      Distribute(Pow256(n), BigEndian(a), BigEndian(b[..n]));
    }
  }

  lemma Distribute(p: nat, x: nat, y: nat)
    ensures 256 * (p * x + y) == (256 * p) * x + 256 * y
  {
  }

  lemma Divided(q: nat, r: nat, p: nat)
    requires r < 256 && p > 0
    ensures (256 * q + r) / (256 * p) == q / p
  {
    var a := q / p;
    var m := q % p;
    assert q == p * a + m;
    assert 256 * q + r == (256 * p) * a + (256 * m + r);
    QuotientIs(256 * q + r, 256 * p, a, 256 * m + r);
  }

  lemma QuotientIs(n: nat, d: nat, q: nat, r: nat)
    requires r < d && n == d * q + r
    ensures n / d == q
  {
    assert n == d * (n / d) + n % d;
    assert d * (q - n / d) == n % d - r;
    Multiples(d, q - n / d);
  }

  /** Byte j of a big-endian number is its digit to the base 256 of weight |b| - 1 - j. */
  lemma {:induction false} ByteIsDigit(b: seq<Byte>, j: nat)
    requires j < |b|
    ensures b[j] as nat == BigEndian(b) / Pow256(|b| - 1 - j) % 256
  {
    var n := |b| - 1;
    var rest := BigEndian(b[..n]);
    if j == n {
      assert BigEndian(b) / Pow256(0) == BigEndian(b);
    } else {
      ByteIsDigit(b[..n], j);
      Divided(rest, b[n] as nat, Pow256(n - 1 - j));
      assert Pow256(n - j) == 256 * Pow256(n - 1 - j);
    }
  }

  // ---------------------------------------------------------------- words

  lemma ShiftIn(x: bv64, y: Byte)
    requires x < 0x100_0000_0000_0000
    ensures ((x << 8) | (y as bv64)) as nat == 256 * (x as nat) + y as nat
  {
  }

  function Shifted(x: bv64, y: Byte): bv64 {
    (x << 8) | (y as bv64)
  }

  lemma ShiftedFits(x: bv64, y: Byte)
    ensures x < 0x100 ==> Shifted(x, y) < 0x1_0000
    ensures x < 0x1_0000 ==> Shifted(x, y) < 0x100_0000
    ensures x < 0x100_0000 ==> Shifted(x, y) < 0x1_0000_0000
    ensures x < 0x1_0000_0000 ==> Shifted(x, y) < 0x100_0000_0000
    ensures x < 0x100_0000_0000 ==> Shifted(x, y) < 0x1_0000_0000_0000
    ensures x < 0x1_0000_0000_0000 ==> Shifted(x, y) < 0x100_0000_0000_0000
  {
  }

  /** x has at most k bytes. */
  predicate Fits(x: bv64, k: nat) {
    match k
    case 0 => x == 0
    case 1 => x < 0x100
    case 2 => x < 0x1_0000
    case 3 => x < 0x100_0000
    case 4 => x < 0x1_0000_0000
    case 5 => x < 0x100_0000_0000
    case 6 => x < 0x1_0000_0000_0000
    case 7 => x < 0x100_0000_0000_0000
    case _ => true
  }

  lemma FitsMore(x: bv64, y: Byte, k: nat)
    requires k < 8 && Fits(x, k)
    ensures Fits(Shifted(x, y), k + 1) && Shifted(x, y) as nat == 256 * (x as nat) + y as nat
  {
    ShiftedFits(x, y);
    assert x < 0x100_0000_0000_0000;
    ShiftIn(x, y);
  }

  /** The bytes shifted into a word one after the other. */
  function Joined(b: seq<Byte>): bv64 {
    if b == [] then 0 else Shifted(Joined(b[..|b| - 1]), b[|b| - 1])
  }

  lemma {:induction false} JoinedIsBigEndian(b: seq<Byte>)
    requires |b| <= 8
    ensures Fits(Joined(b), |b|) && Joined(b) as nat == BigEndian(b)
  {
    hide Fits;
    hide Shifted;
    if b == [] {
      NoBytes();
    } else {
      JoinedIsBigEndian(b[..|b| - 1]);
      FitsMore(Joined(b[..|b| - 1]), b[|b| - 1], |b| - 1);
    }
  }

  lemma NoBytes()
    ensures Fits(0, 0) && (0 as bv64) as nat == 0
  {
  }

  lemma ReadByShifting(b: seq<Byte>)
    requires |b| == 8
    ensures ReadBE64(b).v ==
            Shifted(Shifted(Shifted(Shifted(Shifted(Shifted(Shifted(Shifted(0, b[0]), b[1]), b[2]), b[3]), b[4]), b[5]),
                            b[6]), b[7])
  {
  }

  lemma JoinedByShifting(b: seq<Byte>)
    requires |b| == 8
    ensures Joined(b) ==
            Shifted(Shifted(Shifted(Shifted(Shifted(Shifted(Shifted(Shifted(0, b[0]), b[1]), b[2]), b[3]), b[4]), b[5]),
                            b[6]), b[7])
  {
    hide Shifted;
    JoinedPrefix(b, 0);
    JoinedPrefix(b, 1);
    JoinedPrefix(b, 2);
    JoinedPrefix(b, 3);
    JoinedPrefix(b, 4);
    JoinedPrefix(b, 5);
    JoinedPrefix(b, 6);
    JoinedPrefix(b, 7);
    assert b[..0] == [] && b[..8] == b;
  }

  lemma JoinedPrefix(b: seq<Byte>, k: nat)
    requires k < |b|
    ensures Joined(b[..k + 1]) == Shifted(Joined(b[..k]), b[k])
  {
    hide Shifted;
    assert b[..k + 1][..k] == b[..k];
  }

  /** What is read is the number the eight bytes spell. */
  lemma ReadIsBigEndian(b: seq<Byte>)
    requires |b| == 8
    ensures NumberOf(ReadBE64(b)) == BigEndian(b)
  {
    hide Shifted;
    hide ReadBE64;
    hide Joined;
    hide BigEndian;
    ReadByShifting(b);
    JoinedByShifting(b);
    JoinedIsBigEndian(b);
  }

  /** What is written are eight bytes that spell the number. */
  lemma WriteIsBigEndian(w: Word)
    ensures BigEndian(WriteBE64(w)) == NumberOf(w)
  {
    hide WriteBE64;
    hide ReadBE64;
    hide BigEndian;
    WordRoundTrip(w);
    ReadIsBigEndian(WriteBE64(w));
  }

  /** Byte j written is that of weight 256 to the power 7 - j. */
  lemma WrittenByte(w: Word, j: nat)
    requires j < 8
    ensures WriteBE64(w)[j] as nat == NumberOf(w) / Pow256(7 - j) % 256
  {
    hide WriteBE64;
    hide BigEndian;
    hide Pow256;
    WriteIsBigEndian(w);
    ByteIsDigit(WriteBE64(w), j);
  }

  // ---------------------------------------------------------------- numbers as words

  lemma NextByte(y: Byte)
    ensures y != 255 ==> (y + 1) as nat == y as nat + 1
    ensures y == 255 ==> y as nat == 255
  {
  }

  ghost function ByteOf(x: nat): (y: Byte)
    requires x < 256
    ensures y as nat == x
  {
    if x == 0 then 0 else
      NextByte(ByteOf(x - 1));
      ByteOf(x - 1) + 1
  }

  /** The k lowest bytes of a number. */
  ghost function LowBytes(n: nat, k: nat): (b: seq<Byte>)
    ensures |b| == k
  {
    if k == 0 then [] else LowBytes(n / 256, k - 1) + [ByteOf(n % 256)]
  }

  lemma {:induction false} LowBytesSpell(n: nat, k: nat)
    requires n < Pow256(k)
    ensures BigEndian(LowBytes(n, k)) == n
  {
    if k > 0 {
      LowBytesSpell(n / 256, k - 1);
      var b := LowBytes(n, k);
      assert b[..k - 1] == LowBytes(n / 256, k - 1);
    }
  }

  /** A number below 2^64 is the number of its word. */
  lemma AsWord(n: nat)
    requires n < TWO64
    ensures NumberOf(WordOf(n)) == n
  {
    hide Joined;
    hide BigEndian;
    hide LowBytes;
    hide Pow256;
    PowersOf256();
    LowBytesSpell(n, 8);
    JoinedIsBigEndian(LowBytes(n, 8));
    BackAndForth(Joined(LowBytes(n, 8)));
  }

  lemma BackAndForth(x: bv64)
    ensures (x as nat) as bv64 == x
  {
  }

  /** Addition of words is addition modulo 2^64. */
  lemma AddIsModular(x: Word, y: Word)
    ensures NumberOf(Add(x, y)) == (NumberOf(x) + NumberOf(y)) % TWO64
  {
    hide NumberOf;
    hide WordOf;
    AsWord((NumberOf(x) + NumberOf(y)) % TWO64);
  }

  /** The eight bytes of a length spell it. */
  lemma LengthIsBigEndian(x: nat)
    requires x < TWO64
    ensures BigEndian(LengthBytes(x)) == x
  {
    hide BigEndian;
    hide WriteBE64;
    AsWord(x);
    WriteIsBigEndian(WordOf(x));
  }

  /** The sixteen bytes of a length spell it. */
  lemma LengthBlockIsBigEndian(l: nat)
    requires l < TWO64 * TWO64
    ensures BigEndian(LengthBlock(l)) == l
  {
    hide BigEndian;
    hide LengthBytes;
    hide Pow256;
    PowersOf256();
    LengthIsBigEndian(l / TWO64);
    LengthIsBigEndian(l % TWO64);
    BigEndianConcat(LengthBytes(l / TWO64), LengthBytes(l % TWO64));
  }

  // ---------------------------------------------------------------- what the hash reads and writes

  /** Word j of a block is the number its eight bytes spell. */
  lemma BlockIsBigEndian(chunk: seq<Byte>)
    requires |chunk| == 128
    ensures forall j :: 0 <= j < 16 ==> NumberOf(BlockWords(chunk)[j]) == BigEndian(chunk[8 * j..8 * j + 8])
  {
    hide BigEndian;
    hide ReadBE64;
    forall j | 0 <= j < 16
      ensures NumberOf(BlockWords(chunk)[j]) == BigEndian(chunk[8 * j..8 * j + 8])
    {
      ReadIsBigEndian(chunk[8 * j..8 * j + 8]);
    }
  }

  /** Each byte is the digit of its weight. */
  ghost predicate Spells(b: seq<Byte>, n: nat) {
    forall j :: 0 <= j < |b| ==> b[j] as nat == n / Pow256(|b| - 1 - j) % 256
  }

  /** The digest is the eight words of the state, in order, each with its most significant byte first. */
  lemma DigestBytes(s: seq<Word>)
    requires |s| == 8
    ensures forall i :: 0 <= i < 8 ==> Spells(DigestOf(s)[8 * i..8 * i + 8], NumberOf(s[i]))
  {
    hide DigestOf;
    hide NumberOf;
    hide Pow256;
    forall i | 0 <= i < 8
      ensures Spells(DigestOf(s)[8 * i..8 * i + 8], NumberOf(s[i]))
    {
      DigestWord(s, i);
      forall j | 0 <= j < 8
        ensures WriteBE64(s[i])[j] as nat == NumberOf(s[i]) / Pow256(7 - j) % 256
      {
        WrittenByte(s[i], j);
      }
    }
  }

  lemma DigestWord(s: seq<Word>, i: nat)
    requires |s| == 8 && i < 8
    ensures DigestOf(s)[8 * i..8 * i + 8] == WriteBE64(s[i])
  {
    hide WriteBE64;
  }

  /** The padded message: the message, a byte 128, zeros, and the length in bits in the last sixteen bytes; as short
      as whole blocks allow. */
  lemma PaddedBytes(msg: seq<Byte>)
    requires 8 * |msg| < TWO64 * TWO64
    ensures var p := Padded(msg);
            && |p| % 128 == 0 && |msg| + 17 <= |p| < |msg| + 17 + 128
            && p[..|msg|] == msg && p[|msg|] as nat == 128
            && (forall i :: |msg| < i < |p| - 16 ==> p[i] as nat == 0)
            && BigEndian(p[|p| - 16..]) == 8 * |msg|
  {
    hide BigEndian;
    hide LengthBlock;
    hide ZeroBits;
    PaddedIsWhole(msg);
    ZeroBytes(|msg|);
    LengthBlockIsBigEndian(8 * |msg|);
    var p := Padded(msg);
    assert p[|p| - 16..] == LengthBlock(8 * |msg|);
  }

  /** The round constants and the initial state, as numbers. */
  lemma ConstantsAsNumbers(t: nat)
    ensures NumberOf(RoundConstant(t)) == K(t).1
    ensures t < 8 ==> NumberOf(InitialHash()[t]) == H0(t)
  {
    hide NumberOf;
    hide WordOf;
    hide K;
    hide H0;
    AsWord(K(t).1);
    AsWord(H0(t));
  }

  /** Every round constant is what section 4.2.3 says: the first 64 bits of the fractional part of the cube root of
      the t-th prime. */
  lemma RoundConstantsFromCubeRoots(t: nat, p: nat)
    requires t < 80 && IsNthPrime(t, p)
    ensures CubeRootFraction(p, CubeRootFloor(p), NumberOf(RoundConstant(t)))
  {
    hide K;
    hide CubeRootFraction;
    hide InitialHash;
    KIsPrime(t);
    KIsCubeRoot(t);
    OnePlaceOnePrime(t, p, K(t).0);
    ConstantsAsNumbers(t);
  }

  /** Every word of the initial state is what section 5.3.5 says, from the square root of the i-th prime. */
  lemma InitialHashFromSquareRoots(i: nat, p: nat)
    requires i < 8 && IsNthPrime(i, p)
    ensures SquareRootFraction(p, SquareRootFloor(p), NumberOf(InitialHash()[i]))
  {
    hide SquareRootFraction;
    hide SquareRootFloor;
    hide H0;
    hide InitialHash;
    hide K;
    KIsPrime(i);
    OnePlaceOnePrime(i, p, K(i).0);
    H0IsSquareRoot(i);
    ConstantsAsNumbers(i);
  }
}
