/** SHA-512 as FIPS 180-4 defines it: the functions of section 4.1.3, the constants of sections
    4.2.3 and 5.3.5, the padding of section 5.1.2 and the computation of section 6.4. */
module Fips180 {
  import opened Primes

  /** A 64-bit word. */
  datatype Word = Word(v: bv64)
  type Byte = bv8

  const TWO64: nat := 0x1_0000_0000_0000_0000

  function NumberOf(w: Word): nat { w.v as nat }

  function WordOf(n: nat): Word
    requires n < TWO64
  {
    Word(n as bv64)
  }

  /** Addition modulo 2^64. */
  function Add(x: Word, y: Word): Word { WordOf((NumberOf(x) + NumberOf(y)) % TWO64) }

  // ---------------------------------------------------------------- section 4.1.3

  function Ch(x: Word, y: Word, z: Word): Word { Word((x.v & y.v) ^ (!x.v & z.v)) }
  function Maj(x: Word, y: Word, z: Word): Word { Word((x.v & y.v) ^ (x.v & z.v) ^ (y.v & z.v)) }
  function BigSigma0(x: Word): Word { Word(x.v.RotateRight(28) ^ x.v.RotateRight(34) ^ x.v.RotateRight(39)) }
  function BigSigma1(x: Word): Word { Word(x.v.RotateRight(14) ^ x.v.RotateRight(18) ^ x.v.RotateRight(41)) }
  function SmallSigma0(x: Word): Word { Word(x.v.RotateRight(1) ^ x.v.RotateRight(8) ^ (x.v >> 7)) }
  function SmallSigma1(x: Word): Word { Word(x.v.RotateRight(19) ^ x.v.RotateRight(61) ^ (x.v >> 6)) }

  // ---------------------------------------------------------------- sections 4.2.3 and 5.3.5

  function K0(i: nat): (r: (nat, nat))
    ensures r.1 < TWO64
  {
    match i
    case 0 => (2, 0x428a2f98d728ae22)
    case 1 => (3, 0x7137449123ef65cd)
    case 2 => (5, 0xb5c0fbcfec4d3b2f)
    case 3 => (7, 0xe9b5dba58189dbbc)
    case 4 => (11, 0x3956c25bf348b538)
    case 5 => (13, 0x59f111f1b605d019)
    case 6 => (17, 0x923f82a4af194f9b)
    case 7 => (19, 0xab1c5ed5da6d8118)
    case _ => (0, 0)
  }

  function K1(i: nat): (r: (nat, nat))
    ensures r.1 < TWO64
  {
    match i
    case 0 => (23, 0xd807aa98a3030242)
    case 1 => (29, 0x12835b0145706fbe)
    case 2 => (31, 0x243185be4ee4b28c)
    case 3 => (37, 0x550c7dc3d5ffb4e2)
    case 4 => (41, 0x72be5d74f27b896f)
    case 5 => (43, 0x80deb1fe3b1696b1)
    case 6 => (47, 0x9bdc06a725c71235)
    case 7 => (53, 0xc19bf174cf692694)
    case _ => (0, 0)
  }

  function K2(i: nat): (r: (nat, nat))
    ensures r.1 < TWO64
  {
    match i
    case 0 => (59, 0xe49b69c19ef14ad2)
    case 1 => (61, 0xefbe4786384f25e3)
    case 2 => (67, 0x0fc19dc68b8cd5b5)
    case 3 => (71, 0x240ca1cc77ac9c65)
    case 4 => (73, 0x2de92c6f592b0275)
    case 5 => (79, 0x4a7484aa6ea6e483)
    case 6 => (83, 0x5cb0a9dcbd41fbd4)
    case 7 => (89, 0x76f988da831153b5)
    case _ => (0, 0)
  }

  function K3(i: nat): (r: (nat, nat))
    ensures r.1 < TWO64
  {
    match i
    case 0 => (97, 0x983e5152ee66dfab)
    case 1 => (101, 0xa831c66d2db43210)
    case 2 => (103, 0xb00327c898fb213f)
    case 3 => (107, 0xbf597fc7beef0ee4)
    case 4 => (109, 0xc6e00bf33da88fc2)
    case 5 => (113, 0xd5a79147930aa725)
    case 6 => (127, 0x06ca6351e003826f)
    case 7 => (131, 0x142929670a0e6e70)
    case _ => (0, 0)
  }

  function K4(i: nat): (r: (nat, nat))
    ensures r.1 < TWO64
  {
    match i
    case 0 => (137, 0x27b70a8546d22ffc)
    case 1 => (139, 0x2e1b21385c26c926)
    case 2 => (149, 0x4d2c6dfc5ac42aed)
    case 3 => (151, 0x53380d139d95b3df)
    case 4 => (157, 0x650a73548baf63de)
    case 5 => (163, 0x766a0abb3c77b2a8)
    case 6 => (167, 0x81c2c92e47edaee6)
    case 7 => (173, 0x92722c851482353b)
    case _ => (0, 0)
  }

  function K5(i: nat): (r: (nat, nat))
    ensures r.1 < TWO64
  {
    match i
    case 0 => (179, 0xa2bfe8a14cf10364)
    case 1 => (181, 0xa81a664bbc423001)
    case 2 => (191, 0xc24b8b70d0f89791)
    case 3 => (193, 0xc76c51a30654be30)
    case 4 => (197, 0xd192e819d6ef5218)
    case 5 => (199, 0xd69906245565a910)
    case 6 => (211, 0xf40e35855771202a)
    case 7 => (223, 0x106aa07032bbd1b8)
    case _ => (0, 0)
  }

  function K6(i: nat): (r: (nat, nat))
    ensures r.1 < TWO64
  {
    match i
    case 0 => (227, 0x19a4c116b8d2d0c8)
    case 1 => (229, 0x1e376c085141ab53)
    case 2 => (233, 0x2748774cdf8eeb99)
    case 3 => (239, 0x34b0bcb5e19b48a8)
    case 4 => (241, 0x391c0cb3c5c95a63)
    case 5 => (251, 0x4ed8aa4ae3418acb)
    case 6 => (257, 0x5b9cca4f7763e373)
    case 7 => (263, 0x682e6ff3d6b2b8a3)
    case _ => (0, 0)
  }

  function K7(i: nat): (r: (nat, nat))
    ensures r.1 < TWO64
  {
    match i
    case 0 => (269, 0x748f82ee5defb2fc)
    case 1 => (271, 0x78a5636f43172f60)
    case 2 => (277, 0x84c87814a1f0ab72)
    case 3 => (281, 0x8cc702081a6439ec)
    case 4 => (283, 0x90befffa23631e28)
    case 5 => (293, 0xa4506cebde82bde9)
    case 6 => (307, 0xbef9a3f7b2c67915)
    case 7 => (311, 0xc67178f2e372532b)
    case _ => (0, 0)
  }

  function K8(i: nat): (r: (nat, nat))
    ensures r.1 < TWO64
  {
    match i
    case 0 => (313, 0xca273eceea26619c)
    case 1 => (317, 0xd186b8c721c0c207)
    case 2 => (331, 0xeada7dd6cde0eb1e)
    case 3 => (337, 0xf57d4f7fee6ed178)
    case 4 => (347, 0x06f067aa72176fba)
    case 5 => (349, 0x0a637dc5a2c898a6)
    case 6 => (353, 0x113f9804bef90dae)
    case 7 => (359, 0x1b710b35131c471b)
    case _ => (0, 0)
  }

  function K9(i: nat): (r: (nat, nat))
    ensures r.1 < TWO64
  {
    match i
    case 0 => (367, 0x28db77f523047d84)
    case 1 => (373, 0x32caab7b40c72493)
    case 2 => (379, 0x3c9ebe0a15c9bebc)
    case 3 => (383, 0x431d67c49c100d4c)
    case 4 => (389, 0x4cc5d4becb3e42b6)
    case 5 => (397, 0x597f299cfc657e2a)
    case 6 => (401, 0x5fcb6fab3ad6faec)
    case 7 => (409, 0x6c44198c4a475817)
    case _ => (0, 0)
  }

  /** The t-th prime, and the t-th round constant, which derives from it. */
  function K(t: nat): (r: (nat, nat))
    ensures r.1 < TWO64
  {
    var i := t % 8;
    match t / 8
    case 0 => K0(i)
    case 1 => K1(i)
    case 2 => K2(i)
    case 3 => K3(i)
    case 4 => K4(i)
    case 5 => K5(i)
    case 6 => K6(i)
    case 7 => K7(i)
    case 8 => K8(i)
    case 9 => K9(i)
    case _ => (0, 0)
  }

  /** The i-th word of the initial hash value. */
  function H0(i: nat): (r: nat)
    ensures r < TWO64
  {
    match i
    case 0 => 0x6a09e667f3bcc908
    case 1 => 0xbb67ae8584caa73b
    case 2 => 0x3c6ef372fe94f82b
    case 3 => 0xa54ff53a5f1d36f1
    case 4 => 0x510e527fade682d1
    case 5 => 0x9b05688c2b3e6c1f
    case 6 => 0x1f83d9abfb41bd6b
    case 7 => 0x5be0cd19137e2179
    case _ => 0
  }

  function RoundConstant(t: nat): Word { WordOf(K(t).1) }

  function InitialWord(i: nat): Word { WordOf(H0(i)) }

  function InitialHash(): (r: seq<Word>)
    ensures |r| == 8
  {
    [InitialWord(0), InitialWord(1), InitialWord(2), InitialWord(3),
     InitialWord(4), InitialWord(5), InitialWord(6), InitialWord(7)]
  }

  /** `k` is the first 64 bits of the fractional part of the cube root of p, whose integer part is c. */
  predicate CubeRootFraction(p: nat, c: nat, k: nat) {
    var r := c * TWO64 + k;
    k < TWO64 && r * r * r <= p * TWO64 * TWO64 * TWO64 < (r + 1) * (r + 1) * (r + 1)
  }

  /** `h` is the first 64 bits of the fractional part of the square root of p, whose integer part is c. */
  predicate SquareRootFraction(p: nat, c: nat, h: nat) {
    var r := c * TWO64 + h;
    h < TWO64 && r * r <= p * TWO64 * TWO64 < (r + 1) * (r + 1)
  }

  function CubeRootFloor(p: nat): nat {
    if p < 8 then 1 else if p < 27 then 2 else if p < 64 then 3 else if p < 125 then 4
    else if p < 216 then 5 else if p < 343 then 6 else 7
  }

  function SquareRootFloor(p: nat): nat {
    if p < 4 then 1 else if p < 9 then 2 else if p < 16 then 3 else 4
  }

  predicate KOk(k: (nat, nat)) {
    CubeRootFraction(k.0, CubeRootFloor(k.0), k.1)
  }

  predicate H0Ok(p: nat, i: nat) {
    SquareRootFraction(p, SquareRootFloor(p), H0(i))
  }

  lemma K0LowOk()
    ensures KOk(K0(0)) && KOk(K0(1)) && KOk(K0(2)) && KOk(K0(3))
  {
  }

  lemma K0HighOk()
    ensures KOk(K0(4)) && KOk(K0(5)) && KOk(K0(6)) && KOk(K0(7))
  {
  }

  lemma K1LowOk()
    ensures KOk(K1(0)) && KOk(K1(1)) && KOk(K1(2)) && KOk(K1(3))
  {
  }

  lemma K1HighOk()
    ensures KOk(K1(4)) && KOk(K1(5)) && KOk(K1(6)) && KOk(K1(7))
  {
  }

  lemma K2LowOk()
    ensures KOk(K2(0)) && KOk(K2(1)) && KOk(K2(2)) && KOk(K2(3))
  {
  }

  lemma K2HighOk()
    ensures KOk(K2(4)) && KOk(K2(5)) && KOk(K2(6)) && KOk(K2(7))
  {
  }

  lemma K3LowOk()
    ensures KOk(K3(0)) && KOk(K3(1)) && KOk(K3(2)) && KOk(K3(3))
  {
  }

  lemma K3HighOk()
    ensures KOk(K3(4)) && KOk(K3(5)) && KOk(K3(6)) && KOk(K3(7))
  {
  }

  lemma K4LowOk()
    ensures KOk(K4(0)) && KOk(K4(1)) && KOk(K4(2)) && KOk(K4(3))
  {
  }

  lemma K4HighOk()
    ensures KOk(K4(4)) && KOk(K4(5)) && KOk(K4(6)) && KOk(K4(7))
  {
  }

  lemma K5LowOk()
    ensures KOk(K5(0)) && KOk(K5(1)) && KOk(K5(2)) && KOk(K5(3))
  {
  }

  lemma K5HighOk()
    ensures KOk(K5(4)) && KOk(K5(5)) && KOk(K5(6)) && KOk(K5(7))
  {
  }

  lemma K6LowOk()
    ensures KOk(K6(0)) && KOk(K6(1)) && KOk(K6(2)) && KOk(K6(3))
  {
  }

  lemma K6HighOk()
    ensures KOk(K6(4)) && KOk(K6(5)) && KOk(K6(6)) && KOk(K6(7))
  {
  }

  lemma K7LowOk()
    ensures KOk(K7(0)) && KOk(K7(1)) && KOk(K7(2)) && KOk(K7(3))
  {
  }

  lemma K7HighOk()
    ensures KOk(K7(4)) && KOk(K7(5)) && KOk(K7(6)) && KOk(K7(7))
  {
  }

  lemma K8LowOk()
    ensures KOk(K8(0)) && KOk(K8(1)) && KOk(K8(2)) && KOk(K8(3))
  {
  }

  lemma K8HighOk()
    ensures KOk(K8(4)) && KOk(K8(5)) && KOk(K8(6)) && KOk(K8(7))
  {
  }

  lemma K9LowOk()
    ensures KOk(K9(0)) && KOk(K9(1)) && KOk(K9(2)) && KOk(K9(3))
  {
  }

  lemma K9HighOk()
    ensures KOk(K9(4)) && KOk(K9(5)) && KOk(K9(6)) && KOk(K9(7))
  {
  }

  lemma K0LowFollow()
    ensures FollowedBy(K0(0).0, K0(1).0) && FollowedBy(K0(1).0, K0(2).0)
    ensures FollowedBy(K0(2).0, K0(3).0) && FollowedBy(K0(3).0, K0(4).0)
  {
  }

  lemma K0HighFollow()
    ensures FollowedBy(K0(4).0, K0(5).0) && FollowedBy(K0(5).0, K0(6).0)
    ensures FollowedBy(K0(6).0, K0(7).0) && FollowedBy(K0(7).0, K1(0).0)
  {
  }

  lemma K1LowFollow()
    ensures FollowedBy(K1(0).0, K1(1).0) && FollowedBy(K1(1).0, K1(2).0)
    ensures FollowedBy(K1(2).0, K1(3).0) && FollowedBy(K1(3).0, K1(4).0)
  {
  }

  lemma K1HighFollow()
    ensures FollowedBy(K1(4).0, K1(5).0) && FollowedBy(K1(5).0, K1(6).0)
    ensures FollowedBy(K1(6).0, K1(7).0) && FollowedBy(K1(7).0, K2(0).0)
  {
  }

  lemma K2LowFollow()
    ensures FollowedBy(K2(0).0, K2(1).0) && FollowedBy(K2(1).0, K2(2).0)
    ensures FollowedBy(K2(2).0, K2(3).0) && FollowedBy(K2(3).0, K2(4).0)
  {
  }

  lemma K2HighFollow()
    ensures FollowedBy(K2(4).0, K2(5).0) && FollowedBy(K2(5).0, K2(6).0)
    ensures FollowedBy(K2(6).0, K2(7).0) && FollowedBy(K2(7).0, K3(0).0)
  {
  }

  lemma K3LowFollow()
    ensures FollowedBy(K3(0).0, K3(1).0) && FollowedBy(K3(1).0, K3(2).0)
    ensures FollowedBy(K3(2).0, K3(3).0) && FollowedBy(K3(3).0, K3(4).0)
  {
  }

  lemma K3HighFollow()
    ensures FollowedBy(K3(4).0, K3(5).0) && FollowedBy(K3(5).0, K3(6).0)
    ensures FollowedBy(K3(6).0, K3(7).0) && FollowedBy(K3(7).0, K4(0).0)
  {
  }

  lemma K4LowFollow()
    ensures FollowedBy(K4(0).0, K4(1).0) && FollowedBy(K4(1).0, K4(2).0)
    ensures FollowedBy(K4(2).0, K4(3).0) && FollowedBy(K4(3).0, K4(4).0)
  {
  }

  lemma K4HighFollow()
    ensures FollowedBy(K4(4).0, K4(5).0) && FollowedBy(K4(5).0, K4(6).0)
    ensures FollowedBy(K4(6).0, K4(7).0) && FollowedBy(K4(7).0, K5(0).0)
  {
  }

  lemma K5LowFollow()
    ensures FollowedBy(K5(0).0, K5(1).0) && FollowedBy(K5(1).0, K5(2).0)
    ensures FollowedBy(K5(2).0, K5(3).0) && FollowedBy(K5(3).0, K5(4).0)
  {
  }

  lemma K5HighFollow()
    ensures FollowedBy(K5(4).0, K5(5).0) && FollowedBy(K5(5).0, K5(6).0)
    ensures FollowedBy(K5(6).0, K5(7).0) && FollowedBy(K5(7).0, K6(0).0)
  {
  }

  lemma K6LowFollow()
    ensures FollowedBy(K6(0).0, K6(1).0) && FollowedBy(K6(1).0, K6(2).0)
    ensures FollowedBy(K6(2).0, K6(3).0) && FollowedBy(K6(3).0, K6(4).0)
  {
  }

  lemma K6HighFollow()
    ensures FollowedBy(K6(4).0, K6(5).0) && FollowedBy(K6(5).0, K6(6).0)
    ensures FollowedBy(K6(6).0, K6(7).0) && FollowedBy(K6(7).0, K7(0).0)
  {
  }

  lemma K7LowFollow()
    ensures FollowedBy(K7(0).0, K7(1).0) && FollowedBy(K7(1).0, K7(2).0)
    ensures FollowedBy(K7(2).0, K7(3).0) && FollowedBy(K7(3).0, K7(4).0)
  {
  }

  lemma K7HighFollow()
    ensures FollowedBy(K7(4).0, K7(5).0) && FollowedBy(K7(5).0, K7(6).0)
    ensures FollowedBy(K7(6).0, K7(7).0) && FollowedBy(K7(7).0, K8(0).0)
  {
  }

  lemma K8LowFollow()
    ensures FollowedBy(K8(0).0, K8(1).0) && FollowedBy(K8(1).0, K8(2).0)
    ensures FollowedBy(K8(2).0, K8(3).0) && FollowedBy(K8(3).0, K8(4).0)
  {
  }

  lemma K8HighFollow()
    ensures FollowedBy(K8(4).0, K8(5).0) && FollowedBy(K8(5).0, K8(6).0)
    ensures FollowedBy(K8(6).0, K8(7).0) && FollowedBy(K8(7).0, K9(0).0)
  {
  }

  lemma K9LowFollow()
    ensures FollowedBy(K9(0).0, K9(1).0) && FollowedBy(K9(1).0, K9(2).0)
    ensures FollowedBy(K9(2).0, K9(3).0) && FollowedBy(K9(3).0, K9(4).0)
  {
  }

  lemma K9HighFollow()
    ensures FollowedBy(K9(4).0, K9(5).0) && FollowedBy(K9(5).0, K9(6).0)
    ensures FollowedBy(K9(6).0, K9(7).0)
  {
  }

  lemma K0Follows(i: nat)
    requires i < 8
    ensures FollowedBy(K(0 + i).0, K(1 + i).0)
  {
    hide FollowedBy;
    K0LowFollow();
    K0HighFollow();
    match i
    case 0 => case 1 => case 2 => case 3 => case 4 => case 5 => case 6 => case _ =>
  }

  lemma K1Follows(i: nat)
    requires i < 8
    ensures FollowedBy(K(8 + i).0, K(9 + i).0)
  {
    hide FollowedBy;
    K1LowFollow();
    K1HighFollow();
    match i
    case 0 => case 1 => case 2 => case 3 => case 4 => case 5 => case 6 => case _ =>
  }

  lemma K2Follows(i: nat)
    requires i < 8
    ensures FollowedBy(K(16 + i).0, K(17 + i).0)
  {
    hide FollowedBy;
    K2LowFollow();
    K2HighFollow();
    match i
    case 0 => case 1 => case 2 => case 3 => case 4 => case 5 => case 6 => case _ =>
  }

  lemma K3Follows(i: nat)
    requires i < 8
    ensures FollowedBy(K(24 + i).0, K(25 + i).0)
  {
    hide FollowedBy;
    K3LowFollow();
    K3HighFollow();
    match i
    case 0 => case 1 => case 2 => case 3 => case 4 => case 5 => case 6 => case _ =>
  }

  lemma K4Follows(i: nat)
    requires i < 8
    ensures FollowedBy(K(32 + i).0, K(33 + i).0)
  {
    hide FollowedBy;
    K4LowFollow();
    K4HighFollow();
    match i
    case 0 => case 1 => case 2 => case 3 => case 4 => case 5 => case 6 => case _ =>
  }

  lemma K5Follows(i: nat)
    requires i < 8
    ensures FollowedBy(K(40 + i).0, K(41 + i).0)
  {
    hide FollowedBy;
    K5LowFollow();
    K5HighFollow();
    match i
    case 0 => case 1 => case 2 => case 3 => case 4 => case 5 => case 6 => case _ =>
  }

  lemma K6Follows(i: nat)
    requires i < 8
    ensures FollowedBy(K(48 + i).0, K(49 + i).0)
  {
    hide FollowedBy;
    K6LowFollow();
    K6HighFollow();
    match i
    case 0 => case 1 => case 2 => case 3 => case 4 => case 5 => case 6 => case _ =>
  }

  lemma K7Follows(i: nat)
    requires i < 8
    ensures FollowedBy(K(56 + i).0, K(57 + i).0)
  {
    hide FollowedBy;
    K7LowFollow();
    K7HighFollow();
    match i
    case 0 => case 1 => case 2 => case 3 => case 4 => case 5 => case 6 => case _ =>
  }

  lemma K8Follows(i: nat)
    requires i < 8
    ensures FollowedBy(K(64 + i).0, K(65 + i).0)
  {
    hide FollowedBy;
    K8LowFollow();
    K8HighFollow();
    match i
    case 0 => case 1 => case 2 => case 3 => case 4 => case 5 => case 6 => case _ =>
  }

  lemma K9Follows(i: nat)
    requires i < 7
    ensures FollowedBy(K(72 + i).0, K(73 + i).0)
  {
    hide FollowedBy;
    K9LowFollow();
    K9HighFollow();
    match i
    case 0 => case 1 => case 2 => case 3 => case 4 => case 5 => case _ =>
  }

  lemma KFollows(t: nat)
    requires t < 79
    ensures FollowedBy(K(t).0, K(t + 1).0)
  {
    hide FollowedBy;
    hide K;
    match t / 8
    case 0 => K0Follows(t % 8);
    case 1 => K1Follows(t % 8);
    case 2 => K2Follows(t % 8);
    case 3 => K3Follows(t % 8);
    case 4 => K4Follows(t % 8);
    case 5 => K5Follows(t % 8);
    case 6 => K6Follows(t % 8);
    case 7 => K7Follows(t % 8);
    case 8 => K8Follows(t % 8);
    case _ => K9Follows(t % 8);
  }

  /** The numbers beside the round constants are the first eighty primes, in order. */
  lemma {:induction false} KIsPrime(t: nat)
    requires t < 80
    ensures IsNthPrime(t, K(t).0)
  {
    hide IsNthPrime;
    hide FollowedBy;
    if t == 0 {
      FirstPrime();
    } else {
      KIsPrime(t - 1);
      KFollows(t - 1);
      NextPrime(t - 1, K(t - 1).0, K(t).0);
    }
  }

  lemma KIsCubeRoot(t: nat)
    requires t < 80
    ensures KOk(K(t))
  {
    hide KOk;
    K0LowOk(); K1LowOk(); K2LowOk(); K3LowOk(); K4LowOk();
    K5LowOk(); K6LowOk(); K7LowOk(); K8LowOk(); K9LowOk();
    K0HighOk(); K1HighOk(); K2HighOk(); K3HighOk(); K4HighOk();
    K5HighOk(); K6HighOk(); K7HighOk(); K8HighOk(); K9HighOk();
    match t % 8
    case 0 => case 1 => case 2 => case 3 => case 4 => case 5 => case 6 => case _ =>
  }

  lemma H0IsSquareRoot(i: nat)
    requires i < 8
    ensures SquareRootFraction(K(i).0, SquareRootFloor(K(i).0), H0(i))
  {
    hide SquareRootFraction;
    hide SquareRootFloor;
    hide H0;
    H0AreOk();
    match i
    case 0 => case 1 => case 2 => case 3 => case 4 => case 5 => case 6 => case _ =>
  }

  lemma H0AreOk()
    ensures H0Ok(K0(0).0, 0) && H0Ok(K0(1).0, 1) && H0Ok(K0(2).0, 2) && H0Ok(K0(3).0, 3)
    ensures H0Ok(K0(4).0, 4) && H0Ok(K0(5).0, 5) && H0Ok(K0(6).0, 6) && H0Ok(K0(7).0, 7)
  {
  }

  // ---------------------------------------------------------------- section 6.4

  /** The message schedule. */
  function Schedule(block: seq<Word>, t: nat): Word
    requires |block| == 16
  {
    if t < 16 then block[t]
    else Add(Add(Add(SmallSigma1(Schedule(block, t - 2)), Schedule(block, t - 7)),
                 SmallSigma0(Schedule(block, t - 15))), Schedule(block, t - 16))
  }

  /** The eight working variables. */
  datatype Regs = Regs(a: Word, b: Word, c: Word, d: Word, e: Word, f: Word, g: Word, h: Word)

  function Step(r: Regs, k: Word, w: Word): Regs {
    var t1 := Add(Add(Add(Add(r.h, BigSigma1(r.e)), Ch(r.e, r.f, r.g)), k), w);
    var t2 := Add(BigSigma0(r.a), Maj(r.a, r.b, r.c));
    Regs(Add(t1, t2), r.a, r.b, r.c, Add(r.d, t1), r.e, r.f, r.g)
  }

  function Rounds(block: seq<Word>, r: Regs, n: nat): Regs
    requires |block| == 16
  {
    if n == 0 then r else Step(Rounds(block, r, n - 1), RoundConstant(n - 1), Schedule(block, n - 1))
  }

  function RegsOf(h: seq<Word>): Regs
    requires |h| == 8
  {
    Regs(h[0], h[1], h[2], h[3], h[4], h[5], h[6], h[7])
  }

  function AddRegs(h: seq<Word>, r: Regs): (s: seq<Word>)
    requires |h| == 8
    ensures |s| == 8
  {
    [Add(h[0], r.a), Add(h[1], r.b), Add(h[2], r.c), Add(h[3], r.d),
     Add(h[4], r.e), Add(h[5], r.f), Add(h[6], r.g), Add(h[7], r.h)]
  }

  /** A big-endian word. */
  function ReadBE64(b: seq<Byte>): Word
    requires |b| == 8
  {
    Word(((b[0] as bv64) << 56) | ((b[1] as bv64) << 48) | ((b[2] as bv64) << 40) | ((b[3] as bv64) << 32)
         | ((b[4] as bv64) << 24) | ((b[5] as bv64) << 16) | ((b[6] as bv64) << 8) | (b[7] as bv64))
  }

  function WriteBE64(w: Word): (b: seq<Byte>)
    ensures |b| == 8
  {
    [(w.v >> 56) as Byte, ((w.v >> 48) & 0xFF) as Byte, ((w.v >> 40) & 0xFF) as Byte, ((w.v >> 32) & 0xFF) as Byte,
     ((w.v >> 24) & 0xFF) as Byte, ((w.v >> 16) & 0xFF) as Byte, ((w.v >> 8) & 0xFF) as Byte, (w.v & 0xFF) as Byte]
  }

  lemma WordRoundTrip(w: Word)
    ensures ReadBE64(WriteBE64(w)) == w
  {
  }

  /** The j-th word of a block of 128 bytes. */
  function WordAt(chunk: seq<Byte>, j: nat): Word
    requires |chunk| == 128 && j < 16
  {
    ReadBE64(chunk[8 * j..8 * j + 8])
  }

  function BlockWords(chunk: seq<Byte>): (w: seq<Word>)
    requires |chunk| == 128
    ensures |w| == 16
  {
    seq(16, j requires 0 <= j < 16 => WordAt(chunk, j))
  }

  function Compress(h: seq<Word>, chunk: seq<Byte>): (s: seq<Word>)
    requires |h| == 8 && |chunk| == 128
    ensures |s| == 8
  {
    AddRegs(h, Rounds(BlockWords(chunk), RegsOf(h), 80))
  }

  /** The hash value after a sequence of whole blocks. */
  function HashBlocks(h: seq<Word>, data: seq<Byte>): (s: seq<Word>)
    requires |h| == 8 && |data| % 128 == 0
    ensures |s| == 8
  {
    if |data| == 0 then h else Compress(HashBlocks(h, data[..|data| - 128]), data[|data| - 128..])
  }

  // ---------------------------------------------------------------- section 5.1.2

  /** The number of zero bits after the bit "1" for a message of l bits. */
  function ZeroBits(l: nat): nat { (895 - l) % 1024 }

  /** It is the least k with l + 1 + k = 896 modulo 1024. */
  lemma ZeroBitsLeast(l: nat, k: nat)
    requires (l + 1 + k) % 1024 == 896
    ensures ZeroBits(l) <= k && (l + 1 + ZeroBits(l)) % 1024 == 896
  {
  }

  /** For a message of n bytes the zero bits complete the byte begun by the bit "1" and then make
      0 to 127 zero bytes. */
  lemma ZeroBytes(n: nat)
    ensures ZeroBits(8 * n) == 7 + 8 * ((239 - n % 128) % 128)
  {
    var q, r := n / 128, n % 128;
    assert 8 * n == 1024 * q + 8 * r;
    if r <= 111 {
      assert 895 - 8 * n == 1024 * (-q) + (895 - 8 * r);
      EuclideanMod(895 - 8 * n, -q, 895 - 8 * r);
    } else {
      assert 895 - 8 * n == 1024 * (-q - 1) + (1919 - 8 * r);
      EuclideanMod(895 - 8 * n, -q - 1, 1919 - 8 * r);
    }
  }

  lemma EuclideanMod(x: int, q: int, r: int)
    requires x == 1024 * q + r && 0 <= r < 1024
    ensures x % 1024 == r
  {
  }

  function Zeros(n: nat): (z: seq<Byte>)
    ensures |z| == n
  {
    seq(n, _ => 0)
  }

  /** A number below 2^64 as eight bytes. */
  function LengthBytes(x: nat): (b: seq<Byte>)
    requires x < TWO64
    ensures |b| == 8
  {
    WriteBE64(WordOf(x))
  }

  /** The 128-bit block holding the length in bits. */
  function LengthBlock(l: nat): (b: seq<Byte>)
    requires l < TWO64 * TWO64
    ensures |b| == 16
  {
    LengthBytes(l / TWO64) + LengthBytes(l % TWO64)
  }

  /** The padded message: the bit "1" and the zero bits make whole bytes. */
  function Padded(msg: seq<Byte>): seq<Byte>
    requires 8 * |msg| < TWO64 * TWO64
  {
    msg + [0x80] + Zeros((ZeroBits(8 * |msg|) - 7) / 8) + LengthBlock(8 * |msg|)
  }

  lemma WholeLength(n: nat)
    ensures (n + 17 + (239 - n % 128) % 128) % 128 == 0
  {
    var q, r := n / 128, n % 128;
    assert n == 128 * q + r;
    if r <= 111 {
      assert (239 - r) % 128 == 111 - r;
    } else {
      assert (239 - r) % 128 == 239 - r;
    }
  }

  lemma PaddedIsWhole(msg: seq<Byte>)
    requires 8 * |msg| < TWO64 * TWO64
    ensures |Padded(msg)| % 128 == 0
  {
    hide ZeroBits;
    hide Zeros;
    hide LengthBlock;
    ZeroBytes(|msg|);
    WholeLength(|msg|);
  }

  function DigestOf(s: seq<Word>): (d: seq<Byte>)
    requires |s| == 8
    ensures |d| == 64
  {
    WriteBE64(s[0]) + WriteBE64(s[1]) + WriteBE64(s[2]) + WriteBE64(s[3])
    + WriteBE64(s[4]) + WriteBE64(s[5]) + WriteBE64(s[6]) + WriteBE64(s[7])
  }

  /** The digest of a message. */
  function Sha512(msg: seq<Byte>): (d: seq<Byte>)
    requires 8 * |msg| < TWO64 * TWO64
    ensures |d| == 64
  {
    PaddedIsWhole(msg);
    DigestOf(HashBlocks(InitialHash(), Padded(msg)))
  }
}
