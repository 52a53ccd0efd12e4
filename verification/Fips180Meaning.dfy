/** What the functions and constants of `Fips180` are: the functions bit by bit, the constants as
    fractional parts of roots of primes. */
module Fips180Meaning {
  import opened Bytes
  import opened Words
  import opened Fips180

  // ----- section 4.1.2, bit by bit -----

  /** How many of three are so. */
  function Count(a: bool, b: bool, c: bool): nat
  {
    (if a then 1 else 0) + (if b then 1 else 0) + if c then 1 else 0
  }

  /** Where `x` has a bit it chooses `y`'s, elsewhere `z`'s. */
  lemma ChChooses(x: word, y: word, z: word, i: nat)
    requires i < 32
    ensures HasBit(STANDARD.ch(x, y, z), i) <==> if HasBit(x, i) then HasBit(y, i) else HasBit(z, i)
  {
    HasBitOfXor(And(x, y), And(Not(x), z), i);
    HasBitOfAnd(x, y, i);
    HasBitOfAnd(Not(x), z, i);
    HasBitOfNot(x, i);
  }

  lemma MajIsMajority(x: word, y: word, z: word, i: nat)
    ensures HasBit(STANDARD.maj(x, y, z), i) <==> Count(HasBit(x, i), HasBit(y, i), HasBit(z, i)) >= 2
  {
    HasBitOfXor(Xor(And(x, y), And(x, z)), And(y, z), i);
    HasBitOfXor(And(x, y), And(x, z), i);
    HasBitOfAnd(x, y, i);
    HasBitOfAnd(x, z, i);
    HasBitOfAnd(y, z, i);
  }

  lemma OddIsXor(a: bool, b: bool, c: bool)
    ensures Count(a, b, c) % 2 == 1 <==> (a != b) != c
  {
  }

  lemma OddOfThree(x: nat, y: nat, z: nat, i: nat)
    ensures HasBit(Xor(Xor(x, y), z), i) <==> Count(HasBit(x, i), HasBit(y, i), HasBit(z, i)) % 2 == 1
  {
    OddIsXor(HasBit(x, i), HasBit(y, i), HasBit(z, i));
    HasBitOfXor(x, y, i);
    HasBitOfXor(Xor(x, y), z, i);
  }

  lemma BigSigma0Bits(x: word, i: nat)
    requires i < 32
    ensures HasBit(STANDARD.bigSigma0(x), i) <==>
      Count(HasBit(x, (i + 2) % 32), HasBit(x, (i + 13) % 32), HasBit(x, (i + 22) % 32)) % 2 == 1
  {
    OddOfThree(RotR(x, 2), RotR(x, 13), RotR(x, 22), i);
    HasBitOfRotR(x, 2, i);
    HasBitOfRotR(x, 13, i);
    HasBitOfRotR(x, 22, i);
  }

  lemma BigSigma1Bits(x: word, i: nat)
    requires i < 32
    ensures HasBit(STANDARD.bigSigma1(x), i) <==>
      Count(HasBit(x, (i + 6) % 32), HasBit(x, (i + 11) % 32), HasBit(x, (i + 25) % 32)) % 2 == 1
  {
    OddOfThree(RotR(x, 6), RotR(x, 11), RotR(x, 25), i);
    HasBitOfRotR(x, 6, i);
    HasBitOfRotR(x, 11, i);
    HasBitOfRotR(x, 25, i);
  }

  /** The shifted term has nothing to bring in from bit 32 on. */
  lemma ShRBits(x: word, n: nat, i: nat)
    ensures HasBit(ShR(x, n), i) <==> i + n < 32 && HasBit(x, i + n)
  {
    Pow2Of32();
    FromAbove(x, n, 32, i);
  }

  lemma SmallSigma0Bits(x: word, i: nat)
    requires i < 32
    ensures HasBit(STANDARD.smallSigma0(x), i) <==>
      Count(HasBit(x, (i + 7) % 32), HasBit(x, (i + 18) % 32), i + 3 < 32 && HasBit(x, i + 3)) % 2 == 1
  {
    OddOfThree(RotR(x, 7), RotR(x, 18), ShR(x, 3), i);
    HasBitOfRotR(x, 7, i);
    HasBitOfRotR(x, 18, i);
    ShRBits(x, 3, i);
  }

  lemma SmallSigma1Bits(x: word, i: nat)
    requires i < 32
    ensures HasBit(STANDARD.smallSigma1(x), i) <==>
      Count(HasBit(x, (i + 17) % 32), HasBit(x, (i + 19) % 32), i + 10 < 32 && HasBit(x, i + 10)) % 2 == 1
  {
    OddOfThree(RotR(x, 17), RotR(x, 19), ShR(x, 10), i);
    HasBitOfRotR(x, 17, i);
    HasBitOfRotR(x, 19, i);
    ShRBits(x, 10, i);
  }

  // ----- sections 4.2.2 and 5.3.3 -----

  const PRIMES: seq<nat> :=
    [2, 3, 5, 7, 11, 13, 17, 19] + [23, 29, 31, 37, 41, 43, 47, 53] +
    [59, 61, 67, 71, 73, 79, 83, 89] + [97, 101, 103, 107, 109, 113, 127, 131] +
    [137, 139, 149, 151, 157, 163, 167, 173] + [179, 181, 191, 193, 197, 199, 211, 223] +
    [227, 229, 233, 239, 241, 251, 257, 263] + [269, 271, 277, 281, 283, 293, 307, 311]

  predicate IsPrime(n: nat)
  {
    n >= 2 && forall d :: 2 <= d < n ==> n % d != 0
  }

  /** One of the primes up to 17 divides it, and is not itself. */
  predicate Sieved(n: nat)
  {
    (n > 2 && n % 2 == 0) || (n > 3 && n % 3 == 0) || (n > 5 && n % 5 == 0) || (n > 7 && n % 7 == 0) ||
    (n > 11 && n % 11 == 0) || (n > 13 && n % 13 == 0) || (n > 17 && n % 17 == 0)
  }

  predicate AllSieved(n: nat, end: nat)
    decreases end - n
  {
    n >= end || (Sieved(n) && AllSieved(n + 1, end))
  }

  lemma {:induction false} SievedIn(n: nat, end: nat, k: nat)
    requires AllSieved(n, end) && n <= k < end
    ensures Sieved(k)
    decreases end - n
  {
    if n < k {
      SievedIn(n + 1, end, k);
    }
  }

  lemma Gaps0(t: nat)
    requires 0 <= t < 8
    ensures AllSieved(PRIMES[t] + 1, PRIMES[t + 1])
  {
    assert AllSieved(3, 3) && AllSieved(4, 5) && AllSieved(6, 7) && AllSieved(8, 11);
    assert AllSieved(12, 13) && AllSieved(14, 17) && AllSieved(18, 19) && AllSieved(20, 23);
  }

  lemma Gaps1(t: nat)
    requires 8 <= t < 16
    ensures AllSieved(PRIMES[t] + 1, PRIMES[t + 1])
  {
    assert AllSieved(24, 29) && AllSieved(30, 31) && AllSieved(32, 37) && AllSieved(38, 41);
    assert AllSieved(42, 43) && AllSieved(44, 47) && AllSieved(48, 53) && AllSieved(54, 59);
  }

  lemma Gaps2(t: nat)
    requires 16 <= t < 24
    ensures AllSieved(PRIMES[t] + 1, PRIMES[t + 1])
  {
    assert AllSieved(60, 61) && AllSieved(62, 67) && AllSieved(68, 71) && AllSieved(72, 73);
    assert AllSieved(74, 79) && AllSieved(80, 83) && AllSieved(84, 89) && AllSieved(90, 97);
  }

  lemma Gaps3(t: nat)
    requires 24 <= t < 32
    ensures AllSieved(PRIMES[t] + 1, PRIMES[t + 1])
  {
    assert AllSieved(98, 101) && AllSieved(102, 103) && AllSieved(104, 107) && AllSieved(108, 109);
    assert AllSieved(110, 113) && AllSieved(114, 127) && AllSieved(128, 131) && AllSieved(132, 137);
  }

  lemma Gaps4(t: nat)
    requires 32 <= t < 40
    ensures AllSieved(PRIMES[t] + 1, PRIMES[t + 1])
  {
    assert AllSieved(138, 139) && AllSieved(140, 149) && AllSieved(150, 151) && AllSieved(152, 157);
    assert AllSieved(158, 163) && AllSieved(164, 167) && AllSieved(168, 173) && AllSieved(174, 179);
  }

  lemma Gaps5(t: nat)
    requires 40 <= t < 48
    ensures AllSieved(PRIMES[t] + 1, PRIMES[t + 1])
  {
    assert AllSieved(180, 181) && AllSieved(182, 191) && AllSieved(192, 193) && AllSieved(194, 197);
    assert AllSieved(198, 199) && AllSieved(200, 211) && AllSieved(212, 223) && AllSieved(224, 227);
  }

  lemma Gaps6(t: nat)
    requires 48 <= t < 56
    ensures AllSieved(PRIMES[t] + 1, PRIMES[t + 1])
  {
    assert AllSieved(228, 229) && AllSieved(230, 233) && AllSieved(234, 239) && AllSieved(240, 241);
    assert AllSieved(242, 251) && AllSieved(252, 257) && AllSieved(258, 263) && AllSieved(264, 269);
  }

  lemma Gaps7(t: nat)
    requires 56 <= t < 63
    ensures AllSieved(PRIMES[t] + 1, PRIMES[t + 1])
  {
    assert AllSieved(270, 271) && AllSieved(272, 277) && AllSieved(278, 281) && AllSieved(282, 283);
    assert AllSieved(284, 293) && AllSieved(294, 307) && AllSieved(308, 311);
  }

  lemma ThroughFactor(n: nat, m: nat, p: nat)
    requires m > 0 && p > 0 && n % m == 0 && m % p == 0
    ensures n % p == 0
  {
    var k, j := n / m, m / p;
    assert n == m * k && m == p * j;
    assert n == p * (j * k);
    Words.DivUnique(n, p, j * k, 0);
  }

  /** A number below 18 squared that is no prime has a prime factor of at most 17. */
  lemma SievedIff(n: nat)
    requires 2 <= n < 324
    ensures Sieved(n) <==> !IsPrime(n)
  {
    if n % 2 == 0 {
      NotPrime(n, 2);
    } else if n % 3 == 0 {
      NotPrime(n, 3);
    } else {
      LargerFactors(n);
    }
    if !IsPrime(n) {
      var d :| 2 <= d < n && n % d == 0;
      HasSmallFactor(n, d);
    }
  }

  lemma NotPrime(n: nat, p: nat)
    requires p >= 2 && n % p == 0
    ensures n > p ==> !IsPrime(n)
  {
  }

  lemma LargerFactors(n: nat)
    requires Sieved(n) ==> n % 2 != 0 && n % 3 != 0
    ensures Sieved(n) ==> !IsPrime(n)
  {
    if n % 5 == 0 { NotPrime(n, 5); }
    if n % 7 == 0 { NotPrime(n, 7); }
    if n % 11 == 0 { NotPrime(n, 11); }
    if n % 13 == 0 { NotPrime(n, 13); }
    if n % 17 == 0 { NotPrime(n, 17); }
  }

  lemma HasSmallFactor(n: nat, d: nat)
    requires 2 <= d < n < 324 && n % d == 0
    ensures Sieved(n)
  {
    var e := n / d;
    assert n == d * e;
    SmallFactor(d, e);
    Words.DivUnique(n, e, d, 0);
    FactorSieves(n, if d <= e then d else e);
  }

  lemma FactorSieves(n: nat, m: nat)
    requires 2 <= m <= 17 && m < n && n % m == 0
    ensures Sieved(n)
  {
    if m % 2 == 0 {
      ThroughFactor(n, m, 2);
    } else if m % 3 == 0 {
      ThroughFactor(n, m, 3);
    } else if m == 15 {
      ThroughFactor(n, m, 5);
    }
  }

  lemma SmallFactor(d: nat, e: nat)
    requires 2 <= d < d * e < 324
    ensures 2 <= e < d * e && 2 <= (if d <= e then d else e) <= 17
  {
    Bigger(d, e);
  }

  lemma Bigger(d: nat, e: nat)
    ensures d >= 18 && e >= 18 ==> d * e >= 324
    ensures d >= 2 && e >= 1 ==> d * e > e
  {
    if d >= 18 && e >= 18 {
      assert d * e >= 18 * e;
    }
  }

  /** `PRIMES` are the first 64 primes: from 2 on, each is one, and between two there is none. */
  lemma ConsecutivePrimes(t: nat)
    requires t < 63
    ensures |PRIMES| == 64 && PRIMES[0] == 2 && IsPrime(2)
    ensures PRIMES[t] < PRIMES[t + 1] && IsPrime(PRIMES[t + 1])
    ensures forall n :: PRIMES[t] < n < PRIMES[t + 1] ==> !IsPrime(n)
  {
    PrimesSmall(t);
    PrimesSmall(t + 1);
    var p, q := PRIMES[t], PRIMES[t + 1];
    assert AllSieved(p + 1, q) by {
      if t < 8 { Gaps0(t); } else if t < 16 { Gaps1(t); } else if t < 24 { Gaps2(t); } else if t < 32 { Gaps3(t); }
      else if t < 40 { Gaps4(t); } else if t < 48 { Gaps5(t); } else if t < 56 { Gaps6(t); } else { Gaps7(t); }
    }
    NotSieved(t + 1);
    SievedIff(q);
    forall n | p < n < q
      ensures !IsPrime(n)
    {
      SievedIn(p + 1, q, n);
      SievedIff(n);
    }
  }

  lemma PrimesSmall(t: nat)
    requires t < 64
    ensures 2 <= PRIMES[t] < 324 && (t < 63 ==> PRIMES[t] < PRIMES[t + 1])
  {
  }

  lemma NotSieved0(t: nat)
    requires t < 32
    ensures !Sieved(PRIMES[t])
  {
  }

  lemma NotSieved1(t: nat)
    requires 32 <= t < 64
    ensures !Sieved(PRIMES[t])
  {
  }

  lemma NotSieved(t: nat)
    requires t < 64
    ensures !Sieved(PRIMES[t])
  {
    if t < 32 { NotSieved0(t); } else { NotSieved1(t); }
  }

  /** `k` over 2^32 is the fractional part of the cube root of `p`, cut to 32 bits. */
  predicate CubeRootPart(p: nat, k: nat)
  {
    var whole := if p < 8 then 1 else if p < 27 then 2 else if p < 64 then 3 else if p < 125 then 4
      else if p < 216 then 5 else 6;
    var r := whole * 0x1_0000_0000 + k;
    k < 0x1_0000_0000 && r * r * r <= p * 0x1_0000_0000_0000_0000_0000_0000 < (r + 1) * (r + 1) * (r + 1)
  }

  lemma K0(t: nat)
    requires 0 <= t < 8
    ensures CubeRootPart(PRIMES[t], K[t])
  {
  }

  lemma K1(t: nat)
    requires 8 <= t < 16
    ensures CubeRootPart(PRIMES[t], K[t])
  {
  }

  lemma K2(t: nat)
    requires 16 <= t < 24
    ensures CubeRootPart(PRIMES[t], K[t])
  {
  }

  lemma K3(t: nat)
    requires 24 <= t < 32
    ensures CubeRootPart(PRIMES[t], K[t])
  {
  }

  lemma K4(t: nat)
    requires 32 <= t < 40
    ensures CubeRootPart(PRIMES[t], K[t])
  {
  }

  lemma K5(t: nat)
    requires 40 <= t < 48
    ensures CubeRootPart(PRIMES[t], K[t])
  {
  }

  lemma K6(t: nat)
    requires 48 <= t < 56
    ensures CubeRootPart(PRIMES[t], K[t])
  {
  }

  lemma K7(t: nat)
    requires 56 <= t < 64
    ensures CubeRootPart(PRIMES[t], K[t])
  {
  }

  lemma KIsCubeRoots(t: nat)
    requires t < 64
    ensures CubeRootPart(PRIMES[t], K[t])
  {
    if t < 8 { K0(t); } else if t < 16 { K1(t); } else if t < 24 { K2(t); } else if t < 32 { K3(t); }
    else if t < 40 { K4(t); } else if t < 48 { K5(t); } else if t < 56 { K6(t); } else { K7(t); }
  }

  /** The same for square roots. */
  predicate SquareRootPart(p: nat, k: nat)
  {
    var whole := if p < 4 then 1 else if p < 9 then 2 else if p < 16 then 3 else 4;
    var r := whole * 0x1_0000_0000 + k;
    k < 0x1_0000_0000 && r * r <= p * 0x1_0000_0000_0000_0000 < (r + 1) * (r + 1)
  }

  lemma H0IsSquareRoots()
    ensures SquareRootPart(2, H0.a) && SquareRootPart(3, H0.b) && SquareRootPart(5, H0.c) && SquareRootPart(7, H0.d)
    ensures SquareRootPart(11, H0.e) && SquareRootPart(13, H0.f) && SquareRootPart(17, H0.g) && SquareRootPart(19, H0.h)
  {
  }
}
