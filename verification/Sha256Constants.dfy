/** The constants of SHA-256, from their definition: the first 32 bits of the
    fractional parts of the cube roots of the first sixty-four primes and of the
    square roots of the first eight (sections 4.2.2 and 5.3.3 of FIPS 180-4). */
module Sha256Constants {
  import opened Fips180
  import SimdSha256

  // ---------- The first sixty-four primes ----------

  ghost predicate IsPrime(n: nat) {
    n >= 2 && forall d :: 2 <= d < n ==> n % d != 0
  }

  const PRIMES: seq<nat> :=
    [2, 3, 5, 7, 11, 13, 17, 19]
    + [23, 29, 31, 37, 41, 43, 47, 53]
    + [59, 61, 67, 71, 73, 79, 83, 89]
    + [97, 101, 103, 107, 109, 113, 127, 131]
    + [137, 139, 149, 151, 157, 163, 167, 173]
    + [179, 181, 191, 193, 197, 199, 211, 223]
    + [227, 229, 233, 239, 241, 251, 257, 263]
    + [269, 271, 277, 281, 283, 293, 307, 311]

  /** `n` is a proper multiple of a prime below 18. */
  predicate HasSmallFactor(n: nat) {
    || (n > 2 && n % 2 == 0) || (n > 3 && n % 3 == 0) || (n > 5 && n % 5 == 0) || (n > 7 && n % 7 == 0)
    || (n > 11 && n % 11 == 0) || (n > 13 && n % 13 == 0) || (n > 17 && n % 17 == 0)
  }

  lemma MultipleMod(p: nat, m: nat)
    requires p > 0
    ensures p * m % p == 0
  {
    QuotientIs(p, m - p * m / p);
  }

  lemma QuotientIs(p: nat, k: int)
    requires p > 0 && 0 <= p * k < p
    ensures k == 0
  {
    assert k < 1;
  }

  lemma Multiple(d: nat, k: nat, n: nat)
    requires d >= 2 && 2 <= k <= 17 && n == d * k
    ensures HasSmallFactor(n)
  {
    var p := if k % 2 == 0 then 2 else if k % 3 == 0 then 3 else k;
    var q := k / p;
    assert k == p * q && q >= 1;
    assert n == p * (d * q);
    MultipleMod(p, d * q);
    assert d * q >= 2;
    assert p * (d * q) >= p * 2;
  }

  /** Below 18 squared, only those are not prime. */
  lemma SmallFactors(n: nat)
    requires 2 <= n < 324
    ensures IsPrime(n) <==> !HasSmallFactor(n)
  {
    if d :| 2 <= d < n && n % d == 0 {
      var e := n / d;
      assert n == d * e;
      assert e >= 2;
      if e <= 17 {
        Multiple(d, e, n);
      } else {
        assert d <= 17 by {
          BothLarge(d, e);
        }
        Multiple(e, d, n);
      }
    }
  }
  lemma BothLarge(d: nat, e: nat)
    requires e >= 18
    ensures d >= 18 ==> d * e >= 324
  {
    if d >= 18 {
      assert d * e >= 18 * e;
    }
  }

  /** Every number from `n` up to `end` has a small factor. */
  predicate AllComposite(n: nat, end: nat)
    decreases end - n
  {
    n >= end || (HasSmallFactor(n) && AllComposite(n + 1, end))
  }

  lemma {:induction false} CompositeAt(n: nat, end: nat, x: nat)
    requires n <= x < end && AllComposite(n, end)
    ensures HasSmallFactor(x)
    decreases end - n
  {
    if n < x {
      CompositeAt(n + 1, end, x);
    }
  }

  /** `q` is the first prime after `p`. */
  ghost predicate IsNextPrime(p: nat, q: nat) {
    p < q && IsPrime(q) && forall n :: p < n < q ==> !IsPrime(n)
  }

  predicate AreConsecutive(p: nat, q: nat) {
    p < q && AllComposite(p + 1, q) && !HasSmallFactor(q)
  }

  lemma NextPrime(p: nat, q: nat)
    requires 2 <= p && q < 324 && AreConsecutive(p, q)
    ensures IsNextPrime(p, q)
  {
    hide IsPrime, HasSmallFactor, AllComposite;
    SmallFactors(q);
    forall n | p < n < q
      ensures !IsPrime(n)
    {
      CompositeAt(p + 1, q, n);
      SmallFactors(n);
    }
  }

  lemma Primes0()
    ensures
      && AreConsecutive(2, 3) && AreConsecutive(3, 5) && AreConsecutive(5, 7) && AreConsecutive(7, 11)
      && AreConsecutive(11, 13) && AreConsecutive(13, 17) && AreConsecutive(17, 19)
  {
  }

  lemma Primes1()
    ensures
      && AreConsecutive(19, 23) && AreConsecutive(23, 29) && AreConsecutive(29, 31) && AreConsecutive(31, 37)
      && AreConsecutive(37, 41) && AreConsecutive(41, 43) && AreConsecutive(43, 47) && AreConsecutive(47, 53)
  {
  }

  lemma Primes2()
    ensures
      && AreConsecutive(53, 59) && AreConsecutive(59, 61) && AreConsecutive(61, 67) && AreConsecutive(67, 71)
      && AreConsecutive(71, 73) && AreConsecutive(73, 79) && AreConsecutive(79, 83) && AreConsecutive(83, 89)
  {
  }

  lemma Primes3()
    ensures
      && AreConsecutive(89, 97) && AreConsecutive(97, 101) && AreConsecutive(101, 103) && AreConsecutive(103, 107)
      && AreConsecutive(107, 109) && AreConsecutive(109, 113) && AreConsecutive(113, 127)
      && AreConsecutive(127, 131)
  {
  }

  lemma Primes4()
    ensures
      && AreConsecutive(131, 137) && AreConsecutive(137, 139) && AreConsecutive(139, 149)
      && AreConsecutive(149, 151) && AreConsecutive(151, 157) && AreConsecutive(157, 163)
      && AreConsecutive(163, 167) && AreConsecutive(167, 173)
  {
  }

  lemma Primes5()
    ensures
      && AreConsecutive(173, 179) && AreConsecutive(179, 181) && AreConsecutive(181, 191)
      && AreConsecutive(191, 193) && AreConsecutive(193, 197) && AreConsecutive(197, 199)
      && AreConsecutive(199, 211) && AreConsecutive(211, 223)
  {
  }

  lemma Primes6()
    ensures
      && AreConsecutive(223, 227) && AreConsecutive(227, 229) && AreConsecutive(229, 233)
      && AreConsecutive(233, 239) && AreConsecutive(239, 241) && AreConsecutive(241, 251)
      && AreConsecutive(251, 257) && AreConsecutive(257, 263)
  {
  }

  lemma Primes7()
    ensures
      && AreConsecutive(263, 269) && AreConsecutive(269, 271) && AreConsecutive(271, 277)
      && AreConsecutive(277, 281) && AreConsecutive(281, 283) && AreConsecutive(283, 293)
      && AreConsecutive(293, 307) && AreConsecutive(307, 311)
  {
  }

  lemma PrimesBelow()
    ensures |PRIMES| == 64 && PRIMES[0] == 2
    ensures forall i :: 0 <= i < 64 ==> 2 <= PRIMES[i] < 324
  {
  }

  /** `PRIMES` starts with 2, and each of its numbers is the next prime. */
  lemma PrimesInOrder()
    ensures |PRIMES| == 64 && PRIMES[0] == 2 && IsPrime(2)
    ensures forall i :: 0 < i < 64 ==> IsNextPrime(PRIMES[i - 1], PRIMES[i])
  {
    hide IsNextPrime, AreConsecutive;
    PrimesBelow();
    Primes0();
    Primes1();
    Primes2();
    Primes3();
    Primes4();
    Primes5();
    Primes6();
    Primes7();
    forall i | 0 < i < 64
      ensures IsNextPrime(PRIMES[i - 1], PRIMES[i])
    {
      assert AreConsecutive(PRIMES[i - 1], PRIMES[i]);
      NextPrime(PRIMES[i - 1], PRIMES[i]);
    }
  }

  // ---------- Roots ----------

  const TWO_32: nat := 0x1_0000_0000

  /** `x` is the cube root of `p`, cut off after 32 fractional bits. */
  predicate IsCubeRoot(p: nat, x: nat) {
    x * x * x <= p * TWO_32 * TWO_32 * TWO_32 < (x + 1) * (x + 1) * (x + 1)
  }

  /** `bits` follow the point of that root. */
  predicate HasCubeRootBits(p: nat, bits: Word) {
    var m := if p < 8 then 1 else if p < 27 then 2 else if p < 64 then 3 else if p < 125 then 4
             else if p < 216 then 5 else 6;
    IsCubeRoot(p, m * TWO_32 + bits as nat)
  }

  /** `x` is the square root of `p`, cut off after 32 fractional bits. */
  predicate IsSquareRoot(p: nat, x: nat) {
    x * x <= p * TWO_32 * TWO_32 < (x + 1) * (x + 1)
  }

  predicate HasSquareRootBits(p: nat, bits: Word) {
    var m := if p < 4 then 1 else if p < 9 then 2 else if p < 16 then 3 else 4;
    IsSquareRoot(p, m * TWO_32 + bits as nat)
  }

  lemma Roots0()
    ensures
      && HasCubeRootBits(2, 0x428a2f98) && HasCubeRootBits(3, 0x71374491) && HasCubeRootBits(5, 0xb5c0fbcf)
      && HasCubeRootBits(7, 0xe9b5dba5) && HasCubeRootBits(11, 0x3956c25b) && HasCubeRootBits(13, 0x59f111f1)
      && HasCubeRootBits(17, 0x923f82a4) && HasCubeRootBits(19, 0xab1c5ed5) && HasCubeRootBits(23, 0xd807aa98)
      && HasCubeRootBits(29, 0x12835b01) && HasCubeRootBits(31, 0x243185be) && HasCubeRootBits(37, 0x550c7dc3)
      && HasCubeRootBits(41, 0x72be5d74) && HasCubeRootBits(43, 0x80deb1fe) && HasCubeRootBits(47, 0x9bdc06a7)
      && HasCubeRootBits(53, 0xc19bf174)
  {
  }

  lemma Roots1()
    ensures
      && HasCubeRootBits(59, 0xe49b69c1) && HasCubeRootBits(61, 0xefbe4786) && HasCubeRootBits(67, 0x0fc19dc6)
      && HasCubeRootBits(71, 0x240ca1cc) && HasCubeRootBits(73, 0x2de92c6f) && HasCubeRootBits(79, 0x4a7484aa)
      && HasCubeRootBits(83, 0x5cb0a9dc) && HasCubeRootBits(89, 0x76f988da) && HasCubeRootBits(97, 0x983e5152)
      && HasCubeRootBits(101, 0xa831c66d) && HasCubeRootBits(103, 0xb00327c8) && HasCubeRootBits(107, 0xbf597fc7)
      && HasCubeRootBits(109, 0xc6e00bf3) && HasCubeRootBits(113, 0xd5a79147) && HasCubeRootBits(127, 0x06ca6351)
      && HasCubeRootBits(131, 0x14292967)
  {
  }

  lemma Roots2()
    ensures
      && HasCubeRootBits(137, 0x27b70a85) && HasCubeRootBits(139, 0x2e1b2138) && HasCubeRootBits(149, 0x4d2c6dfc)
      && HasCubeRootBits(151, 0x53380d13) && HasCubeRootBits(157, 0x650a7354) && HasCubeRootBits(163, 0x766a0abb)
      && HasCubeRootBits(167, 0x81c2c92e) && HasCubeRootBits(173, 0x92722c85) && HasCubeRootBits(179, 0xa2bfe8a1)
      && HasCubeRootBits(181, 0xa81a664b) && HasCubeRootBits(191, 0xc24b8b70) && HasCubeRootBits(193, 0xc76c51a3)
      && HasCubeRootBits(197, 0xd192e819) && HasCubeRootBits(199, 0xd6990624) && HasCubeRootBits(211, 0xf40e3585)
      && HasCubeRootBits(223, 0x106aa070)
  {
  }

  lemma Roots3()
    ensures
      && HasCubeRootBits(227, 0x19a4c116) && HasCubeRootBits(229, 0x1e376c08) && HasCubeRootBits(233, 0x2748774c)
      && HasCubeRootBits(239, 0x34b0bcb5) && HasCubeRootBits(241, 0x391c0cb3) && HasCubeRootBits(251, 0x4ed8aa4a)
      && HasCubeRootBits(257, 0x5b9cca4f) && HasCubeRootBits(263, 0x682e6ff3) && HasCubeRootBits(269, 0x748f82ee)
      && HasCubeRootBits(271, 0x78a5636f) && HasCubeRootBits(277, 0x84c87814) && HasCubeRootBits(281, 0x8cc70208)
      && HasCubeRootBits(283, 0x90befffa) && HasCubeRootBits(293, 0xa4506ceb) && HasCubeRootBits(307, 0xbef9a3f7)
      && HasCubeRootBits(311, 0xc67178f2)
  {
  }

  lemma CubeRoots0()
    ensures forall i :: 0 <= i < 8 ==> HasCubeRootBits(PRIMES[i], K[i])
  {
    hide HasCubeRootBits;
    Roots0();
  }

  lemma CubeRoots1()
    ensures forall i :: 8 <= i < 16 ==> HasCubeRootBits(PRIMES[i], K[i])
  {
    hide HasCubeRootBits;
    Roots0();
  }

  lemma CubeRoots2()
    ensures forall i :: 16 <= i < 24 ==> HasCubeRootBits(PRIMES[i], K[i])
  {
    hide HasCubeRootBits;
    Roots1();
  }

  lemma CubeRoots3()
    ensures forall i :: 24 <= i < 32 ==> HasCubeRootBits(PRIMES[i], K[i])
  {
    hide HasCubeRootBits;
    Roots1();
  }

  lemma CubeRoots4()
    ensures forall i :: 32 <= i < 40 ==> HasCubeRootBits(PRIMES[i], K[i])
  {
    hide HasCubeRootBits;
    Roots2();
  }

  lemma CubeRoots5()
    ensures forall i :: 40 <= i < 48 ==> HasCubeRootBits(PRIMES[i], K[i])
  {
    hide HasCubeRootBits;
    Roots2();
  }

  lemma CubeRoots6()
    ensures forall i :: 48 <= i < 56 ==> HasCubeRootBits(PRIMES[i], K[i])
  {
    hide HasCubeRootBits;
    Roots3();
  }

  lemma CubeRoots7()
    ensures forall i :: 56 <= i < 64 ==> HasCubeRootBits(PRIMES[i], K[i])
  {
    hide HasCubeRootBits;
    Roots3();
  }

  lemma SquareRoots()
    ensures
      && HasSquareRootBits(2, 0x6a09e667) && HasSquareRootBits(3, 0xbb67ae85) && HasSquareRootBits(5, 0x3c6ef372)
      && HasSquareRootBits(7, 0xa54ff53a) && HasSquareRootBits(11, 0x510e527f) && HasSquareRootBits(13, 0x9b05688c)
      && HasSquareRootBits(17, 0x1f83d9ab) && HasSquareRootBits(19, 0x5be0cd19)
  {
  }

  /** The round constants, here and in the lane code, are the first 32 fractional
      bits of the cube roots of the primes; the initial state, of the square
      roots. */
  lemma ConstantsAreRoots()
    ensures |K| == 64 && SimdSha256.ROUND_CONSTANTS == K && SimdSha256.INITIAL_STATE == H0
    ensures forall i :: 0 <= i < 64 ==> HasCubeRootBits(PRIMES[i], K[i])
    ensures forall i :: 0 <= i < 8 ==> HasSquareRootBits(PRIMES[i], H0[i])
  {
    hide HasCubeRootBits, HasSquareRootBits;
    SimdSha256.ConstantsAgree();
    CubeRoots0();
    CubeRoots1();
    CubeRoots2();
    CubeRoots3();
    CubeRoots4();
    CubeRoots5();
    CubeRoots6();
    CubeRoots7();
    SquareRoots();
  }
}
