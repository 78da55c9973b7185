/** Where the constants of SHA-256 come from (sections 4.2.2 and 5.3.3 of FIPS 180-4): they
    are fractional parts of the cube roots of the first 64 primes, and of the square roots
    of the first eight. */
module Sha256Constants {
  import opened Sha256Spec

  const TWO32: nat := 0x1_0000_0000
  const TWO64: nat := 0x1_0000_0000_0000_0000
  const TWO96: nat := 0x1_0000_0000_0000_0000_0000_0000

  // ----- the first 64 primes -----

  ghost predicate IsPrime(n: nat) {
    1 < n && forall d | 2 <= d < n :: n % d != 0
  }

  function Prime(t: nat): (p: nat)
    requires t < 64
    ensures 2 <= p <= 311
  {
    if t < 8 then [2, 3, 5, 7, 11, 13, 17, 19][t]
    else if t < 16 then [23, 29, 31, 37, 41, 43, 47, 53][t - 8]
    else if t < 24 then [59, 61, 67, 71, 73, 79, 83, 89][t - 16]
    else if t < 32 then [97, 101, 103, 107, 109, 113, 127, 131][t - 24]
    else if t < 40 then [137, 139, 149, 151, 157, 163, 167, 173][t - 32]
    else if t < 48 then [179, 181, 191, 193, 197, 199, 211, 223][t - 40]
    else if t < 56 then [227, 229, 233, 239, 241, 251, 257, 263][t - 48]
    else [269, 271, 277, 281, 283, 293, 307, 311][t - 56]
  }

  /** n has a prime factor below 19. */
  predicate SmallFactor(n: nat) {
    n % 2 == 0 || n % 3 == 0 || n % 5 == 0 || n % 7 == 0 || n % 11 == 0 || n % 13 == 0 || n % 17 == 0
  }

  lemma Multiple(a: nat, d: nat)
    requires 0 < d
    ensures a * d % d == 0
  {
    var x := a * d;
    var e := x / d - a;
    assert e * d == -(x % d);
  }

  lemma Divides(n: nat, e: nat, d: nat)
    requires 0 < d && 0 < e && n % e == 0 && e % d == 0
    ensures n % d == 0
  {
    var a, b := n / e, e / d;
    assert n == a * e && e == b * d;
    assert n == (a * b) * d;
    Multiple(a * b, d);
  }

  lemma FactorIsSmall(n: nat, e: nat)
    requires 2 <= e < 19 && n % e == 0
    ensures SmallFactor(n)
  {
    if e % 2 == 0 {
      Divides(n, e, 2);
    } else if e % 3 == 0 {
      Divides(n, e, 3);
    }
  }

  lemma Cofactor(n: nat, d: nat)
    requires 19 <= d < n < 361 && n % d == 0
    ensures 2 <= n / d < 19 && n % (n / d) == 0
  {
    var q := n / d;
    assert n == q * d;
    assert q >= 19 ==> q * d >= 19 * 19;
    Multiple(d, q);
  }

  /** Below 361 a number without such a factor is prime. */
  lemma PrimeWithout(n: nat)
    requires 19 <= n < 361 && !SmallFactor(n)
    ensures IsPrime(n)
  {
    hide SmallFactor;
    forall d: nat | 2 <= d < n
      ensures n % d != 0
    {
      if n % d == 0 {
        if d < 19 {
          FactorIsSmall(n, d);
        } else {
          Cofactor(n, d);
          FactorIsSmall(n, n / d);
        }
      }
    }
  }

  lemma NotPrime(n: nat)
    requires 3 < n && SmallFactor(n) && n !in {5, 7, 11, 13, 17}
    ensures !IsPrime(n)
  {
    var d := if n % 2 == 0 then 2 else if n % 3 == 0 then 3 else if n % 5 == 0 then 5 else if n % 7 == 0 then 7
             else if n % 11 == 0 then 11 else if n % 13 == 0 then 13 else 17;
    assert 2 <= d < n && n % d == 0;
  }

  /** All numbers from n up to m have small factors. */
  predicate FactorsFrom(n: nat, m: nat)
    decreases m - n
  {
    n >= m || (SmallFactor(n) && FactorsFrom(n + 1, m))
  }

  lemma {:induction false} FactorAt(n: nat, m: nat, x: nat)
    requires FactorsFrom(n, m) && n <= x < m
    ensures SmallFactor(x)
    decreases m - n
  {
    hide SmallFactor;
    if n < x {
      FactorAt(n + 1, m, x);
    }
  }

  lemma Between0(t: nat)
    requires 0 <= t < 8
    ensures Prime(t) < Prime(t + 1) && FactorsFrom(Prime(t) + 1, Prime(t + 1))
  {
    hide SmallFactor, FactorsFrom;
    Factors0();
  }

  lemma Factors0()
    ensures FactorsFrom(3, 3)
    ensures FactorsFrom(4, 5)
    ensures FactorsFrom(6, 7)
    ensures FactorsFrom(8, 11)
    ensures FactorsFrom(12, 13)
    ensures FactorsFrom(14, 17)
    ensures FactorsFrom(18, 19)
    ensures FactorsFrom(20, 23)
  {
  }

  lemma Between8(t: nat)
    requires 8 <= t < 16
    ensures Prime(t) < Prime(t + 1) && FactorsFrom(Prime(t) + 1, Prime(t + 1))
  {
    hide SmallFactor, FactorsFrom;
    Factors8();
  }

  lemma Factors8()
    ensures FactorsFrom(24, 29)
    ensures FactorsFrom(30, 31)
    ensures FactorsFrom(32, 37)
    ensures FactorsFrom(38, 41)
    ensures FactorsFrom(42, 43)
    ensures FactorsFrom(44, 47)
    ensures FactorsFrom(48, 53)
    ensures FactorsFrom(54, 59)
  {
  }

  lemma Between16(t: nat)
    requires 16 <= t < 24
    ensures Prime(t) < Prime(t + 1) && FactorsFrom(Prime(t) + 1, Prime(t + 1))
  {
    hide SmallFactor, FactorsFrom;
    Factors16();
  }

  lemma Factors16()
    ensures FactorsFrom(60, 61)
    ensures FactorsFrom(62, 67)
    ensures FactorsFrom(68, 71)
    ensures FactorsFrom(72, 73)
    ensures FactorsFrom(74, 79)
    ensures FactorsFrom(80, 83)
    ensures FactorsFrom(84, 89)
    ensures FactorsFrom(90, 97)
  {
  }

  lemma Between24(t: nat)
    requires 24 <= t < 32
    ensures Prime(t) < Prime(t + 1) && FactorsFrom(Prime(t) + 1, Prime(t + 1))
  {
    hide SmallFactor, FactorsFrom;
    Factors24();
  }

  lemma Factors24()
    ensures FactorsFrom(98, 101)
    ensures FactorsFrom(102, 103)
    ensures FactorsFrom(104, 107)
    ensures FactorsFrom(108, 109)
    ensures FactorsFrom(110, 113)
    ensures FactorsFrom(114, 127)
    ensures FactorsFrom(128, 131)
    ensures FactorsFrom(132, 137)
  {
  }

  lemma Between32(t: nat)
    requires 32 <= t < 40
    ensures Prime(t) < Prime(t + 1) && FactorsFrom(Prime(t) + 1, Prime(t + 1))
  {
    hide SmallFactor, FactorsFrom;
    Factors32();
  }

  lemma Factors32()
    ensures FactorsFrom(138, 139)
    ensures FactorsFrom(140, 149)
    ensures FactorsFrom(150, 151)
    ensures FactorsFrom(152, 157)
    ensures FactorsFrom(158, 163)
    ensures FactorsFrom(164, 167)
    ensures FactorsFrom(168, 173)
    ensures FactorsFrom(174, 179)
  {
  }

  lemma Between40(t: nat)
    requires 40 <= t < 48
    ensures Prime(t) < Prime(t + 1) && FactorsFrom(Prime(t) + 1, Prime(t + 1))
  {
    hide SmallFactor, FactorsFrom;
    Factors40();
  }

  lemma Factors40()
    ensures FactorsFrom(180, 181)
    ensures FactorsFrom(182, 191)
    ensures FactorsFrom(192, 193)
    ensures FactorsFrom(194, 197)
    ensures FactorsFrom(198, 199)
    ensures FactorsFrom(200, 211)
    ensures FactorsFrom(212, 223)
    ensures FactorsFrom(224, 227)
  {
  }

  lemma Between48(t: nat)
    requires 48 <= t < 56
    ensures Prime(t) < Prime(t + 1) && FactorsFrom(Prime(t) + 1, Prime(t + 1))
  {
    hide SmallFactor, FactorsFrom;
    Factors48();
  }

  lemma Factors48()
    ensures FactorsFrom(228, 229)
    ensures FactorsFrom(230, 233)
    ensures FactorsFrom(234, 239)
    ensures FactorsFrom(240, 241)
    ensures FactorsFrom(242, 251)
    ensures FactorsFrom(252, 257)
    ensures FactorsFrom(258, 263)
    ensures FactorsFrom(264, 269)
  {
  }

  lemma Between56(t: nat)
    requires 56 <= t < 63
    ensures Prime(t) < Prime(t + 1) && FactorsFrom(Prime(t) + 1, Prime(t + 1))
  {
    hide SmallFactor, FactorsFrom;
    Factors56();
  }

  lemma Factors56()
    ensures FactorsFrom(270, 271)
    ensures FactorsFrom(272, 277)
    ensures FactorsFrom(278, 281)
    ensures FactorsFrom(282, 283)
    ensures FactorsFrom(284, 293)
    ensures FactorsFrom(294, 307)
    ensures FactorsFrom(308, 311)
  {
  }

  lemma Without(t: nat)
    requires 7 <= t < 64
    ensures 19 <= Prime(t) && !SmallFactor(Prime(t))
  {
  }

  lemma FirstPrimes(t: nat)
    requires t < 7
    ensures IsPrime(Prime(t))
  {
  }

  /** The numbers listed are the first 64 primes. */
  lemma PrimesInOrder(t: nat)
    requires t < 64
    ensures IsPrime(Prime(t)) && Prime(0) == 2
    ensures t < 63 ==> Prime(t) < Prime(t + 1) && forall n | Prime(t) < n < Prime(t + 1) :: !IsPrime(n)
  {
    hide IsPrime, SmallFactor;
    if t < 7 {
      FirstPrimes(t);
    } else {
      Without(t);
      PrimeWithout(Prime(t));
    }
    if t < 63 {
      NextPrime(t);
      forall n: nat | Prime(t) < n < Prime(t + 1)
        ensures !IsPrime(n)
      {
        FactorAt(Prime(t) + 1, Prime(t + 1), n);
        NotListed(t, n);
        NotPrime(n);
      }
    }
  }

  lemma NotListed(t: nat, n: nat)
    requires t < 63 && Prime(t) < n < Prime(t + 1)
    ensures 3 < n && n !in {5, 7, 11, 13, 17}
  {
    if t >= 7 {
      Without(t);
    }
  }

  lemma NextPrime(t: nat)
    requires t < 63
    ensures Prime(t) < Prime(t + 1) && FactorsFrom(Prime(t) + 1, Prime(t + 1))
  {
    hide Prime, FactorsFrom, SmallFactor;
    if t < 8 {
      Between0(t);
    } else if t < 16 {
      Between8(t);
    } else if t < 24 {
      Between16(t);
    } else if t < 32 {
      Between24(t);
    } else if t < 40 {
      Between32(t);
    } else if t < 48 {
      Between40(t);
    } else if t < 56 {
      Between48(t);
    } else {
      Between56(t);
    }
  }

  // ----- the roots -----

  /** c is the whole part of 2^32 times the cube root of n. */
  predicate CubeRoot(c: nat, n: nat) {
    c * c * c <= n * TWO96 < (c + 1) * (c + 1) * (c + 1)
  }

  predicate SquareRoot(c: nat, n: nat) {
    c * c <= n * TWO64 < (c + 1) * (c + 1)
  }

  /** Constant t holds the first 32 bits of the fractional part of the cube root of prime t. */
  lemma ConstantsAreRoots(t: nat) returns (c: nat)
    requires t < 64
    ensures K(t) as nat == c % TWO32 && CubeRoot(c, Prime(t))
  {
    hide CubeRoot, K;
    if t < 8 {
      c := Roots0(t);
    } else if t < 16 {
      c := Roots8(t);
    } else if t < 24 {
      c := Roots16(t);
    } else if t < 32 {
      c := Roots24(t);
    } else if t < 40 {
      c := Roots32(t);
    } else if t < 48 {
      c := Roots40(t);
    } else if t < 56 {
      c := Roots48(t);
    } else {
      c := Roots56(t);
    }
  }

  lemma Roots0(t: nat) returns (c: nat)
    requires 0 <= t < 8
    ensures K(t) as nat == c % TWO32 && CubeRoot(c, Prime(t))
  {
    c := [0x1_428a_2f98, 0x1_7137_4491, 0x1_b5c0_fbcf, 0x1_e9b5_dba5,
          0x2_3956_c25b, 0x2_59f1_11f1, 0x2_923f_82a4, 0x2_ab1c_5ed5][t];
    if t == 0 {
      assert K(0) == 0x428a2f98;
    } else if t == 1 {
      assert K(1) == 0x71374491;
    } else if t == 2 {
      assert K(2) == 0xb5c0fbcf;
    } else if t == 3 {
      assert K(3) == 0xe9b5dba5;
    } else if t == 4 {
      assert K(4) == 0x3956c25b;
    } else if t == 5 {
      assert K(5) == 0x59f111f1;
    } else if t == 6 {
      assert K(6) == 0x923f82a4;
    } else {
      assert K(7) == 0xab1c5ed5;
    }
  }

  lemma Roots8(t: nat) returns (c: nat)
    requires 8 <= t < 16
    ensures K(t) as nat == c % TWO32 && CubeRoot(c, Prime(t))
  {
    c := [0x2_d807_aa98, 0x3_1283_5b01, 0x3_2431_85be, 0x3_550c_7dc3,
          0x3_72be_5d74, 0x3_80de_b1fe, 0x3_9bdc_06a7, 0x3_c19b_f174][t - 8];
    if t == 8 {
      assert K(8) == 0xd807aa98;
    } else if t == 9 {
      assert K(9) == 0x12835b01;
    } else if t == 10 {
      assert K(10) == 0x243185be;
    } else if t == 11 {
      assert K(11) == 0x550c7dc3;
    } else if t == 12 {
      assert K(12) == 0x72be5d74;
    } else if t == 13 {
      assert K(13) == 0x80deb1fe;
    } else if t == 14 {
      assert K(14) == 0x9bdc06a7;
    } else {
      assert K(15) == 0xc19bf174;
    }
  }

  lemma Roots16(t: nat) returns (c: nat)
    requires 16 <= t < 24
    ensures K(t) as nat == c % TWO32 && CubeRoot(c, Prime(t))
  {
    c := [0x3_e49b_69c1, 0x3_efbe_4786, 0x4_0fc1_9dc6, 0x4_240c_a1cc,
          0x4_2de9_2c6f, 0x4_4a74_84aa, 0x4_5cb0_a9dc, 0x4_76f9_88da][t - 16];
    if t == 16 {
      assert K(16) == 0xe49b69c1;
    } else if t == 17 {
      assert K(17) == 0xefbe4786;
    } else if t == 18 {
      assert K(18) == 0x0fc19dc6;
    } else if t == 19 {
      assert K(19) == 0x240ca1cc;
    } else if t == 20 {
      assert K(20) == 0x2de92c6f;
    } else if t == 21 {
      assert K(21) == 0x4a7484aa;
    } else if t == 22 {
      assert K(22) == 0x5cb0a9dc;
    } else {
      assert K(23) == 0x76f988da;
    }
  }

  lemma Roots24(t: nat) returns (c: nat)
    requires 24 <= t < 32
    ensures K(t) as nat == c % TWO32 && CubeRoot(c, Prime(t))
  {
    c := [0x4_983e_5152, 0x4_a831_c66d, 0x4_b003_27c8, 0x4_bf59_7fc7,
          0x4_c6e0_0bf3, 0x4_d5a7_9147, 0x5_06ca_6351, 0x5_1429_2967][t - 24];
    if t == 24 {
      assert K(24) == 0x983e5152;
    } else if t == 25 {
      assert K(25) == 0xa831c66d;
    } else if t == 26 {
      assert K(26) == 0xb00327c8;
    } else if t == 27 {
      assert K(27) == 0xbf597fc7;
    } else if t == 28 {
      assert K(28) == 0xc6e00bf3;
    } else if t == 29 {
      assert K(29) == 0xd5a79147;
    } else if t == 30 {
      assert K(30) == 0x06ca6351;
    } else {
      assert K(31) == 0x14292967;
    }
  }

  lemma Roots32(t: nat) returns (c: nat)
    requires 32 <= t < 40
    ensures K(t) as nat == c % TWO32 && CubeRoot(c, Prime(t))
  {
    c := [0x5_27b7_0a85, 0x5_2e1b_2138, 0x5_4d2c_6dfc, 0x5_5338_0d13,
          0x5_650a_7354, 0x5_766a_0abb, 0x5_81c2_c92e, 0x5_9272_2c85][t - 32];
    if t == 32 {
      assert K(32) == 0x27b70a85;
    } else if t == 33 {
      assert K(33) == 0x2e1b2138;
    } else if t == 34 {
      assert K(34) == 0x4d2c6dfc;
    } else if t == 35 {
      assert K(35) == 0x53380d13;
    } else if t == 36 {
      assert K(36) == 0x650a7354;
    } else if t == 37 {
      assert K(37) == 0x766a0abb;
    } else if t == 38 {
      assert K(38) == 0x81c2c92e;
    } else {
      assert K(39) == 0x92722c85;
    }
  }

  lemma Roots40(t: nat) returns (c: nat)
    requires 40 <= t < 48
    ensures K(t) as nat == c % TWO32 && CubeRoot(c, Prime(t))
  {
    c := [0x5_a2bf_e8a1, 0x5_a81a_664b, 0x5_c24b_8b70, 0x5_c76c_51a3,
          0x5_d192_e819, 0x5_d699_0624, 0x5_f40e_3585, 0x6_106a_a070][t - 40];
    if t == 40 {
      assert K(40) == 0xa2bfe8a1;
    } else if t == 41 {
      assert K(41) == 0xa81a664b;
    } else if t == 42 {
      assert K(42) == 0xc24b8b70;
    } else if t == 43 {
      assert K(43) == 0xc76c51a3;
    } else if t == 44 {
      assert K(44) == 0xd192e819;
    } else if t == 45 {
      assert K(45) == 0xd6990624;
    } else if t == 46 {
      assert K(46) == 0xf40e3585;
    } else {
      assert K(47) == 0x106aa070;
    }
  }

  lemma Roots48(t: nat) returns (c: nat)
    requires 48 <= t < 56
    ensures K(t) as nat == c % TWO32 && CubeRoot(c, Prime(t))
  {
    c := [0x6_19a4_c116, 0x6_1e37_6c08, 0x6_2748_774c, 0x6_34b0_bcb5,
          0x6_391c_0cb3, 0x6_4ed8_aa4a, 0x6_5b9c_ca4f, 0x6_682e_6ff3][t - 48];
    if t == 48 {
      assert K(48) == 0x19a4c116;
    } else if t == 49 {
      assert K(49) == 0x1e376c08;
    } else if t == 50 {
      assert K(50) == 0x2748774c;
    } else if t == 51 {
      assert K(51) == 0x34b0bcb5;
    } else if t == 52 {
      assert K(52) == 0x391c0cb3;
    } else if t == 53 {
      assert K(53) == 0x4ed8aa4a;
    } else if t == 54 {
      assert K(54) == 0x5b9cca4f;
    } else {
      assert K(55) == 0x682e6ff3;
    }
  }

  lemma Roots56(t: nat) returns (c: nat)
    requires 56 <= t < 64
    ensures K(t) as nat == c % TWO32 && CubeRoot(c, Prime(t))
  {
    c := [0x6_748f_82ee, 0x6_78a5_636f, 0x6_84c8_7814, 0x6_8cc7_0208,
          0x6_90be_fffa, 0x6_a450_6ceb, 0x6_bef9_a3f7, 0x6_c671_78f2][t - 56];
    if t == 56 {
      assert K(56) == 0x748f82ee;
    } else if t == 57 {
      assert K(57) == 0x78a5636f;
    } else if t == 58 {
      assert K(58) == 0x84c87814;
    } else if t == 59 {
      assert K(59) == 0x8cc70208;
    } else if t == 60 {
      assert K(60) == 0x90befffa;
    } else if t == 61 {
      assert K(61) == 0xa4506ceb;
    } else if t == 62 {
      assert K(62) == 0xbef9a3f7;
    } else {
      assert K(63) == 0xc67178f2;
    }
  }

  /** Word t of the initial hash value is that of the square root. */
  lemma InitialAreRoots(t: nat) returns (c: nat)
    requires t < 8
    ensures InitialHash()[t] as nat == c % TWO32 && SquareRoot(c, Prime(t))
  {
    c := [0x1_6a09_e667, 0x1_bb67_ae85, 0x2_3c6e_f372, 0x2_a54f_f53a,
          0x3_510e_527f, 0x3_9b05_688c, 0x4_1f83_d9ab, 0x4_5be0_cd19][t];
    if t == 0 {
      assert InitialHash()[0] == 0x6a09e667;
    } else if t == 1 {
      assert InitialHash()[1] == 0xbb67ae85;
    } else if t == 2 {
      assert InitialHash()[2] == 0x3c6ef372;
    } else if t == 3 {
      assert InitialHash()[3] == 0xa54ff53a;
    } else if t == 4 {
      assert InitialHash()[4] == 0x510e527f;
    } else if t == 5 {
      assert InitialHash()[5] == 0x9b05688c;
    } else if t == 6 {
      assert InitialHash()[6] == 0x1f83d9ab;
    } else {
      assert InitialHash()[7] == 0x5be0cd19;
    }
  }
}
