/** What the constants of SHA-256 are: FIPS 180-4 takes the first 32 fraction bits of the cube roots of the first 64
    primes (section 4.2.2) and of the square roots of the first eight (section 5.3.3). */
module Fips180Constants {
  import opened Bytes
  import opened Fips180

  // The first 64 primes.

  predicate Divides(d: nat, n: nat) {
    d > 0 && n % d == 0
  }

  ghost predicate IsPrime(n: nat) {
    n >= 2 && forall d: nat :: 2 <= d < n ==> !Divides(d, n)
  }

  /** No prime up to 17 divides `n`, itself apart. */
  predicate Passes(n: nat) {
    && (n == 2 || n % 2 != 0) && (n == 3 || n % 3 != 0) && (n == 5 || n % 5 != 0) && (n == 7 || n % 7 != 0)
    && (n == 11 || n % 11 != 0) && (n == 13 || n % 13 != 0) && (n == 17 || n % 17 != 0)
  }

  lemma DivisorPair(d: nat, n: nat) returns (e: nat)
    requires 2 <= d < n < 324 && Divides(d, n)
    ensures 2 <= e < 18 && e < n && Divides(e, n)
  {
    var q := n / d;
    assert n == d * q;
    if d < 18 {
      e := d;
    } else {
      e := q;
      assert q < 18 by {
        if q >= 18 {
          Grows(18, 18, d, q);
        }
      }
      assert q >= 2;
      Cofactor(d, q);
    }
  }

  lemma Grows(a: nat, b: nat, c: nat, d: nat)
    requires a <= c && b <= d
    ensures a * b <= c * d
  {
    assert a * b <= a * d <= c * d;
  }

  lemma Cofactor(d: nat, q: nat)
    requires d > 1 && q > 0
    ensures Divides(q, d * q) && q < d * q
  {
    ModOfMultiple(d, q);
  }

  /** A divisor below 18 that is not prime has a prime divisor of its own. */
  lemma PrimeOfDivisor(e: nat, n: nat)
    requires 2 <= e < 18 && n % e == 0
    ensures e == 4 || e == 8 || e == 16 ==> n % 2 == 0
    ensures e == 6 || e == 12 || e == 10 || e == 14 ==> n % 2 == 0
    ensures e == 9 || e == 15 ==> n % 3 == 0
  {
    if e == 4 || e == 8 || e == 16 {
    } else if e == 6 || e == 12 {
    } else if e == 10 || e == 14 {
    } else if e == 9 || e == 15 {
    }
  }

  /** A divisor below 18 is a multiple of a prime up to 17. */
  lemma SmallDivisor(e: nat, n: nat)
    requires 2 <= e < 18 && e < n && Divides(e, n)
    ensures !Passes(n)
  {
    PrimeOfDivisor(e, n);
  }

  lemma PassesExactly(n: nat)
    requires 2 <= n < 324
    ensures IsPrime(n) <==> Passes(n)
  {
    if !IsPrime(n) {
      var d: nat :| 2 <= d < n && Divides(d, n);
      var e := DivisorPair(d, n);
      SmallDivisor(e, n);
    }
    if !Passes(n) {
      NotPrime(n);
    }
  }

  lemma NotPrime(n: nat)
    requires n >= 2 && !Passes(n)
    ensures !IsPrime(n)
  {
    var q: nat := if n != 2 && n % 2 == 0 then 2 else if n != 3 && n % 3 == 0 then 3 else if n != 5 && n % 5 == 0 then 5
                  else if n != 7 && n % 7 == 0 then 7 else if n != 11 && n % 11 == 0 then 11
                  else if n != 13 && n % 13 == 0 then 13 else 17;
    assert Divides(q, n) && q < n;
  }

  /** None of the numbers from `lo` up to, not including, `hi` passes. */
  predicate NonePasses(lo: nat, hi: nat)
    decreases hi - lo
  {
    lo < hi ==> !Passes(lo) && NonePasses(lo + 1, hi)
  }

  lemma {:induction false} NonePassesAt(lo: nat, hi: nat, n: nat)
    requires NonePasses(lo, hi) && lo <= n < hi
    ensures !Passes(n)
    decreases hi - lo
  {
    hide Passes;
    if n > lo {
      NonePassesAt(lo + 1, hi, n);
    }
  }

  function Prime(t: nat): nat
    requires t < 64
  {
    if t < 16 then
      match t
      case 0 => 2 case 1 => 3 case 2 => 5 case 3 => 7
      case 4 => 11 case 5 => 13 case 6 => 17 case 7 => 19
      case 8 => 23 case 9 => 29 case 10 => 31 case 11 => 37
      case 12 => 41 case 13 => 43 case 14 => 47 case _ => 53
    else if t < 32 then
      match t
      case 16 => 59 case 17 => 61 case 18 => 67 case 19 => 71
      case 20 => 73 case 21 => 79 case 22 => 83 case 23 => 89
      case 24 => 97 case 25 => 101 case 26 => 103 case 27 => 107
      case 28 => 109 case 29 => 113 case 30 => 127 case _ => 131
    else if t < 48 then
      match t
      case 32 => 137 case 33 => 139 case 34 => 149 case 35 => 151
      case 36 => 157 case 37 => 163 case 38 => 167 case 39 => 173
      case 40 => 179 case 41 => 181 case 42 => 191 case 43 => 193
      case 44 => 197 case 45 => 199 case 46 => 211 case _ => 223
    else
      match t
      case 48 => 227 case 49 => 229 case 50 => 233 case 51 => 239
      case 52 => 241 case 53 => 251 case 54 => 257 case 55 => 263
      case 56 => 269 case 57 => 271 case 58 => 277 case 59 => 281
      case 60 => 283 case 61 => 293 case 62 => 307 case _ => 311
  }

  /** The number after the previous prime. */
  function Beyond(t: nat): nat
    requires t < 64
  {
    if t == 0 then 2 else Prime(t - 1) + 1
  }

  lemma Gaps0()
    ensures NonePasses(2, 2) && Passes(2)
    ensures NonePasses(3, 3) && Passes(3)
    ensures NonePasses(4, 5) && Passes(5)
    ensures NonePasses(6, 7) && Passes(7)
  {}

  lemma Gaps1()
    ensures NonePasses(8, 11) && Passes(11)
    ensures NonePasses(12, 13) && Passes(13)
    ensures NonePasses(14, 17) && Passes(17)
    ensures NonePasses(18, 19) && Passes(19)
  {}

  lemma Gaps2()
    ensures NonePasses(20, 23) && Passes(23)
    ensures NonePasses(24, 29) && Passes(29)
    ensures NonePasses(30, 31) && Passes(31)
    ensures NonePasses(32, 37) && Passes(37)
  {}

  lemma Gaps3()
    ensures NonePasses(38, 41) && Passes(41)
    ensures NonePasses(42, 43) && Passes(43)
    ensures NonePasses(44, 47) && Passes(47)
    ensures NonePasses(48, 53) && Passes(53)
  {}

  lemma Gaps4()
    ensures NonePasses(54, 59) && Passes(59)
    ensures NonePasses(60, 61) && Passes(61)
    ensures NonePasses(62, 67) && Passes(67)
    ensures NonePasses(68, 71) && Passes(71)
  {}

  lemma Gaps5()
    ensures NonePasses(72, 73) && Passes(73)
    ensures NonePasses(74, 79) && Passes(79)
    ensures NonePasses(80, 83) && Passes(83)
    ensures NonePasses(84, 89) && Passes(89)
  {}

  lemma Gaps6()
    ensures NonePasses(90, 97) && Passes(97)
    ensures NonePasses(98, 101) && Passes(101)
    ensures NonePasses(102, 103) && Passes(103)
    ensures NonePasses(104, 107) && Passes(107)
  {}

  lemma Gaps7()
    ensures NonePasses(108, 109) && Passes(109)
    ensures NonePasses(110, 113) && Passes(113)
    ensures NonePasses(114, 127) && Passes(127)
    ensures NonePasses(128, 131) && Passes(131)
  {}

  lemma Gaps8()
    ensures NonePasses(132, 137) && Passes(137)
    ensures NonePasses(138, 139) && Passes(139)
    ensures NonePasses(140, 149) && Passes(149)
    ensures NonePasses(150, 151) && Passes(151)
  {}

  lemma Gaps9()
    ensures NonePasses(152, 157) && Passes(157)
    ensures NonePasses(158, 163) && Passes(163)
    ensures NonePasses(164, 167) && Passes(167)
    ensures NonePasses(168, 173) && Passes(173)
  {}

  lemma Gaps10()
    ensures NonePasses(174, 179) && Passes(179)
    ensures NonePasses(180, 181) && Passes(181)
    ensures NonePasses(182, 191) && Passes(191)
    ensures NonePasses(192, 193) && Passes(193)
  {}

  lemma Gaps11()
    ensures NonePasses(194, 197) && Passes(197)
    ensures NonePasses(198, 199) && Passes(199)
    ensures NonePasses(200, 211) && Passes(211)
    ensures NonePasses(212, 223) && Passes(223)
  {}

  lemma Gaps12()
    ensures NonePasses(224, 227) && Passes(227)
    ensures NonePasses(228, 229) && Passes(229)
    ensures NonePasses(230, 233) && Passes(233)
    ensures NonePasses(234, 239) && Passes(239)
  {}

  lemma Gaps13()
    ensures NonePasses(240, 241) && Passes(241)
    ensures NonePasses(242, 251) && Passes(251)
    ensures NonePasses(252, 257) && Passes(257)
    ensures NonePasses(258, 263) && Passes(263)
  {}

  lemma Gaps14()
    ensures NonePasses(264, 269) && Passes(269)
    ensures NonePasses(270, 271) && Passes(271)
    ensures NonePasses(272, 277) && Passes(277)
    ensures NonePasses(278, 281) && Passes(281)
  {}

  lemma Gaps15()
    ensures NonePasses(282, 283) && Passes(283)
    ensures NonePasses(284, 293) && Passes(293)
    ensures NonePasses(294, 307) && Passes(307)
    ensures NonePasses(308, 311) && Passes(311)
  {}

  lemma Primes0()
    ensures Prime(0) == 2 && Prime(1) == 3 && Prime(2) == 5 && Prime(3) == 7
  {}

  lemma Primes1()
    ensures Prime(4) == 11 && Prime(5) == 13 && Prime(6) == 17 && Prime(7) == 19
  {}

  lemma Primes2()
    ensures Prime(8) == 23 && Prime(9) == 29 && Prime(10) == 31 && Prime(11) == 37
  {}

  lemma Primes3()
    ensures Prime(12) == 41 && Prime(13) == 43 && Prime(14) == 47 && Prime(15) == 53
  {}

  lemma Primes4()
    ensures Prime(16) == 59 && Prime(17) == 61 && Prime(18) == 67 && Prime(19) == 71
  {}

  lemma Primes5()
    ensures Prime(20) == 73 && Prime(21) == 79 && Prime(22) == 83 && Prime(23) == 89
  {}

  lemma Primes6()
    ensures Prime(24) == 97 && Prime(25) == 101 && Prime(26) == 103 && Prime(27) == 107
  {}

  lemma Primes7()
    ensures Prime(28) == 109 && Prime(29) == 113 && Prime(30) == 127 && Prime(31) == 131
  {}

  lemma Primes8()
    ensures Prime(32) == 137 && Prime(33) == 139 && Prime(34) == 149 && Prime(35) == 151
  {}

  lemma Primes9()
    ensures Prime(36) == 157 && Prime(37) == 163 && Prime(38) == 167 && Prime(39) == 173
  {}

  lemma Primes10()
    ensures Prime(40) == 179 && Prime(41) == 181 && Prime(42) == 191 && Prime(43) == 193
  {}

  lemma Primes11()
    ensures Prime(44) == 197 && Prime(45) == 199 && Prime(46) == 211 && Prime(47) == 223
  {}

  lemma Primes12()
    ensures Prime(48) == 227 && Prime(49) == 229 && Prime(50) == 233 && Prime(51) == 239
  {}

  lemma Primes13()
    ensures Prime(52) == 241 && Prime(53) == 251 && Prime(54) == 257 && Prime(55) == 263
  {}

  lemma Primes14()
    ensures Prime(56) == 269 && Prime(57) == 271 && Prime(58) == 277 && Prime(59) == 281
  {}

  lemma Primes15()
    ensures Prime(60) == 283 && Prime(61) == 293 && Prime(62) == 307 && Prime(63) == 311
  {}

  /** `Prime` lists the primes, none left out. */
  lemma PrimesInOrder(t: nat)
    requires t < 64
    ensures IsPrime(Prime(t)) && Beyond(t) <= Prime(t) && forall n: nat :: Beyond(t) <= n < Prime(t) ==> !IsPrime(n)
  {
    GapAt(t);
    hide Passes, NonePasses, Prime, Beyond;
    PassesExactly(Prime(t));
    forall n: nat | Beyond(t) <= n < Prime(t)
      ensures !IsPrime(n)
    {
      NonePassesAt(Beyond(t), Prime(t), n);
      PassesExactly(n);
    }
  }

  predicate Gap(t: nat)
    requires t < 64
  {
    2 <= Beyond(t) <= Prime(t) < 324 && NonePasses(Beyond(t), Prime(t)) && Passes(Prime(t))
  }

  lemma GapsAt0()
    ensures Gap(0) && Gap(1) && Gap(2) && Gap(3)
  {
    hide Passes, NonePasses, Prime;
    Primes0();
    Gaps0();
  }

  lemma GapsAt1()
    ensures Gap(4) && Gap(5) && Gap(6) && Gap(7)
  {
    hide Passes, NonePasses, Prime;
    Primes0();
    Primes1();
    Gaps1();
  }

  lemma GapsAt2()
    ensures Gap(8) && Gap(9) && Gap(10) && Gap(11)
  {
    hide Passes, NonePasses, Prime;
    Primes1();
    Primes2();
    Gaps2();
  }

  lemma GapsAt3()
    ensures Gap(12) && Gap(13) && Gap(14) && Gap(15)
  {
    hide Passes, NonePasses, Prime;
    Primes2();
    Primes3();
    Gaps3();
  }

  lemma GapsAt4()
    ensures Gap(16) && Gap(17) && Gap(18) && Gap(19)
  {
    hide Passes, NonePasses, Prime;
    Primes3();
    Primes4();
    Gaps4();
  }

  lemma GapsAt5()
    ensures Gap(20) && Gap(21) && Gap(22) && Gap(23)
  {
    hide Passes, NonePasses, Prime;
    Primes4();
    Primes5();
    Gaps5();
  }

  lemma GapsAt6()
    ensures Gap(24) && Gap(25) && Gap(26) && Gap(27)
  {
    hide Passes, NonePasses, Prime;
    Primes5();
    Primes6();
    Gaps6();
  }

  lemma GapsAt7()
    ensures Gap(28) && Gap(29) && Gap(30) && Gap(31)
  {
    hide Passes, NonePasses, Prime;
    Primes6();
    Primes7();
    Gaps7();
  }

  lemma GapsAt8()
    ensures Gap(32) && Gap(33) && Gap(34) && Gap(35)
  {
    hide Passes, NonePasses, Prime;
    Primes7();
    Primes8();
    Gaps8();
  }

  lemma GapsAt9()
    ensures Gap(36) && Gap(37) && Gap(38) && Gap(39)
  {
    hide Passes, NonePasses, Prime;
    Primes8();
    Primes9();
    Gaps9();
  }

  lemma GapsAt10()
    ensures Gap(40) && Gap(41) && Gap(42) && Gap(43)
  {
    hide Passes, NonePasses, Prime;
    Primes9();
    Primes10();
    Gaps10();
  }

  lemma GapsAt11()
    ensures Gap(44) && Gap(45) && Gap(46) && Gap(47)
  {
    hide Passes, NonePasses, Prime;
    Primes10();
    Primes11();
    Gaps11();
  }

  lemma GapsAt12()
    ensures Gap(48) && Gap(49) && Gap(50) && Gap(51)
  {
    hide Passes, NonePasses, Prime;
    Primes11();
    Primes12();
    Gaps12();
  }

  lemma GapsAt13()
    ensures Gap(52) && Gap(53) && Gap(54) && Gap(55)
  {
    hide Passes, NonePasses, Prime;
    Primes12();
    Primes13();
    Gaps13();
  }

  lemma GapsAt14()
    ensures Gap(56) && Gap(57) && Gap(58) && Gap(59)
  {
    hide Passes, NonePasses, Prime;
    Primes13();
    Primes14();
    Gaps14();
  }

  lemma GapsAt15()
    ensures Gap(60) && Gap(61) && Gap(62) && Gap(63)
  {
    hide Passes, NonePasses, Prime;
    Primes14();
    Primes15();
    Gaps15();
  }

  lemma GapAt(t: nat)
    requires t < 64
    ensures Gap(t)
  {
    hide Gap;
    if t < 4 {
      GapsAt0();
    } else if t < 8 {
      GapsAt1();
    } else if t < 12 {
      GapsAt2();
    } else if t < 16 {
      GapsAt3();
    } else if t < 20 {
      GapsAt4();
    } else if t < 24 {
      GapsAt5();
    } else if t < 28 {
      GapsAt6();
    } else if t < 32 {
      GapsAt7();
    } else if t < 36 {
      GapsAt8();
    } else if t < 40 {
      GapsAt9();
    } else if t < 44 {
      GapsAt10();
    } else if t < 48 {
      GapsAt11();
    } else if t < 52 {
      GapsAt12();
    } else if t < 56 {
      GapsAt13();
    } else if t < 60 {
      GapsAt14();
    } else {
      GapsAt15();
    }
  }

  // Roots.

  function Cube(n: nat): nat {
    n * n * n
  }

  function Square(n: nat): nat {
    n * n
  }

  const TWO_96: nat := TWO_32 * TWO_64

  /** `c` and the 32-bit fraction `k` are the leading bits of the cube root of `p`. */
  predicate CubeRoot(c: nat, k: nat, p: nat) {
    k < TWO_32 && Cube(c * TWO_32 + k) <= p * TWO_96 < Cube(c * TWO_32 + k + 1)
  }

  predicate SquareRoot(c: nat, k: nat, p: nat) {
    k < TWO_32 && Square(c * TWO_32 + k) <= p * TWO_64 < Square(c * TWO_32 + k + 1)
  }

  function Number(w: Word): nat {
    w as nat
  }

  ghost predicate CubeRootBits(w: Word, p: nat) {
    exists c: nat :: CubeRoot(c, Number(w), p)
  }

  ghost predicate SquareRootBits(w: Word, p: nat) {
    exists c: nat :: SquareRoot(c, Number(w), p)
  }

  lemma Cubes0()
    ensures Number(0x428a2f98) == 0x428a2f98 && CubeRoot(1, 0x428a2f98, 2)
    ensures Number(0x71374491) == 0x71374491 && CubeRoot(1, 0x71374491, 3)
    ensures Number(0xb5c0fbcf) == 0xb5c0fbcf && CubeRoot(1, 0xb5c0fbcf, 5)
    ensures Number(0xe9b5dba5) == 0xe9b5dba5 && CubeRoot(1, 0xe9b5dba5, 7)
    ensures Number(0x3956c25b) == 0x3956c25b && CubeRoot(2, 0x3956c25b, 11)
    ensures Number(0x59f111f1) == 0x59f111f1 && CubeRoot(2, 0x59f111f1, 13)
    ensures Number(0x923f82a4) == 0x923f82a4 && CubeRoot(2, 0x923f82a4, 17)
    ensures Number(0xab1c5ed5) == 0xab1c5ed5 && CubeRoot(2, 0xab1c5ed5, 19)
  {}

  lemma Constants0()
    ensures RoundConstant(0) == 0x428a2f98 && RoundConstant(1) == 0x71374491 && RoundConstant(2) == 0xb5c0fbcf
    ensures RoundConstant(3) == 0xe9b5dba5 && RoundConstant(4) == 0x3956c25b && RoundConstant(5) == 0x59f111f1
    ensures RoundConstant(6) == 0x923f82a4 && RoundConstant(7) == 0xab1c5ed5
  {}

  lemma Roots0(t: nat)
    requires 0 <= t < 8
    ensures CubeRootBits(RoundConstant(t), Prime(t))
  {
    hide RoundConstant, Prime, CubeRoot, Number;
    Cubes0();
    Constants0();
    Primes0();
    Primes1();
    assert t == 0 || t == 1 || t == 2 || t == 3 || t == 4 || t == 5 || t == 6 || t == 7;
  }

  lemma Cubes1()
    ensures Number(0xd807aa98) == 0xd807aa98 && CubeRoot(2, 0xd807aa98, 23)
    ensures Number(0x12835b01) == 0x12835b01 && CubeRoot(3, 0x12835b01, 29)
    ensures Number(0x243185be) == 0x243185be && CubeRoot(3, 0x243185be, 31)
    ensures Number(0x550c7dc3) == 0x550c7dc3 && CubeRoot(3, 0x550c7dc3, 37)
    ensures Number(0x72be5d74) == 0x72be5d74 && CubeRoot(3, 0x72be5d74, 41)
    ensures Number(0x80deb1fe) == 0x80deb1fe && CubeRoot(3, 0x80deb1fe, 43)
    ensures Number(0x9bdc06a7) == 0x9bdc06a7 && CubeRoot(3, 0x9bdc06a7, 47)
    ensures Number(0xc19bf174) == 0xc19bf174 && CubeRoot(3, 0xc19bf174, 53)
  {}

  lemma Constants1()
    ensures RoundConstant(8) == 0xd807aa98 && RoundConstant(9) == 0x12835b01 && RoundConstant(10) == 0x243185be
    ensures RoundConstant(11) == 0x550c7dc3 && RoundConstant(12) == 0x72be5d74 && RoundConstant(13) == 0x80deb1fe
    ensures RoundConstant(14) == 0x9bdc06a7 && RoundConstant(15) == 0xc19bf174
  {}

  lemma Roots1(t: nat)
    requires 8 <= t < 16
    ensures CubeRootBits(RoundConstant(t), Prime(t))
  {
    hide RoundConstant, Prime, CubeRoot, Number;
    Cubes1();
    Constants1();
    Primes2();
    Primes3();
    assert t == 8 || t == 9 || t == 10 || t == 11 || t == 12 || t == 13 || t == 14 || t == 15;
  }

  lemma Cubes2()
    ensures Number(0xe49b69c1) == 0xe49b69c1 && CubeRoot(3, 0xe49b69c1, 59)
    ensures Number(0xefbe4786) == 0xefbe4786 && CubeRoot(3, 0xefbe4786, 61)
    ensures Number(0x0fc19dc6) == 0x0fc19dc6 && CubeRoot(4, 0x0fc19dc6, 67)
    ensures Number(0x240ca1cc) == 0x240ca1cc && CubeRoot(4, 0x240ca1cc, 71)
    ensures Number(0x2de92c6f) == 0x2de92c6f && CubeRoot(4, 0x2de92c6f, 73)
    ensures Number(0x4a7484aa) == 0x4a7484aa && CubeRoot(4, 0x4a7484aa, 79)
    ensures Number(0x5cb0a9dc) == 0x5cb0a9dc && CubeRoot(4, 0x5cb0a9dc, 83)
    ensures Number(0x76f988da) == 0x76f988da && CubeRoot(4, 0x76f988da, 89)
  {}

  lemma Constants2()
    ensures RoundConstant(16) == 0xe49b69c1 && RoundConstant(17) == 0xefbe4786 && RoundConstant(18) == 0x0fc19dc6
    ensures RoundConstant(19) == 0x240ca1cc && RoundConstant(20) == 0x2de92c6f && RoundConstant(21) == 0x4a7484aa
    ensures RoundConstant(22) == 0x5cb0a9dc && RoundConstant(23) == 0x76f988da
  {}

  lemma Roots2(t: nat)
    requires 16 <= t < 24
    ensures CubeRootBits(RoundConstant(t), Prime(t))
  {
    hide RoundConstant, Prime, CubeRoot, Number;
    Cubes2();
    Constants2();
    Primes4();
    Primes5();
    assert t == 16 || t == 17 || t == 18 || t == 19 || t == 20 || t == 21 || t == 22 || t == 23;
  }

  lemma Cubes3()
    ensures Number(0x983e5152) == 0x983e5152 && CubeRoot(4, 0x983e5152, 97)
    ensures Number(0xa831c66d) == 0xa831c66d && CubeRoot(4, 0xa831c66d, 101)
    ensures Number(0xb00327c8) == 0xb00327c8 && CubeRoot(4, 0xb00327c8, 103)
    ensures Number(0xbf597fc7) == 0xbf597fc7 && CubeRoot(4, 0xbf597fc7, 107)
    ensures Number(0xc6e00bf3) == 0xc6e00bf3 && CubeRoot(4, 0xc6e00bf3, 109)
    ensures Number(0xd5a79147) == 0xd5a79147 && CubeRoot(4, 0xd5a79147, 113)
    ensures Number(0x06ca6351) == 0x06ca6351 && CubeRoot(5, 0x06ca6351, 127)
    ensures Number(0x14292967) == 0x14292967 && CubeRoot(5, 0x14292967, 131)
  {}

  lemma Constants3()
    ensures RoundConstant(24) == 0x983e5152 && RoundConstant(25) == 0xa831c66d && RoundConstant(26) == 0xb00327c8
    ensures RoundConstant(27) == 0xbf597fc7 && RoundConstant(28) == 0xc6e00bf3 && RoundConstant(29) == 0xd5a79147
    ensures RoundConstant(30) == 0x06ca6351 && RoundConstant(31) == 0x14292967
  {}

  lemma Roots3(t: nat)
    requires 24 <= t < 32
    ensures CubeRootBits(RoundConstant(t), Prime(t))
  {
    hide RoundConstant, Prime, CubeRoot, Number;
    Cubes3();
    Constants3();
    Primes6();
    Primes7();
    assert t == 24 || t == 25 || t == 26 || t == 27 || t == 28 || t == 29 || t == 30 || t == 31;
  }

  lemma Cubes4()
    ensures Number(0x27b70a85) == 0x27b70a85 && CubeRoot(5, 0x27b70a85, 137)
    ensures Number(0x2e1b2138) == 0x2e1b2138 && CubeRoot(5, 0x2e1b2138, 139)
    ensures Number(0x4d2c6dfc) == 0x4d2c6dfc && CubeRoot(5, 0x4d2c6dfc, 149)
    ensures Number(0x53380d13) == 0x53380d13 && CubeRoot(5, 0x53380d13, 151)
    ensures Number(0x650a7354) == 0x650a7354 && CubeRoot(5, 0x650a7354, 157)
    ensures Number(0x766a0abb) == 0x766a0abb && CubeRoot(5, 0x766a0abb, 163)
    ensures Number(0x81c2c92e) == 0x81c2c92e && CubeRoot(5, 0x81c2c92e, 167)
    ensures Number(0x92722c85) == 0x92722c85 && CubeRoot(5, 0x92722c85, 173)
  {}

  lemma Constants4()
    ensures RoundConstant(32) == 0x27b70a85 && RoundConstant(33) == 0x2e1b2138 && RoundConstant(34) == 0x4d2c6dfc
    ensures RoundConstant(35) == 0x53380d13 && RoundConstant(36) == 0x650a7354 && RoundConstant(37) == 0x766a0abb
    ensures RoundConstant(38) == 0x81c2c92e && RoundConstant(39) == 0x92722c85
  {}

  lemma Roots4(t: nat)
    requires 32 <= t < 40
    ensures CubeRootBits(RoundConstant(t), Prime(t))
  {
    hide RoundConstant, Prime, CubeRoot, Number;
    Cubes4();
    Constants4();
    Primes8();
    Primes9();
    assert t == 32 || t == 33 || t == 34 || t == 35 || t == 36 || t == 37 || t == 38 || t == 39;
  }

  lemma Cubes5()
    ensures Number(0xa2bfe8a1) == 0xa2bfe8a1 && CubeRoot(5, 0xa2bfe8a1, 179)
    ensures Number(0xa81a664b) == 0xa81a664b && CubeRoot(5, 0xa81a664b, 181)
    ensures Number(0xc24b8b70) == 0xc24b8b70 && CubeRoot(5, 0xc24b8b70, 191)
    ensures Number(0xc76c51a3) == 0xc76c51a3 && CubeRoot(5, 0xc76c51a3, 193)
    ensures Number(0xd192e819) == 0xd192e819 && CubeRoot(5, 0xd192e819, 197)
    ensures Number(0xd6990624) == 0xd6990624 && CubeRoot(5, 0xd6990624, 199)
    ensures Number(0xf40e3585) == 0xf40e3585 && CubeRoot(5, 0xf40e3585, 211)
    ensures Number(0x106aa070) == 0x106aa070 && CubeRoot(6, 0x106aa070, 223)
  {}

  lemma Constants5()
    ensures RoundConstant(40) == 0xa2bfe8a1 && RoundConstant(41) == 0xa81a664b && RoundConstant(42) == 0xc24b8b70
    ensures RoundConstant(43) == 0xc76c51a3 && RoundConstant(44) == 0xd192e819 && RoundConstant(45) == 0xd6990624
    ensures RoundConstant(46) == 0xf40e3585 && RoundConstant(47) == 0x106aa070
  {}

  lemma Roots5(t: nat)
    requires 40 <= t < 48
    ensures CubeRootBits(RoundConstant(t), Prime(t))
  {
    hide RoundConstant, Prime, CubeRoot, Number;
    Cubes5();
    Constants5();
    Primes10();
    Primes11();
    assert t == 40 || t == 41 || t == 42 || t == 43 || t == 44 || t == 45 || t == 46 || t == 47;
  }

  lemma Cubes6()
    ensures Number(0x19a4c116) == 0x19a4c116 && CubeRoot(6, 0x19a4c116, 227)
    ensures Number(0x1e376c08) == 0x1e376c08 && CubeRoot(6, 0x1e376c08, 229)
    ensures Number(0x2748774c) == 0x2748774c && CubeRoot(6, 0x2748774c, 233)
    ensures Number(0x34b0bcb5) == 0x34b0bcb5 && CubeRoot(6, 0x34b0bcb5, 239)
    ensures Number(0x391c0cb3) == 0x391c0cb3 && CubeRoot(6, 0x391c0cb3, 241)
    ensures Number(0x4ed8aa4a) == 0x4ed8aa4a && CubeRoot(6, 0x4ed8aa4a, 251)
    ensures Number(0x5b9cca4f) == 0x5b9cca4f && CubeRoot(6, 0x5b9cca4f, 257)
    ensures Number(0x682e6ff3) == 0x682e6ff3 && CubeRoot(6, 0x682e6ff3, 263)
  {}

  lemma Constants6()
    ensures RoundConstant(48) == 0x19a4c116 && RoundConstant(49) == 0x1e376c08 && RoundConstant(50) == 0x2748774c
    ensures RoundConstant(51) == 0x34b0bcb5 && RoundConstant(52) == 0x391c0cb3 && RoundConstant(53) == 0x4ed8aa4a
    ensures RoundConstant(54) == 0x5b9cca4f && RoundConstant(55) == 0x682e6ff3
  {}

  lemma Roots6(t: nat)
    requires 48 <= t < 56
    ensures CubeRootBits(RoundConstant(t), Prime(t))
  {
    hide RoundConstant, Prime, CubeRoot, Number;
    Cubes6();
    Constants6();
    Primes12();
    Primes13();
    assert t == 48 || t == 49 || t == 50 || t == 51 || t == 52 || t == 53 || t == 54 || t == 55;
  }

  lemma Cubes7()
    ensures Number(0x748f82ee) == 0x748f82ee && CubeRoot(6, 0x748f82ee, 269)
    ensures Number(0x78a5636f) == 0x78a5636f && CubeRoot(6, 0x78a5636f, 271)
    ensures Number(0x84c87814) == 0x84c87814 && CubeRoot(6, 0x84c87814, 277)
    ensures Number(0x8cc70208) == 0x8cc70208 && CubeRoot(6, 0x8cc70208, 281)
    ensures Number(0x90befffa) == 0x90befffa && CubeRoot(6, 0x90befffa, 283)
    ensures Number(0xa4506ceb) == 0xa4506ceb && CubeRoot(6, 0xa4506ceb, 293)
    ensures Number(0xbef9a3f7) == 0xbef9a3f7 && CubeRoot(6, 0xbef9a3f7, 307)
    ensures Number(0xc67178f2) == 0xc67178f2 && CubeRoot(6, 0xc67178f2, 311)
  {}

  lemma Constants7()
    ensures RoundConstant(56) == 0x748f82ee && RoundConstant(57) == 0x78a5636f && RoundConstant(58) == 0x84c87814
    ensures RoundConstant(59) == 0x8cc70208 && RoundConstant(60) == 0x90befffa && RoundConstant(61) == 0xa4506ceb
    ensures RoundConstant(62) == 0xbef9a3f7 && RoundConstant(63) == 0xc67178f2
  {}

  lemma Roots7(t: nat)
    requires 56 <= t < 64
    ensures CubeRootBits(RoundConstant(t), Prime(t))
  {
    hide RoundConstant, Prime, CubeRoot, Number;
    Cubes7();
    Constants7();
    Primes14();
    Primes15();
    assert t == 56 || t == 57 || t == 58 || t == 59 || t == 60 || t == 61 || t == 62 || t == 63;
  }

  /** Section 4.2.2: the round constants. */
  lemma RoundConstantsAreCubeRoots(t: nat)
    requires t < 64
    ensures CubeRootBits(RoundConstant(t), Prime(t))
  {
    hide RoundConstant, Prime, CubeRootBits;
    if t < 8 {
      Roots0(t);
    } else if t < 16 {
      Roots1(t);
    } else if t < 24 {
      Roots2(t);
    } else if t < 32 {
      Roots3(t);
    } else if t < 40 {
      Roots4(t);
    } else if t < 48 {
      Roots5(t);
    } else if t < 56 {
      Roots6(t);
    } else {
      Roots7(t);
    }
  }

  lemma Squares()
    ensures Number(0x6a09e667) == 0x6a09e667 && SquareRoot(1, 0x6a09e667, 2)
    ensures Number(0xbb67ae85) == 0xbb67ae85 && SquareRoot(1, 0xbb67ae85, 3)
    ensures Number(0x3c6ef372) == 0x3c6ef372 && SquareRoot(2, 0x3c6ef372, 5)
    ensures Number(0xa54ff53a) == 0xa54ff53a && SquareRoot(2, 0xa54ff53a, 7)
    ensures Number(0x510e527f) == 0x510e527f && SquareRoot(3, 0x510e527f, 11)
    ensures Number(0x9b05688c) == 0x9b05688c && SquareRoot(3, 0x9b05688c, 13)
    ensures Number(0x1f83d9ab) == 0x1f83d9ab && SquareRoot(4, 0x1f83d9ab, 17)
    ensures Number(0x5be0cd19) == 0x5be0cd19 && SquareRoot(4, 0x5be0cd19, 19)
  {}

  /** Section 5.3.3: the initial hash value. */
  lemma InitialValueIsSquareRoots()
    ensures SquareRootBits(H0.a, Prime(0)) && SquareRootBits(H0.b, Prime(1)) && SquareRootBits(H0.c, Prime(2))
    ensures SquareRootBits(H0.d, Prime(3)) && SquareRootBits(H0.e, Prime(4)) && SquareRootBits(H0.f, Prime(5))
    ensures SquareRootBits(H0.g, Prime(6)) && SquareRootBits(H0.h, Prime(7))
  {
    hide Prime, SquareRoot, Number;
    Primes0();
    Primes1();
    Squares();
  }
}
