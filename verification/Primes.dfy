/** The first eighty primes, from which FIPS 180-4 derives the constants of SHA-512. */
module Primes {
  import Arithmetic

  predicate Divides(d: nat, n: nat)
    requires d > 0
  {
    n % d == 0
  }

  ghost predicate IsPrime(n: nat) {
    n >= 2 && forall d: nat | 2 <= d < n :: !Divides(d, n)
  }

  function Prime(t: nat): nat {
    match t
    case 0 => 2 case 1 => 3 case 2 => 5 case 3 => 7 case 4 => 11 case 5 => 13 case 6 => 17 case 7 => 19
    case 8 => 23 case 9 => 29
    case 10 => 31 case 11 => 37 case 12 => 41 case 13 => 43 case 14 => 47 case 15 => 53 case 16 => 59 case 17 => 61
    case 18 => 67 case 19 => 71
    case 20 => 73 case 21 => 79 case 22 => 83 case 23 => 89 case 24 => 97 case 25 => 101 case 26 => 103 case 27 => 107
    case 28 => 109 case 29 => 113
    case 30 => 127 case 31 => 131 case 32 => 137 case 33 => 139 case 34 => 149 case 35 => 151 case 36 => 157 case 37 => 163
    case 38 => 167 case 39 => 173
    case 40 => 179 case 41 => 181 case 42 => 191 case 43 => 193 case 44 => 197 case 45 => 199 case 46 => 211 case 47 => 223
    case 48 => 227 case 49 => 229
    case 50 => 233 case 51 => 239 case 52 => 241 case 53 => 251 case 54 => 257 case 55 => 263 case 56 => 269 case 57 => 271
    case 58 => 277 case 59 => 281
    case 60 => 283 case 61 => 293 case 62 => 307 case 63 => 311 case 64 => 313 case 65 => 317 case 66 => 331 case 67 => 337
    case 68 => 347 case 69 => 349
    case 70 => 353 case 71 => 359 case 72 => 367 case 73 => 373 case 74 => 379 case 75 => 383 case 76 => 389 case 77 => 397
    case 78 => 401 case 79 => 409
    case _ => 0
  }

  // ----- sieving with the primes below 21

  /** None of the eight primes below 21 divides `n`, unless it is `n`. */
  predicate Unsieved(n: nat) {
    && (n % 2 != 0 || n == 2) && (n % 3 != 0 || n == 3) && (n % 5 != 0 || n == 5) && (n % 7 != 0 || n == 7)
    && (n % 11 != 0 || n == 11) && (n % 13 != 0 || n == 13) && (n % 17 != 0 || n == 17) && (n % 19 != 0 || n == 19)
  }

  lemma DividesProduct(q: nat, a: nat, b: nat)
    requires q > 0 && Divides(q, a)
    ensures Divides(q, a * b)
  {
    var k := a / q;
    assert a == k * q;
    Arithmetic.MulAssociates(k, q, b);
    Arithmetic.MulAssociates(k, b, q);
    Arithmetic.QuotientUnique(a * b, k * b, 0, q);
  }

  /** A number from 2 to 20 has one of the eight primes as a divisor. */
  lemma SmallFactor(f: nat) returns (q: nat)
    requires 2 <= f <= 20
    ensures q in {2, 3, 5, 7, 11, 13, 17, 19} && Divides(q, f)
  {
    q := if f % 2 == 0 then 2 else if f % 3 == 0 then 3 else if f % 5 == 0 then 5 else if f % 7 == 0 then 7 else f;
  }

  /** Of two factors of a number below 441 one is at most 20. */
  lemma SmallerFactor(d: nat, e: nat, n: nat)
    requires n == d * e && n < 441
    ensures d <= 20 || e <= 20
  {
    if d >= 21 && e >= 21 {
      Arithmetic.MulMonotone(21, d, e);
    }
  }

  lemma Sieved(n: nat, q: nat)
    requires q in {2, 3, 5, 7, 11, 13, 17, 19} && Divides(q, n) && q != n
    ensures !Unsieved(n)
  {
  }

  lemma UnsievedIsPrime(n: nat)
    requires 20 < n < 441 && Unsieved(n)
    ensures IsPrime(n)
  {
    hide Unsieved, Divides;
    forall d: nat | 2 <= d < n
      ensures !Divides(d, n)
    {
      if Divides(d, n) {
        HasSmallDivisor(n, d);
        assert false;
      }
    }
  }

  lemma HasSmallDivisor(n: nat, d: nat)
    requires 20 < n < 441 && 2 <= d < n && Divides(d, n)
    ensures !Unsieved(n)
  {
    hide Unsieved;
    var e := n / d;
    assert n == d * e;
    assert e >= 2 by {
      Arithmetic.MulMonotone(e, 1, d);
    }
    SmallerFactor(d, e, n);
    var f, g := if d <= 20 then d else e, if d <= 20 then e else d;
    assert n == f * g;
    var q := SmallFactor(f);
    DividesProduct(q, f, g);
    Sieved(n, q);
  }

  lemma SievedIsComposite(n: nat)
    requires n >= 2 && !Unsieved(n)
    ensures !IsPrime(n)
  {
    var q := if n % 2 == 0 && n != 2 then 2 else if n % 3 == 0 && n != 3 then 3 else if n % 5 == 0 && n != 5 then 5
      else if n % 7 == 0 && n != 7 then 7 else if n % 11 == 0 && n != 11 then 11 else if n % 13 == 0 && n != 13 then 13
      else if n % 17 == 0 && n != 17 then 17 else 19;
    assert Divides(q, n) && n > 0;
    if n < q {
      Arithmetic.QuotientUnique(n, 0, n, q);
    }
  }

  lemma SmallPrimes(n: nat)
    requires n in {2, 3, 5, 7, 11, 13, 17, 19}
    ensures IsPrime(n)
  {
    forall d: nat | 2 <= d < n
      ensures !Divides(d, n)
    {
    }
  }

  // ----- the gaps between the primes

  /** `b` is the first number after `a` that is not sieved out. */
  ghost predicate Next(a: nat, b: nat) {
    a < b && Unsieved(b) && forall n: nat | a < n < b :: !Unsieved(n)
  }

  lemma EvenSieved(n: nat)
    requires n > 2 && n % 2 == 0
    ensures !Unsieved(n)
  {
  }

  /** What lies between two odd numbers that are not sieved out: even numbers, and the odd ones listed. */
  lemma Between(a: nat, b: nat, odd: set<nat>)
    requires 2 < a < b && Unsieved(b)
    requires forall n: nat | a < n < b && n % 2 == 1 :: n in odd
    requires forall n: nat | n in odd :: !Unsieved(n)
    ensures Next(a, b)
  {
    hide Unsieved;
    forall n: nat | a < n < b
      ensures !Unsieved(n)
    {
      if n % 2 == 0 {
        EvenSieved(n);
      }
    }
  }

  lemma SieveFrom0()
    ensures Unsieved(3) && Unsieved(5) && Unsieved(7) && Unsieved(11) && Unsieved(13) && Unsieved(17)
    ensures Unsieved(19) && Unsieved(23)
    ensures !Unsieved(9) && !Unsieved(15) && !Unsieved(21)
  {
  }

  lemma NextFrom0()
    ensures Next(2, 3)
    ensures Next(3, 5)
    ensures Next(5, 7)
    ensures Next(7, 11)
    ensures Next(11, 13)
    ensures Next(13, 17)
    ensures Next(17, 19)
    ensures Next(19, 23)
  {
    hide Unsieved, Next;
    SieveFrom0();
    TwoThree();
    Between(3, 5, {});
    Between(5, 7, {});
    Between(7, 11, {9});
    Between(11, 13, {});
    Between(13, 17, {15});
    Between(17, 19, {});
    Between(19, 23, {21});
  }

  lemma SieveFrom8()
    ensures Unsieved(29) && Unsieved(31) && Unsieved(37) && Unsieved(41) && Unsieved(43) && Unsieved(47)
    ensures Unsieved(53) && Unsieved(59)
    ensures !Unsieved(25) && !Unsieved(27) && !Unsieved(33) && !Unsieved(35) && !Unsieved(39) && !Unsieved(45)
    ensures !Unsieved(49) && !Unsieved(51)
    ensures !Unsieved(55) && !Unsieved(57)
  {
  }

  lemma NextFrom8()
    ensures Next(23, 29)
    ensures Next(29, 31)
    ensures Next(31, 37)
    ensures Next(37, 41)
    ensures Next(41, 43)
    ensures Next(43, 47)
    ensures Next(47, 53)
    ensures Next(53, 59)
  {
    hide Unsieved, Next;
    SieveFrom8();
    Between(23, 29, {25, 27});
    Between(29, 31, {});
    Between(31, 37, {33, 35});
    Between(37, 41, {39});
    Between(41, 43, {});
    Between(43, 47, {45});
    Between(47, 53, {49, 51});
    Between(53, 59, {55, 57});
  }

  lemma SieveFrom16()
    ensures Unsieved(61) && Unsieved(67) && Unsieved(71) && Unsieved(73) && Unsieved(79) && Unsieved(83)
    ensures Unsieved(89) && Unsieved(97)
    ensures !Unsieved(63) && !Unsieved(65) && !Unsieved(69) && !Unsieved(75) && !Unsieved(77) && !Unsieved(81)
    ensures !Unsieved(85) && !Unsieved(87)
    ensures !Unsieved(91) && !Unsieved(93) && !Unsieved(95)
  {
  }

  lemma NextFrom16()
    ensures Next(59, 61)
    ensures Next(61, 67)
    ensures Next(67, 71)
    ensures Next(71, 73)
    ensures Next(73, 79)
    ensures Next(79, 83)
    ensures Next(83, 89)
    ensures Next(89, 97)
  {
    hide Unsieved, Next;
    SieveFrom16();
    Between(59, 61, {});
    Between(61, 67, {63, 65});
    Between(67, 71, {69});
    Between(71, 73, {});
    Between(73, 79, {75, 77});
    Between(79, 83, {81});
    Between(83, 89, {85, 87});
    Between(89, 97, {91, 93, 95});
  }

  lemma SieveFrom24()
    ensures Unsieved(101) && Unsieved(103) && Unsieved(107) && Unsieved(109) && Unsieved(113) && Unsieved(127)
    ensures Unsieved(131) && Unsieved(137)
    ensures !Unsieved(99) && !Unsieved(105) && !Unsieved(111) && !Unsieved(115) && !Unsieved(117) && !Unsieved(119)
    ensures !Unsieved(121) && !Unsieved(123)
    ensures !Unsieved(125) && !Unsieved(129) && !Unsieved(133) && !Unsieved(135)
  {
  }

  lemma NextFrom24()
    ensures Next(97, 101)
    ensures Next(101, 103)
    ensures Next(103, 107)
    ensures Next(107, 109)
    ensures Next(109, 113)
    ensures Next(113, 127)
    ensures Next(127, 131)
    ensures Next(131, 137)
  {
    hide Unsieved, Next;
    SieveFrom24();
    Between(97, 101, {99});
    Between(101, 103, {});
    Between(103, 107, {105});
    Between(107, 109, {});
    Between(109, 113, {111});
    Between(113, 127, {115, 117, 119, 121, 123, 125});
    Between(127, 131, {129});
    Between(131, 137, {133, 135});
  }

  lemma SieveFrom32()
    ensures Unsieved(139) && Unsieved(149) && Unsieved(151) && Unsieved(157) && Unsieved(163) && Unsieved(167)
    ensures Unsieved(173) && Unsieved(179)
    ensures !Unsieved(141) && !Unsieved(143) && !Unsieved(145) && !Unsieved(147) && !Unsieved(153) && !Unsieved(155)
    ensures !Unsieved(159) && !Unsieved(161)
    ensures !Unsieved(165) && !Unsieved(169) && !Unsieved(171) && !Unsieved(175) && !Unsieved(177)
  {
  }

  lemma NextFrom32()
    ensures Next(137, 139)
    ensures Next(139, 149)
    ensures Next(149, 151)
    ensures Next(151, 157)
    ensures Next(157, 163)
    ensures Next(163, 167)
    ensures Next(167, 173)
    ensures Next(173, 179)
  {
    hide Unsieved, Next;
    SieveFrom32();
    Between(137, 139, {});
    Between(139, 149, {141, 143, 145, 147});
    Between(149, 151, {});
    Between(151, 157, {153, 155});
    Between(157, 163, {159, 161});
    Between(163, 167, {165});
    Between(167, 173, {169, 171});
    Between(173, 179, {175, 177});
  }

  lemma SieveFrom40()
    ensures Unsieved(181) && Unsieved(191) && Unsieved(193) && Unsieved(197) && Unsieved(199) && Unsieved(211)
    ensures Unsieved(223) && Unsieved(227)
    ensures !Unsieved(183) && !Unsieved(185) && !Unsieved(187) && !Unsieved(189) && !Unsieved(195) && !Unsieved(201)
    ensures !Unsieved(203) && !Unsieved(205)
    ensures !Unsieved(207) && !Unsieved(209) && !Unsieved(213) && !Unsieved(215) && !Unsieved(217) && !Unsieved(219)
    ensures !Unsieved(221) && !Unsieved(225)
  {
  }

  lemma NextFrom40()
    ensures Next(179, 181)
    ensures Next(181, 191)
    ensures Next(191, 193)
    ensures Next(193, 197)
    ensures Next(197, 199)
    ensures Next(199, 211)
    ensures Next(211, 223)
    ensures Next(223, 227)
  {
    hide Unsieved, Next;
    SieveFrom40();
    Between(179, 181, {});
    Between(181, 191, {183, 185, 187, 189});
    Between(191, 193, {});
    Between(193, 197, {195});
    Between(197, 199, {});
    Between(199, 211, {201, 203, 205, 207, 209});
    Between(211, 223, {213, 215, 217, 219, 221});
    Between(223, 227, {225});
  }

  lemma SieveFrom48()
    ensures Unsieved(229) && Unsieved(233) && Unsieved(239) && Unsieved(241) && Unsieved(251) && Unsieved(257)
    ensures Unsieved(263) && Unsieved(269)
    ensures !Unsieved(231) && !Unsieved(235) && !Unsieved(237) && !Unsieved(243) && !Unsieved(245) && !Unsieved(247)
    ensures !Unsieved(249) && !Unsieved(253)
    ensures !Unsieved(255) && !Unsieved(259) && !Unsieved(261) && !Unsieved(265) && !Unsieved(267)
  {
  }

  lemma NextFrom48()
    ensures Next(227, 229)
    ensures Next(229, 233)
    ensures Next(233, 239)
    ensures Next(239, 241)
    ensures Next(241, 251)
    ensures Next(251, 257)
    ensures Next(257, 263)
    ensures Next(263, 269)
  {
    hide Unsieved, Next;
    SieveFrom48();
    Between(227, 229, {});
    Between(229, 233, {231});
    Between(233, 239, {235, 237});
    Between(239, 241, {});
    Between(241, 251, {243, 245, 247, 249});
    Between(251, 257, {253, 255});
    Between(257, 263, {259, 261});
    Between(263, 269, {265, 267});
  }

  lemma SieveFrom56()
    ensures Unsieved(271) && Unsieved(277) && Unsieved(281) && Unsieved(283) && Unsieved(293) && Unsieved(307)
    ensures Unsieved(311) && Unsieved(313)
    ensures !Unsieved(273) && !Unsieved(275) && !Unsieved(279) && !Unsieved(285) && !Unsieved(287) && !Unsieved(289)
    ensures !Unsieved(291) && !Unsieved(295)
    ensures !Unsieved(297) && !Unsieved(299) && !Unsieved(301) && !Unsieved(303) && !Unsieved(305) && !Unsieved(309)
  {
  }

  lemma NextFrom56()
    ensures Next(269, 271)
    ensures Next(271, 277)
    ensures Next(277, 281)
    ensures Next(281, 283)
    ensures Next(283, 293)
    ensures Next(293, 307)
    ensures Next(307, 311)
    ensures Next(311, 313)
  {
    hide Unsieved, Next;
    SieveFrom56();
    Between(269, 271, {});
    Between(271, 277, {273, 275});
    Between(277, 281, {279});
    Between(281, 283, {});
    Between(283, 293, {285, 287, 289, 291});
    Between(293, 307, {295, 297, 299, 301, 303, 305});
    Between(307, 311, {309});
    Between(311, 313, {});
  }

  lemma SieveFrom64()
    ensures Unsieved(317) && Unsieved(331) && Unsieved(337) && Unsieved(347) && Unsieved(349) && Unsieved(353)
    ensures Unsieved(359) && Unsieved(367)
    ensures !Unsieved(315) && !Unsieved(319) && !Unsieved(321) && !Unsieved(323) && !Unsieved(325) && !Unsieved(327)
    ensures !Unsieved(329) && !Unsieved(333)
    ensures !Unsieved(335) && !Unsieved(339) && !Unsieved(341) && !Unsieved(343) && !Unsieved(345) && !Unsieved(351)
    ensures !Unsieved(355) && !Unsieved(357)
    ensures !Unsieved(361) && !Unsieved(363) && !Unsieved(365)
  {
  }

  lemma NextFrom64()
    ensures Next(313, 317)
    ensures Next(317, 331)
    ensures Next(331, 337)
    ensures Next(337, 347)
    ensures Next(347, 349)
    ensures Next(349, 353)
    ensures Next(353, 359)
    ensures Next(359, 367)
  {
    hide Unsieved, Next;
    SieveFrom64();
    Between(313, 317, {315});
    Between(317, 331, {319, 321, 323, 325, 327, 329});
    Between(331, 337, {333, 335});
    Between(337, 347, {339, 341, 343, 345});
    Between(347, 349, {});
    Between(349, 353, {351});
    Between(353, 359, {355, 357});
    Between(359, 367, {361, 363, 365});
  }

  lemma SieveFrom72()
    ensures Unsieved(373) && Unsieved(379) && Unsieved(383) && Unsieved(389) && Unsieved(397) && Unsieved(401)
    ensures Unsieved(409)
    ensures !Unsieved(369) && !Unsieved(371) && !Unsieved(375) && !Unsieved(377) && !Unsieved(381) && !Unsieved(385)
    ensures !Unsieved(387) && !Unsieved(391)
    ensures !Unsieved(393) && !Unsieved(395) && !Unsieved(399) && !Unsieved(403) && !Unsieved(405) && !Unsieved(407)
  {
  }

  lemma NextFrom72()
    ensures Next(367, 373)
    ensures Next(373, 379)
    ensures Next(379, 383)
    ensures Next(383, 389)
    ensures Next(389, 397)
    ensures Next(397, 401)
    ensures Next(401, 409)
  {
    hide Unsieved, Next;
    SieveFrom72();
    Between(367, 373, {369, 371});
    Between(373, 379, {375, 377});
    Between(379, 383, {381});
    Between(383, 389, {385, 387});
    Between(389, 397, {391, 393, 395});
    Between(397, 401, {399});
    Between(401, 409, {403, 405, 407});
  }

  lemma TwoThree()
    ensures Next(2, 3)
  {
  }

  lemma NextIs(t: nat)
    requires t < 79
    ensures Next(Prime(t), Prime(t + 1)) && 2 <= Prime(t) < Prime(t + 1) < 441
  {
    hide Next;
    if t < 16 {
      NextFrom0();
      NextFrom8();
    } else if t < 32 {
      NextFrom16();
      NextFrom24();
    } else if t < 48 {
      NextFrom32();
      NextFrom40();
    } else if t < 64 {
      NextFrom48();
      NextFrom56();
    } else {
      NextFrom64();
      NextFrom72();
    }
  }

  lemma UnsievedPrime(n: nat)
    requires 2 <= n < 441 && Unsieved(n)
    ensures IsPrime(n)
  {
    hide IsPrime;
    if n <= 20 {
      SmallPrimes(n);
    } else {
      UnsievedIsPrime(n);
    }
  }

  /** The table lists primes, and leaves out none: it begins with 2, and there is no prime between one entry and the next. */
  lemma AreConsecutive(t: nat)
    requires t < 80
    ensures Prime(0) == 2 && IsPrime(Prime(t))
    ensures t > 0 ==> Prime(t - 1) < Prime(t) && forall n: nat | Prime(t - 1) < n < Prime(t) :: !IsPrime(n)
  {
    assert Prime(0) == 2;
    hide Prime, Unsieved, IsPrime;
    if t == 0 {
      SmallPrimes(2);
    } else {
      NextIs(t - 1);
      UnsievedPrime(Prime(t));
      forall n: nat | Prime(t - 1) < n < Prime(t)
        ensures !IsPrime(n)
      {
        SievedIsComposite(n);
      }
    }
  }
}
