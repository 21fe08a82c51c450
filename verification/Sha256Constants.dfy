/** Where the constants of FIPS 180-4 come from (sections 4.2.2 and 5.3.3): the first 32 bits
    of the fractional parts of the cube roots of the first 64 primes, and of the square roots
    of the first eight. A wrong or misplaced constant would make a lemma below fail. */
module Sha256Constants {
  import opened Sha256Spec
  import opened Words

  /** `k` is floor(2^32 * (cbrt(p) - whole)), where `whole` is the integer part of the cube root. */
  ghost predicate CubeRoot(p: nat, whole: nat, k: bv32) {
    var n := whole * TWO32 + k as int;
    n * n * n <= p * (TWO32 * TWO32 * TWO32) < (n + 1) * (n + 1) * (n + 1)
  }

  ghost predicate SquareRoot(p: nat, whole: nat, k: bv32) {
    var n := whole * TWO32 + k as int;
    n * n <= p * (TWO32 * TWO32) < (n + 1) * (n + 1)
  }

  lemma Constants0() ensures CubeRoot(2, 1, RoundConstant(0)) && CubeRoot(3, 1, RoundConstant(1)) {}
  lemma Constants2() ensures CubeRoot(5, 1, RoundConstant(2)) && CubeRoot(7, 1, RoundConstant(3)) {}
  lemma Constants4() ensures CubeRoot(11, 2, RoundConstant(4)) && CubeRoot(13, 2, RoundConstant(5)) {}
  lemma Constants6() ensures CubeRoot(17, 2, RoundConstant(6)) && CubeRoot(19, 2, RoundConstant(7)) {}
  lemma Constants8() ensures CubeRoot(23, 2, RoundConstant(8)) && CubeRoot(29, 3, RoundConstant(9)) {}
  lemma Constants10() ensures CubeRoot(31, 3, RoundConstant(10)) && CubeRoot(37, 3, RoundConstant(11)) {}
  lemma Constants12() ensures CubeRoot(41, 3, RoundConstant(12)) && CubeRoot(43, 3, RoundConstant(13)) {}
  lemma Constants14() ensures CubeRoot(47, 3, RoundConstant(14)) && CubeRoot(53, 3, RoundConstant(15)) {}
  lemma Constants16() ensures CubeRoot(59, 3, RoundConstant(16)) && CubeRoot(61, 3, RoundConstant(17)) {}
  lemma Constants18() ensures CubeRoot(67, 4, RoundConstant(18)) && CubeRoot(71, 4, RoundConstant(19)) {}
  lemma Constants20() ensures CubeRoot(73, 4, RoundConstant(20)) && CubeRoot(79, 4, RoundConstant(21)) {}
  lemma Constants22() ensures CubeRoot(83, 4, RoundConstant(22)) && CubeRoot(89, 4, RoundConstant(23)) {}
  lemma Constants24() ensures CubeRoot(97, 4, RoundConstant(24)) && CubeRoot(101, 4, RoundConstant(25)) {}
  lemma Constants26() ensures CubeRoot(103, 4, RoundConstant(26)) && CubeRoot(107, 4, RoundConstant(27)) {}
  lemma Constants28() ensures CubeRoot(109, 4, RoundConstant(28)) && CubeRoot(113, 4, RoundConstant(29)) {}
  lemma Constants30() ensures CubeRoot(127, 5, RoundConstant(30)) && CubeRoot(131, 5, RoundConstant(31)) {}
  lemma Constants32() ensures CubeRoot(137, 5, RoundConstant(32)) && CubeRoot(139, 5, RoundConstant(33)) {}
  lemma Constants34() ensures CubeRoot(149, 5, RoundConstant(34)) && CubeRoot(151, 5, RoundConstant(35)) {}
  lemma Constants36() ensures CubeRoot(157, 5, RoundConstant(36)) && CubeRoot(163, 5, RoundConstant(37)) {}
  lemma Constants38() ensures CubeRoot(167, 5, RoundConstant(38)) && CubeRoot(173, 5, RoundConstant(39)) {}
  lemma Constants40() ensures CubeRoot(179, 5, RoundConstant(40)) && CubeRoot(181, 5, RoundConstant(41)) {}
  lemma Constants42() ensures CubeRoot(191, 5, RoundConstant(42)) && CubeRoot(193, 5, RoundConstant(43)) {}
  lemma Constants44() ensures CubeRoot(197, 5, RoundConstant(44)) && CubeRoot(199, 5, RoundConstant(45)) {}
  lemma Constants46() ensures CubeRoot(211, 5, RoundConstant(46)) && CubeRoot(223, 6, RoundConstant(47)) {}
  lemma Constants48() ensures CubeRoot(227, 6, RoundConstant(48)) && CubeRoot(229, 6, RoundConstant(49)) {}
  lemma Constants50() ensures CubeRoot(233, 6, RoundConstant(50)) && CubeRoot(239, 6, RoundConstant(51)) {}
  lemma Constants52() ensures CubeRoot(241, 6, RoundConstant(52)) && CubeRoot(251, 6, RoundConstant(53)) {}
  lemma Constants54() ensures CubeRoot(257, 6, RoundConstant(54)) && CubeRoot(263, 6, RoundConstant(55)) {}
  lemma Constants56() ensures CubeRoot(269, 6, RoundConstant(56)) && CubeRoot(271, 6, RoundConstant(57)) {}
  lemma Constants58() ensures CubeRoot(277, 6, RoundConstant(58)) && CubeRoot(281, 6, RoundConstant(59)) {}
  lemma Constants60() ensures CubeRoot(283, 6, RoundConstant(60)) && CubeRoot(293, 6, RoundConstant(61)) {}
  lemma Constants62() ensures CubeRoot(307, 6, RoundConstant(62)) && CubeRoot(311, 6, RoundConstant(63)) {}

  lemma Initial0() ensures SquareRoot(2, 1, H0.a) && SquareRoot(3, 1, H0.b) {}
  lemma Initial2() ensures SquareRoot(5, 2, H0.c) && SquareRoot(7, 2, H0.d) {}
  lemma Initial4() ensures SquareRoot(11, 3, H0.e) && SquareRoot(13, 3, H0.f) {}
  lemma Initial6() ensures SquareRoot(17, 4, H0.g) && SquareRoot(19, 4, H0.h) {}

  /** The prime number t, counted from 0. */
  function Prime(t: nat): nat
    requires t < 64
  {
    match t
    case 0 => 2 case 1 => 3 case 2 => 5 case 3 => 7
    case 4 => 11 case 5 => 13 case 6 => 17 case 7 => 19
    case 8 => 23 case 9 => 29 case 10 => 31 case 11 => 37
    case 12 => 41 case 13 => 43 case 14 => 47 case 15 => 53
    case 16 => 59 case 17 => 61 case 18 => 67 case 19 => 71
    case 20 => 73 case 21 => 79 case 22 => 83 case 23 => 89
    case 24 => 97 case 25 => 101 case 26 => 103 case 27 => 107
    case 28 => 109 case 29 => 113 case 30 => 127 case 31 => 131
    case 32 => 137 case 33 => 139 case 34 => 149 case 35 => 151
    case 36 => 157 case 37 => 163 case 38 => 167 case 39 => 173
    case 40 => 179 case 41 => 181 case 42 => 191 case 43 => 193
    case 44 => 197 case 45 => 199 case 46 => 211 case 47 => 223
    case 48 => 227 case 49 => 229 case 50 => 233 case 51 => 239
    case 52 => 241 case 53 => 251 case 54 => 257 case 55 => 263
    case 56 => 269 case 57 => 271 case 58 => 277 case 59 => 281
    case 60 => 283 case 61 => 293 case 62 => 307 case _ => 311
  }

  /** The integer part of a cube root, for the primes that occur. */
  function CubeFloor(p: nat): nat {
    if p < 8 then 1 else if p < 27 then 2 else if p < 64 then 3 else if p < 125 then 4 else if p < 216 then 5 else 6
  }

  /** Every round constant is the first 32 bits of the fraction of its prime's cube root. */
  lemma RoundConstantsAreCubeRoots(t: nat)
    requires t < 64
    ensures CubeRoot(Prime(t), CubeFloor(Prime(t)), RoundConstant(t))
  {
    hide CubeRoot;
    match t {
      case 0 | 1 => Constants0();
      case 2 | 3 => Constants2();
      case 4 | 5 => Constants4();
      case 6 | 7 => Constants6();
      case 8 | 9 => Constants8();
      case 10 | 11 => Constants10();
      case 12 | 13 => Constants12();
      case 14 | 15 => Constants14();
      case 16 | 17 => Constants16();
      case 18 | 19 => Constants18();
      case 20 | 21 => Constants20();
      case 22 | 23 => Constants22();
      case 24 | 25 => Constants24();
      case 26 | 27 => Constants26();
      case 28 | 29 => Constants28();
      case 30 | 31 => Constants30();
      case 32 | 33 => Constants32();
      case 34 | 35 => Constants34();
      case 36 | 37 => Constants36();
      case 38 | 39 => Constants38();
      case 40 | 41 => Constants40();
      case 42 | 43 => Constants42();
      case 44 | 45 => Constants44();
      case 46 | 47 => Constants46();
      case 48 | 49 => Constants48();
      case 50 | 51 => Constants50();
      case 52 | 53 => Constants52();
      case 54 | 55 => Constants54();
      case 56 | 57 => Constants56();
      case 58 | 59 => Constants58();
      case 60 | 61 => Constants60();
      case _ => Constants62();
    }
  }

  /** The initial state is made of the square roots of the first eight primes in the same way. */
  lemma InitialStateIsSquareRoots()
    ensures SquareRoot(2, 1, H0.a) && SquareRoot(3, 1, H0.b)
    ensures SquareRoot(5, 2, H0.c) && SquareRoot(7, 2, H0.d)
    ensures SquareRoot(11, 3, H0.e) && SquareRoot(13, 3, H0.f)
    ensures SquareRoot(17, 4, H0.g) && SquareRoot(19, 4, H0.h)
  {
    Initial0();
    Initial2();
    Initial4();
    Initial6();
  }
}
