/** The constants of SHA-256 are those of FIPS 180-4, sections 4.2.2 and 5.3.3: the first 32 bits of the fractional
    parts of the cube and square roots of the first primes. */
module Sha256Constants {
  import opened Sha256Words
  import opened Sha256Spec

  ghost predicate IsPrime(n: nat) {
    n >= 2 && forall d :: 2 <= d < n ==> n % d != 0
  }

  const PRIMES: seq<seq<nat>> := [
    [2, 3, 5, 7, 11, 13, 17, 19],
    [23, 29, 31, 37, 41, 43, 47, 53],
    [59, 61, 67, 71, 73, 79, 83, 89],
    [97, 101, 103, 107, 109, 113, 127, 131],
    [137, 139, 149, 151, 157, 163, 167, 173],
    [179, 181, 191, 193, 197, 199, 211, 223],
    [227, 229, 233, 239, 241, 251, 257, 263],
    [269, 271, 277, 281, 283, 293, 307, 311]]

  /** The primes of the table, counted from 0. */
  function Prime(t: nat): nat
    requires t < 64
  {
    PRIMES[t / 8][t % 8]
  }

  ghost predicate Listed(n: nat) {
    exists t: nat :: t < 64 && Prime(t) == n
  }

  /** No prime up to 17 divides `n`, except itself. */
  predicate Sieved(n: nat) {
    && n >= 2 && (n == 2 || n % 2 != 0) && (n == 3 || n % 3 != 0) && (n == 5 || n % 5 != 0) && (n == 7 || n % 7 != 0)
    && (n == 11 || n % 11 != 0) && (n == 13 || n % 13 != 0) && (n == 17 || n % 17 != 0)
  }

  lemma SmallFactor(n: nat, e: nat)
    requires 2 <= e <= 17 && e < n && n % e == 0
    ensures !Sieved(n)
  {
    if e % 2 == 0 {
      Through(n, e, 2);
    } else if e % 3 == 0 {
      Through(n, e, 3);
    } else if e == 5 || e == 15 {
      Through(n, e, 5);
    }
  }

  lemma Through(n: nat, e: nat, f: nat)
    requires e > 0 && f > 0 && n % e == 0 && e % f == 0
    ensures n % f == 0
  {
    var q, r := n / e, e / f;
    assert n == q * e && e == r * f;
    assert n == (q * r) * f by { Associate(q, r, f); }
    Multiple(q * r, f);
  }

  lemma Associate(q: nat, r: nat, f: nat)
    ensures q * (r * f) == (q * r) * f
  {
  }

  lemma {:induction false} Multiple(q: nat, f: nat)
    requires f > 0
    ensures (q * f) % f == 0
  {
    if q > 0 {
      Multiple(q - 1, f);
      assert q * f == (q - 1) * f + f;
      OneMore((q - 1) * f, f);
    }
  }

  /** A number up to 311 with a divisor has one up to 17. */
  lemma SievedIsPrime(n: nat)
    requires n <= 311 && Sieved(n)
    ensures IsPrime(n)
  {
    forall d | 2 <= d < n
      ensures n % d != 0
    {
      if n % d == 0 {
        if d <= 17 {
          SmallFactor(n, d);
        } else {
          var e := n / d;
          assert n == e * d;
          assert 2 <= e <= 17 by { Cofactor(n, d, e); }
          Multiple(d, e);
          assert n == d * e;
          SmallFactor(n, e);
        }
      }
    }
  }

  lemma Cofactor(n: nat, d: nat, e: nat)
    requires n == e * d && 18 <= d < n <= 311
    ensures 2 <= e <= 17
  {
    if e >= 18 { AtLeast(e, d); }
  }

  lemma AtLeast(e: nat, d: nat)
    requires e >= 18 && d >= 18
    ensures e * d >= 18 * 18
  {
    assert e * d >= 18 * d;
  }

  lemma PrimeIsSieved(n: nat)
    requires IsPrime(n)
    ensures Sieved(n)
  {
  }

  lemma RowIsSieved(i: nat, j: nat)
    requires i < 8 && j < 8
    ensures Sieved(PRIMES[i][j])
  {
  }

  lemma ListedIsSieved(n: nat)
    requires Listed(n)
    ensures Sieved(n)
  {
    var t: nat :| t < 64 && Prime(t) == n;
    RowIsSieved(t / 8, t % 8);
  }

  lemma Sieve0(n: nat)
    requires 1 < n <= 7 && Sieved(n)
    ensures Listed(n)
  {
    assert n == 2 || n == 3 || n == 5 || n == 7;
    assert Prime(0) == 2 && Prime(1) == 3 && Prime(2) == 5 && Prime(3) == 7;
  }

  lemma Sieve1(n: nat)
    requires 7 < n <= 19 && Sieved(n)
    ensures Listed(n)
  {
    assert n == 9 || n == 11 || n == 13 || n == 15 || n == 17 || n == 19;
    assert Prime(4) == 11 && Prime(5) == 13 && Prime(6) == 17 && Prime(7) == 19;
  }

  lemma Sieve2(n: nat)
    requires 19 < n <= 37 && Sieved(n)
    ensures Listed(n)
  {
    assert n == 21 || n == 23 || n == 25 || n == 27 || n == 29 || n == 31 || n == 33 || n == 35 || n == 37;
    assert Prime(8) == 23 && Prime(9) == 29 && Prime(10) == 31 && Prime(11) == 37;
  }

  lemma Sieve3(n: nat)
    requires 37 < n <= 53 && Sieved(n)
    ensures Listed(n)
  {
    assert n == 39 || n == 41 || n == 43 || n == 45 || n == 47 || n == 49 || n == 51 || n == 53;
    assert Prime(12) == 41 && Prime(13) == 43 && Prime(14) == 47 && Prime(15) == 53;
  }

  lemma Sieve4(n: nat)
    requires 53 < n <= 71 && Sieved(n)
    ensures Listed(n)
  {
    assert n == 55 || n == 57 || n == 59 || n == 61 || n == 63 || n == 65 || n == 67 || n == 69 || n == 71;
    assert Prime(16) == 59 && Prime(17) == 61 && Prime(18) == 67 && Prime(19) == 71;
  }

  lemma Sieve5(n: nat)
    requires 71 < n <= 89 && Sieved(n)
    ensures Listed(n)
  {
    assert n == 73 || n == 75 || n == 77 || n == 79 || n == 81 || n == 83 || n == 85 || n == 87 || n == 89;
    assert Prime(20) == 73 && Prime(21) == 79 && Prime(22) == 83 && Prime(23) == 89;
  }

  lemma Sieve6(n: nat)
    requires 89 < n <= 107 && Sieved(n)
    ensures Listed(n)
  {
    assert n == 91 || n == 93 || n == 95 || n == 97 || n == 99 || n == 101 || n == 103 || n == 105 || n == 107;
    assert Prime(24) == 97 && Prime(25) == 101 && Prime(26) == 103 && Prime(27) == 107;
  }

  lemma Sieve7(n: nat)
    requires 107 < n <= 131 && Sieved(n)
    ensures Listed(n)
  {
    assert
      n == 109 || n == 111 || n == 113 || n == 115 || n == 117 || n == 119 || n == 121 || n == 123 || n == 125 ||
      n == 127 || n == 129 || n == 131;
    assert Prime(28) == 109 && Prime(29) == 113 && Prime(30) == 127 && Prime(31) == 131;
  }

  lemma Sieve8(n: nat)
    requires 131 < n <= 151 && Sieved(n)
    ensures Listed(n)
  {
    assert
      n == 133 || n == 135 || n == 137 || n == 139 || n == 141 || n == 143 || n == 145 || n == 147 || n == 149 ||
      n == 151;
    assert Prime(32) == 137 && Prime(33) == 139 && Prime(34) == 149 && Prime(35) == 151;
  }

  lemma Sieve9(n: nat)
    requires 151 < n <= 173 && Sieved(n)
    ensures Listed(n)
  {
    assert
      n == 153 || n == 155 || n == 157 || n == 159 || n == 161 || n == 163 || n == 165 || n == 167 || n == 169 ||
      n == 171 || n == 173;
    assert Prime(36) == 157 && Prime(37) == 163 && Prime(38) == 167 && Prime(39) == 173;
  }

  lemma Sieve10(n: nat)
    requires 173 < n <= 193 && Sieved(n)
    ensures Listed(n)
  {
    assert
      n == 175 || n == 177 || n == 179 || n == 181 || n == 183 || n == 185 || n == 187 || n == 189 || n == 191 ||
      n == 193;
    assert Prime(40) == 179 && Prime(41) == 181 && Prime(42) == 191 && Prime(43) == 193;
  }

  lemma Sieve11(n: nat)
    requires 193 < n <= 223 && Sieved(n)
    ensures Listed(n)
  {
    assert
      n == 195 || n == 197 || n == 199 || n == 201 || n == 203 || n == 205 || n == 207 || n == 209 || n == 211 ||
      n == 213 || n == 215 || n == 217 || n == 219 || n == 221 || n == 223;
    assert Prime(44) == 197 && Prime(45) == 199 && Prime(46) == 211 && Prime(47) == 223;
  }

  lemma Sieve12(n: nat)
    requires 223 < n <= 239 && Sieved(n)
    ensures Listed(n)
  {
    assert n == 225 || n == 227 || n == 229 || n == 231 || n == 233 || n == 235 || n == 237 || n == 239;
    assert Prime(48) == 227 && Prime(49) == 229 && Prime(50) == 233 && Prime(51) == 239;
  }

  lemma Sieve13(n: nat)
    requires 239 < n <= 263 && Sieved(n)
    ensures Listed(n)
  {
    assert
      n == 241 || n == 243 || n == 245 || n == 247 || n == 249 || n == 251 || n == 253 || n == 255 || n == 257 ||
      n == 259 || n == 261 || n == 263;
    assert Prime(52) == 241 && Prime(53) == 251 && Prime(54) == 257 && Prime(55) == 263;
  }

  lemma Sieve14(n: nat)
    requires 263 < n <= 281 && Sieved(n)
    ensures Listed(n)
  {
    assert n == 265 || n == 267 || n == 269 || n == 271 || n == 273 || n == 275 || n == 277 || n == 279 || n == 281;
    assert Prime(56) == 269 && Prime(57) == 271 && Prime(58) == 277 && Prime(59) == 281;
  }

  lemma Sieve15(n: nat)
    requires 281 < n <= 311 && Sieved(n)
    ensures Listed(n)
  {
    assert
      n == 283 || n == 285 || n == 287 || n == 289 || n == 291 || n == 293 || n == 295 || n == 297 || n == 299 ||
      n == 301 || n == 303 || n == 305 || n == 307 || n == 309 || n == 311;
    assert Prime(60) == 283 && Prime(61) == 293 && Prime(62) == 307 && Prime(63) == 311;
  }

  /** The table lists the first 64 primes, in order. */
  lemma PrimesAre(n: nat)
    requires n <= 311
    ensures IsPrime(n) <==> Listed(n)
  {
    if Listed(n) {
      ListedIsSieved(n);
      SievedIsPrime(n);
    }
    if IsPrime(n) {
      PrimeIsSieved(n);
      hide IsPrime, Sieved;
      if n <= 7 { Sieve0(n); } else if n <= 19 { Sieve1(n); } else if n <= 37 { Sieve2(n); }
      else if n <= 53 { Sieve3(n); } else if n <= 71 { Sieve4(n); } else if n <= 89 { Sieve5(n); }
      else if n <= 107 { Sieve6(n); } else if n <= 131 { Sieve7(n); } else if n <= 151 { Sieve8(n); }
      else if n <= 173 { Sieve9(n); } else if n <= 193 { Sieve10(n); } else if n <= 223 { Sieve11(n); }
      else if n <= 239 { Sieve12(n); } else if n <= 263 { Sieve13(n); } else if n <= 281 { Sieve14(n); }
      else { Sieve15(n); }
    }
  }

  lemma LowPrimesAscend(t: nat)
    requires t < 32
    ensures Prime(t) < Prime(t + 1)
  {
  }

  lemma HighPrimesAscend(t: nat)
    requires 32 <= t < 63
    ensures Prime(t) < Prime(t + 1)
  {
  }

  lemma PrimesAscend(t: nat)
    requires t < 63
    ensures Prime(t) < Prime(t + 1)
  {
    hide Prime;
    if t < 32 { LowPrimesAscend(t); } else { HighPrimesAscend(t); }
  }

  // ---------------------------------------------------------------- roots

  /** `k` holds the first 32 bits of the fractional part of the cube root of `p`. */
  ghost predicate CubeRootBits(p: nat, k: word) {
    exists n: nat ::
      Cube(n) <= p * 0x1_0000_0000_0000_0000_0000_0000 < Cube(n + 1)
      && n % 0x1_0000_0000 == k as int
  }

  function Cube(n: nat): nat {
    n * n * n
  }

  /** `k` holds the first 32 bits of the fractional part of the square root of `p`. */
  ghost predicate SquareRootBits(p: nat, k: word) {
    exists n: nat ::
      Square(n) <= p * 0x1_0000_0000_0000_0000 < Square(n + 1)
      && n % 0x1_0000_0000 == k as int
  }

  function Square(n: nat): nat {
    n * n
  }

  lemma CubeRoot(p: nat, n: nat, k: word)
    requires Cube(n) <= p * 0x1_0000_0000_0000_0000_0000_0000 < Cube(n + 1) && n % 0x1_0000_0000 == k as int
    ensures CubeRootBits(p, k)
  {
    hide Cube;
  }

  lemma SquareRoot(p: nat, n: nat, k: word)
    requires Square(n) <= p * 0x1_0000_0000_0000_0000 < Square(n + 1) && n % 0x1_0000_0000 == k as int
    ensures SquareRootBits(p, k)
  {
    hide Square;
  }

  lemma CubeRoots0(t: nat)
    requires 0 <= t < 8
    ensures CubeRootBits(Prime(t), RoundConstant(t))
  {
    hide CubeRootBits;
    if t == 0 { CubeRoot(2, 0x1_428a_2f98, 0x428a2f98); }
    if t == 1 { CubeRoot(3, 0x1_7137_4491, 0x71374491); }
    if t == 2 { CubeRoot(5, 0x1_b5c0_fbcf, 0xb5c0fbcf); }
    if t == 3 { CubeRoot(7, 0x1_e9b5_dba5, 0xe9b5dba5); }
    if t == 4 { CubeRoot(11, 0x2_3956_c25b, 0x3956c25b); }
    if t == 5 { CubeRoot(13, 0x2_59f1_11f1, 0x59f111f1); }
    if t == 6 { CubeRoot(17, 0x2_923f_82a4, 0x923f82a4); }
    if t == 7 { CubeRoot(19, 0x2_ab1c_5ed5, 0xab1c5ed5); }
  }

  lemma CubeRoots1(t: nat)
    requires 8 <= t < 16
    ensures CubeRootBits(Prime(t), RoundConstant(t))
  {
    hide CubeRootBits;
    if t == 8 { CubeRoot(23, 0x2_d807_aa98, 0xd807aa98); }
    if t == 9 { CubeRoot(29, 0x3_1283_5b01, 0x12835b01); }
    if t == 10 { CubeRoot(31, 0x3_2431_85be, 0x243185be); }
    if t == 11 { CubeRoot(37, 0x3_550c_7dc3, 0x550c7dc3); }
    if t == 12 { CubeRoot(41, 0x3_72be_5d74, 0x72be5d74); }
    if t == 13 { CubeRoot(43, 0x3_80de_b1fe, 0x80deb1fe); }
    if t == 14 { CubeRoot(47, 0x3_9bdc_06a7, 0x9bdc06a7); }
    if t == 15 { CubeRoot(53, 0x3_c19b_f174, 0xc19bf174); }
  }

  lemma CubeRoots2(t: nat)
    requires 16 <= t < 24
    ensures CubeRootBits(Prime(t), RoundConstant(t))
  {
    hide CubeRootBits;
    if t == 16 { CubeRoot(59, 0x3_e49b_69c1, 0xe49b69c1); }
    if t == 17 { CubeRoot(61, 0x3_efbe_4786, 0xefbe4786); }
    if t == 18 { CubeRoot(67, 0x4_0fc1_9dc6, 0x0fc19dc6); }
    if t == 19 { CubeRoot(71, 0x4_240c_a1cc, 0x240ca1cc); }
    if t == 20 { CubeRoot(73, 0x4_2de9_2c6f, 0x2de92c6f); }
    if t == 21 { CubeRoot(79, 0x4_4a74_84aa, 0x4a7484aa); }
    if t == 22 { CubeRoot(83, 0x4_5cb0_a9dc, 0x5cb0a9dc); }
    if t == 23 { CubeRoot(89, 0x4_76f9_88da, 0x76f988da); }
  }

  lemma CubeRoots3(t: nat)
    requires 24 <= t < 32
    ensures CubeRootBits(Prime(t), RoundConstant(t))
  {
    hide CubeRootBits;
    if t == 24 { CubeRoot(97, 0x4_983e_5152, 0x983e5152); }
    if t == 25 { CubeRoot(101, 0x4_a831_c66d, 0xa831c66d); }
    if t == 26 { CubeRoot(103, 0x4_b003_27c8, 0xb00327c8); }
    if t == 27 { CubeRoot(107, 0x4_bf59_7fc7, 0xbf597fc7); }
    if t == 28 { CubeRoot(109, 0x4_c6e0_0bf3, 0xc6e00bf3); }
    if t == 29 { CubeRoot(113, 0x4_d5a7_9147, 0xd5a79147); }
    if t == 30 { CubeRoot(127, 0x5_06ca_6351, 0x06ca6351); }
    if t == 31 { CubeRoot(131, 0x5_1429_2967, 0x14292967); }
  }

  lemma CubeRoots4(t: nat)
    requires 32 <= t < 40
    ensures CubeRootBits(Prime(t), RoundConstant(t))
  {
    hide CubeRootBits;
    if t == 32 { CubeRoot(137, 0x5_27b7_0a85, 0x27b70a85); }
    if t == 33 { CubeRoot(139, 0x5_2e1b_2138, 0x2e1b2138); }
    if t == 34 { CubeRoot(149, 0x5_4d2c_6dfc, 0x4d2c6dfc); }
    if t == 35 { CubeRoot(151, 0x5_5338_0d13, 0x53380d13); }
    if t == 36 { CubeRoot(157, 0x5_650a_7354, 0x650a7354); }
    if t == 37 { CubeRoot(163, 0x5_766a_0abb, 0x766a0abb); }
    if t == 38 { CubeRoot(167, 0x5_81c2_c92e, 0x81c2c92e); }
    if t == 39 { CubeRoot(173, 0x5_9272_2c85, 0x92722c85); }
  }

  lemma CubeRoots5(t: nat)
    requires 40 <= t < 48
    ensures CubeRootBits(Prime(t), RoundConstant(t))
  {
    hide CubeRootBits;
    if t == 40 { CubeRoot(179, 0x5_a2bf_e8a1, 0xa2bfe8a1); }
    if t == 41 { CubeRoot(181, 0x5_a81a_664b, 0xa81a664b); }
    if t == 42 { CubeRoot(191, 0x5_c24b_8b70, 0xc24b8b70); }
    if t == 43 { CubeRoot(193, 0x5_c76c_51a3, 0xc76c51a3); }
    if t == 44 { CubeRoot(197, 0x5_d192_e819, 0xd192e819); }
    if t == 45 { CubeRoot(199, 0x5_d699_0624, 0xd6990624); }
    if t == 46 { CubeRoot(211, 0x5_f40e_3585, 0xf40e3585); }
    if t == 47 { CubeRoot(223, 0x6_106a_a070, 0x106aa070); }
  }

  lemma CubeRoots6(t: nat)
    requires 48 <= t < 56
    ensures CubeRootBits(Prime(t), RoundConstant(t))
  {
    hide CubeRootBits;
    if t == 48 { CubeRoot(227, 0x6_19a4_c116, 0x19a4c116); }
    if t == 49 { CubeRoot(229, 0x6_1e37_6c08, 0x1e376c08); }
    if t == 50 { CubeRoot(233, 0x6_2748_774c, 0x2748774c); }
    if t == 51 { CubeRoot(239, 0x6_34b0_bcb5, 0x34b0bcb5); }
    if t == 52 { CubeRoot(241, 0x6_391c_0cb3, 0x391c0cb3); }
    if t == 53 { CubeRoot(251, 0x6_4ed8_aa4a, 0x4ed8aa4a); }
    if t == 54 { CubeRoot(257, 0x6_5b9c_ca4f, 0x5b9cca4f); }
    if t == 55 { CubeRoot(263, 0x6_682e_6ff3, 0x682e6ff3); }
  }

  lemma CubeRoots7(t: nat)
    requires 56 <= t < 64
    ensures CubeRootBits(Prime(t), RoundConstant(t))
  {
    hide CubeRootBits;
    if t == 56 { CubeRoot(269, 0x6_748f_82ee, 0x748f82ee); }
    if t == 57 { CubeRoot(271, 0x6_78a5_636f, 0x78a5636f); }
    if t == 58 { CubeRoot(277, 0x6_84c8_7814, 0x84c87814); }
    if t == 59 { CubeRoot(281, 0x6_8cc7_0208, 0x8cc70208); }
    if t == 60 { CubeRoot(283, 0x6_90be_fffa, 0x90befffa); }
    if t == 61 { CubeRoot(293, 0x6_a450_6ceb, 0xa4506ceb); }
    if t == 62 { CubeRoot(307, 0x6_bef9_a3f7, 0xbef9a3f7); }
    if t == 63 { CubeRoot(311, 0x6_c671_78f2, 0xc67178f2); }
  }

  /** Round constant `t` belongs to the cube root of prime `t`. */
  lemma RoundConstantsAre(t: nat)
    requires t < 64
    ensures CubeRootBits(Prime(t), RoundConstant(t))
  {
    hide CubeRootBits, RoundConstant, Prime;
    if t < 8 { CubeRoots0(t); } else if t < 16 { CubeRoots1(t); } else if t < 24 { CubeRoots2(t); }
    else if t < 32 { CubeRoots3(t); } else if t < 40 { CubeRoots4(t); } else if t < 48 { CubeRoots5(t); }
    else if t < 56 { CubeRoots6(t); } else { CubeRoots7(t); }
  }

  /** And word `t` of the initial hash value to the square root of prime `t`. */
  lemma InitialValueIs(t: nat)
    requires t < 8
    ensures SquareRootBits(Prime(t), Nth(IV, t))
  {
    hide SquareRootBits;
    if t == 0 { SquareRoot(2, 0x1_6a09_e667, 0x6a09e667); }
    if t == 1 { SquareRoot(3, 0x1_bb67_ae85, 0xbb67ae85); }
    if t == 2 { SquareRoot(5, 0x2_3c6e_f372, 0x3c6ef372); }
    if t == 3 { SquareRoot(7, 0x2_a54f_f53a, 0xa54ff53a); }
    if t == 4 { SquareRoot(11, 0x3_510e_527f, 0x510e527f); }
    if t == 5 { SquareRoot(13, 0x3_9b05_688c, 0x9b05688c); }
    if t == 6 { SquareRoot(17, 0x4_1f83_d9ab, 0x1f83d9ab); }
    if t == 7 { SquareRoot(19, 0x4_5be0_cd19, 0x5be0cd19); }
  }
}
