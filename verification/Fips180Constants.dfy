/** Where the constants of SHA-256 come from: sections 4.2.2 and 5.3.3 of FIPS 180-4. */
module Fips180Constants {
  import opened Fips180

  predicate IsPrime(n: nat) {
    n >= 2 && forall d :: 2 <= d < n ==> n % d != 0
  }

  const P0: seq<nat> := [2, 3, 5, 7, 11, 13, 17, 19]
  const P1: seq<nat> := [23, 29, 31, 37, 41, 43, 47, 53]
  const P2: seq<nat> := [59, 61, 67, 71, 73, 79, 83, 89]
  const P3: seq<nat> := [97, 101, 103, 107, 109, 113, 127, 131]
  const P4: seq<nat> := [137, 139, 149, 151, 157, 163, 167, 173]
  const P5: seq<nat> := [179, 181, 191, 193, 197, 199, 211, 223]
  const P6: seq<nat> := [227, 229, 233, 239, 241, 251, 257, 263]
  const P7: seq<nat> := [269, 271, 277, 281, 283, 293, 307, 311]

  /** The prime numbers up to 311. */
  const PRIMES: seq<nat> := P0 + P1 + P2 + P3 + P4 + P5 + P6 + P7

  /** word holds the first 32 bits of the fractional part of the cube root of p. */
  ghost predicate CubeRootBits(p: nat, word: Word) {
    exists whole: nat :: CubeRootWith(p, word, whole)
  }

  predicate CubeRootWith(p: nat, word: Word, whole: nat) {
    var q := whole * 0x1_0000_0000 + word as int;
    q * q * q <= p * 0x1_0000_0000_0000_0000_0000_0000 < (q + 1) * (q + 1) * (q + 1)
  }

  ghost predicate SquareRootBits(p: nat, word: Word) {
    exists whole: nat :: SquareRootWith(p, word, whole)
  }

  predicate SquareRootWith(p: nat, word: Word, whole: nat) {
    var q := whole * 0x1_0000_0000 + word as int;
    q * q <= p * 0x1_0000_0000_0000_0000 < (q + 1) * (q + 1)
  }

  predicate NoSmallDivisor(n: nat) {
    && n >= 2 && (n == 2 || n % 2 != 0) && (n == 3 || n % 3 != 0) && (n == 5 || n % 5 != 0) && (n == 7 || n % 7 != 0)
    && (n == 11 || n % 11 != 0) && (n == 13 || n % 13 != 0) && (n == 17 || n % 17 != 0)
  }

  lemma Undivided(n: nat, p: nat)
    requires NoSmallDivisor(n) && p in [2, 3, 5, 7, 11, 13, 17]
    ensures n == p || n % p != 0
  {
  }

  lemma Multiple(p: nat, k: nat)
    requires p in [2, 3, 5, 7, 11, 13, 17]
    ensures (p * k) % p == 0
  {
    match p
    case 2 => assert (2 * k) % 2 == 0;
    case 3 => assert (3 * k) % 3 == 0;
    case 5 => assert (5 * k) % 5 == 0;
    case 7 => assert (7 * k) % 7 == 0;
    case 11 => assert (11 * k) % 11 == 0;
    case 13 => assert (13 * k) % 13 == 0;
    case 17 => assert (17 * k) % 17 == 0;
  }

  lemma MultipleOfPrime(p: nat, k: nat)
    requires p in [2, 3, 5, 7, 11, 13, 17] && k > 1
    ensures !NoSmallDivisor(p * k)
  {
    hide NoSmallDivisor;
    Multiple(p, k);
    if NoSmallDivisor(p * k) { Undivided(p * k, p); }
  }

  /** A multiple of a small number has a small prime divisor. */
  lemma SmallFactor(d: nat, e: nat)
    requires 2 <= e <= 17 && d > 1
    ensures !NoSmallDivisor(d * e)
  {
    hide NoSmallDivisor;
    if e in [2, 3, 5, 7, 11, 13, 17] {
      assert d * e == e * d;
      MultipleOfPrime(e, d);
    } else if e == 9 || e == 15 {
      assert d * e == 3 * (d * (e / 3));
      MultipleOfPrime(3, d * (e / 3));
    } else {
      assert e == 2 * (e / 2);
      Regroup(d, e / 2);
      MultipleOfPrime(2, d * (e / 2));
    }
  }

  lemma Regroup(d: nat, h: nat)
    ensures d * (2 * h) == 2 * (d * h)
    ensures d > 1 && h > 0 ==> d * h > 1
  {
    if d > 1 && h > 0 { assert d * h == d + d * (h - 1); }
  }

  lemma PrimeIff(n: nat)
    requires n <= 311
    ensures IsPrime(n) <==> NoSmallDivisor(n)
  {
    if NoSmallDivisor(n) {
      forall d | 2 <= d < n ensures n % d != 0 { NotDivided(n, d); }
    }
  }

  lemma NotDivided(n: nat, d: nat)
    requires n <= 311 && NoSmallDivisor(n) && 2 <= d < n
    ensures n % d != 0
  {
    hide NoSmallDivisor;
    if n % d == 0 {
      var e := n / d;
      assert n == d * e;
      assert e > 1;
      if d <= 17 {
        assert d * e == e * d;
        SmallFactor(e, d);
      } else {
        SmallCofactor(d, e);
        SmallFactor(d, e);
      }
    }
  }

  lemma SmallCofactor(d: nat, e: nat)
    requires d > 17 && d * e <= 311
    ensures e <= 17
  {
    if e >= 18 { assert d * e >= 18 * 18 by { Product(d, e); } }
  }

  lemma Product(d: nat, e: nat)
    requires d >= 18 && e >= 18
    ensures d * e >= 18 * 18
  {
    assert d * e == 18 * e + (d - 18) * e;
  }

  lemma Window0(n: nat)
    requires 0 < n <= 13
    ensures NoSmallDivisor(n) <==> n in [2, 3, 5, 7, 11, 13]
  {
  }

  lemma Window13(n: nat)
    requires 13 < n <= 26
    ensures NoSmallDivisor(n) <==> n in [17, 19, 23]
  {
  }

  lemma Window26(n: nat)
    requires 26 < n <= 39
    ensures NoSmallDivisor(n) <==> n in [29, 31, 37]
  {
  }

  lemma Window39(n: nat)
    requires 39 < n <= 52
    ensures NoSmallDivisor(n) <==> n in [41, 43, 47]
  {
  }

  lemma Window52(n: nat)
    requires 52 < n <= 65
    ensures NoSmallDivisor(n) <==> n in [53, 59, 61]
  {
  }

  lemma Window65(n: nat)
    requires 65 < n <= 78
    ensures NoSmallDivisor(n) <==> n in [67, 71, 73]
  {
  }

  lemma Window78(n: nat)
    requires 78 < n <= 91
    ensures NoSmallDivisor(n) <==> n in [79, 83, 89]
  {
  }

  lemma Window91(n: nat)
    requires 91 < n <= 104
    ensures NoSmallDivisor(n) <==> n in [97, 101, 103]
  {
  }

  lemma Window104(n: nat)
    requires 104 < n <= 117
    ensures NoSmallDivisor(n) <==> n in [107, 109, 113]
  {
  }

  lemma Window117(n: nat)
    requires 117 < n <= 130
    ensures NoSmallDivisor(n) <==> n in [127]
  {
  }

  lemma Window130(n: nat)
    requires 130 < n <= 143
    ensures NoSmallDivisor(n) <==> n in [131, 137, 139]
  {
  }

  lemma Window143(n: nat)
    requires 143 < n <= 156
    ensures NoSmallDivisor(n) <==> n in [149, 151]
  {
  }

  lemma Window156(n: nat)
    requires 156 < n <= 169
    ensures NoSmallDivisor(n) <==> n in [157, 163, 167]
  {
  }

  lemma Window169(n: nat)
    requires 169 < n <= 182
    ensures NoSmallDivisor(n) <==> n in [173, 179, 181]
  {
  }

  lemma Window182(n: nat)
    requires 182 < n <= 195
    ensures NoSmallDivisor(n) <==> n in [191, 193]
  {
  }

  lemma Window195(n: nat)
    requires 195 < n <= 208
    ensures NoSmallDivisor(n) <==> n in [197, 199]
  {
  }

  lemma Window208(n: nat)
    requires 208 < n <= 221
    ensures NoSmallDivisor(n) <==> n in [211]
  {
  }

  lemma Window221(n: nat)
    requires 221 < n <= 234
    ensures NoSmallDivisor(n) <==> n in [223, 227, 229, 233]
  {
  }

  lemma Window234(n: nat)
    requires 234 < n <= 247
    ensures NoSmallDivisor(n) <==> n in [239, 241]
  {
  }

  lemma Window247(n: nat)
    requires 247 < n <= 260
    ensures NoSmallDivisor(n) <==> n in [251, 257]
  {
  }

  lemma Window260(n: nat)
    requires 260 < n <= 273
    ensures NoSmallDivisor(n) <==> n in [263, 269, 271]
  {
  }

  lemma Window273(n: nat)
    requires 273 < n <= 286
    ensures NoSmallDivisor(n) <==> n in [277, 281, 283]
  {
  }

  lemma Window286(n: nat)
    requires 286 < n <= 299
    ensures NoSmallDivisor(n) <==> n in [293]
  {
  }

  lemma Window299(n: nat)
    requires 299 < n <= 312
    ensures NoSmallDivisor(n) <==> n in [307, 311]
  {
  }

  lemma Sieved0(n: nat)
    requires 0 < n <= 78
    ensures NoSmallDivisor(n) <==> IsListed(n)
  {
    hide NoSmallDivisor;
    RowMembers(n);
    if n <= 13 { Window0(n); } else if n <= 26 { Window13(n); } else if n <= 39 { Window26(n); } else if n <= 52 { Window39(n); } else if n <= 65 { Window52(n); } else if n <= 78 { Window65(n); }
  }

  lemma Sieved78(n: nat)
    requires 78 < n <= 156
    ensures NoSmallDivisor(n) <==> IsListed(n)
  {
    hide NoSmallDivisor;
    RowMembers(n);
    if n <= 91 { Window78(n); } else if n <= 104 { Window91(n); } else if n <= 117 { Window104(n); } else if n <= 130 { Window117(n); } else if n <= 143 { Window130(n); } else if n <= 156 { Window143(n); }
  }

  lemma Sieved156(n: nat)
    requires 156 < n <= 234
    ensures NoSmallDivisor(n) <==> IsListed(n)
  {
    hide NoSmallDivisor;
    RowMembers(n);
    if n <= 169 { Window156(n); } else if n <= 182 { Window169(n); } else if n <= 195 { Window182(n); } else if n <= 208 { Window195(n); } else if n <= 221 { Window208(n); } else if n <= 234 { Window221(n); }
  }

  lemma Sieved234(n: nat)
    requires 234 < n <= 312
    ensures NoSmallDivisor(n) <==> IsListed(n)
  {
    hide NoSmallDivisor;
    RowMembers(n);
    if n <= 247 { Window234(n); } else if n <= 260 { Window247(n); } else if n <= 273 { Window260(n); } else if n <= 286 { Window273(n); } else if n <= 299 { Window286(n); } else if n <= 312 { Window299(n); }
  }

  predicate IsListed(n: nat) {
    n in PRIMES
  }

  lemma RowMembers(n: nat)
    ensures n in PRIMES <==> n in P0 || n in P1 || n in P2 || n in P3 || n in P4 || n in P5 || n in P6 || n in P7
  {
  }

  /** The list holds exactly the primes up to 311. */
  lemma PrimesListed(n: nat)
    requires n <= 311
    ensures IsPrime(n) <==> IsListed(n)
  {
    hide IsPrime, NoSmallDivisor, IsListed;
    PrimeIff(n);
    if n == 0 { NotZero(); }
    else if n <= 78 { Sieved0(n); } else if n <= 156 { Sieved78(n); } else if n <= 234 { Sieved156(n); } else { Sieved234(n); }
  }

  lemma {:induction false} Ascending(i: nat, j: nat)
    requires i < j < |PRIMES|
    ensures PRIMES[i] < PRIMES[j]
  {
    if i + 1 < j { Ascending(i, j - 1); }
    NextLarger(j - 1);
  }

  lemma NextLarger(i: nat)
    requires i + 1 < |PRIMES|
    ensures PRIMES[i] < PRIMES[i + 1]
  {
    var r, j := i / 8, i % 8;
    InRow(r, j);
    if j < 7 {
      RowAscending(r, j);
      InRow(r, j + 1);
    } else {
      RowsAscending(r);
      InRow(r + 1, 0);
    }
  }

  function Row(r: nat): seq<nat> {
    if r == 0 then P0 else if r == 1 then P1 else if r == 2 then P2 else if r == 3 then P3
    else if r == 4 then P4 else if r == 5 then P5 else if r == 6 then P6 else P7
  }

  lemma InRow(r: nat, j: nat)
    requires r < 8 && j < 8
    ensures |Row(r)| == 8 && |PRIMES| == 64 && PRIMES[8 * r + j] == Row(r)[j]
  {
    RowOf(P0, P1, P2, P3, P4, P5, P6, P7, r, j);
  }

  lemma RowAscending(r: nat, j: nat)
    requires r < 8 && j < 7
    ensures |Row(r)| == 8 && Row(r)[j] < Row(r)[j + 1]
  {
  }

  lemma RowsAscending(r: nat)
    requires r < 7
    ensures |Row(r)| == |Row(r + 1)| == 8 && Row(r)[7] < Row(r + 1)[0]
  {
  }

  lemma NotZero()
    ensures !NoSmallDivisor(0) && !IsListed(0)
  {
    RowMembers(0);
  }

  lemma CubeRoot(p: nat, word: Word, whole: nat)
    requires CubeRootWith(p, word, whole)
    ensures CubeRootBits(p, word)
  {
  }

  lemma CubeRoots0Low(i: nat)
    requires i < 4
    ensures CubeRootBits(P0[i], K0[i])
  {
    hide CubeRootBits;
    match i
    case 0 => CubeRoot(2, 0x428a2f98, 1);
    case 1 => CubeRoot(3, 0x71374491, 1);
    case 2 => CubeRoot(5, 0xb5c0fbcf, 1);
    case 3 => CubeRoot(7, 0xe9b5dba5, 1);
  }

  lemma CubeRoots0High(i: nat)
    requires 4 <= i < 8
    ensures CubeRootBits(P0[i], K0[i])
  {
    hide CubeRootBits;
    match i
    case 4 => CubeRoot(11, 0x3956c25b, 2);
    case 5 => CubeRoot(13, 0x59f111f1, 2);
    case 6 => CubeRoot(17, 0x923f82a4, 2);
    case 7 => CubeRoot(19, 0xab1c5ed5, 2);
  }

  lemma CubeRoots1Low(i: nat)
    requires i < 4
    ensures CubeRootBits(P1[i], K1[i])
  {
    hide CubeRootBits;
    match i
    case 0 => CubeRoot(23, 0xd807aa98, 2);
    case 1 => CubeRoot(29, 0x12835b01, 3);
    case 2 => CubeRoot(31, 0x243185be, 3);
    case 3 => CubeRoot(37, 0x550c7dc3, 3);
  }

  lemma CubeRoots1High(i: nat)
    requires 4 <= i < 8
    ensures CubeRootBits(P1[i], K1[i])
  {
    hide CubeRootBits;
    match i
    case 4 => CubeRoot(41, 0x72be5d74, 3);
    case 5 => CubeRoot(43, 0x80deb1fe, 3);
    case 6 => CubeRoot(47, 0x9bdc06a7, 3);
    case 7 => CubeRoot(53, 0xc19bf174, 3);
  }

  lemma CubeRoots2Low(i: nat)
    requires i < 4
    ensures CubeRootBits(P2[i], K2[i])
  {
    hide CubeRootBits;
    match i
    case 0 => CubeRoot(59, 0xe49b69c1, 3);
    case 1 => CubeRoot(61, 0xefbe4786, 3);
    case 2 => CubeRoot(67, 0x0fc19dc6, 4);
    case 3 => CubeRoot(71, 0x240ca1cc, 4);
  }

  lemma CubeRoots2High(i: nat)
    requires 4 <= i < 8
    ensures CubeRootBits(P2[i], K2[i])
  {
    hide CubeRootBits;
    match i
    case 4 => CubeRoot(73, 0x2de92c6f, 4);
    case 5 => CubeRoot(79, 0x4a7484aa, 4);
    case 6 => CubeRoot(83, 0x5cb0a9dc, 4);
    case 7 => CubeRoot(89, 0x76f988da, 4);
  }

  lemma CubeRoots3Low(i: nat)
    requires i < 4
    ensures CubeRootBits(P3[i], K3[i])
  {
    hide CubeRootBits;
    match i
    case 0 => CubeRoot(97, 0x983e5152, 4);
    case 1 => CubeRoot(101, 0xa831c66d, 4);
    case 2 => CubeRoot(103, 0xb00327c8, 4);
    case 3 => CubeRoot(107, 0xbf597fc7, 4);
  }

  lemma CubeRoots3High(i: nat)
    requires 4 <= i < 8
    ensures CubeRootBits(P3[i], K3[i])
  {
    hide CubeRootBits;
    match i
    case 4 => CubeRoot(109, 0xc6e00bf3, 4);
    case 5 => CubeRoot(113, 0xd5a79147, 4);
    case 6 => CubeRoot(127, 0x06ca6351, 5);
    case 7 => CubeRoot(131, 0x14292967, 5);
  }

  lemma CubeRoots4Low(i: nat)
    requires i < 4
    ensures CubeRootBits(P4[i], K4[i])
  {
    hide CubeRootBits;
    match i
    case 0 => CubeRoot(137, 0x27b70a85, 5);
    case 1 => CubeRoot(139, 0x2e1b2138, 5);
    case 2 => CubeRoot(149, 0x4d2c6dfc, 5);
    case 3 => CubeRoot(151, 0x53380d13, 5);
  }

  lemma CubeRoots4High(i: nat)
    requires 4 <= i < 8
    ensures CubeRootBits(P4[i], K4[i])
  {
    hide CubeRootBits;
    match i
    case 4 => CubeRoot(157, 0x650a7354, 5);
    case 5 => CubeRoot(163, 0x766a0abb, 5);
    case 6 => CubeRoot(167, 0x81c2c92e, 5);
    case 7 => CubeRoot(173, 0x92722c85, 5);
  }

  lemma CubeRoots5Low(i: nat)
    requires i < 4
    ensures CubeRootBits(P5[i], K5[i])
  {
    hide CubeRootBits;
    match i
    case 0 => CubeRoot(179, 0xa2bfe8a1, 5);
    case 1 => CubeRoot(181, 0xa81a664b, 5);
    case 2 => CubeRoot(191, 0xc24b8b70, 5);
    case 3 => CubeRoot(193, 0xc76c51a3, 5);
  }

  lemma CubeRoots5High(i: nat)
    requires 4 <= i < 8
    ensures CubeRootBits(P5[i], K5[i])
  {
    hide CubeRootBits;
    match i
    case 4 => CubeRoot(197, 0xd192e819, 5);
    case 5 => CubeRoot(199, 0xd6990624, 5);
    case 6 => CubeRoot(211, 0xf40e3585, 5);
    case 7 => CubeRoot(223, 0x106aa070, 6);
  }

  lemma CubeRoots6Low(i: nat)
    requires i < 4
    ensures CubeRootBits(P6[i], K6[i])
  {
    hide CubeRootBits;
    match i
    case 0 => CubeRoot(227, 0x19a4c116, 6);
    case 1 => CubeRoot(229, 0x1e376c08, 6);
    case 2 => CubeRoot(233, 0x2748774c, 6);
    case 3 => CubeRoot(239, 0x34b0bcb5, 6);
  }

  lemma CubeRoots6High(i: nat)
    requires 4 <= i < 8
    ensures CubeRootBits(P6[i], K6[i])
  {
    hide CubeRootBits;
    match i
    case 4 => CubeRoot(241, 0x391c0cb3, 6);
    case 5 => CubeRoot(251, 0x4ed8aa4a, 6);
    case 6 => CubeRoot(257, 0x5b9cca4f, 6);
    case 7 => CubeRoot(263, 0x682e6ff3, 6);
  }

  lemma CubeRoots7Low(i: nat)
    requires i < 4
    ensures CubeRootBits(P7[i], K7[i])
  {
    hide CubeRootBits;
    match i
    case 0 => CubeRoot(269, 0x748f82ee, 6);
    case 1 => CubeRoot(271, 0x78a5636f, 6);
    case 2 => CubeRoot(277, 0x84c87814, 6);
    case 3 => CubeRoot(281, 0x8cc70208, 6);
  }

  lemma CubeRoots7High(i: nat)
    requires 4 <= i < 8
    ensures CubeRootBits(P7[i], K7[i])
  {
    hide CubeRootBits;
    match i
    case 4 => CubeRoot(283, 0x90befffa, 6);
    case 5 => CubeRoot(293, 0xa4506ceb, 6);
    case 6 => CubeRoot(307, 0xbef9a3f7, 6);
    case 7 => CubeRoot(311, 0xc67178f2, 6);
  }

  lemma SquareRoots()
    ensures var h := INITIAL;
            && SquareRootBits(2, h.a) && SquareRootBits(3, h.b) && SquareRootBits(5, h.c) && SquareRootBits(7, h.d)
            && SquareRootBits(11, h.e) && SquareRootBits(13, h.f) && SquareRootBits(17, h.g) && SquareRootBits(19, h.h)
  {
    var h := INITIAL;
    assert SquareRootWith(2, h.a, 1) && SquareRootWith(3, h.b, 1) && SquareRootWith(5, h.c, 2) && SquareRootWith(7, h.d, 2);
    assert SquareRootWith(11, h.e, 3) && SquareRootWith(13, h.f, 3) && SquareRootWith(17, h.g, 4) && SquareRootWith(19, h.h, 4);
  }

  lemma RowOf<T>(a: seq<T>, b: seq<T>, c: seq<T>, d: seq<T>, e: seq<T>, f: seq<T>, g: seq<T>, h: seq<T>, i: nat, j: nat)
    requires |a| == |b| == |c| == |d| == |e| == |f| == |g| == |h| == 8 && j < 8 && i < 8
    ensures (a + b + c + d + e + f + g + h)[8 * i + j] ==
      (if i == 0 then a else if i == 1 then b else if i == 2 then c else if i == 3 then d
       else if i == 4 then e else if i == 5 then f else if i == 6 then g else h)[j]
  {
  }

  lemma CubeRootsAt(i: nat, j: nat)
    requires i < 8 && j < 8
    ensures CubeRootBits(PRIMES[8 * i + j], K[8 * i + j])
  {
    hide CubeRootBits;
    RowOf(P0, P1, P2, P3, P4, P5, P6, P7, i, j);
    RowOf(K0, K1, K2, K3, K4, K5, K6, K7, i, j);
    match i
    case 0 => if j < 4 { CubeRoots0Low(j); } else { CubeRoots0High(j); }
    case 1 => if j < 4 { CubeRoots1Low(j); } else { CubeRoots1High(j); }
    case 2 => if j < 4 { CubeRoots2Low(j); } else { CubeRoots2High(j); }
    case 3 => if j < 4 { CubeRoots3Low(j); } else { CubeRoots3High(j); }
    case 4 => if j < 4 { CubeRoots4Low(j); } else { CubeRoots4High(j); }
    case 5 => if j < 4 { CubeRoots5Low(j); } else { CubeRoots5High(j); }
    case 6 => if j < 4 { CubeRoots6Low(j); } else { CubeRoots6High(j); }
    case 7 => if j < 4 { CubeRoots7Low(j); } else { CubeRoots7High(j); }
  }

  /** Each of the 64 round constants is the first 32 bits of the fractional part of the cube root of the
      prime at its place, and the initial words are those of the square roots of the first eight primes. */
  lemma ConstantsFromPrimes()
    ensures |K| == |PRIMES| == 64 && forall i :: 0 <= i < 64 ==> CubeRootBits(PRIMES[i], K[i])
    ensures var h := INITIAL;
            && SquareRootBits(2, h.a) && SquareRootBits(3, h.b) && SquareRootBits(5, h.c) && SquareRootBits(7, h.d)
            && SquareRootBits(11, h.e) && SquareRootBits(13, h.f) && SquareRootBits(17, h.g) && SquareRootBits(19, h.h)
  {
    hide CubeRootBits, SquareRootBits;
    forall i | 0 <= i < 64 ensures CubeRootBits(PRIMES[i], K[i]) {
      CubeRootsAt(i / 8, i % 8);
    }
    SquareRoots();
  }
}
