/** SHA-256 as sections 4.1.2, 4.2.2, 5.1.1, 5.3.3 and 6.2.2 of FIPS 180-4 define it. */
module Fips180 {

  type Octet = bv8
  type Word = bv32

  const K0: seq<Word> := [0x428a2f98, 0x71374491, 0xb5c0fbcf, 0xe9b5dba5, 0x3956c25b, 0x59f111f1, 0x923f82a4, 0xab1c5ed5]
  const K1: seq<Word> := [0xd807aa98, 0x12835b01, 0x243185be, 0x550c7dc3, 0x72be5d74, 0x80deb1fe, 0x9bdc06a7, 0xc19bf174]
  const K2: seq<Word> := [0xe49b69c1, 0xefbe4786, 0x0fc19dc6, 0x240ca1cc, 0x2de92c6f, 0x4a7484aa, 0x5cb0a9dc, 0x76f988da]
  const K3: seq<Word> := [0x983e5152, 0xa831c66d, 0xb00327c8, 0xbf597fc7, 0xc6e00bf3, 0xd5a79147, 0x06ca6351, 0x14292967]
  const K4: seq<Word> := [0x27b70a85, 0x2e1b2138, 0x4d2c6dfc, 0x53380d13, 0x650a7354, 0x766a0abb, 0x81c2c92e, 0x92722c85]
  const K5: seq<Word> := [0xa2bfe8a1, 0xa81a664b, 0xc24b8b70, 0xc76c51a3, 0xd192e819, 0xd6990624, 0xf40e3585, 0x106aa070]
  const K6: seq<Word> := [0x19a4c116, 0x1e376c08, 0x2748774c, 0x34b0bcb5, 0x391c0cb3, 0x4ed8aa4a, 0x5b9cca4f, 0x682e6ff3]
  const K7: seq<Word> := [0x748f82ee, 0x78a5636f, 0x84c87814, 0x8cc70208, 0x90befffa, 0xa4506ceb, 0xbef9a3f7, 0xc67178f2]

  /** The round constants. */
  const K: seq<Word> := K0 + K1 + K2 + K3 + K4 + K5 + K6 + K7

  /** The eight chaining or working words. */
  datatype Hash = Hash(a: Word, b: Word, c: Word, d: Word, e: Word, f: Word, g: Word, h: Word)

  const INITIAL :=
    Hash(0x6a09e667, 0xbb67ae85, 0x3c6ef372, 0xa54ff53a, 0x510e527f, 0x9b05688c, 0x1f83d9ab, 0x5be0cd19)

  // the operations on words of section 3.2; addition is modulo 2^32

  function Add(x: Word, y: Word): Word { x + y }

  function And(x: Word, y: Word): Word { x & y }

  function Xor(x: Word, y: Word): Word { x ^ y }

  function Not(x: Word): Word { !x }

  function Rotr(x: Word, n: nat): Word
    requires n < 32
  {
    x.RotateRight(n)
  }

  function Shr(x: Word, n: nat): Word
    requires n < 32
  {
    x >> n
  }

  function Choose(x: Word, y: Word, z: Word): Word { Xor(And(x, y), And(Not(x), z)) }

  function Majority(x: Word, y: Word, z: Word): Word { Xor(Xor(And(x, y), And(x, z)), And(y, z)) }

  function BigSigma0(x: Word): Word { Xor(Xor(Rotr(x, 2), Rotr(x, 13)), Rotr(x, 22)) }

  function BigSigma1(x: Word): Word { Xor(Xor(Rotr(x, 6), Rotr(x, 11)), Rotr(x, 25)) }

  function SmallSigma0(x: Word): Word { Xor(Xor(Rotr(x, 7), Rotr(x, 18)), Shr(x, 3)) }

  function SmallSigma1(x: Word): Word { Xor(Xor(Rotr(x, 17), Rotr(x, 19)), Shr(x, 10)) }

  /** Four octets, most significant first. */
  function WordOf(b0: Octet, b1: Octet, b2: Octet, b3: Octet): Word {
    ((b0 as bv32) << 24) | ((b1 as bv32) << 16) | ((b2 as bv32) << 8) | (b3 as bv32)
  }

  type Block = b: seq<Octet> | |b| == 64 witness seq(64, _ => 0 as bv8)

  function MessageWord(b: Block, t: nat): Word
    requires t < 16
  {
    WordOf(b[4 * t], b[4 * t + 1], b[4 * t + 2], b[4 * t + 3])
  }

  /** The message schedule; the four terms are summed modulo 2^32, so their order is free. */
  function Schedule(b: Block, t: nat): Word {
    if t < 16 then MessageWord(b, t)
    else Add(Add(Add(Schedule(b, t - 16), SmallSigma0(Schedule(b, t - 15))), Schedule(b, t - 7)), SmallSigma1(Schedule(b, t - 2)))
  }

  /** One round with constant k and schedule word w. */
  function Round(v: Hash, k: Word, w: Word): Hash {
    var t1 := Add(Add(Add(Add(v.h, BigSigma1(v.e)), Choose(v.e, v.f, v.g)), k), w);
    var t2 := Add(BigSigma0(v.a), Majority(v.a, v.b, v.c));
    Hash(Add(t1, t2), v.a, v.b, v.c, Add(v.d, t1), v.e, v.f, v.g)
  }

  function Rounds(v: Hash, b: Block, t: nat): Hash
    requires t <= 64
  {
    if t == 0 then v else Round(Rounds(v, b, t - 1), K[t - 1], Schedule(b, t - 1))
  }

  function Compress(v: Hash, b: Block): Hash {
    var w := Rounds(v, b, 64);
    Hash(Add(v.a, w.a), Add(v.b, w.b), Add(v.c, w.c), Add(v.d, w.d), Add(v.e, w.e), Add(v.f, w.f), Add(v.g, w.g), Add(v.h, w.h))
  }

  function HashBlocks(m: seq<Octet>): Hash
    requires |m| % 64 == 0
  {
    if m == [] then INITIAL else Compress(HashBlocks(m[..|m| - 64]), m[|m| - 64..])
  }

  function Zeros(n: nat): seq<Octet> {
    seq(n, _ => 0 as bv8)
  }

  const TWO_64 := 0x1_0000_0000_0000_0000

  function Power256(i: nat): nat {
    if i == 0 then 1 else 256 * Power256(i - 1)
  }

  /** The i-th octet of n, counted from the least significant. */
  function OctetOf(n: nat, i: nat): Octet
    requires Power256(i) > 0
  {
    (n / Power256(i) % 256) as bv8
  }

  /** Eight octets, most significant first. */
  function BigEndian64(n: nat): (s: seq<Octet>)
    ensures |s| == 8
  {
    PowersPositive();
    [OctetOf(n, 7), OctetOf(n, 6), OctetOf(n, 5), OctetOf(n, 4), OctetOf(n, 3), OctetOf(n, 2), OctetOf(n, 1), OctetOf(n, 0)]
  }

  lemma {:induction false} PowerPositive(i: nat)
    ensures Power256(i) > 0
  {
    if i > 0 { PowerPositive(i - 1); }
  }

  lemma PowersPositive()
    ensures forall i: nat :: Power256(i) > 0
  {
    forall i: nat ensures Power256(i) > 0 { PowerPositive(i); }
  }

  lemma PadLength(n: nat)
    ensures (n + 1 + (55 - n) % 64 + 8) % 64 == 0
  {
  }

  /** A one bit, the fewest zero bits that make the length 448 modulo 512 bits, and the length. */
  function Pad(m: seq<Octet>): (p: seq<Octet>)
    ensures |p| % 64 == 0
  {
    hide BigEndian64;
    PadLength(|m|);
    m + [0x80] + Zeros((55 - |m|) % 64) + BigEndian64(8 * |m| % TWO_64)
  }

  function HexDigit(w: Word): char {
    if w == 0 then '0' else if w == 1 then '1' else if w == 2 then '2' else if w == 3 then '3'
    else if w == 4 then '4' else if w == 5 then '5' else if w == 6 then '6' else if w == 7 then '7'
    else if w == 8 then '8' else if w == 9 then '9' else if w == 10 then 'a' else if w == 11 then 'b'
    else if w == 12 then 'c' else if w == 13 then 'd' else if w == 14 then 'e' else 'f'
  }

  function HexWord(w: Word): (s: string)
    ensures |s| == 8
  {
    [HexDigit(w >> 28), HexDigit((w >> 24) & 15), HexDigit((w >> 20) & 15), HexDigit((w >> 16) & 15),
     HexDigit((w >> 12) & 15), HexDigit((w >> 8) & 15), HexDigit((w >> 4) & 15), HexDigit(w & 15)]
  }

  function Hex(v: Hash): (s: string)
    ensures |s| == 64
  {
    HexWord(v.a) + HexWord(v.b) + HexWord(v.c) + HexWord(v.d) + HexWord(v.e) + HexWord(v.f) + HexWord(v.g) + HexWord(v.h)
  }

  function Digest(m: seq<Octet>): string {
    Hex(HashBlocks(Pad(m)))
  }
}
