/** SHA-256 as FIPS 180-4 defines it. */
module Sha256Spec {

  type Word = bv32
  type Octet = bv8

  const BLOCK: nat := 64

  /** The longest message, in bytes: its length in bits takes 64 bits. */
  const LIMIT: nat := 0x2000_0000_0000_0000

  // ----- the functions of section 4.1.2 -----

  /** Addition modulo 2^32; the order of the terms of a sum is immaterial. */
  function Plus(a: Word, b: Word): Word {
    a + b
  }

  function Sum(a: Word, b: Word, c: Word, d: Word): Word {
    Plus(Plus(Plus(a, b), c), d)
  }

  function Ch(x: Word, y: Word, z: Word): Word {
    (x & y) ^ (!x & z)
  }

  function Maj(x: Word, y: Word, z: Word): Word {
    (x & y) ^ (x & z) ^ (y & z)
  }

  /** Bit by bit, x chooses between y and z. */
  lemma ChSelects(x: Word, y: Word, z: Word)
    ensures Ch(x, y, z) & x == y & x && Ch(x, y, z) & !x == z & !x
  {
  }

  /** Bit by bit, at least two of the three agree with the result. */
  lemma MajVotes(x: Word, y: Word, z: Word)
    ensures Maj(x, y, z) == (x & y) | (x & z) | (y & z)
  {
  }

  function BigSigma0(x: Word): Word {
    x.RotateRight(2) ^ x.RotateRight(13) ^ x.RotateRight(22)
  }

  function BigSigma1(x: Word): Word {
    x.RotateRight(6) ^ x.RotateRight(11) ^ x.RotateRight(25)
  }

  function SmallSigma0(x: Word): Word {
    x.RotateRight(7) ^ x.RotateRight(18) ^ (x >> 3)
  }

  function SmallSigma1(x: Word): Word {
    x.RotateRight(17) ^ x.RotateRight(19) ^ (x >> 10)
  }

  /** The constants of section 4.2.2. */
  function K(t: nat): Word
    requires t < 64
  {
    if t < 8 then [0x428a2f98, 0x71374491, 0xb5c0fbcf, 0xe9b5dba5, 0x3956c25b, 0x59f111f1, 0x923f82a4, 0xab1c5ed5][t]
    else if t < 16 then [0xd807aa98, 0x12835b01, 0x243185be, 0x550c7dc3, 0x72be5d74, 0x80deb1fe, 0x9bdc06a7, 0xc19bf174][t - 8]
    else if t < 24 then [0xe49b69c1, 0xefbe4786, 0x0fc19dc6, 0x240ca1cc, 0x2de92c6f, 0x4a7484aa, 0x5cb0a9dc, 0x76f988da][t - 16]
    else if t < 32 then [0x983e5152, 0xa831c66d, 0xb00327c8, 0xbf597fc7, 0xc6e00bf3, 0xd5a79147, 0x06ca6351, 0x14292967][t - 24]
    else if t < 40 then [0x27b70a85, 0x2e1b2138, 0x4d2c6dfc, 0x53380d13, 0x650a7354, 0x766a0abb, 0x81c2c92e, 0x92722c85][t - 32]
    else if t < 48 then [0xa2bfe8a1, 0xa81a664b, 0xc24b8b70, 0xc76c51a3, 0xd192e819, 0xd6990624, 0xf40e3585, 0x106aa070][t - 40]
    else if t < 56 then [0x19a4c116, 0x1e376c08, 0x2748774c, 0x34b0bcb5, 0x391c0cb3, 0x4ed8aa4a, 0x5b9cca4f, 0x682e6ff3][t - 48]
    else [0x748f82ee, 0x78a5636f, 0x84c87814, 0x8cc70208, 0x90befffa, 0xa4506ceb, 0xbef9a3f7, 0xc67178f2][t - 56]
  }

  /** The initial hash value of section 5.3.3. */
  function InitialHash(): (h: Hash) {
    [0x6a09e667, 0xbb67ae85, 0x3c6ef372, 0xa54ff53a, 0x510e527f, 0x9b05688c, 0x1f83d9ab, 0x5be0cd19]
  }

  type Hash = h: seq<Word> | |h| == 8 witness [0, 0, 0, 0, 0, 0, 0, 0]

  type Block = b: seq<Octet> | |b| == BLOCK witness seq(BLOCK, i => 0)

  // ----- one block, section 6.2.2 -----

  function WordOf(a: Octet, b: Octet, c: Octet, d: Octet): Word {
    (a as Word << 24) | (b as Word << 16) | (c as Word << 8) | d as Word
  }

  /** The message schedule. */
  function Schedule(block: Block, t: nat): Word {
    if t < 16 then WordOf(block[4 * t], block[4 * t + 1], block[4 * t + 2], block[4 * t + 3])
    else Sum(Schedule(block, t - 16), SmallSigma0(Schedule(block, t - 15)),
             Schedule(block, t - 7), SmallSigma1(Schedule(block, t - 2)))
  }

  /** The working variables a to h after t rounds. */
  function Rounds(hash: Hash, block: Block, t: nat): Hash
    requires t <= 64
  {
    if t == 0 then hash else
      var v := Rounds(hash, block, t - 1);
      Round(v, K(t - 1), Schedule(block, t - 1))
  }

  function Round(v: Hash, k: Word, w: Word): Hash {
    var t1, t2 := T1(v, k, w), T2(v);
    [Plus(t1, t2), v[0], v[1], v[2], Plus(v[3], t1), v[4], v[5], v[6]]
  }

  function T1(v: Hash, k: Word, w: Word): Word {
    Plus(Sum(v[7], BigSigma1(v[4]), Ch(v[4], v[5], v[6]), k), w)
  }

  function T2(v: Hash): Word {
    Plus(BigSigma0(v[0]), Maj(v[0], v[1], v[2]))
  }

  function Added(a: Hash, b: Hash): Hash {
    seq(8, i requires 0 <= i < 8 => Plus(a[i], b[i]))
  }

  function Compress(hash: Hash, block: Block): Hash {
    Added(hash, Rounds(hash, block, 64))
  }

  // ----- a whole message -----

  /** What 64 bits hold of a size. */
  function Wrapped(size: nat): nat {
    size % 0x1_0000_0000_0000_0000
  }

  lemma NotWrapped(size: nat)
    requires size < 8 * LIMIT
    ensures Wrapped(size) == size
  {
  }

  /** The hash value after the first n blocks of m. */
  function HashOf(m: seq<Octet>, n: nat): Hash
    requires BLOCK * n <= |m|
  {
    if n == 0 then InitialHash() else Compress(HashOf(m, n - 1), m[BLOCK * (n - 1)..BLOCK * n])
  }

  /** The n lowest bytes of v, the highest first. */
  function BigEndian(v: nat, n: nat): (b: seq<Octet>)
    ensures |b| == n
  {
    if n == 0 then [] else BigEndian(v / 256, n - 1) + [(v % 256) as Octet]
  }

  function ZeroOctets(n: nat): (z: seq<Octet>)
    ensures |z| == n && forall i | 0 <= i < n :: z[i] == 0
  {
    seq(n, i => 0)
  }

  /** The number of zero bytes between the bit 1 and the length: the smallest that makes
      the padded message a whole number of blocks. */
  function ZerosNeeded(length: nat): (k: nat)
    ensures (length + 1 + k + 8) % BLOCK == 0 && k < BLOCK
  {
    (119 - length % BLOCK) % BLOCK
  }

  /** The padded message of section 5.1.1. */
  function Padded(m: seq<Octet>): (p: seq<Octet>)
    ensures |p| % BLOCK == 0 && m <= p
  {
    m + [0x80] + ZeroOctets(ZerosNeeded(|m|)) + BigEndian(8 * |m|, 8)
  }

  function OctetsOf(w: Word): seq<Octet> {
    [((w >> 24) & 255) as Octet, ((w >> 16) & 255) as Octet, ((w >> 8) & 255) as Octet, (w & 255) as Octet]
  }

  function Octets(h: seq<Word>): seq<Octet> {
    if h == [] then [] else Octets(h[..|h| - 1]) + OctetsOf(h[|h| - 1])
  }

  /** The message digest of m. */
  function Sha256(m: seq<Octet>): seq<Octet>
    requires |m| < LIMIT
  {
    Octets(HashOf(Padded(m), |Padded(m)| / BLOCK))
  }

  /** The bytes of a word give the word back. */
  lemma OctetsInverse(w: Word)
    ensures var b := OctetsOf(w); WordOf(b[0], b[1], b[2], b[3]) == w
  {
  }

  /** Blocks already hashed do not depend on what follows. */
  lemma {:induction false} HashOfPrefix(m: seq<Octet>, more: seq<Octet>, n: nat)
    requires BLOCK * n <= |m|
    ensures HashOf(m + more, n) == HashOf(m, n)
  {
    hide Compress;
    if n > 0 {
      HashOfPrefix(m, more, n - 1);
      assert (m + more)[BLOCK * (n - 1)..BLOCK * n] == m[BLOCK * (n - 1)..BLOCK * n];
    }
  }
}
