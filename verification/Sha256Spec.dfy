/** SHA-256 as FIPS 180-4 states it, by recursion. */
module Sha256Spec {
  import opened Numbers

  /** A 32-bit word as the number JavaScript holds. */
  type Word = x: nat | x < MODULUS

  function Bits(w: Word): bv32 {
    w as bv32
  }

  function FromBits(b: bv32): Word {
    b as nat
  }

  /** Addition modulo 2^32. */
  function Add(x: Word, y: Word): Word {
    (x + y) % MODULUS
  }

  // ---------------------------------------------------------------- section 4.1.2: functions

  function Rotr(n: nat, x: bv32): bv32
    requires 0 < n < 32
  {
    (x >> n) | (x << (32 - n))
  }

  function Ch(x: Word, y: Word, z: Word): Word {
    FromBits((Bits(x) & Bits(y)) ^ (!Bits(x) & Bits(z)))
  }

  function Maj(x: Word, y: Word, z: Word): Word {
    FromBits((Bits(x) & Bits(y)) ^ (Bits(x) & Bits(z)) ^ (Bits(y) & Bits(z)))
  }

  function BigSigma0(x: Word): Word {
    FromBits(Rotr(2, Bits(x)) ^ Rotr(13, Bits(x)) ^ Rotr(22, Bits(x)))
  }

  function BigSigma1(x: Word): Word {
    FromBits(Rotr(6, Bits(x)) ^ Rotr(11, Bits(x)) ^ Rotr(25, Bits(x)))
  }

  function SmallSigma0(x: Word): Word {
    FromBits(Rotr(7, Bits(x)) ^ Rotr(18, Bits(x)) ^ (Bits(x) >> 3))
  }

  function SmallSigma1(x: Word): Word {
    FromBits(Rotr(17, Bits(x)) ^ Rotr(19, Bits(x)) ^ (Bits(x) >> 10))
  }

  // ---------------------------------------------------------------- sections 4.2.2 and 5.3.3: constants

  const K: seq<Word> := [
    0x428a2f98, 0x71374491, 0xb5c0fbcf, 0xe9b5dba5, 0x3956c25b, 0x59f111f1, 0x923f82a4, 0xab1c5ed5,
    0xd807aa98, 0x12835b01, 0x243185be, 0x550c7dc3, 0x72be5d74, 0x80deb1fe, 0x9bdc06a7, 0xc19bf174,
    0xe49b69c1, 0xefbe4786, 0x0fc19dc6, 0x240ca1cc, 0x2de92c6f, 0x4a7484aa, 0x5cb0a9dc, 0x76f988da,
    0x983e5152, 0xa831c66d, 0xb00327c8, 0xbf597fc7, 0xc6e00bf3, 0xd5a79147, 0x06ca6351, 0x14292967,
    0x27b70a85, 0x2e1b2138, 0x4d2c6dfc, 0x53380d13, 0x650a7354, 0x766a0abb, 0x81c2c92e, 0x92722c85,
    0xa2bfe8a1, 0xa81a664b, 0xc24b8b70, 0xc76c51a3, 0xd192e819, 0xd6990624, 0xf40e3585, 0x106aa070,
    0x19a4c116, 0x1e376c08, 0x2748774c, 0x34b0bcb5, 0x391c0cb3, 0x4ed8aa4a, 0x5b9cca4f, 0x682e6ff3,
    0x748f82ee, 0x78a5636f, 0x84c87814, 0x8cc70208, 0x90befffa, 0xa4506ceb, 0xbef9a3f7, 0xc67178f2]

  datatype Hash = Hash(a: Word, b: Word, c: Word, d: Word, e: Word, f: Word, g: Word, h: Word)

  const INITIAL := Hash(0x6a09e667, 0xbb67ae85, 0x3c6ef372, 0xa54ff53a, 0x510e527f, 0x9b05688c, 0x1f83d9ab, 0x5be0cd19)

  // ---------------------------------------------------------------- section 5.1.1: padding

  /** The number of zero bytes behind the `0x80` byte. */
  function ZeroBytes(length: nat): (z: nat)
    ensures z < 64 && (length + 1 + z) % 64 == 56 && (length + 1 + z + 8) % 64 == 0
  {
    (119 - length % 64) % 64
  }

  /** It is the least number that leaves eight bytes to the end of a block. */
  lemma ZeroBytesIsLeast(length: nat, y: nat)
    requires (length + 1 + y) % 64 == 56
    ensures ZeroBytes(length) <= y
  {
  }

  function Zeros(n: nat): (r: seq<bv8>)
    ensures |r| == n && forall i :: 0 <= i < n ==> r[i] == 0
  {
    seq(n, i => 0)
  }

  /** The last `k` bytes of a number, most significant first. */
  function BigEndian(k: nat, n: nat): (r: seq<bv8>)
    ensures |r| == k
  {
    if k == 0 then [] else BigEndian(k - 1, n / 256) + [(n % 256) as bv8]
  }

  /** Padding: a one bit, zeros, and the length in bits as 64-bit number. */
  function Pad(message: seq<bv8>): (r: seq<bv8>)
    ensures |r| % 64 == 0
  {
    message + [0x80] + Zeros(ZeroBytes(|message|)) + BigEndian(8, 8 * |message|)
  }

  // ---------------------------------------------------------------- section 6.2.2: the computation

  function WordAt(bytes: seq<bv8>, j: nat): Word
    requires j + 4 <= |bytes|
  {
    FromBits(((bytes[j] as bv32 * 256 + bytes[j + 1] as bv32) * 256 + bytes[j + 2] as bv32) * 256 + bytes[j + 3] as bv32)
  }

  /** Word `t` of the message schedule of the block at `offset`. */
  function Schedule(bytes: seq<bv8>, offset: nat, t: nat): Word
    requires offset + 64 <= |bytes|
  {
    if t < 16 then WordAt(bytes, offset + 4 * t)
    else if t < 64 then
      Add(Add(SmallSigma1(Schedule(bytes, offset, t - 2)), Schedule(bytes, offset, t - 7)),
          Add(SmallSigma0(Schedule(bytes, offset, t - 15)), Schedule(bytes, offset, t - 16)))
    else 0
  }

  function Round(v: Hash, k: Word, w: Word): Hash {
    var t1 := Add(Add(Add(Add(v.h, BigSigma1(v.e)), Ch(v.e, v.f, v.g)), k), w);
    var t2 := Add(BigSigma0(v.a), Maj(v.a, v.b, v.c));
    Hash(Add(t1, t2), v.a, v.b, v.c, Add(v.d, t1), v.e, v.f, v.g)
  }

  /** The working variables after `t` rounds. */
  function Rounds(bytes: seq<bv8>, offset: nat, v: Hash, t: nat): Hash
    requires offset + 64 <= |bytes| && t <= 64
  {
    if t == 0 then v
    else Round(Rounds(bytes, offset, v, t - 1), K[t - 1], Schedule(bytes, offset, t - 1))
  }

  function AddHash(x: Hash, y: Hash): Hash {
    Hash(Add(x.a, y.a), Add(x.b, y.b), Add(x.c, y.c), Add(x.d, y.d), Add(x.e, y.e), Add(x.f, y.f), Add(x.g, y.g), Add(x.h, y.h))
  }

  /** The hash value after the first `n` blocks. */
  function Blocks(bytes: seq<bv8>, n: nat): Hash
    requires 64 * n <= |bytes|
  {
    if n == 0 then INITIAL
    else
      var v := Blocks(bytes, n - 1);
      AddHash(v, Rounds(bytes, 64 * (n - 1), v, 64))
  }

  function Sha256(message: seq<bv8>): Hash {
    Blocks(Pad(message), |Pad(message)| / 64)
  }
}
