/**
 SHA-1 as FIPS 180-4 defines it: functions (section 4.1.1), constants (4.2.1),
 padding (5.1.1), initial value (5.3.1), computation (6.1.2).  The message
 length is taken modulo 2^64 bits, which is what a 64-bit counter holds.
 */
module Sha1 {
  import opened Bytes

  const BLOCK: nat := 64
  const LENGTH_MODULUS: nat := 0x1_0000_0000_0000_0000

  type word = bv32

  datatype Hash = Hash(a: word, b: word, c: word, d: word, e: word)

  const H0 := Hash(0x67452301, 0xEFCDAB89, 0x98BADCFE, 0x10325476, 0xC3D2E1F0)

  function Rotl1(x: word): word {
    (x << 1) | (x >> 31)
  }

  function Rotl5(x: word): word {
    (x << 5) | (x >> 27)
  }

  function Rotl30(x: word): word {
    (x << 30) | (x >> 2)
  }

  function Ch(x: word, y: word, z: word): word {
    (x & y) ^ (!x & z)
  }

  function Parity(x: word, y: word, z: word): word {
    x ^ y ^ z
  }

  function Maj(x: word, y: word, z: word): word {
    (x & y) ^ (x & z) ^ (y & z)
  }

  function F(t: nat, x: word, y: word, z: word): word {
    if t < 20 then Ch(x, y, z) else if t < 40 then Parity(x, y, z) else if t < 60 then Maj(x, y, z) else Parity(x, y, z)
  }

  function K(t: nat): word {
    if t < 20 then 0x5A827999 else if t < 40 then 0x6ED9EBA1 else if t < 60 then 0x8F1BBCDC else 0xCA62C1D6
  }

  function WordAt(a: byte, b: byte, c: byte, d: byte): word {
    ((a as bv32) << 24) | ((b as bv32) << 16) | ((c as bv32) << 8) | (d as bv32)
  }

  function Mix(a: word, b: word, c: word, d: word): word {
    Rotl1(a ^ b ^ c ^ d)
  }

  /** The message schedule. */
  function W(block: seq<byte>, t: nat): word
    requires |block| == BLOCK
  {
    if t < 16 then WordAt(block[4 * t], block[4 * t + 1], block[4 * t + 2], block[4 * t + 3])
    else Mix(W(block, t - 3), W(block, t - 8), W(block, t - 14), W(block, t - 16))
  }

  function Round(t: nat, h: Hash, w: word): Hash {
    Hash(Sum5(Rotl5(h.a), F(t, h.b, h.c, h.d), h.e, K(t), w), h.a, Rotl30(h.b), h.c, h.d)
  }

  function Sum5(a: word, b: word, c: word, d: word, e: word): word {
    a + b + c + d + e
  }

  function Rounds(block: seq<byte>, h: Hash, t: nat): Hash
    requires |block| == BLOCK
  {
    if t == 0 then h else Round(t - 1, Rounds(block, h, t - 1), W(block, t - 1))
  }

  function Plus(x: word, y: word): word {
    x + y
  }

  function Add(h: Hash, r: Hash): Hash {
    Hash(Plus(h.a, r.a), Plus(h.b, r.b), Plus(h.c, r.c), Plus(h.d, r.d), Plus(h.e, r.e))
  }

  function Compress(h: Hash, block: seq<byte>): Hash
    requires |block| == BLOCK
  {
    Add(h, Rounds(block, h, 80))
  }

  /** Compression of all whole blocks of the data. */
  function Absorb(h: Hash, data: seq<byte>): Hash
    decreases |data|
  {
    if |data| < BLOCK then h else Absorb(Compress(h, data[..BLOCK]), data[BLOCK..])
  }

  function Zeros(n: nat): (s: seq<byte>)
    ensures |s| == n && forall i | 0 <= i < n :: s[i] == 0
  {
    seq(n, i => 0)
  }

  /** Byte k of a number, counted from the least significant. */
  function ByteAt(n: nat, k: nat): byte
    decreases k
  {
    if k == 0 then Digit(n) else ByteAt(n / 256, k - 1)
  }

  /** Eight bytes, most significant first. */
  function Be64(n: nat): (s: seq<byte>)
    ensures |s| == 8 && forall i | 0 <= i < 8 :: s[i] == ByteAt(n, 7 - i)
  {
    seq(8, i requires 0 <= i < 8 => ByteAt(n, 7 - i))
  }

  /** The number of zero bytes that bring message, marker and length to whole blocks. */
  function ZeroCount(n: nat): (k: nat)
    ensures k < BLOCK && (n + 1 + k + 8) % BLOCK == 0
  {
    (119 - n % BLOCK) % BLOCK
  }

  function BitLength(n: nat): nat {
    8 * n % LENGTH_MODULUS
  }

  function Pad(m: seq<byte>): (s: seq<byte>)
    ensures |s| % BLOCK == 0
  {
    m + [0x80] + Zeros(ZeroCount(|m|)) + Be64(BitLength(|m|))
  }

  function WordBytes(w: word): (s: seq<byte>)
    ensures |s| == 4
  {
    [((w >> 24) & 0xFF) as byte, ((w >> 16) & 0xFF) as byte, ((w >> 8) & 0xFF) as byte, (w & 0xFF) as byte]
  }

  function Output(h: Hash): (s: seq<byte>)
    ensures |s| == 20
  {
    WordBytes(h.a) + WordBytes(h.b) + WordBytes(h.c) + WordBytes(h.d) + WordBytes(h.e)
  }

  function Digest(m: seq<byte>): seq<byte> {
    Output(Absorb(H0, Pad(m)))
  }

  lemma {:induction false} AbsorbConcat(h: Hash, s: seq<byte>, t: seq<byte>)
    requires |s| % BLOCK == 0
    ensures Absorb(h, s + t) == Absorb(Absorb(h, s), t)
    decreases |s|
  {
    hide Compress;
    if s == [] {
      assert s + t == t;
    } else {
      assert (s + t)[..BLOCK] == s[..BLOCK] && (s + t)[BLOCK..] == s[BLOCK..] + t;
      AbsorbConcat(Compress(h, s[..BLOCK]), s[BLOCK..], t);
    }
  }

  lemma AbsorbOne(h: Hash, block: seq<byte>)
    requires |block| == BLOCK
    ensures Absorb(h, block) == Compress(h, block)
  {
    assert block[..BLOCK] == block && block[BLOCK..] == [];
    hide Compress;
  }
}
