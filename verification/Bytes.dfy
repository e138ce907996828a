/** Bytes and big-endian numbers. */
module Bytes {
  type byte = bv8

  function High(v: bv16): byte {
    (v >> 8) as bv8
  }

  function Low(v: bv16): byte {
    (v & 0xFF) as bv8
  }

  function Join(high: byte, low: byte): bv16 {
    ((high as bv16) << 8) | (low as bv16)
  }

  lemma JoinHalves(v: bv16)
    ensures Join(High(v), Low(v)) == v
  {
  }

  lemma HalvesJoin(high: byte, low: byte)
    ensures High(Join(high, low)) == high && Low(Join(high, low)) == low
  {
  }

  function Digit(n: nat): byte {
    (n % 256) as byte
  }

  lemma NextByte(b: byte)
    requires b as int < 255
    ensures (b + 1) as int == b as int + 1
  {
  }

  /** Every number below 256 is the value of a byte. */
  lemma {:induction false} ByteOfValue(x: nat) returns (b: byte)
    requires x < 256
    ensures b as int == x
    decreases x
  {
    if x == 0 {
      b := 0;
    } else {
      b := ByteOfValue(x - 1);
      NextByte(b);
      b := b + 1;
    }
  }

  lemma ValueOfByte(b: byte)
    ensures (b as int) as byte == b
  {
  }

  lemma AsByte(x: nat)
    requires x < 256
    ensures (x as byte) as int == x
  {
    var b := ByteOfValue(x);
    ValueOfByte(b);
  }

  lemma DigitValue(n: nat)
    ensures Digit(n) as int == n % 256
  {
    AsByte(n % 256);
  }

  /** A 32-bit number from its four bytes, most significant first. */
  function Be32(a: byte, b: byte, c: byte, d: byte): (n: nat)
    ensures n < 0x1_0000_0000
  {
    (a as int) * 0x100_0000 + (b as int) * 0x1_0000 + (c as int) * 0x100 + d as int
  }

  lemma DigitSum(n: nat)
    requires n < 0x1_0000_0000
    ensures (n / 0x100_0000 % 256) * 0x100_0000 + (n / 0x1_0000 % 256) * 0x1_0000 + (n / 0x100 % 256) * 0x100 + n % 256 == n
  {
    var a, b, c := n / 0x100, n / 0x1_0000, n / 0x100_0000;
    assert b == a / 256 && c == b / 256 && c < 256;
    assert n == 256 * a + n % 256;
    assert a == 256 * b + a % 256;
    assert b == 256 * c + b % 256;
  }

  lemma Be32Digits(n: nat)
    requires n < 0x1_0000_0000
    ensures Be32(Digit(n / 0x100_0000), Digit(n / 0x1_0000), Digit(n / 0x100), Digit(n)) == n
  {
    hide Digit;
    DigitSum(n);
    DigitValue(n / 0x100_0000);
    DigitValue(n / 0x1_0000);
    DigitValue(n / 0x100);
    DigitValue(n);
  }

  /** The bytes of a stream that arrives in chunks. */
  function Concat(chunks: seq<seq<byte>>): seq<byte> {
    if chunks == [] then [] else chunks[0] + Concat(chunks[1..])
  }

  lemma {:induction false} ConcatConcat(a: seq<seq<byte>>, b: seq<seq<byte>>)
    ensures Concat(a + b) == Concat(a) + Concat(b)
  {
    if a == [] {
      assert a + b == b;
    } else {
      assert (a + b)[1..] == a[1..] + b;
      ConcatConcat(a[1..], b);
    }
  }

  lemma ConcatLast(chunks: seq<seq<byte>>, last: seq<byte>)
    ensures Concat(chunks + [last]) == Concat(chunks) + last
  {
    ConcatConcat(chunks, [last]);
    assert [last][1..] == [] && last + [] == last;
  }

  /** Copy bytes into a buffer. */
  method Copy(src: seq<byte>, out: array<byte>, at: nat)
    requires at + |src| <= out.Length
    modifies out
    ensures out[..] == old(out[..at]) + src + old(out[at + |src|..])
  {
    ghost var was := out[..];
    var i := 0;
    while i < |src|
      invariant 0 <= i <= |src|
      invariant forall k | 0 <= k < out.Length :: out[k] == if at <= k < at + i then src[k - at] else was[k]
    {
      out[at + i] := src[i];
      i := i + 1;
    }
  }
}
