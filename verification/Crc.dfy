/**
 The frame check sequence: CRC-CCITT, polynomial 0x1021, most significant bit
 first, starting from 0xFFFF.  It detects every error confined to 16
 consecutive bits, because one shift step is linear and loses no information.
 */
module Crc {
  import opened Bytes

  /** One shift of the register. */
  function Step(c: bv16): bv16 {
    if c & 0x8000 != 0 then (c << 1) ^ 0x1021 else c << 1
  }

  function Steps(c: bv16, n: nat): bv16
    decreases n
  {
    if n == 0 then c else Steps(Step(c), n - 1)
  }

  function Xor(a: bv16, b: bv16): bv16 {
    a ^ b
  }

  function Half(x: bv16): bv16 {
    x >> 1
  }

  function Even(x: bv16): bool {
    x & 1 == 0
  }

  /** A byte moved to the top of the register. */
  function OnTop(b: byte): bv16 {
    (b as bv16) << 8
  }

  function CrcByte(c: bv16, b: byte): bv16 {
    Steps(Xor(c, OnTop(b)), 8)
  }

  function CrcFrom(c: bv16, data: seq<byte>): bv16 {
    if data == [] then c else CrcByte(CrcFrom(c, data[..|data| - 1]), data[|data| - 1])
  }

  function Fcs(data: seq<byte>): bv16 {
    CrcFrom(0xFFFF, data)
  }

  /** The CRC register, byte by byte and bit by bit. */
  method Compute(data: seq<byte>) returns (crc: bv16)
    ensures crc == Fcs(data)
  {
    hide Step;
    crc := 0xFFFF;
    var i := 0;
    while i < |data|
      invariant 0 <= i <= |data|
      invariant crc == CrcFrom(0xFFFF, data[..i])
    {
      assert data[..i + 1][..i] == data[..i];
      crc := crc ^ ((data[i] as bv16) << 8);
      ghost var start := crc;
      var bit := 0;
      while bit < 8
        invariant 0 <= bit <= 8
        invariant Steps(crc, 8 - bit) == Steps(start, 8)
      {
        crc := Shift(crc);
        bit := bit + 1;
      }
      i := i + 1;
    }
    assert data[..i] == data;
  }

  method Shift(c: bv16) returns (r: bv16)
    ensures r == Step(c)
  {
    if c & 0x8000 != 0 {
      r := (c << 1) ^ 0x1021;
    } else {
      r := c << 1;
    }
  }

  // ---------- one step is linear and injective ----------

  lemma TopBit(x: bv16)
    ensures x & 0x8000 == 0 || x & 0x8000 == 0x8000
  {
  }

  lemma XorShift(x: bv16, y: bv16)
    ensures (x ^ y) << 1 == (x << 1) ^ (y << 1)
    ensures (x ^ y) & 0x8000 == (x & 0x8000) ^ (y & 0x8000)
  {
  }

  lemma XorRearrange(a: bv16, b: bv16, p: bv16)
    ensures (a ^ p) ^ b == (a ^ b) ^ p && a ^ (b ^ p) == (a ^ b) ^ p && (a ^ p) ^ (b ^ p) == a ^ b
  {
  }

  lemma StepLinear(x: bv16, y: bv16)
    ensures Step(Xor(x, y)) == Xor(Step(x), Step(y))
  {
    TopBit(x);
    TopBit(y);
    XorShift(x, y);
    XorRearrange(x << 1, y << 1, 0x1021);
  }

  function Twice(x: bv16): bv16 {
    x << 1
  }

  function TopSet(x: bv16): bool {
    x & 0x8000 != 0
  }

  /** The polynomial is odd, so the lowest bit tells whether it was added. */
  lemma StepLowBit(x: bv16)
    ensures if TopSet(x) then Step(x) == Xor(Twice(x), 0x1021) && !Even(Step(x)) else Step(x) == Twice(x) && Even(Step(x))
  {
  }

  lemma XorCancels(x: bv16, y: bv16, p: bv16)
    requires Xor(x, p) == Xor(y, p)
    ensures x == y
  {
    assert (x ^ p) ^ p == x && (y ^ p) ^ p == y;
  }

  lemma TwiceSame(x: bv16, y: bv16)
    requires Twice(x) == Twice(y) && TopSet(x) == TopSet(y)
    ensures x == y
  {
  }

  lemma StepInjective(x: bv16, y: bv16)
    requires Step(x) == Step(y)
    ensures x == y
  {
    hide *;
    StepLowBit(x);
    StepLowBit(y);
    if TopSet(x) {
      XorCancels(Twice(x), Twice(y), 0x1021);
    }
    TwiceSame(x, y);
  }

  lemma {:induction false} StepsInjective(x: bv16, y: bv16, n: nat)
    requires Steps(x, n) == Steps(y, n)
    ensures x == y
    decreases n
  {
    hide Step;
    if n > 0 {
      StepsInjective(Step(x), Step(y), n - 1);
      StepInjective(x, y);
    }
  }

  // ---------- the register over bits ----------

  function BitValue(bit: bool): bv16 {
    if bit then 0x8000 else 0
  }

  function CrcBits(c: bv16, bits: seq<bool>): bv16
    decreases bits
  {
    if bits == [] then c else CrcBits(Step(Xor(c, BitValue(bits[0]))), bits[1..])
  }

  lemma {:induction false} CrcBitsConcat(c: bv16, s: seq<bool>, t: seq<bool>)
    ensures CrcBits(c, s + t) == CrcBits(CrcBits(c, s), t)
    decreases s
  {
    hide Step, Xor, BitValue;
    if s == [] {
      assert s + t == t;
    } else {
      assert (s + t)[1..] == s[1..] + t;
      CrcBitsConcat(Step(Xor(c, BitValue(s[0]))), s[1..], t);
    }
  }

  lemma {:induction false} CrcBitsInjective(c: bv16, d: bv16, bits: seq<bool>)
    requires CrcBits(c, bits) == CrcBits(d, bits)
    ensures c == d
    decreases bits
  {
    hide Step, Xor, BitValue;
    if bits != [] {
      var p := BitValue(bits[0]);
      CrcBitsInjective(Step(Xor(c, p)), Step(Xor(d, p)), bits[1..]);
      StepInjective(Xor(c, p), Xor(d, p));
      XorCancels(c, d, p);
    }
  }

  /** Up to 16 bits as a word, the first bit on top. */
  function Word(bits: seq<bool>): bv16 {
    if bits == [] then 0 else Xor(BitValue(bits[0]), Half(Word(bits[1..])))
  }

  /** The lowest m bits are zero. */
  predicate LowZero(x: bv16, m: nat)
    decreases m
  {
    m == 0 || (Even(x) && LowZero(Half(x), m - 1))
  }

  lemma XorHalf(x: bv16, y: bv16)
    ensures Half(Xor(x, y)) == Xor(Half(x), Half(y))
    ensures Even(x) && Even(y) ==> Even(Xor(x, y))
  {
  }

  lemma {:induction false} LowZeroXor(x: bv16, y: bv16, m: nat)
    requires LowZero(x, m) && LowZero(y, m)
    ensures LowZero(Xor(x, y), m)
    decreases m
  {
    hide Xor, Half, Even;
    if m > 0 {
      XorHalf(x, y);
      LowZeroXor(Half(x), Half(y), m - 1);
    }
  }

  lemma {:induction false} LowZeroLess(x: bv16, m: nat, k: nat)
    requires LowZero(x, m) && k <= m
    ensures LowZero(x, k)
    decreases k
  {
    if k > 0 {
      LowZeroLess(Half(x), m - 1, k - 1);
    }
  }

  lemma {:induction false} LowZeroOfZero(m: nat)
    ensures LowZero(0, m)
  {
    if m > 0 {
      assert Half(0) == 0;
      LowZeroOfZero(m - 1);
    }
  }

  lemma TopLowZero()
    ensures LowZero(0x8000, 15)
  {
    assert LowZero(0x0100, 8) by {
      assert LowZero(0x0010, 4) by {
        assert LowZero(0x0004, 2);
      }
      assert LowZero(0x0040, 6);
    }
    assert LowZero(0x0400, 10);
    assert LowZero(0x1000, 12);
    assert LowZero(0x4000, 14);
  }

  lemma BitLowZero(bit: bool, m: nat)
    requires m <= 15
    ensures LowZero(BitValue(bit), m)
  {
    TopLowZero();
    LowZeroLess(0x8000, 15, m);
    LowZeroOfZero(m);
  }

  lemma {:induction false} WordLowZero(bits: seq<bool>)
    requires |bits| <= 16
    ensures LowZero(Word(bits), 16 - |bits|)
  {
    hide Xor, Half, Even, BitValue;
    if bits == [] {
      LowZeroOfZero(16);
    } else {
      WordLowZero(bits[1..]);
      BitLowZero(bits[0], 16 - |bits|);
      LowZeroXor(BitValue(bits[0]), Half(Word(bits[1..])), 16 - |bits|);
    }
  }

  lemma EvenShift(y: bv16)
    requires Even(y)
    ensures Step(Half(y)) == y
  {
  }

  lemma XorAssoc(a: bv16, b: bv16, c: bv16)
    ensures Xor(Xor(a, b), c) == Xor(a, Xor(b, c))
    ensures Xor(a, 0) == a
  {
  }

  /** Feeding up to 16 bits is adding their word and shifting that often. */
  lemma {:induction false} RunWord(c: bv16, bits: seq<bool>)
    requires |bits| <= 16
    ensures CrcBits(c, bits) == Steps(Xor(c, Word(bits)), |bits|)
    decreases bits
  {
    hide Xor, Half, Even, BitValue, Step;
    XorAssoc(c, 0, 0);
    if bits != [] {
      var p := BitValue(bits[0]);
      var y := Word(bits[1..]);
      WordLowZero(bits[1..]);
      EvenShift(y);
      StepLinear(Xor(c, p), Half(y));
      XorAssoc(c, p, Half(y));
      RunWord(Step(Xor(c, p)), bits[1..]);
    }
  }

  /** A word determines its first bit and, if the rest is even, the rest. */
  lemma WordHead(p: bool, x: bv16, q: bool, y: bv16)
    requires Xor(BitValue(p), Half(x)) == Xor(BitValue(q), Half(y)) && Even(x) && Even(y)
    ensures p == q && x == y
  {
    HeadBit(p, x);
    HeadBit(q, y);
    hide BitValue;
    XorFlip(BitValue(p), Half(x));
    XorFlip(BitValue(q), Half(y));
    EvenSame(x, y);
  }

  lemma HeadBit(p: bool, x: bv16)
    ensures (Xor(BitValue(p), Half(x)) & 0x8000 != 0) <==> p
  {
  }

  lemma XorFlip(d: bv16, w: bv16)
    ensures Xor(d, Xor(d, w)) == w
  {
  }

  lemma EvenSame(x: bv16, y: bv16)
    requires Half(x) == Half(y) && Even(x) && Even(y)
    ensures x == y
  {
  }

  lemma {:induction false} WordInjective(s: seq<bool>, t: seq<bool>)
    requires |s| == |t| <= 16 && Word(s) == Word(t)
    ensures s == t
  {
    hide Xor, Half, Even, BitValue;
    if s != [] {
      WordLowZero(s[1..]);
      WordLowZero(t[1..]);
      WordHead(s[0], Word(s[1..]), t[0], Word(t[1..]));
      WordInjective(s[1..], t[1..]);
      assert s == [s[0]] + s[1..] && t == [t[0]] + t[1..];
    }
  }

  /** Feeding two different groups of at most 16 bits leads to different registers. */
  lemma WindowInjective(d: bv16, s: seq<bool>, t: seq<bool>)
    requires |s| == |t| <= 16 && CrcBits(d, s) == CrcBits(d, t)
    ensures s == t
  {
    hide *;
    RunWord(d, s);
    RunWord(d, t);
    StepsInjective(Xor(d, Word(s)), Xor(d, Word(t)), |s|);
    XorFlip(d, Word(s));
    XorFlip(d, Word(t));
    WordInjective(s, t);
  }

  /** Any error confined to 16 consecutive bits changes the register, whatever surrounds it. */
  lemma BurstChangesBits(c: bv16, before: seq<bool>, s: seq<bool>, t: seq<bool>, after: seq<bool>)
    requires |s| == |t| <= 16 && s != t
    ensures CrcBits(c, before + s + after) != CrcBits(c, before + t + after)
  {
    hide *;
    var d := CrcBits(c, before);
    CrcBitsConcat(c, before, s);
    CrcBitsConcat(c, before + s, after);
    CrcBitsConcat(c, before, t);
    CrcBitsConcat(c, before + t, after);
    if CrcBits(c, before + s + after) == CrcBits(c, before + t + after) {
      CrcBitsInjective(CrcBits(d, s), CrcBits(d, t), after);
      WindowInjective(d, s, t);
    }
  }

  // ---------- bytes as bits ----------

  function ByteBits(b: byte): (bits: seq<bool>)
    ensures |bits| == 8
  {
    [b & 0x80 != 0, b & 0x40 != 0, b & 0x20 != 0, b & 0x10 != 0, b & 0x08 != 0, b & 0x04 != 0, b & 0x02 != 0, b & 0x01 != 0]
  }

  function Bits(data: seq<byte>): (bits: seq<bool>)
    ensures |bits| == 8 * |data|
  {
    if data == [] then [] else Bits(data[..|data| - 1]) + ByteBits(data[|data| - 1])
  }

  lemma {:induction false} WordOf8(s: seq<bool>)
    requires |s| == 8
    ensures Word(s) == Xor(BitValue(s[0]), Half(Xor(BitValue(s[1]), Half(Xor(BitValue(s[2]), Half(Xor(BitValue(s[3]), Half(
                       Xor(BitValue(s[4]), Half(Xor(BitValue(s[5]), Half(Xor(BitValue(s[6]), Half(Xor(BitValue(s[7]), Half(0))))))))))))))))
  {
    hide Xor, Half, BitValue;
    assert s[7..][1..] == [] && Word(s[7..]) == Xor(BitValue(s[7]), Half(0));
    assert s[6..][1..] == s[7..] && Word(s[6..]) == Xor(BitValue(s[6]), Half(Word(s[7..])));
    assert s[5..][1..] == s[6..] && Word(s[5..]) == Xor(BitValue(s[5]), Half(Word(s[6..])));
    assert s[4..][1..] == s[5..] && Word(s[4..]) == Xor(BitValue(s[4]), Half(Word(s[5..])));
    assert s[3..][1..] == s[4..] && Word(s[3..]) == Xor(BitValue(s[3]), Half(Word(s[4..])));
    assert s[2..][1..] == s[3..] && Word(s[2..]) == Xor(BitValue(s[2]), Half(Word(s[3..])));
    assert s[1..][1..] == s[2..] && Word(s[1..]) == Xor(BitValue(s[1]), Half(Word(s[2..])));
  }

  lemma SpreadByte(b: bv16)
    requires b < 0x100
    ensures b << 8 ==
            (if b & 0x80 != 0 then 0x8000 else 0) ^ (((if b & 0x40 != 0 then 0x8000 else 0) ^ (((if b & 0x20 != 0 then 0x8000 else 0) ^
            (((if b & 0x10 != 0 then 0x8000 else 0) ^ (((if b & 0x08 != 0 then 0x8000 else 0) ^ (((if b & 0x04 != 0 then 0x8000 else 0) ^
            (((if b & 0x02 != 0 then 0x8000 else 0) ^ (((if b & 0x01 != 0 then 0x8000 else 0) ^ 0) >> 1)) >> 1)) >> 1)) >> 1)) >> 1)) >> 1)) >> 1)
  {
  }

  /** The word of a byte's bits is the byte on top. */
  lemma ByteWord(b: byte)
    ensures Word(ByteBits(b)) == OnTop(b)
  {
    WordOf8(ByteBits(b));
    hide Word;
    SpreadByte(b as bv16);
  }

  lemma {:induction false} CrcIsBits(c: bv16, data: seq<byte>)
    ensures CrcFrom(c, data) == CrcBits(c, Bits(data))
  {
    hide Step, Xor, OnTop, ByteBits, Word, Steps, CrcBits;
    if data == [] {
      CrcOfNone(c);
    } else {
      var n := |data| - 1;
      CrcIsBits(c, data[..n]);
      CrcBitsConcat(c, Bits(data[..n]), ByteBits(data[n]));
      RunWord(CrcFrom(c, data[..n]), ByteBits(data[n]));
      ByteWord(data[n]);
    }
  }

  lemma CrcOfNone(c: bv16)
    ensures CrcBits(c, []) == c
  {
  }

  /** Two byte strings that differ, but only within 16 consecutive bits. */
  ghost predicate BurstError(data: seq<byte>, altered: seq<byte>) {
    exists from: nat, len: nat :: len <= 16 && WithinBits(data, altered, from, len)
  }

  ghost predicate WithinBits(data: seq<byte>, altered: seq<byte>, from: nat, len: nat) {
    && |data| == |altered| && data != altered && from + len <= 8 * |data|
    && Bits(data)[..from] == Bits(altered)[..from]
    && Bits(data)[from + len..] == Bits(altered)[from + len..]
  }

  lemma {:induction false} BitsInjective(s: seq<byte>, t: seq<byte>)
    requires |s| == |t| && Bits(s) == Bits(t)
    ensures s == t
  {
    hide ByteBits;
    if s != [] {
      var n := |s| - 1;
      assert Bits(s)[..8 * n] == Bits(s[..n]) && Bits(t)[..8 * n] == Bits(t[..n]);
      assert Bits(s)[8 * n..] == ByteBits(s[n]) && Bits(t)[8 * n..] == ByteBits(t[n]);
      BitsInjective(s[..n], t[..n]);
      ByteBitsInjective(s[n], t[n]);
      assert s == s[..n] + [s[n]] && t == t[..n] + [t[n]];
    }
  }

  lemma ByteBitsInjective(a: byte, b: byte)
    requires ByteBits(a) == ByteBits(b)
    ensures a == b
  {
    ByteWord(a);
    ByteWord(b);
    hide Word, ByteBits;
    assert OnTop(a) >> 8 == a as bv16;
    assert OnTop(b) >> 8 == b as bv16;
  }

  /** Every burst error of at most 16 bits changes the check sequence. */
  lemma BurstDetected(data: seq<byte>, altered: seq<byte>)
    requires BurstError(data, altered)
    ensures Fcs(data) != Fcs(altered)
  {
    var from: nat, len: nat :| len <= 16 && WithinBits(data, altered, from, len);
    var s, t := Bits(data), Bits(altered);
    hide Bits, CrcFrom;
    assert s == s[..from] + s[from..from + len] + s[from + len..];
    assert t == s[..from] + t[from..from + len] + s[from + len..];
    if s[from..from + len] == t[from..from + len] {
      BitsInjective(data, altered);
    }
    BurstChangesBits(0xFFFF, s[..from], s[from..from + len], t[from..from + len], s[from + len..]);
    CrcIsBits(0xFFFF, data);
    CrcIsBits(0xFFFF, altered);
  }

  lemma {:induction false} BitsConcat(s: seq<byte>, t: seq<byte>)
    ensures Bits(s + t) == Bits(s) + Bits(t)
  {
    hide ByteBits;
    if t == [] {
      assert s + t == s;
    } else {
      var n := |t| - 1;
      BitsConcat(s, t[..n]);
      assert (s + t)[..|s| + n] == s + t[..n];
    }
  }

  /** Altering one byte, or two adjacent ones, is such an error. */
  lemma AdjacentBytesAreBurst(before: seq<byte>, was: seq<byte>, becomes: seq<byte>, after: seq<byte>)
    requires |was| == |becomes| <= 2 && was != becomes
    ensures BurstError(before + was + after, before + becomes + after)
  {
    var s, t := before + was + after, before + becomes + after;
    BitsConcat(before + was, after);
    BitsConcat(before, was);
    BitsConcat(before + becomes, after);
    BitsConcat(before, becomes);
    hide Bits;
    assert s[|before|..|before| + |was|] == was && t[|before|..|before| + |was|] == becomes;
    assert WithinBits(s, t, 8 * |before|, 8 * |was|);
  }
}
