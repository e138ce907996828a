/** The streaming SHA-1 of the WebSocket handshake: state words, bit counter and a 64-byte buffer. */
module Sha1Context {
  import opened Bytes
  import S = Sha1

  function Choice(b: S.word, c: S.word, d: S.word): S.word {
    (b & c) | (!b & d)
  }

  function Majority(b: S.word, c: S.word, d: S.word): S.word {
    (b & c) | (b & d) | (c & d)
  }

  /** The choice function of the code uses OR where the standard has XOR. */
  lemma ChoiceAgrees(x: S.word, y: S.word, z: S.word)
    ensures Choice(x, y, z) == S.Ch(x, y, z)
  {
    assert (x & y) | (!x & z) == (x & y) ^ (!x & z);
  }

  /** So does its majority function. */
  lemma MajorityAgrees(x: S.word, y: S.word, z: S.word)
    ensures Majority(x, y, z) == S.Maj(x, y, z)
  {
    assert (x & y) | (x & z) | (y & z) == (x & y) ^ (x & z) ^ (y & z);
  }

  lemma ScheduleStep(block: seq<byte>, t: nat)
    requires |block| == S.BLOCK
    ensures S.BLOCK == 64
    ensures t < 16 ==> S.W(block, t) == S.WordAt(block[4 * t], block[4 * t + 1], block[4 * t + 2], block[4 * t + 3])
    ensures t >= 16 ==> S.W(block, t) == S.Mix(S.W(block, t - 3), S.W(block, t - 8), S.W(block, t - 14), S.W(block, t - 16))
  {
    hide S.WordAt, S.Mix;
  }

  lemma RoundsNone(block: seq<byte>, h: S.Hash)
    requires |block| == S.BLOCK
    ensures S.Rounds(block, h, 0) == h
  {
  }

  lemma NextRound(block: seq<byte>, h: S.Hash, i: nat, r: S.Hash)
    requires |block| == S.BLOCK && r == S.Rounds(block, h, i)
    ensures S.Rounds(block, h, i + 1) ==
            S.Hash(S.Sum5(S.Rotl5(r.a), S.F(i, r.b, r.c, r.d), r.e, S.K(i), S.W(block, i)), r.a, S.Rotl30(r.b), r.c, r.d)
  {
    hide S.F, S.K, S.Rotl5, S.Rotl30, S.W, S.Sum5;
  }

  /** The counter, though it wraps, still tells how full the buffer is. */
  lemma IndexOf(n: nat)
    ensures S.BitLength(n) / 8 % S.BLOCK == n % S.BLOCK
  {
    var q := 8 * n / S.LENGTH_MODULUS;
    assert S.BitLength(n) / 8 == n - q * 0x2000_0000_0000_0000;
    assert S.BitLength(n) / 8 == n + S.BLOCK * (-(q * 0x80_0000_0000_0000));
    Shift(n, -(q * 0x80_0000_0000_0000));
  }

  lemma Shift(n: nat, k: int)
    ensures (n + S.BLOCK * k) % S.BLOCK == n % S.BLOCK
  {
  }

  lemma CountAdds(n: nat, k: nat)
    ensures (S.BitLength(n) + 8 * k) % S.LENGTH_MODULUS == S.BitLength(n + k)
  {
  }

  lemma AbsorbBlock(s: seq<byte>, b: seq<byte>)
    requires |s| % S.BLOCK == 0 && |b| == S.BLOCK
    ensures S.Absorb(S.H0, s + b) == S.Compress(S.Absorb(S.H0, s), b)
    ensures |s + b| % S.BLOCK == 0
  {
    hide S.Compress, S.Absorb;
    S.AbsorbConcat(S.H0, s, b);
    S.AbsorbOne(S.Absorb(S.H0, s), b);
  }

  /** One more block of whatever follows. */
  lemma AbsorbNext(s: seq<byte>, i: nat)
    requires i % S.BLOCK == 0 && i + S.BLOCK <= |s|
    ensures (i + S.BLOCK) % S.BLOCK == 0
    ensures S.Compress(S.Absorb(S.H0, s[..i]), s[i..i + S.BLOCK]) == S.Absorb(S.H0, s[..i + S.BLOCK])
  {
    hide S.Compress, S.Absorb;
    AbsorbBlock(s[..i], s[i..i + S.BLOCK]);
    assert s[..i] + s[i..i + S.BLOCK] == s[..i + S.BLOCK];
  }

  lemma Rest(n: nat)
    ensures (n - n % S.BLOCK) % S.BLOCK == 0
  {
  }

  lemma PadParts(m: seq<byte>)
    ensures var k := |m| % S.BLOCK;
            var marked := m[|m| - k..] + [0x80];
            var length := S.Be64(S.BitLength(|m|));
            S.Pad(m) == m[..|m| - k] +
            if k < 56 then marked + S.Zeros(55 - k) + length else (marked + S.Zeros(63 - k)) + (S.Zeros(56) + length)
  {
    hide S.BitLength, S.Be64;
    var k := |m| % S.BLOCK;
    assert m == m[..|m| - k] + m[|m| - k..];
    if k < 56 {
      assert S.ZeroCount(|m|) == 55 - k;
    } else {
      assert S.ZeroCount(|m|) == 63 - k + 56;
      assert S.Zeros(63 - k + 56) == S.Zeros(63 - k) + S.Zeros(56);
    }
  }

  /** The last one or two blocks, which carry the marker and the length. */
  lemma PadBlocks(m: seq<byte>)
    ensures var k := |m| % S.BLOCK;
            var h := S.Absorb(S.H0, m[..|m| - k]);
            var marked := m[|m| - k..] + [0x80];
            var length := S.Be64(S.BitLength(|m|));
            S.Absorb(S.H0, S.Pad(m)) ==
            if k < 56 then S.Compress(h, marked + S.Zeros(55 - k) + length)
            else S.Compress(S.Compress(h, marked + S.Zeros(63 - k)), S.Zeros(56) + length)
  {
    hide S.Compress, S.Absorb, S.BitLength, S.Pad;
    var k := |m| % S.BLOCK;
    var whole := m[..|m| - k];
    Rest(|m|);
    PadParts(m);
    var marked := m[|m| - k..] + [0x80];
    var length := S.Be64(S.BitLength(|m|));
    if k < 56 {
      AbsorbBlock(whole, marked + S.Zeros(55 - k) + length);
    } else {
      var b1, b2 := marked + S.Zeros(63 - k), S.Zeros(56) + length;
      AbsorbBlock(whole, b1);
      AbsorbBlock(whole + b1, b2);
      assert whole + (b1 + b2) == (whole + b1) + b2;
    }
  }

  class Context {
    const state: array<S.word>
    const buffer: array<byte>
    var count: nat
    ghost var message: seq<byte>

    /** The buffer holds the unfinished block of the message, the state the compression of the rest. */
    ghost predicate Valid()
      reads this, state, buffer
    {
      && state.Length == 5 && buffer.Length == S.BLOCK
      && count == S.BitLength(|message|)
      && (var k := |message| % S.BLOCK;
          && buffer[..k] == message[|message| - k..]
          && StateHash() == S.Absorb(S.H0, message[..|message| - k]))
    }

    function StateHash(): S.Hash
      requires state.Length == 5
      reads state
    {
      S.Hash(state[0], state[1], state[2], state[3], state[4])
    }

    constructor ()
      ensures Valid() && message == [] && fresh(state) && fresh(buffer)
    {
      state := new S.word[5](_ => 0);
      buffer := new byte[S.BLOCK](_ => 0);
      count := 0;
      message := [];
      new;
      state[0], state[1], state[2] := 0x67452301, 0xEFCDAB89, 0x98BADCFE;
      state[3], state[4] := 0x10325476, 0xC3D2E1F0;
    }

    method Schedule(block: seq<byte>) returns (w: array<S.word>)
      requires |block| == S.BLOCK
      ensures fresh(w) && w.Length == 80 && forall t | 0 <= t < 80 :: w[t] == S.W(block, t)
    {
      hide *;
      w := new S.word[80](_ => 0);
      var i := 0;
      while i < 16
        invariant 0 <= i <= 16
        invariant forall t | 0 <= t < i :: w[t] == S.W(block, t)
      {
        ScheduleStep(block, i);
        w[i] := S.WordAt(block[i * 4], block[i * 4 + 1], block[i * 4 + 2], block[i * 4 + 3]);
        i := i + 1;
      }
      while i < 80
        invariant 16 <= i <= 80
        invariant forall t | 0 <= t < i :: w[t] == S.W(block, t)
      {
        ScheduleStep(block, i);
        w[i] := S.Mix(w[i - 3], w[i - 8], w[i - 14], w[i - 16]);
        i := i + 1;
      }
    }

    method Choose(i: nat, b: S.word, c: S.word, d: S.word) returns (f: S.word, k: S.word)
      ensures f == S.F(i, b, c, d) && k == S.K(i)
    {
      ChoiceAgrees(b, c, d);
      MajorityAgrees(b, c, d);
      hide S.Ch, S.Maj, S.Parity, Choice, Majority;
      if i < 20 {
        f, k := Choice(b, c, d), 0x5A827999;
      } else if i < 40 {
        f, k := S.Parity(b, c, d), 0x6ED9EBA1;
      } else if i < 60 {
        f, k := Majority(b, c, d), 0x8F1BBCDC;
      } else {
        f, k := S.Parity(b, c, d), 0xCA62C1D6;
      }
    }

    method Transform(block: seq<byte>)
      requires state.Length == 5 && |block| == S.BLOCK
      modifies state
      ensures StateHash() == S.Compress(old(StateHash()), block)
    {
      hide S.F, S.K, S.Rotl5, S.Rotl30, S.W, S.Rounds, S.Sum5, S.Plus;
      RoundsNone(block, StateHash());
      ghost var h := StateHash();
      var w := Schedule(block);
      var a, b, c, d, e := state[0], state[1], state[2], state[3], state[4];
      var i := 0;
      while i < 80
        invariant 0 <= i <= 80
        invariant StateHash() == h
        invariant forall t | 0 <= t < 80 :: w[t] == S.W(block, t)
        invariant S.Hash(a, b, c, d, e) == S.Rounds(block, h, i)
      {
        NextRound(block, h, i, S.Hash(a, b, c, d, e));
        var f, k := Choose(i, b, c, d);
        var t := S.Sum5(S.Rotl5(a), f, e, k, w[i]);
        e, d, c, b, a := d, c, S.Rotl30(b), a, t;
        i := i + 1;
      }
      state[0] := S.Plus(state[0], a);
      state[1] := S.Plus(state[1], b);
      state[2] := S.Plus(state[2], c);
      state[3] := S.Plus(state[3], d);
      state[4] := S.Plus(state[4], e);
    }

    /** Put bytes into the buffer. */
    method Store(data: seq<byte>, at: nat)
      requires at + |data| <= buffer.Length
      modifies buffer
      ensures buffer[..at + |data|] == old(buffer[..at]) + data
    {
      Copy(data, buffer, at);
    }

    method Update(data: seq<byte>)
      requires Valid()
      modifies this, state, buffer
      ensures Valid() && message == old(message) + data
    {
      hide *;
      Opened();
      var idx := Index();
      ghost var start := |message|;
      CountAdds(start, |data|);
      Cuts(message, data, idx);
      count := (count + 8 * |data|) % S.LENGTH_MODULUS;
      message := message + data;
      var i := 0;
      if idx + |data| > 63 {
        i := FillAndRun(data, idx, start);
        idx := 0;
      }
      Tail(start, |data|, i, idx);
      Remains(message, data, start, idx, i);
      Keep(data[i..], idx);
    }

    /** Buffer the bytes that do not fill a block. */
    method Keep(rest: seq<byte>, idx: nat)
      requires state.Length == 5 && buffer.Length == 64 && count == S.BitLength(|message|)
      requires idx + |rest| == |message| % S.BLOCK && idx + |rest| <= |message| && idx + |rest| < 64
      requires message[|message| - idx - |rest|..] == buffer[..idx] + rest
      requires StateHash() == S.Absorb(S.H0, message[..|message| - idx - |rest|])
      modifies buffer
      ensures Valid()
    {
      hide *;
      Store(rest, idx);
      Closed(idx + |rest|);
    }

    lemma Closed(k: nat)
      requires state.Length == 5 && buffer.Length == 64 && count == S.BitLength(|message|)
      requires k == |message| % S.BLOCK && k <= |message| && k < 64 && buffer[..k] == message[|message| - k..]
      requires StateHash() == S.Absorb(S.H0, message[..|message| - k])
      ensures Valid()
    {
      hide S.Absorb, S.BitLength;
    }

    lemma Opened()
      requires Valid()
      ensures state.Length == 5 && buffer.Length == S.BLOCK == 64 && S.LENGTH_MODULUS > 0
      ensures count == S.BitLength(|message|)
      ensures var k := |message| % S.BLOCK;
              k <= |message| && (|message| - k) % S.BLOCK == 0 && buffer[..k] == message[|message| - k..]
              && StateHash() == S.Absorb(S.H0, message[..|message| - k])
    {
      hide S.Compress, S.Absorb, S.BitLength;
      Rest(|message|);
    }

    /** How many bytes the buffer holds. */
    method Index() returns (idx: nat)
      requires Valid()
      ensures idx == |message| % S.BLOCK && idx < S.BLOCK
    {
      hide S.Absorb, S.BitLength;
      IndexOf(|message|);
      idx := count / 8 % S.BLOCK;
    }

    /** Complete the buffered block and compress it, then all whole blocks behind it. */
    method FillAndRun(data: seq<byte>, idx: nat, ghost start: nat) returns (i: nat)
      requires state.Length == 5 && buffer.Length == S.BLOCK == 64 && idx < S.BLOCK && idx + |data| > 63
      requires idx <= start && |message| == start + |data| && message[start..] == data && (start - idx) % S.BLOCK == 0
      requires buffer[..idx] == message[start - idx..start] && StateHash() == S.Absorb(S.H0, message[..start - idx])
      modifies state, buffer
      ensures i <= |data| < i + S.BLOCK && (start + i) % S.BLOCK == 0
      ensures StateHash() == S.Absorb(S.H0, message[..start + i])
    {
      hide *;
      i := 64 - idx;
      SplitAt(message, data, start, idx, i);
      Store(data[..i], idx);
      AbsorbNext(message, start - idx);
      assert buffer[..] == buffer[..idx + i];
      Transform(buffer[..]);
      i := Blocks(data, i, start);
    }

    /** Compress all whole blocks of the data from position `from` on, straight from the data. */
    method Blocks(data: seq<byte>, from: nat, ghost start: nat) returns (i: nat)
      requires state.Length == 5 && from <= |data|
      requires |message| == start + |data| && message[start..] == data
      requires (start + from) % S.BLOCK == 0 && StateHash() == S.Absorb(S.H0, message[..start + from])
      modifies state
      ensures i <= |data| < i + S.BLOCK && (start + i) % S.BLOCK == 0
      ensures StateHash() == S.Absorb(S.H0, message[..start + i])
    {
      hide S.Compress, S.Absorb, S.BitLength;
      i := from;
      while i + 63 < |data|
        invariant from <= i <= |data| && (start + i) % S.BLOCK == 0
        invariant StateHash() == S.Absorb(S.H0, message[..start + i])
      {
        AbsorbNext(message, start + i);
        assert data[i..i + S.BLOCK] == message[start + i..start + i + S.BLOCK];
        Transform(data[i..i + S.BLOCK]);
        i := i + S.BLOCK;
      }
    }

    lemma LastBlocks()
      requires Valid()
      ensures state.Length == 5 && buffer.Length == S.BLOCK == 64
      ensures S.Digest(message) == S.Output(
                var k := |message| % S.BLOCK;
                var marked := buffer[..k] + [0x80];
                if k < 56 then S.Compress(StateHash(), marked + S.Zeros(55 - k) + S.Be64(count))
                else S.Compress(S.Compress(StateHash(), marked + S.Zeros(63 - k)), S.Zeros(56) + S.Be64(count)))
    {
      hide S.Compress, S.Absorb, S.BitLength, S.Output, S.Pad;
      PadBlocks(message);
    }

    /** The last block or two: marker, zeros and the length in bits. */
    method Final() returns (out: seq<byte>)
      requires Valid()
      modifies state
      ensures out == S.Digest(message)
    {
      hide *;
      LastBlocks();
      var idx := Index();
      ghost var k, h, tail := idx, StateHash(), buffer[..idx];
      var last := new byte[64](_ => 0);
      Copy(buffer[..idx], last, 0);
      last[idx] := 0x80;
      idx := idx + 1;
      assert last[..idx] == tail + [0x80];
      if idx > 56 {
        Clear(last, idx, 64);
        assert last[..] == tail + [0x80] + S.Zeros(63 - k);
        EmptyFront(last[..]);
        Transform(last[..]);
        idx := 0;
      }
      WriteEnd(last, idx);
      Transform(last[..]);
      out := S.Output(StateHash());
    }

    /** Zeros from idx on, and the length in the last eight bytes. */
    method WriteEnd(last: array<byte>, idx: nat)
      requires last.Length == 64 && idx <= 56
      modifies last
      ensures last[..] == old(last[..idx]) + S.Zeros(56 - idx) + S.Be64(count)
    {
      hide *;
      Clear(last, idx, 56);
      WriteLength(last);
    }

    lemma EmptyFront(s: seq<byte>)
      ensures s[..0] + S.Zeros(56) == S.Zeros(56)
    {
    }

    method WriteLength(last: array<byte>)
      requires last.Length == 64
      modifies last
      ensures last[..] == old(last[..56]) + S.Be64(count)
    {
      hide S.ByteAt;
      ghost var was := last[..56];
      var i := 0;
      while i < 8
        invariant 0 <= i <= 8 && last[..56] == was
        invariant forall j | 56 <= j < 56 + i :: last[j] == S.ByteAt(count, 63 - j)
      {
        last[56 + i] := S.ByteAt(count, 7 - i);
        i := i + 1;
      }
    }
  }

  lemma SplitAt(m: seq<byte>, data: seq<byte>, start: nat, idx: nat, i: nat)
    requires idx <= start <= |m| && m[start..] == data && i <= |data|
    ensures m[start - idx..start + i] == m[start - idx..start] + data[..i]
  {
    assert m[start..start + i] == m[start..][..i];
    assert m[start - idx..start + i] == m[start - idx..start] + m[start..start + i];
  }

  /** What is not compressed yet: the buffered bytes and the rest of the data. */
  lemma Remains(m: seq<byte>, data: seq<byte>, start: nat, idx: nat, i: nat)
    requires |m| == start + |data| && m[start..] == data && i <= |data| && idx <= start && (i == 0 || idx == 0)
    ensures m[|m| - idx - |data| + i..] == m[start - idx..start] + data[i..]
    ensures idx == 0 ==> m[start - idx..start] == []
  {
    assert data[i..] == m[start + i..];
    assert m[start - idx + i..] == m[start - idx + i..start + i] + m[start + i..];
  }

  lemma Cuts(m: seq<byte>, data: seq<byte>, idx: nat)
    requires idx <= |m|
    ensures (m + data)[..|m| - idx] == m[..|m| - idx] && (m + data)[|m| - idx..|m|] == m[|m| - idx..]
    ensures (m + data)[|m|..] == data && (m + data)[|m| - idx..] == m[|m| - idx..] + data
  {
  }

  lemma Tail(start: nat, n: nat, i: nat, idx: nat)
    requires i <= n && (if i == 0 then idx == start % S.BLOCK && idx + n < S.BLOCK else idx == 0 && (start + i) % S.BLOCK == 0 && n < i + S.BLOCK)
    ensures (start + n) % S.BLOCK == idx + n - i
  {
  }

  method Clear(a: array<byte>, from: nat, to: nat)
    requires from <= to <= a.Length
    modifies a
    ensures a[..] == old(a[..from]) + S.Zeros(to - from) + old(a[to..])
  {
    ghost var was := a[..];
    var i := from;
    while i < to
      invariant from <= i <= to
      invariant forall k | 0 <= k < a.Length :: a[k] == if from <= k < i then 0 else was[k]
    {
      a[i] := 0;
      i := i + 1;
    }
  }

  /** The digest of one message. */
  method Hash(data: seq<byte>) returns (out: seq<byte>)
    ensures out == S.Digest(data)
  {
    hide S.Digest;
    var ctx := new Context();
    ctx.Update(data);
    assert [] + data == data;
    out := ctx.Final();
  }

  lemma ChunksStart(chunks: seq<seq<byte>>)
    ensures Concat(chunks[..0]) == []
  {
  }

  lemma NextChunk(chunks: seq<seq<byte>>, i: nat)
    requires i < |chunks|
    ensures Concat(chunks[..i + 1]) == Concat(chunks[..i]) + chunks[i]
  {
    ConcatLast(chunks[..i], chunks[i]);
    assert chunks[..i + 1] == chunks[..i] + [chunks[i]];
  }

  /** The digest does not depend on how the message is cut into updates. */
  method HashChunks(chunks: seq<seq<byte>>) returns (out: seq<byte>)
    ensures out == S.Digest(Concat(chunks))
  {
    hide *;
    var ctx := new Context();
    ChunksStart(chunks);
    var i := 0;
    while i < |chunks|
      invariant 0 <= i <= |chunks| && fresh(ctx) && fresh(ctx.state) && fresh(ctx.buffer)
      invariant ctx.Valid() && ctx.message == Concat(chunks[..i])
    {
      NextChunk(chunks, i);
      ctx.Update(chunks[i]);
      i := i + 1;
    }
    assert chunks[..i] == chunks;
    out := ctx.Final();
  }
}
