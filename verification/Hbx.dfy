/**
 HBX framing on values: a 12-byte header (magic, version, protocol, flags,
 payload length, one unused byte) and the payload.  A stream is parsed by one
 rule: take the frame if a valid header starts here, else drop one byte.
 */
module Hbx {
  import opened Bytes

  const HEADER: nat := 12
  const MAX_PAYLOAD: nat := 4096
  const MAX_FRAME: nat := 4108

  datatype Frame = Frame(proto: byte, flags: bv16, payload: seq<byte>)

  function Magic(): (m: seq<byte>)
    ensures |m| == 4
  {
    [0x48, 0x42, 0x58, 0x01]
  }

  function Need(h: seq<byte>): nat
    requires |h| >= HEADER
  {
    Be32(h[7], h[8], h[9], h[10])
  }

  predicate ValidHeader(h: seq<byte>)
    requires |h| >= HEADER
  {
    h[..4] == Magic() && Need(h) <= MAX_PAYLOAD
  }

  /** The frame at the start of a stream that holds all of it. */
  function FrameAt(s: seq<byte>): Frame
    requires |s| >= HEADER && |s| >= HEADER + Need(s)
  {
    Frame(s[4], Join(s[5], s[6]), s[HEADER..HEADER + Need(s)])
  }

  /** The frames of a stream, and the bytes of an unfinished one. */
  function Parse(s: seq<byte>): (seq<Frame>, seq<byte>)
    decreases |s|
  {
    if |s| < HEADER then ([], s)
    else if !ValidHeader(s) then Parse(s[1..])
    else if |s| < HEADER + Need(s) then ([], s)
    else
      var (frames, rest) := Parse(s[HEADER + Need(s)..]);
      ([FrameAt(s)] + frames, rest)
  }

  /** `unused` is whatever the output buffer held at byte 11, which the encoder never writes. */
  function Header(proto: byte, flags: bv16, n: nat, unused: byte): (h: seq<byte>)
    ensures |h| == HEADER
  {
    Magic() + [proto, High(flags), Low(flags),
               Digit(n / 0x100_0000), Digit(n / 0x1_0000), Digit(n / 0x100), Digit(n), unused]
  }

  function Encode(f: Frame, unused: byte): (s: seq<byte>)
    ensures |s| == HEADER + |f.payload|
  {
    Header(f.proto, f.flags, |f.payload|, unused) + f.payload
  }

  // ---------- streaming equals batch ----------

  /** What a decoder keeps: too little for a header, or a valid header with too little payload. */
  predicate Residual(s: seq<byte>) {
    |s| < HEADER || (ValidHeader(s) && |s| < HEADER + Need(s))
  }

  lemma {:induction false} ParseLeavesResidual(s: seq<byte>)
    ensures Residual(Parse(s).1) && |Parse(s).1| < MAX_FRAME
    decreases |s|
  {
    if |s| >= HEADER {
      if !ValidHeader(s) {
        ParseLeavesResidual(s[1..]);
      } else if |s| >= HEADER + Need(s) {
        ParseLeavesResidual(s[HEADER + Need(s)..]);
      }
    }
  }

  lemma HeaderPrefix(s: seq<byte>, t: seq<byte>)
    requires |s| >= HEADER
    ensures Need(s + t) == Need(s) && (ValidHeader(s + t) <==> ValidHeader(s))
  {
    assert (s + t)[..4] == s[..4];
  }

  lemma FramePrefix(s: seq<byte>, t: seq<byte>)
    requires |s| >= HEADER && |s| >= HEADER + Need(s)
    ensures Need(s + t) == Need(s) && FrameAt(s + t) == FrameAt(s)
    ensures (s + t)[HEADER + Need(s)..] == s[HEADER + Need(s)..] + t
  {
    hide Need, Join, ValidHeader;
    var n := HEADER + Need(s);
    HeaderPrefix(s, t);
    assert (s + t)[HEADER..n] == s[HEADER..n];
    assert (s + t)[n..] == s[n..] + t;
  }

  /** The four cases of the parse. */
  lemma ParseCases(s: seq<byte>)
    ensures Parse(s) ==
            if |s| < HEADER then ([], s)
            else if !ValidHeader(s) then Parse(s[1..])
            else if |s| < HEADER + Need(s) then ([], s)
            else ([FrameAt(s)] + Parse(s[HEADER + Need(s)..]).0, Parse(s[HEADER + Need(s)..]).1)
  {
  }

  /** Parsing can stop anywhere and go on from the residual. */
  lemma {:induction false} ParseSplit(s: seq<byte>, t: seq<byte>)
    ensures var (frames, rest) := Parse(s);
            Parse(s + t) == (frames + Parse(rest + t).0, Parse(rest + t).1)
    decreases |s|
  {
    ParseCases(s);
    ParseCases(s + t);
    hide Parse, Need, ValidHeader, FrameAt;
    assert [] + Parse(s + t).0 == Parse(s + t).0;
    if |s| >= HEADER {
      HeaderPrefix(s, t);
      if !ValidHeader(s) {
        assert (s + t)[1..] == s[1..] + t;
        ParseSplit(s[1..], t);
      } else if |s| >= HEADER + Need(s) {
        FramePrefix(s, t);
        var n := HEADER + Need(s);
        ParseSplit(s[n..], t);
        var (frames, rest) := Parse(s[n..]);
        assert [FrameAt(s)] + (frames + Parse(rest + t).0) == ([FrameAt(s)] + frames) + Parse(rest + t).0;
      }
    }
  }

  /** What a decoder delivers chunk by chunk, and what it keeps. */
  function Feeds(kept: seq<byte>, chunks: seq<seq<byte>>): (seq<Frame>, seq<byte>)
    decreases chunks
  {
    if chunks == [] then ([], kept)
    else
      var (frames, rest) := Parse(kept + chunks[0]);
      var (more, last) := Feeds(rest, chunks[1..]);
      (frames + more, last)
  }

  /** Chunking does not matter: any way of cutting a stream gives the parse of the whole. */
  lemma {:induction false} StreamingIsBatch(kept: seq<byte>, chunks: seq<seq<byte>>)
    requires Residual(kept)
    ensures Feeds(kept, chunks) == Parse(kept + Concat(chunks))
    decreases chunks
  {
    if chunks == [] {
      assert kept + [] == kept;
    } else {
      var (frames, rest) := Parse(kept + chunks[0]);
      ParseLeavesResidual(kept + chunks[0]);
      StreamingIsBatch(rest, chunks[1..]);
      ParseSplit(kept + chunks[0], Concat(chunks[1..]));
      assert kept + Concat(chunks) == kept + chunks[0] + Concat(chunks[1..]);
    }
  }

  // ---------- round trip and resynchronisation ----------

  lemma EncodedHeader(f: Frame, unused: byte, rest: seq<byte>)
    requires |f.payload| <= MAX_PAYLOAD
    ensures var s := Encode(f, unused) + rest;
            ValidHeader(s) && Need(s) == |f.payload| && FrameAt(s) == f && s[HEADER + Need(s)..] == rest
  {
    hide Digit, High, Low, Join, Be32;
    var s := Encode(f, unused) + rest;
    var n := |f.payload|;
    Be32Digits(n);
    JoinHalves(f.flags);
    assert s[..4] == Magic();
    assert s[4] == f.proto && s[5] == High(f.flags) && s[6] == Low(f.flags);
    assert s[7] == Digit(n / 0x100_0000) && s[8] == Digit(n / 0x1_0000) && s[9] == Digit(n / 0x100) && s[10] == Digit(n);
    assert s[HEADER..HEADER + n] == f.payload;
  }

  /** An encoded frame is delivered as it was, whatever the unused byte and whatever follows. */
  lemma RoundTrip(f: Frame, unused: byte, rest: seq<byte>)
    requires |f.payload| <= MAX_PAYLOAD
    ensures Parse(Encode(f, unused) + rest) == ([f] + Parse(rest).0, Parse(rest).1)
  {
    EncodedHeader(f, unused, rest);
  }

  function EncodeAll(frames: seq<Frame>, unused: seq<byte>): (s: seq<byte>)
    requires |unused| == |frames|
    ensures frames != [] ==> |s| >= HEADER
  {
    if frames == [] then [] else Encode(frames[0], unused[0]) + EncodeAll(frames[1..], unused[1..])
  }

  lemma {:induction false} RoundTripAll(frames: seq<Frame>, unused: seq<byte>)
    requires |unused| == |frames| && forall i | 0 <= i < |frames| :: |frames[i].payload| <= MAX_PAYLOAD
    ensures Parse(EncodeAll(frames, unused)) == (frames, [])
  {
    if frames != [] {
      RoundTripAll(frames[1..], unused[1..]);
      RoundTrip(frames[0], unused[0], EncodeAll(frames[1..], unused[1..]));
      assert [frames[0]] + frames[1..] == frames;
    }
  }

  /** No valid header starts inside the noise, even one that ends in what follows it. */
  predicate Harmless(noise: seq<byte>, follow: seq<byte>) {
    forall i | 0 <= i < |noise| && i + HEADER <= |noise + follow| :: !ValidHeader((noise + follow)[i..])
  }

  /** Resynchronisation: after harmless noise exactly the encoded frames are delivered. */
  lemma {:induction false} Resynchronises(noise: seq<byte>, frames: seq<Frame>, unused: seq<byte>)
    requires |unused| == |frames| && forall i | 0 <= i < |frames| :: |frames[i].payload| <= MAX_PAYLOAD
    requires Harmless(noise, EncodeAll(frames, unused))
    ensures Parse(noise + EncodeAll(frames, unused)).0 == frames
    ensures frames != [] ==> Parse(noise + EncodeAll(frames, unused)).1 == []
    decreases |noise|
  {
    var follow := EncodeAll(frames, unused);
    var s := noise + follow;
    if noise == [] {
      assert s == follow;
      RoundTripAll(frames, unused);
    } else if |s| >= HEADER {
      HarmlessRest(noise, follow);
      ParseCases(s);
      hide Parse, Harmless, ValidHeader, Need, EncodeAll, FrameAt;
      Resynchronises(noise[1..], frames, unused);
    }
  }

  lemma HarmlessRest(noise: seq<byte>, follow: seq<byte>)
    requires noise != [] && Harmless(noise, follow) && |noise + follow| >= HEADER
    ensures !ValidHeader(noise + follow) && (noise + follow)[1..] == noise[1..] + follow && Harmless(noise[1..], follow)
  {
    var s := noise + follow;
    assert s[0..] == s;
    assert s[1..] == noise[1..] + follow;
    forall i | 0 <= i < |noise[1..]| && i + HEADER <= |noise[1..] + follow|
      ensures !ValidHeader((noise[1..] + follow)[i..])
    {
      assert (noise[1..] + follow)[i..] == s[i + 1..];
    }
  }

  /** For instance noise without an 'H' is harmless. */
  lemma NoiseWithoutMagic(noise: seq<byte>, follow: seq<byte>)
    requires forall i | 0 <= i < |noise| :: noise[i] != 0x48
    ensures Harmless(noise, follow)
  {
    var s := noise + follow;
    forall i | 0 <= i < |noise| && i + HEADER <= |s| ensures !ValidHeader(s[i..]) {
      assert s[i..][..4][0] == noise[i];
    }
  }
}
