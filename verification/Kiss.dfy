/** KISS framing: FEND-delimited frames with two escape sequences. */
module Kiss {
  import opened Bytes

  const FEND: byte := 0xC0
  const FESC: byte := 0xDB
  const TFEND: byte := 0xDC
  const TFESC: byte := 0xDD
  const MAX_FRAME: nat := 2048

  datatype Frame = Frame(port: byte, payload: seq<byte>)

  /** `buf` holds the command byte and the payload so far. */
  datatype Decoder = Decoder(buf: seq<byte>, inFrame: bool, escape: bool)

  const INIT := Decoder([], false, false)
  const READY := Decoder([], true, false)

  function PortOf(b: byte): byte {
    (b >> 4) & 0x0F
  }

  /** What a FEND delivers. */
  function Flush(d: Decoder): seq<Frame> {
    if d.inFrame && d.buf != [] then [Frame(PortOf(d.buf[0]), d.buf[1..])] else []
  }

  function Unescaped(b: byte): byte {
    if b == TFEND then FEND else if b == TFESC then FESC else b
  }

  function Store(d: Decoder, b: byte): Decoder {
    if |d.buf| >= MAX_FRAME then Decoder([], false, false) else Decoder(d.buf + [b], d.inFrame, false)
  }

  function FeedByte(d: Decoder, b: byte): (Decoder, seq<Frame>) {
    if b == FEND then (READY, Flush(d))
    else if !d.inFrame then (d, [])
    else if d.escape then (Store(d, Unescaped(b)), [])
    else if b == FESC then (d.(escape := true), [])
    else (Store(d, b), [])
  }

  function Feed(d: Decoder, data: seq<byte>): (Decoder, seq<Frame>)
    decreases data
  {
    if data == [] then (d, []) else
    var (d1, out1) := FeedByte(d, data[0]);
    var (d2, out2) := Feed(d1, data[1..]);
    (d2, out1 + out2)
  }

  function Escape(b: byte): seq<byte> {
    if b == FEND then [FESC, TFEND] else if b == FESC then [FESC, TFESC] else [b]
  }

  function EscapeAll(s: seq<byte>): seq<byte> {
    if s == [] then [] else EscapeAll(s[..|s| - 1]) + Escape(s[|s| - 1])
  }

  function CommandByte(port: byte, cmd: byte): byte {
    ((port & 0x0F) << 4) | (cmd & 0x0F)
  }

  function Encoded(port: byte, cmd: byte, payload: seq<byte>): seq<byte> {
    [FEND] + EscapeAll([CommandByte(port, cmd)] + payload) + [FEND]
  }

  // ---------- transparency ----------

  lemma {:induction false} EscapedNoFend(s: seq<byte>)
    ensures FEND !in EscapeAll(s) && |s| <= |EscapeAll(s)| <= 2 * |s|
  {
    if s != [] {
      EscapedNoFend(s[..|s| - 1]);
    }
  }

  /** A frame delimiter appears at the two ends of an encoded frame and nowhere else. */
  lemma FendOnlyAtEnds(port: byte, cmd: byte, payload: seq<byte>)
    ensures var e := Encoded(port, cmd, payload);
            |e| >= 3 && forall i | 0 <= i < |e| :: e[i] == FEND <==> i == 0 || i == |e| - 1
  {
    var body := EscapeAll([CommandByte(port, cmd)] + payload);
    EscapedNoFend([CommandByte(port, cmd)] + payload);
    var e := Encoded(port, cmd, payload);
    forall i | 0 < i < |e| - 1 ensures e[i] != FEND {
      assert e[i] == body[i - 1] && body[i - 1] in body;
    }
  }

  // ---------- streaming ----------

  lemma {:induction false} FeedConcat(d: Decoder, s: seq<byte>, t: seq<byte>)
    ensures var (d1, out1) := Feed(d, s); var (d2, out2) := Feed(d1, t); Feed(d, s + t) == (d2, out1 + out2)
    decreases s
  {
    hide FeedByte;
    if s == [] {
      assert s + t == t;
      assert [] + Feed(d, t).1 == Feed(d, t).1;
    } else {
      assert (s + t)[1..] == s[1..] + t;
      var (d0, out0) := FeedByte(d, s[0]);
      FeedConcat(d0, s[1..], t);
      var (d1, out1) := Feed(d0, s[1..]);
      var (d2, out2) := Feed(d1, t);
      assert out0 + (out1 + out2) == (out0 + out1) + out2;
    }
  }

  function FeedChunks(d: Decoder, chunks: seq<seq<byte>>): (Decoder, seq<Frame>)
    decreases chunks
  {
    if chunks == [] then (d, []) else
    var (d1, out1) := Feed(d, chunks[0]);
    var (d2, out2) := FeedChunks(d1, chunks[1..]);
    (d2, out1 + out2)
  }

  lemma {:induction false} ChunksDoNotMatter(d: Decoder, chunks: seq<seq<byte>>)
    ensures FeedChunks(d, chunks) == Feed(d, Concat(chunks))
    decreases chunks
  {
    if chunks != [] {
      FeedConcat(d, chunks[0], Concat(chunks[1..]));
      ChunksDoNotMatter(Feed(d, chunks[0]).0, chunks[1..]);
    }
  }

  // ---------- self-synchronisation ----------

  lemma FeedOne(d: Decoder, b: byte)
    ensures Feed(d, [b]) == FeedByte(d, b)
  {
    assert [b][1..] == [];
    assert FeedByte(d, b).1 + [] == FeedByte(d, b).1;
  }

  lemma FeedEscaped(buf: seq<byte>, b: byte)
    ensures Feed(Decoder(buf, true, false), Escape(b)) ==
            (if |buf| >= MAX_FRAME then INIT else Decoder(buf + [b], true, false), [])
  {
    var d := Decoder(buf, true, false);
    if b == FEND || b == FESC {
      var t := if b == FEND then TFEND else TFESC;
      assert Escape(b) == [FESC] + [t];
      FeedConcat(d, [FESC], [t]);
      FeedOne(d, FESC);
      FeedOne(d.(escape := true), t);
    } else {
      FeedOne(d, b);
    }
  }

  /** Out of a frame everything is ignored until the next delimiter. */
  lemma {:induction false} IgnoredOutside(d: Decoder, s: seq<byte>)
    requires !d.inFrame && FEND !in s
    ensures Feed(d, s) == (d, [])
    decreases s
  {
    if s != [] {
      assert s[0] in s && forall b | b in s[1..] :: b in s;
      IgnoredOutside(d, s[1..]);
      var none: seq<Frame> := [];
      assert none + none == none;
    }
  }

  /** The escaped bytes of a frame arrive as they were, or the frame is given up when there are too many. */
  lemma {:induction false} FeedBody(s: seq<byte>)
    ensures Feed(READY, EscapeAll(s)) == (if |s| <= MAX_FRAME then Decoder(s, true, false) else INIT, [])
  {
    hide Feed;
    if s == [] {
      FeedNone(READY);
    } else {
      var n := |s| - 1;
      FeedBody(s[..n]);
      FeedConcat(READY, EscapeAll(s[..n]), Escape(s[n]));
      assert s[..n] + [s[n]] == s;
      var none: seq<Frame> := [];
      assert none + none == none;
      if n <= MAX_FRAME {
        FeedEscaped(s[..n], s[n]);
      } else {
        EscapedNoFend([s[n]]);
        assert EscapeAll([s[n]]) == EscapeAll([]) + Escape(s[n]) by {
          assert [s[n]][..0] == [];
        }
        assert EscapeAll([]) + Escape(s[n]) == Escape(s[n]);
        IgnoredOutside(INIT, Escape(s[n]));
      }
    }
  }

  lemma FeedNone(d: Decoder)
    ensures Feed(d, []) == (d, [])
  {
  }

  lemma PortSurvives(port: byte, cmd: byte)
    ensures PortOf(CommandByte(port, cmd)) == port & 0x0F
  {
  }

  /**
   Self-synchronisation: from any state, that is after any garbage, an encoded
   frame delivers what one FEND would, then exactly its port (mod 16) and
   payload, provided the payload has at most 2047 bytes; otherwise nothing
   more.  The decoder is then ready for the next frame.
   */
  lemma SelfSynchronising(d: Decoder, port: byte, cmd: byte, payload: seq<byte>)
    ensures Feed(d, Encoded(port, cmd, payload)) ==
            (READY, Feed(d, [FEND]).1 + (if |payload| < MAX_FRAME then [Frame(port & 0x0F, payload)] else []))
  {
    var s := [CommandByte(port, cmd)] + payload;
    var body := EscapeAll(s);
    FeedConcat(d, [FEND], body + [FEND]);
    FeedConcat(READY, body, [FEND]);
    FeedOne(d, FEND);
    FeedBody(s);
    PortSurvives(port, cmd);
    var d2 := if |s| <= MAX_FRAME then Decoder(s, true, false) else INIT;
    FeedOne(d2, FEND);
    assert [FEND] + (body + [FEND]) == Encoded(port, cmd, payload);
    hide Feed, EscapeAll, PortOf, CommandByte;
    assert s[1..] == payload;
    assert [] + Flush(d2) == Flush(d2);
  }

  datatype Sent = Sent(port: byte, cmd: byte, payload: seq<byte>)

  function EncodedAll(sent: seq<Sent>): seq<byte> {
    if sent == [] then [] else EncodedAll(sent[..|sent| - 1]) + Encoded(sent[|sent| - 1].port, sent[|sent| - 1].cmd, sent[|sent| - 1].payload)
  }

  function FramesOf(sent: seq<Sent>): (frames: seq<Frame>)
    ensures |frames| == |sent|
  {
    seq(|sent|, i requires 0 <= i < |sent| => Frame(sent[i].port & 0x0F, sent[i].payload))
  }

  /** So any garbage, in any chunks, followed by encoded frames delivers the garbage's flush and then those frames. */
  lemma {:induction false} FramesAfterGarbage(garbage: seq<byte>, sent: seq<Sent>, chunks: seq<seq<byte>>)
    requires sent != [] && forall i | 0 <= i < |sent| :: |sent[i].payload| < MAX_FRAME
    requires Concat(chunks) == garbage + EncodedAll(sent)
    ensures FeedChunks(INIT, chunks) == (READY, Feed(INIT, garbage + [FEND]).1 + FramesOf(sent))
  {
    ChunksDoNotMatter(INIT, chunks);
    var d := Feed(INIT, garbage).0;
    FeedConcat(INIT, garbage, EncodedAll(sent));
    FeedConcat(INIT, garbage, [FEND]);
    FramesFrom(d, sent);
    var g := Feed(INIT, garbage).1;
    assert g + (Feed(d, [FEND]).1 + FramesOf(sent)) == g + Feed(d, [FEND]).1 + FramesOf(sent);
  }

  lemma {:induction false} FramesFrom(d: Decoder, sent: seq<Sent>)
    requires sent != [] && forall i | 0 <= i < |sent| :: |sent[i].payload| < MAX_FRAME
    ensures Feed(d, EncodedAll(sent)) == (READY, Feed(d, [FEND]).1 + FramesOf(sent))
    decreases |sent|
  {
    hide Feed, Encoded;
    var n := |sent| - 1;
    var last := sent[n];
    var e := Encoded(last.port, last.cmd, last.payload);
    FeedConcat(d, EncodedAll(sent[..n]), e);
    if n == 0 {
      FeedNone(d);
      SelfSynchronising(d, last.port, last.cmd, last.payload);
      assert [] + (Feed(d, [FEND]).1 + [Frame(last.port & 0x0F, last.payload)]) == Feed(d, [FEND]).1 + FramesOf(sent);
    } else {
      FramesFrom(d, sent[..n]);
      SelfSynchronising(READY, last.port, last.cmd, last.payload);
      FeedOne(READY, FEND);
      assert Feed(READY, [FEND]).1 == [];
      var first := Feed(d, [FEND]).1;
      var frame := [Frame(last.port & 0x0F, last.payload)];
      assert FramesOf(sent) == FramesOf(sent[..n]) + frame;
      assert (first + FramesOf(sent[..n])) + ([] + frame) == first + FramesOf(sent);
    }
  }
}
