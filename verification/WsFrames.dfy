/**
 WebSocket frame reassembly on values: what the receive loop delivers from a
 buffered stream, and why a bounded buffer is enough for bounded frames.
 The wire format is that of sections 5.2 and 5.3 of RFC 6455.
 */
module WsFrames {
  import opened Bytes

  const MAX_PAYLOAD: nat := 4096
  const BUFFER: nat := 4112
  const CHUNK: nat := 256

  datatype Event = Data(payload: seq<byte>) | Pong

  datatype Outcome = Fine | Io | Unsupported | Invalid

  /** What the first bytes of a frame tell: nothing yet, that it is refused, or how long the whole frame is. */
  datatype Head = Unknown | Refused | Size(header: nat, payload: nat)

  function FrameSize(h: Head): nat
    requires h.Size?
  {
    h.header + h.payload
  }

  function Length7(b: byte): nat {
    (b & 0x7F) as int
  }

  function Length16(high: byte, low: byte): nat {
    Be32(0, 0, high, low)
  }

  predicate TopBit(b: byte) {
    b & 0x80 != 0
  }

  function Opcode(b: byte): byte {
    b & 0x0F
  }

  /** The header size counts the mask. */
  function Peek(s: seq<byte>): (h: Head)
    ensures h.Size? ==> 6 <= h.header <= 8 && h.payload <= MAX_PAYLOAD
  {
    if |s| < 2 then Unknown
    else if Length7(s[1]) == 127 then Refused
    else if Length7(s[1]) < 126 then Size(6, Length7(s[1]))
    else if |s| < 4 then Unknown
    else if Length16(s[2], s[3]) > MAX_PAYLOAD then Refused
    else Size(8, Length16(s[2], s[3]))
  }

  predicate Complete(s: seq<byte>) {
    Peek(s).Size? && |s| >= FrameSize(Peek(s))
  }

  function Masked(b: byte, m: byte): byte {
    b ^ m
  }

  function Mask(s: seq<byte>, mask: seq<byte>): (r: seq<byte>)
    requires |mask| == 4
    ensures |r| == |s|
  {
    seq(|s|, i requires 0 <= i < |s| => Masked(s[i], mask[i % 4]))
  }

  function Delivery(opcode: byte, payload: seq<byte>): seq<Event> {
    if (opcode == 1 || opcode == 2) && payload != [] then [Data(payload)]
    else if opcode == 9 then [Pong]
    else []
  }

  /** One complete frame: what is delivered or answered, and whether the connection goes on. */
  function Handle(s: seq<byte>): (seq<Event>, Outcome)
    requires Complete(s)
  {
    var h := Peek(s);
    if !TopBit(s[0]) then ([], Unsupported)
    else if !TopBit(s[1]) then ([], Io)
    else if Opcode(s[0]) == 8 then ([], Io)
    else (Delivery(Opcode(s[0]), Mask(s[h.header..FrameSize(h)], s[h.header - 4..h.header])), Fine)
  }

  datatype State = State(kept: seq<byte>, events: seq<Event>, outcome: Outcome)

  /** The receive loop over everything buffered. */
  function Run(s: seq<byte>): State
    decreases |s|
  {
    if Peek(s).Refused? then State(s, [], Unsupported)
    else if !Complete(s) then State(s, [], Fine)
    else
      var (events, outcome) := Handle(s);
      if outcome != Fine then State(s, events, outcome)
      else
        var more := Run(s[FrameSize(Peek(s))..]);
        more.(events := events + more.events)
  }

  /** The cases of one pass through the loop. */
  lemma RunCases(s: seq<byte>)
    ensures Peek(s).Refused? ==> Run(s) == State(s, [], Unsupported)
    ensures !Peek(s).Refused? && !Complete(s) ==> Run(s) == State(s, [], Fine)
    ensures Complete(s) && Handle(s).1 != Fine ==> Run(s) == State(s, [], Handle(s).1)
    ensures Complete(s) && Handle(s).1 == Fine ==>
              var more := Run(s[FrameSize(Peek(s))..]);
              Run(s) == more.(events := Handle(s).0 + more.events)
  {
    hide Peek, Mask, TopBit, Opcode;
  }

  /** One read: an empty one is a closed connection. */
  function Read(kept: seq<byte>, chunk: seq<byte>): State {
    if chunk == [] then State(kept, [], Io)
    else if |kept| + |chunk| > BUFFER then State([], [], Io)
    else Run(kept + chunk)
  }

  /** Reads until the stream ends or the connection fails. */
  function Reads(kept: seq<byte>, chunks: seq<seq<byte>>): State
    decreases chunks
  {
    if chunks == [] then State(kept, [], Fine)
    else
      var first := Read(kept, chunks[0]);
      if first.outcome != Fine then first
      else
        var more := Reads(first.kept, chunks[1..]);
        more.(events := first.events + more.events)
  }

  // ---------- reading in chunks ----------

  lemma PeekAgain(s: seq<byte>, t: seq<byte>)
    ensures !Peek(s).Unknown? ==> Peek(s + t) == Peek(s)
    ensures Complete(s) ==> Complete(s + t) && Handle(s + t) == Handle(s) && (s + t)[FrameSize(Peek(s))..] == s[FrameSize(Peek(s))..] + t
  {
    hide Length7, Length16, TopBit, Opcode, Mask;
    if Complete(s) {
      var h := Peek(s);
      assert (s + t)[h.header..FrameSize(h)] == s[h.header..FrameSize(h)];
      assert (s + t)[h.header - 4..h.header] == s[h.header - 4..h.header];
    }
  }

  /** The loop can stop when it runs out of bytes and go on from what it kept; once failed it stays failed. */
  lemma {:induction false} RunSplit(s: seq<byte>, t: seq<byte>)
    ensures var a := Run(s);
            if a.outcome == Fine then Run(s + t) == (var b := Run(a.kept + t); b.(events := a.events + b.events))
            else Run(s + t).events == a.events && Run(s + t).outcome == a.outcome
    decreases |s|
  {
    hide Peek, Handle;
    PeekAgain(s, t);
    if Complete(s) && Handle(s).1 == Fine {
      var n := FrameSize(Peek(s));
      RunSplit(s[n..], t);
      var a := Run(s[n..]);
      var b := Run(a.kept + t);
      assert Handle(s).0 + (a.events + b.events) == (Handle(s).0 + a.events) + b.events;
    } else if !Peek(s).Refused? && !Complete(s) {
      assert [] + Run(s + t).events == Run(s + t).events;
    }
  }

  /**
   Every frame that starts in the stream, as far as the loop gets, announces at
   most `limit` bytes or has the whole rest of the stream fit into the buffer.
   */
  ghost predicate Bounded(s: seq<byte>, limit: nat)
    decreases |s|
  {
    && (Peek(s).Size? ==> FrameSize(Peek(s)) <= limit || |s| <= BUFFER)
    && (Complete(s) && Handle(s).1 == Fine ==> Bounded(s[FrameSize(Peek(s))..], limit))
  }

  lemma {:induction false} BoundedPrefix(s: seq<byte>, t: seq<byte>, limit: nat)
    requires Bounded(s + t, limit)
    ensures Bounded(s, limit)
    decreases |s|
  {
    hide Peek, Handle;
    PeekAgain(s, t);
    if Complete(s) && Handle(s).1 == Fine {
      BoundedPrefix(s[FrameSize(Peek(s))..], t, limit);
    }
  }

  lemma {:induction false} BoundedRest(s: seq<byte>, t: seq<byte>, limit: nat)
    requires Bounded(s + t, limit) && Run(s).outcome == Fine
    ensures Bounded(Run(s).kept + t, limit)
    decreases |s|
  {
    hide Peek, Handle;
    PeekAgain(s, t);
    if Complete(s) {
      BoundedRest(s[FrameSize(Peek(s))..], t, limit);
    }
  }

  /** What is kept is an unfinished frame. */
  lemma {:induction false} KeptIsUnfinished(s: seq<byte>)
    requires Run(s).outcome == Fine
    ensures Run(Run(s).kept) == State(Run(s).kept, [], Fine)
    decreases |s|
  {
    hide Handle;
    if Complete(s) {
      KeptIsUnfinished(s[FrameSize(Peek(s))..]);
    }
  }

  lemma {:induction false} KeptIsPart(s: seq<byte>)
    ensures |Run(s).kept| <= |s|
    ensures Complete(s) && Run(s).outcome == Fine ==> |Run(s).kept| < |s|
    decreases |s|
  {
    hide Handle;
    if Complete(s) && Handle(s).1 == Fine {
      KeptIsPart(s[FrameSize(Peek(s))..]);
    }
  }

  /** One more chunk fits behind an unfinished frame. */
  lemma ChunkFits(kept: seq<byte>, chunk: seq<byte>, most: nat)
    requires Run(kept) == State(kept, [], Fine) && |chunk| <= most <= CHUNK
    requires Bounded(kept + chunk, BUFFER + 1 - most)
    ensures |kept| + |chunk| <= BUFFER
  {
    hide Handle;
    KeptIsPart(kept);
    PeekAgain(kept, chunk);
  }

  predicate Chunks(chunks: seq<seq<byte>>, most: nat) {
    forall i | 0 <= i < |chunks| :: 1 <= |chunks[i]| <= most
  }

  /** Any chunking of a bounded stream delivers what the loop would from the whole stream; the buffer never overflows. */
  lemma {:induction false} ReassemblyFrom(kept: seq<byte>, chunks: seq<seq<byte>>, most: nat)
    requires Chunks(chunks, most) && most <= CHUNK
    requires Run(kept) == State(kept, [], Fine) && Bounded(kept + Concat(chunks), BUFFER + 1 - most)
    ensures var r := Reads(kept, chunks); var w := Run(kept + Concat(chunks));
            r.events == w.events && r.outcome == w.outcome && (r.outcome == Fine ==> r.kept == w.kept)
    decreases chunks
  {
    hide Peek, Handle, Run, Bounded;
    if chunks == [] {
      assert kept + Concat(chunks) == kept;
    } else {
      var limit := BUFFER + 1 - most;
      var s, t := kept + chunks[0], Concat(chunks[1..]);
      assert kept + Concat(chunks) == s + t;
      BoundedPrefix(s, t, limit);
      ChunkFits(kept, chunks[0], most);
      RunSplit(s, t);
      if Run(s).outcome == Fine {
        BoundedRest(s, t, limit);
        KeptIsUnfinished(s);
        assert Chunks(chunks[1..], most);
        ReassemblyFrom(Run(s).kept, chunks[1..], most);
      }
    }
  }

  // ---------- frames as a client sends them ----------

  /** The first byte holds FIN, reserved bits and opcode; `extended` asks for the 16-bit length form. */
  datatype Frame = Frame(first: byte, extended: bool, mask: seq<byte>, payload: seq<byte>)

  /** Masked and of a length this side supports. */
  predicate Masks(f: Frame) {
    |f.mask| == 4 && |f.payload| <= MAX_PAYLOAD && (!f.extended ==> |f.payload| < 126)
  }

  /** What the first byte alone decides. */
  function Verdict(first: byte): Outcome {
    if !TopBit(first) then Unsupported else if Opcode(first) == 8 then Io else Fine
  }

  /** A final frame that does not close the connection. */
  predicate Legal(f: Frame) {
    Masks(f) && Verdict(f.first) == Fine
  }

  function Length(f: Frame): (n: nat) {
    (if f.extended then 8 else 6) + |f.payload|
  }

  function Marked(n: nat): byte
    requires n < 128
  {
    0x80 | (n as bv8)
  }

  function LengthField(extended: bool, n: nat): (s: seq<byte>)
    requires n <= MAX_PAYLOAD && (!extended ==> n < 126)
    ensures |s| == if extended then 3 else 1
  {
    if extended then [0xFE, Digit(n / 0x100), Digit(n)] else [Marked(n)]
  }

  function Encode(f: Frame): (s: seq<byte>)
    requires Masks(f)
    ensures |s| == Length(f)
  {
    [f.first] + LengthField(f.extended, |f.payload|) + f.mask + Mask(f.payload, f.mask)
  }

  predicate AllLegal(frames: seq<Frame>) {
    forall i | 0 <= i < |frames| :: Legal(frames[i])
  }

  function EncodeAll(frames: seq<Frame>): seq<byte>
    requires AllLegal(frames)
  {
    if frames == [] then [] else Encode(frames[0]) + EncodeAll(frames[1..])
  }

  /** The non-empty text and binary payloads and one pong a ping, in order. */
  function Deliveries(frames: seq<Frame>): seq<Event> {
    if frames == [] then [] else Delivery(Opcode(frames[0].first), frames[0].payload) + Deliveries(frames[1..])
  }

  lemma MarkedByte(b: byte)
    requires b as int < 128
    ensures TopBit(0x80 | b) && (0x80 | b) & 0x7F == b
  {
    assert b & 0x80 == 0;
  }

  lemma MarkedLength(n: nat)
    requires n < 128
    ensures TopBit(Marked(n)) && Length7(Marked(n)) == n
  {
    AsByte(n);
    hide TopBit;
    MarkedByte(n as byte);
  }

  lemma Extended()
    ensures TopBit(0xFE) && Length7(0xFE) == 126
  {
  }

  lemma MaskedTwice(b: byte, m: byte)
    ensures Masked(Masked(b, m), m) == b
  {
  }

  /** Masking is its own inverse. */
  lemma MaskTwice(s: seq<byte>, mask: seq<byte>)
    requires |mask| == 4
    ensures Mask(Mask(s, mask), mask) == s
  {
    hide Masked;
    forall i | 0 <= i < |s| ensures Mask(Mask(s, mask), mask)[i] == s[i] {
      MaskedTwice(s[i], mask[i % 4]);
    }
  }

  lemma LengthRead(n: nat)
    requires n < 0x1_0000
    ensures Length16(Digit(n / 0x100), Digit(n)) == n
  {
    assert n / 0x100_0000 == 0 && n / 0x1_0000 == 0 && Digit(0) == 0;
    hide Digit, Be32;
    Be32Digits(n);
  }

  /** The length of a frame can be read from its front, whatever follows. */
  lemma EncodedHead(f: Frame, rest: seq<byte>)
    requires Masks(f)
    ensures var s := Encode(f) + rest;
            Peek(s) == Size(Length(f) - |f.payload|, |f.payload|) && s[0] == f.first && TopBit(s[1])
  {
    hide TopBit, Length7, Length16, Opcode, Marked, Digit, Mask;
    var n := |f.payload|;
    var s := Encode(f) + rest;
    Extended();
    if f.extended {
      LengthRead(n);
      assert s[1] == 0xFE && s[2] == Digit(n / 0x100) && s[3] == Digit(n);
    } else {
      MarkedLength(n);
      assert s[1] == Marked(n);
    }
  }

  lemma EncodedFrame(f: Frame, rest: seq<byte>)
    requires Masks(f)
    ensures var s := Encode(f) + rest;
            Complete(s) && FrameSize(Peek(s)) == Length(f) && s[Length(f)..] == rest
            && Handle(s) == (if Legal(f) then Delivery(Opcode(f.first), f.payload) else [], Verdict(f.first))
  {
    hide TopBit, Opcode, LengthField, Mask, Peek;
    EncodedHead(f, rest);
    MaskTwice(f.payload, f.mask);
    var s := Encode(f) + rest;
    var h := Length(f) - |f.payload|;
    assert s[h - 4..h] == f.mask;
    assert s[h..h + |f.payload|] == Mask(f.payload, f.mask);
  }

  lemma RunOne(f: Frame, more: seq<byte>)
    requires Legal(f)
    ensures Run(Encode(f) + more) == (var b := Run(more); b.(events := Delivery(Opcode(f.first), f.payload) + b.events))
  {
    EncodedFrame(f, more);
    hide Peek, Handle, Encode, Delivery, Complete;
  }

  /** The loop over whole frames delivers them all and then goes on with what follows. */
  lemma {:induction false} RunEncoded(frames: seq<Frame>, rest: seq<byte>)
    requires AllLegal(frames)
    ensures Run(EncodeAll(frames) + rest) == (var b := Run(rest); b.(events := Deliveries(frames) + b.events))
  {
    hide Run, Peek, Handle, Encode, Delivery, Masks, Verdict;
    if frames == [] {
      assert [] + rest == rest && [] + Run(rest).events == Run(rest).events;
    } else {
      var more := EncodeAll(frames[1..]) + rest;
      RunOne(frames[0], more);
      RunEncoded(frames[1..], rest);
      assert EncodeAll(frames) + rest == Encode(frames[0]) + more;
      var first := Delivery(Opcode(frames[0].first), frames[0].payload);
      assert first + (Deliveries(frames[1..]) + Run(rest).events) == first + Deliveries(frames[1..]) + Run(rest).events;
    }
  }

  /** Each frame is short, or everything from it on fits into the buffer. */
  predicate Roomy(frames: seq<Frame>, limit: nat)
    requires AllLegal(frames)
  {
    forall i | 0 <= i < |frames| :: Length(frames[i]) <= limit || |EncodeAll(frames[i..])| <= BUFFER
  }

  /** A fragment or a close frame ends the connection: what came before is delivered, what follows is not. */
  lemma EndsAt(frames: seq<Frame>, f: Frame, rest: seq<byte>)
    requires AllLegal(frames) && Masks(f) && !Legal(f)
    ensures var r := Run(EncodeAll(frames) + (Encode(f) + rest));
            r.events == Deliveries(frames) && r.outcome == (if TopBit(f.first) then Io else Unsupported)
  {
    hide Handle, Encode, Delivery;
    RunEncoded(frames, Encode(f) + rest);
    EncodedFrame(f, rest);
    assert Deliveries(frames) + [] == Deliveries(frames);
  }

  lemma {:induction false} BoundedEncoded(frames: seq<Frame>, limit: nat)
    requires AllLegal(frames) && Roomy(frames, limit)
    ensures Bounded(EncodeAll(frames), limit)
  {
    hide Handle, Encode, Delivery, Masks, Verdict;
    if frames != [] {
      EncodedFrame(frames[0], EncodeAll(frames[1..]));
      forall i | 0 <= i < |frames[1..]| ensures Length(frames[1..][i]) <= limit || |EncodeAll(frames[1..][i..])| <= BUFFER {
        assert frames[1..][i..] == frames[i + 1..];
      }
      BoundedEncoded(frames[1..], limit);
      assert frames[0..] == frames;
    }
  }

  /**
   Reassembly of client frames, read in any chunks of 1 to 256 bytes: at every
   moment the connection is alive and has delivered a prefix of what was sent,
   and when all has arrived it has delivered exactly that and keeps nothing.
   Payloads of up to 3849 bytes always qualify.
   */
  lemma Reassembly(frames: seq<Frame>, chunks: seq<seq<byte>>, rest: seq<byte>)
    requires AllLegal(frames) && Roomy(frames, BUFFER + 1 - CHUNK)
    requires Chunks(chunks, CHUNK) && Concat(chunks) + rest == EncodeAll(frames)
    ensures Reads([], chunks).outcome == Fine
    ensures Reads([], chunks).events <= Deliveries(frames)
    ensures rest == [] ==> Reads([], chunks) == State([], Deliveries(frames), Fine)
  {
    hide Run, Bounded, Encode, Peek, Handle, Masks, Verdict, Delivery, Reads, Roomy;
    var s := Concat(chunks);
    BoundedEncoded(frames, BUFFER + 1 - CHUNK);
    BoundedPrefix(s, rest, BUFFER + 1 - CHUNK);
    RunNothing();
    assert [] + s == s;
    ReassemblyFrom([], chunks, CHUNK);
    RunEncoded(frames, []);
    assert EncodeAll(frames) + [] == EncodeAll(frames);
    assert Deliveries(frames) + [] == Deliveries(frames);
    RunSplit(s, rest);
    assert rest == [] ==> s == EncodeAll(frames);
  }

  /** The same in terms of payloads. */
  lemma ModeratePayloads(frames: seq<Frame>, chunks: seq<seq<byte>>)
    requires AllLegal(frames) && forall i | 0 <= i < |frames| :: |frames[i].payload| <= 3849
    requires Chunks(chunks, CHUNK) && Concat(chunks) == EncodeAll(frames)
    ensures Reads([], chunks) == State([], Deliveries(frames), Fine)
  {
    hide Run, Bounded, Encode, Reads, Deliveries, Chunks;
    assert Concat(chunks) + [] == Concat(chunks);
    Reassembly(frames, chunks, []);
  }

  lemma RunNothing()
    ensures Run([]) == State([], [], Fine)
  {
  }

  // ---------- the bound is exact ----------

  function Singles(s: seq<byte>): (chunks: seq<seq<byte>>)
    ensures Chunks(chunks, 1) && |chunks| == |s|
    ensures forall i | 0 <= i < |s| :: chunks[i] == [s[i]]
  {
    seq(|s|, i requires 0 <= i < |s| => [s[i]])
  }

  lemma {:induction false} SinglesConcat(s: seq<byte>)
    ensures Concat(Singles(s)) == s
  {
    if s != [] {
      assert Singles(s)[1..] == Singles(s[1..]);
      SinglesConcat(s[1..]);
    }
  }

  lemma {:induction false} ReadsConcat(kept: seq<byte>, a: seq<seq<byte>>, b: seq<seq<byte>>)
    requires Reads(kept, a).outcome == Fine
    ensures Reads(kept, a + b) ==
            (var x := Reads(kept, a); var y := Reads(x.kept, b); y.(events := x.events + y.events))
    decreases a
  {
    hide Read;
    if a == [] {
      assert a + b == b && [] + Reads(kept, b).events == Reads(kept, b).events;
    } else {
      assert (a + b)[1..] == a[1..] + b;
      var first := Read(kept, a[0]);
      ReadsConcat(first.kept, a[1..], b);
      var x := Reads(first.kept, a[1..]);
      var y := Reads(x.kept, b);
      assert first.events + (x.events + y.events) == (first.events + x.events) + y.events;
    }
  }

  /** The front of a frame, short of its last byte, stays in the buffer. */
  lemma FrontKept(f: Frame)
    requires Masks(f)
    ensures var k := Encode(f)[..Length(f) - 1]; Run(k) == State(k, [], Fine)
  {
    hide Encode, Handle, Length7, Masks, Verdict;
    var s := Encode(f);
    var k := s[..Length(f) - 1];
    EncodedHead(f, []);
    assert s + [] == s && k + s[Length(f) - 1..] == s;
    PeekAgain(k, s[Length(f) - 1..]);
  }

  lemma {:induction false} AlwaysRoomy(frames: seq<Frame>)
    requires AllLegal(frames)
    ensures Roomy(frames, BUFFER)
  {
  }

  /** Byte by byte up to the last byte of a frame everything before it is delivered, and its front is kept. */
  lemma UpToLastByte(frames: seq<Frame>, f: Frame)
    requires AllLegal(frames) && Legal(f)
    ensures var front := Encode(f)[..Length(f) - 1];
            Reads([], Singles(EncodeAll(frames) + front)) == State(front, Deliveries(frames), Fine)
  {
    hide Bounded, Encode, Run, Handle, Delivery, Reads, Masks, Verdict, EncodeAll, Roomy;
    var front := Encode(f)[..Length(f) - 1];
    var s := EncodeAll(frames) + front;
    EncodeLast(frames, f);
    AlwaysRoomy(frames + [f]);
    BoundedEncoded(frames + [f], BUFFER);
    assert s + Encode(f)[Length(f) - 1..] == EncodeAll(frames + [f]);
    BoundedPrefix(s, Encode(f)[Length(f) - 1..], BUFFER);
    RunNothing();
    SinglesConcat(s);
    assert [] + s == s;
    ReassemblyFrom([], Singles(s), 1);
    RunEncoded(frames, front);
    FrontKept(f);
    assert Deliveries(frames) + [] == Deliveries(frames);
  }

  lemma {:induction false} EncodeLast(frames: seq<Frame>, f: Frame)
    requires AllLegal(frames) && Legal(f)
    ensures AllLegal(frames + [f]) && EncodeAll(frames + [f]) == EncodeAll(frames) + Encode(f)
  {
    hide Encode, Masks, Verdict;
    if frames == [] {
      assert [f][1..] == [] && Encode(f) + [] == Encode(f) && frames + [f] == [f];
    } else {
      assert (frames + [f])[1..] == frames[1..] + [f];
      EncodeLast(frames[1..], f);
    }
  }

  lemma {:induction false} EncodeSplit(frames: seq<Frame>, i: nat)
    requires AllLegal(frames) && i <= |frames|
    ensures EncodeAll(frames) == EncodeAll(frames[..i]) + EncodeAll(frames[i..])
  {
    hide Encode, Masks, Verdict;
    if i == 0 {
      assert frames[0..] == frames;
    } else {
      EncodeSplit(frames[1..], i - 1);
      assert frames[..i][1..] == frames[1..][..i - 1] && frames[1..][i - 1..] == frames[i..];
    }
  }

  /** A frame that is neither short nor close enough to the end fails for some chunking. */
  lemma CrampedOverflows(frames: seq<Frame>, i: nat) returns (chunks: seq<seq<byte>>)
    requires AllLegal(frames) && i < |frames|
    requires Length(frames[i]) > BUFFER + 1 - CHUNK && |EncodeAll(frames[i..])| > BUFFER
    ensures Chunks(chunks, CHUNK) && Concat(chunks) == EncodeAll(frames)
    ensures Reads([], chunks) == State([], Deliveries(frames[..i]), Io)
  {
    hide Bounded, Encode, Run, Handle, Delivery, EncodeAll, AllLegal, Roomy;
    var before, f := frames[..i], frames[i];
    var n := Length(f) - 1;
    Located(frames, i);
    var tail := EncodeAll(frames[i..]);
    var s := EncodeAll(before) + Encode(f)[..n];
    UpToLastByte(before, f);
    var last := [tail[n..BUFFER + 1]] + Singles(tail[BUFFER + 1..]);
    chunks := Singles(s) + last;
    SinglesConcat(s);
    SinglesConcat(tail[BUFFER + 1..]);
    assert last[1..] == Singles(tail[BUFFER + 1..]);
    ConcatConcat(Singles(s), last);
    CutTail(EncodeAll(before), Encode(f), tail, n, BUFFER + 1);
    ReadsConcat([], Singles(s), last);
    Overflow(Encode(f)[..n], last);
    assert Deliveries(before) + [] == Deliveries(before);
  }

  lemma CutTail(a: seq<byte>, front: seq<byte>, tail: seq<byte>, n: nat, m: nat)
    requires front <= tail && n <= |front| && n <= m <= |tail|
    ensures a + tail == (a + front[..n]) + (tail[n..m] + tail[m..])
  {
    assert tail == front[..n] + (tail[n..m] + tail[m..]);
  }

  lemma Located(frames: seq<Frame>, i: nat)
    requires AllLegal(frames) && i < |frames|
    ensures AllLegal(frames[..i]) && AllLegal(frames[i..]) && Legal(frames[i])
    ensures EncodeAll(frames) == EncodeAll(frames[..i]) + EncodeAll(frames[i..])
    ensures Encode(frames[i]) <= EncodeAll(frames[i..])
  {
    hide Encode, Masks, Verdict;
    EncodeSplit(frames, i);
  }

  lemma Overflow(kept: seq<byte>, chunks: seq<seq<byte>>)
    requires chunks != [] && chunks[0] != [] && |kept| + |chunks[0]| > BUFFER
    ensures Reads(kept, chunks) == State([], [], Io)
  {
  }

  /** A stream of client frames is safe when no chunking of it makes the connection fail. */
  ghost predicate Safe(s: seq<byte>) {
    forall chunks | Chunks(chunks, CHUNK) && Concat(chunks) == s :: Reads([], chunks).outcome == Fine
  }

  /** The bound is exact: 3857 bytes a frame, or the whole rest of the stream within the buffer. */
  lemma SafeExactly(frames: seq<Frame>)
    requires AllLegal(frames)
    ensures Safe(EncodeAll(frames)) <==> Roomy(frames, 3857)
  {
    hide Encode, Run, Reads, Masks, Verdict, Delivery, Chunks, EncodeAll;
    if Roomy(frames, 3857) {
      forall chunks | Chunks(chunks, CHUNK) && Concat(chunks) == EncodeAll(frames) ensures Reads([], chunks).outcome == Fine {
        assert Concat(chunks) + [] == Concat(chunks);
        Reassembly(frames, chunks, []);
      }
    } else {
      var i :| 0 <= i < |frames| && Length(frames[i]) > 3857 && |EncodeAll(frames[i..])| > BUFFER;
      var chunks := CrampedOverflows(frames, i);
    }
  }
}
