/** What a WebSocket client's frames look like on the wire, and what arrives of them. */
module WsDelivery {
  import opened Bytes
  import opened WsFrames

  // ---------- bytes as numbers ----------

  /** The low four bits. */
  function Nibble(b: byte): nat {
    (b as int) % 16
  }

  predicate Flag(b: byte) {
    b as int >= 128
  }

  lemma LowBits(b: byte)
    ensures (b & 0x0F) as int == (b as int) % 16 && (b & 0x7F) as int == (b as int) % 128
  {
  }

  lemma BitsOf(b: byte)
    ensures TopBit(b) == Flag(b) && Opcode(b) as int == Nibble(b) && Length7(b) == (b as int) % 128
    ensures Opcode(b) == 8 <==> Nibble(b) == 8
    ensures Opcode(b) == 1 || Opcode(b) == 2 <==> Nibble(b) == 1 || Nibble(b) == 2
    ensures Opcode(b) == 9 <==> Nibble(b) == 9
  {
    LowBits(b);
    assert TopBit(b) == (b >= 0x80);
  }

  /** Masking is exclusive or, bit by bit. */
  lemma MaskedIs(b: byte, m: byte)
    ensures Masked(b, m) == (b | m) & !(b & m)
  {
  }

  lemma LegalExactly(f: Frame)
    ensures Legal(f) <==>
            Flag(f.first) && Nibble(f.first) != 8 && |f.mask| == 4 && |f.payload| <= 4096 && (f.extended || |f.payload| < 126)
  {
    BitsOf(f.first);
  }

  /** The wire format: the first byte, the length with the mask flag, in one byte or after 254 in two, the mask, the masked payload. */
  lemma Layout(f: Frame)
    requires Masks(f)
    ensures var e := Encode(f);
            var h := if f.extended then 8 else 6;
            var n := |f.payload|;
            && |e| == h + n && e[0] == f.first
            && (!f.extended ==> e[1] as int == 128 + n)
            && (f.extended ==> e[1] as int == 254 && 256 * (e[2] as int) + e[3] as int == n)
            && (forall i | 0 <= i < 4 :: e[h - 4 + i] == f.mask[i])
            && (forall i | 0 <= i < n :: e[h + i] == Masked(f.payload[i], f.mask[i % 4]))
  {
    hide Marked, Digit, Masked;
    var n := |f.payload|;
    if f.extended {
      TwoDigits(n);
      assert LengthField(true, n) == [0xFE, Digit(n / 256), Digit(n)];
    } else {
      MarkedValue(n);
    }
  }

  lemma TwoDigits(n: nat)
    requires n < 0x1_0000
    ensures 256 * (Digit(n / 256) as int) + Digit(n) as int == n
  {
    hide Digit;
    DigitValue(n / 256);
    DigitValue(n);
    assert n == 256 * (n / 256) + n % 256;
  }

  lemma MarkedValue(n: nat)
    requires n < 128
    ensures Marked(n) as int == 128 + n
  {
    AsByte(n);
    OrTop(n as byte);
  }

  lemma OrTop(b: byte)
    requires b as int < 128
    ensures (0x80 | b) as int == 128 + b as int
  {
    assert b & 0x80 == 0;
    assert 0x80 | b == 0x80 + b;
  }

  // ---------- one frame ----------

  /**
   A legal frame delivers its payload, unmasked, exactly if it is a text or
   binary frame with a payload, and is answered with a pong exactly if it is a ping.
   */
  lemma FrameDelivers(f: Frame, rest: seq<byte>)
    requires Legal(f)
    ensures var s := Encode(f) + rest;
            Complete(s) && Handle(s) ==
              (if (Nibble(f.first) == 1 || Nibble(f.first) == 2) && f.payload != [] then [Data(f.payload)]
               else if Nibble(f.first) == 9 then [Pong]
               else [], Fine)
  {
    EncodedFrame(f, rest);
    BitsOf(f.first);
    hide Encode, Handle, Opcode, Complete;
  }

  /** Anything else of the right format ends the connection: a fragment as unsupported, a close as an error. */
  lemma FrameEnds(f: Frame, rest: seq<byte>)
    requires Masks(f) && !Legal(f)
    ensures var s := Encode(f) + rest;
            Complete(s) && Handle(s) == ([], if !Flag(f.first) then Unsupported else Io)
    ensures Flag(f.first) ==> Nibble(f.first) == 8
  {
    EncodedFrame(f, rest);
    BitsOf(f.first);
    hide Encode, Handle, Complete;
  }

  /** What no such frame can be: lengths beyond 16 bits or 4096, and, once complete, a missing mask. */
  lemma Refusals(s: seq<byte>)
    requires |s| >= 2
    ensures (s[1] as int) % 128 == 127 ==> Run(s) == State(s, [], Unsupported)
    ensures |s| >= 4 && (s[1] as int) % 128 == 126 && 256 * (s[2] as int) + s[3] as int > 4096 ==> Run(s) == State(s, [], Unsupported)
    ensures Complete(s) && Flag(s[0]) && !Flag(s[1]) ==> Run(s) == State(s, [], Io)
  {
    BitsOf(s[0]);
    BitsOf(s[1]);
    RunCases(s);
    hide Run, TopBit, Opcode, Length7, Mask;
  }

  // ---------- whole streams ----------

  /** The payloads that were sent to be delivered. */
  function Wanted(frames: seq<Frame>): seq<seq<byte>> {
    if frames == [] then []
    else
      (if (Nibble(frames[0].first) == 1 || Nibble(frames[0].first) == 2) && frames[0].payload != [] then [frames[0].payload] else [])
      + Wanted(frames[1..])
  }

  function Pings(frames: seq<Frame>): nat {
    if frames == [] then 0 else (if Nibble(frames[0].first) == 9 then 1 else 0) + Pings(frames[1..])
  }

  function Received(events: seq<Event>): seq<seq<byte>> {
    if events == [] then [] else (if events[0].Data? then [events[0].payload] else []) + Received(events[1..])
  }

  function Pongs(events: seq<Event>): nat {
    if events == [] then 0 else (if events[0].Pong? then 1 else 0) + Pongs(events[1..])
  }

  lemma {:induction false} EventsAdd(a: seq<Event>, b: seq<Event>)
    ensures Received(a + b) == Received(a) + Received(b) && Pongs(a + b) == Pongs(a) + Pongs(b)
  {
    NoEvents();
    hide Received, Pongs;
    if a == [] {
      assert a + b == b;
    } else {
      assert a == [a[0]] + a[1..] && a + b == [a[0]] + (a[1..] + b);
      FirstEvent(a[0], a[1..]);
      FirstEvent(a[0], a[1..] + b);
      EventsAdd(a[1..], b);
    }
  }

  lemma FirstEvent(e: Event, more: seq<Event>)
    ensures Received([e] + more) == (if e.Data? then [e.payload] else []) + Received(more)
    ensures Pongs([e] + more) == (if e.Pong? then 1 else 0) + Pongs(more)
  {
    assert ([e] + more)[1..] == more;
  }

  lemma DeliveryIs(first: byte, payload: seq<byte>)
    ensures var d := Delivery(Opcode(first), payload);
            && Received(d) == (if (Nibble(first) == 1 || Nibble(first) == 2) && payload != [] then [payload] else [])
            && Pongs(d) == if Nibble(first) == 9 then 1 else 0
  {
    BitsOf(first);
    assert [Data(payload)][1..] == [] && [Pong][1..] == [];
    assert [payload] + [] == [payload];
    hide Opcode;
  }

  lemma {:induction false} DeliveriesAre(frames: seq<Frame>)
    ensures Received(Deliveries(frames)) == Wanted(frames) && Pongs(Deliveries(frames)) == Pings(frames)
  {
    hide Delivery, Opcode, Nibble, Received, Pongs;
    if frames == [] {
      NoEvents();
    } else {
      DeliveriesAre(frames[1..]);
      DeliveryIs(frames[0].first, frames[0].payload);
      EventsAdd(Delivery(Opcode(frames[0].first), frames[0].payload), Deliveries(frames[1..]));
    }
  }

  lemma NoEvents()
    ensures Received([]) == [] && Pongs([]) == 0
  {
  }

  /** A prefix of the events delivers a prefix of the payloads, and no more pongs. */
  lemma PrefixDelivers(a: seq<Event>, b: seq<Event>)
    requires a <= b
    ensures Received(a) <= Received(b) && Pongs(a) <= Pongs(b)
  {
    EventsAdd(a, b[|a|..]);
    assert a + b[|a|..] == b;
  }

  /**
   Reassembly, in terms of what was sent: client frames read in any chunks of 1
   to 256 bytes.  At every moment the payloads delivered are a prefix of the
   non-empty text and binary payloads, in order, and no more pongs were sent than
   pings; when all has arrived they are exactly those.
   */
  lemma ReassemblyDelivers(frames: seq<Frame>, chunks: seq<seq<byte>>, rest: seq<byte>)
    requires AllLegal(frames) && Roomy(frames, 3857) && Chunks(chunks, 256) && Concat(chunks) + rest == EncodeAll(frames)
    ensures var r := Reads([], chunks);
            && r.outcome == Fine && Received(r.events) <= Wanted(frames) && Pongs(r.events) <= Pings(frames)
            && (rest == [] ==> Received(r.events) == Wanted(frames) && Pongs(r.events) == Pings(frames) && r.kept == [])
  {
    hide Encode, Reads, Deliveries, EncodeAll, Received, Pongs, Wanted, Pings;
    Reassembly(frames, chunks, rest);
    DeliveriesAre(frames);
    PrefixDelivers(Reads([], chunks).events, Deliveries(frames));
  }

  /** The same for payloads of up to 3849 bytes. */
  lemma ModerateDelivers(frames: seq<Frame>, chunks: seq<seq<byte>>)
    requires AllLegal(frames) && forall i | 0 <= i < |frames| :: |frames[i].payload| <= 3849
    requires Chunks(chunks, 256) && Concat(chunks) == EncodeAll(frames)
    ensures var r := Reads([], chunks);
            r.outcome == Fine && Received(r.events) == Wanted(frames) && Pongs(r.events) == Pings(frames)
  {
    hide Encode, Reads, EncodeAll, Received, Pongs, Wanted, Pings, Chunks;
    assert Concat(chunks) + [] == Concat(chunks);
    ReassemblyDelivers(frames, chunks, []);
  }
}
