/**
 Which errors the check sequence of a UI frame detects.  It covers a burst of
 16 bits in the part before it; but its low byte is sent first, so that at the
 seam between the two one pattern of two bytes goes unnoticed.
 */
module FrameErrors {
  import opened Wrappers
  import opened Bytes
  import opened Ax25
  import Crc

  // ---------- errors in the covered part, or in the check sequence ----------

  /** Nothing is accepted unless its check sequence is right. */
  lemma AcceptedHasFcs(frame: seq<byte>, cap: nat)
    requires ParseUi(frame, cap).Some?
    ensures |frame| >= MIN_FRAME && frame[|frame| - 2..] == FcsBytes(frame[..|frame| - 2])
  {
  }

  lemma FcsBytesInjective(s: seq<byte>, t: seq<byte>)
    requires FcsBytes(s) == FcsBytes(t)
    ensures Crc.Fcs(s) == Crc.Fcs(t)
  {
    var (x, y) := (Crc.Fcs(s), Crc.Fcs(t));
    assert FcsBytes(s)[0] == Low(x) && FcsBytes(t)[0] == Low(y) && FcsBytes(s)[1] == High(x) && FcsBytes(t)[1] == High(y);
    JoinHalves(x);
    JoinHalves(y);
  }

  /** A built frame whose covered part was hit by a burst of at most 16 bits is rejected. */
  lemma BurstRejected(p: Path, payload: seq<byte>, cap: nat, altered: seq<byte>, payloadCap: nat)
    requires BuildUi(p, payload, cap) != []
    requires var frame := BuildUi(p, payload, cap); |altered| + 2 == |frame| && Crc.BurstError(frame[..|altered|], altered)
    ensures var frame := BuildUi(p, payload, cap); ParseUi(altered + frame[|altered|..], payloadCap) == None
  {
    var frame := BuildUi(p, payload, cap);
    var n := |altered|;
    var received := altered + frame[n..];
    BuiltHasFcs(p, payload, cap);
    hide BuildUi, ReadFields, FcsBytes;
    assert received[..n] == altered && received[n..] == frame[n..];
    Crc.BurstDetected(frame[..n], altered);
    if ParseUi(received, payloadCap).Some? {
      AcceptedHasFcs(received, payloadCap);
      FcsBytesInjective(altered, frame[..n]);
    }
  }

  lemma BuiltHasFcs(p: Path, payload: seq<byte>, cap: nat)
    requires BuildUi(p, payload, cap) != []
    ensures var frame := BuildUi(p, payload, cap); |frame| >= 2 && frame[|frame| - 2..] == FcsBytes(frame[..|frame| - 2])
  {
    var frame := BuildUi(p, payload, cap);
    var fields := if cap < (2 + |p.digis|) * ADDR_LEN then [] else AddressFields(p);
    var body := fields + [CTRL_UI, PID_NOL3] + payload;
    assert frame == body + FcsBytes(body);
    assert frame[..|frame| - 2] == body;
  }

  /** In particular one altered byte, or two adjacent ones, of the covered part. */
  lemma AlteredBytesRejected(p: Path, payload: seq<byte>, cap: nat, at: nat, becomes: seq<byte>, payloadCap: nat)
    requires BuildUi(p, payload, cap) != [] && 1 <= |becomes| <= 2
    requires at + |becomes| + 2 <= |BuildUi(p, payload, cap)|
    requires BuildUi(p, payload, cap)[at..at + |becomes|] != becomes
    ensures var frame := BuildUi(p, payload, cap);
            ParseUi(frame[..at] + becomes + frame[at + |becomes|..], payloadCap) == None
  {
    var frame := BuildUi(p, payload, cap);
    var k := |becomes|;
    var n := |frame| - 2;
    hide *;
    Splice(frame, at, becomes, n);
    Crc.AdjacentBytesAreBurst(frame[..at], frame[at..at + k], becomes, frame[at + k..n]);
    BurstRejected(p, payload, cap, frame[..at] + becomes + frame[at + k..n], payloadCap);
  }

  lemma Splice(s: seq<byte>, at: nat, becomes: seq<byte>, n: nat)
    requires at + |becomes| <= n <= |s|
    ensures s[..n] == s[..at] + s[at..at + |becomes|] + s[at + |becomes|..n]
    ensures |s[..at] + becomes + s[at + |becomes|..n]| == n
    ensures s[..at] + becomes + s[at + |becomes|..n] + s[n..] == s[..at] + becomes + s[at + |becomes|..]
  {
  }

  /** And so is a frame whose check sequence alone was altered. */
  lemma AlteredFcsRejected(p: Path, payload: seq<byte>, cap: nat, fcs: seq<byte>, payloadCap: nat)
    requires BuildUi(p, payload, cap) != [] && |fcs| == 2
    requires var frame := BuildUi(p, payload, cap); frame[|frame| - 2..] != fcs || |frame| < 2
    ensures var frame := BuildUi(p, payload, cap); |frame| >= 2 && ParseUi(frame[..|frame| - 2] + fcs, payloadCap) == None
  {
    var frame := BuildUi(p, payload, cap);
    BuiltHasFcs(p, payload, cap);
    hide BuildUi, ReadFields, FcsBytes;
    var n := |frame| - 2;
    var received := frame[..n] + fcs;
    assert received[..n] == frame[..n] && received[n..] == fcs;
    if ParseUi(received, payloadCap).Some? {
      AcceptedHasFcs(received, payloadCap);
    }
  }

  // ---------- errors across the seam ----------

  function Flipped(b: byte, mask: byte): byte {
    b ^ mask
  }

  /** What eight shifts make of a byte on top of the register. */
  function Table(x: byte): bv16 {
    var t := (x as bv16) ^ ((x as bv16) >> 4);
    (t << 12) ^ (t << 5) ^ t
  }

  lemma EightSteps(c: bv16)
    ensures Crc.Steps(c, 8) == Crc.Step(Crc.Step(Crc.Step(Crc.Step(Crc.Step(Crc.Step(Crc.Step(Crc.Step(c))))))))
  {
    hide Crc.Step;
    assert Crc.Steps(c, 8) == Crc.Steps(Crc.Step(c), 7);
  }

  lemma EightShifts(x: byte)
    ensures Crc.Step(Crc.Step(Crc.Step(Crc.Step(Crc.Step(Crc.Step(Crc.Step(Crc.Step(Crc.OnTop(x))))))))) == Table(x)
  {
  }

  lemma StepsTable(x: byte)
    ensures Crc.Steps(Crc.OnTop(x), 8) == Table(x)
  {
    hide *;
    EightSteps(Crc.OnTop(x));
    EightShifts(x);
  }

  lemma {:induction false} StepsLinear(x: bv16, y: bv16, n: nat)
    ensures Crc.Steps(Crc.Xor(x, y), n) == Crc.Xor(Crc.Steps(x, n), Crc.Steps(y, n))
    decreases n
  {
    hide Crc.Step, Crc.Xor;
    if n > 0 {
      Crc.StepLinear(x, y);
      StepsLinear(Crc.Step(x), Crc.Step(y), n - 1);
    }
  }

  lemma OnTopFlipped(c: bv16, b: byte, mask: byte)
    ensures Crc.Xor(c, Crc.OnTop(Flipped(b, mask))) == Crc.Xor(Crc.Xor(c, Crc.OnTop(b)), Crc.OnTop(mask))
  {
  }

  /** Flipping bits of the last byte changes the check sequence by what the table says. */
  lemma LastByteFlipped(before: seq<byte>, b: byte, mask: byte)
    ensures Crc.Fcs(before + [Flipped(b, mask)]) == Crc.Xor(Crc.Fcs(before + [b]), Table(mask))
  {
    var c := Crc.Fcs(before);
    assert (before + [b])[..|before|] == before && (before + [Flipped(b, mask)])[..|before|] == before;
    assert Crc.Fcs(before + [b]) == Crc.CrcByte(c, b);
    assert Crc.Fcs(before + [Flipped(b, mask)]) == Crc.CrcByte(c, Flipped(b, mask));
    hide Crc.Fcs, Crc.Xor, Crc.OnTop, Crc.Steps, Table, Flipped;
    OnTopFlipped(c, b, mask);
    StepsLinear(Crc.Xor(c, Crc.OnTop(b)), Crc.OnTop(mask), 8);
    StepsTable(mask);
  }

  const SEAM_LAST: byte := 0x89
  const SEAM_LOW: byte := 0xA1

  lemma XorHalves(f: bv16, t: bv16)
    ensures High(Crc.Xor(f, t)) == Flipped(High(f), High(t)) && Low(Crc.Xor(f, t)) == Flipped(Low(f), Low(t))
  {
  }

  lemma TableHigh(mask: byte)
    ensures High(Table(mask)) == 0 <==> mask == 0 || mask == SEAM_LAST
    ensures Low(Table(SEAM_LAST)) == SEAM_LOW
  {
  }

  lemma TableNone(f: bv16)
    ensures Crc.Xor(f, Table(0)) == f
  {
  }

  /** The one change of the last byte that leaves the high byte of the check sequence alone. */
  lemma OneSilentByte(f: bv16, mask: byte)
    ensures High(Crc.Xor(f, Table(mask))) == High(f) <==> mask == 0 || mask == SEAM_LAST
    ensures Low(Crc.Xor(f, Table(SEAM_LAST))) == Flipped(Low(f), SEAM_LOW)
    ensures Crc.Xor(f, Table(0)) == f
  {
    hide *;
    XorHalves(f, Table(mask));
    XorHalves(f, Table(SEAM_LAST));
    TableHigh(mask);
    TableNone(f);
    FlippedSame(High(f), High(Table(mask)));
  }

  lemma FlippedSame(a: byte, mask: byte)
    ensures Flipped(a, mask) == a <==> mask == 0
  {
  }

  lemma FlippedBack(a: byte, b: byte)
    ensures Flipped(a, Flipped(a, b)) == b && (Flipped(a, b) == 0 <==> a == b)
    ensures Flipped(a, 0) == a
  {
  }

  /** The silent pattern: the last covered byte and the low byte of the check sequence. */
  predicate AtSeam(frame: seq<byte>, at: nat, becomes: seq<byte>) {
    && |becomes| == 2 && at + 3 == |frame|
    && becomes[0] == Flipped(frame[at], SEAM_LAST) && becomes[1] == Flipped(frame[at + 1], SEAM_LOW)
  }

  /** The last covered byte becomes x, and the low byte sent for it y: right again exactly for the silent pattern. */
  lemma SeamMatches(before: seq<byte>, b: byte, x: byte, y: byte)
    requires x != b || y != Low(Crc.Fcs(before + [b]))
    ensures [y, High(Crc.Fcs(before + [b]))] == FcsBytes(before + [x]) <==>
            x == Flipped(b, SEAM_LAST) && y == Flipped(Low(Crc.Fcs(before + [b])), SEAM_LOW)
  {
    var f := Crc.Fcs(before + [b]);
    var mask := Flipped(b, x);
    FlippedBack(b, x);
    FlippedBack(b, SEAM_LAST);
    LastByteFlipped(before, b, mask);
    OneSilentByte(f, mask);
    hide Crc.Fcs, Crc.Xor, Table, Flipped, High, Low;
    assert FcsBytes(before + [x]) == [Low(Crc.Xor(f, Table(mask))), High(Crc.Xor(f, Table(mask)))];
  }

  function Altered(frame: seq<byte>, at: nat, becomes: seq<byte>): seq<byte>
    requires at + |becomes| <= |frame|
  {
    frame[..at] + becomes + frame[at + |becomes|..]
  }

  lemma BuiltSize(p: Path, payload: seq<byte>, cap: nat)
    requires BuildUi(p, payload, cap) != []
    ensures |BuildUi(p, payload, cap)| >= 4
  {
  }

  lemma LastBytes(frame: seq<byte>, at: nat)
    requires at + 3 == |frame| && frame[at + 1..] == FcsBytes(frame[..at + 1])
    ensures frame[at + 1] == Low(Crc.Fcs(frame[..at] + [frame[at]])) && frame[at + 2] == High(Crc.Fcs(frame[..at] + [frame[at]]))
  {
    hide Crc.Fcs, High, Low;
    assert frame[..at + 1] == frame[..at] + [frame[at]];
    assert frame[at + 1..][0] == frame[at + 1] && frame[at + 1..][1] == frame[at + 2];
  }

  /** The end of a built frame, its last covered byte singled out. */
  lemma SeamParts(p: Path, payload: seq<byte>, cap: nat, at: nat)
    requires at + 3 == |BuildUi(p, payload, cap)|
    ensures var frame := BuildUi(p, payload, cap);
            frame[at + 1] == Low(Crc.Fcs(frame[..at] + [frame[at]])) && frame[at + 2] == High(Crc.Fcs(frame[..at] + [frame[at]]))
  {
    hide *;
    BuiltHasFcs(p, payload, cap);
    LastBytes(BuildUi(p, payload, cap), at);
  }

  lemma AlteredSeam(frame: seq<byte>, at: nat, becomes: seq<byte>)
    requires at + 3 == |frame| && |becomes| == 2
    ensures Altered(frame, at, becomes) == frame[..at] + [becomes[0]] + [becomes[1], frame[at + 2]]
  {
  }

  /** The last covered byte b becomes x, the low byte of the check sequence y. */
  lemma WrongSeam(before: seq<byte>, b: byte, x: byte, y: byte, payloadCap: nat)
    requires x != b || y != Low(Crc.Fcs(before + [b]))
    requires x != Flipped(b, SEAM_LAST) || y != Flipped(Low(Crc.Fcs(before + [b])), SEAM_LOW)
    ensures ParseUi(before + [x] + [y, High(Crc.Fcs(before + [b]))], payloadCap) == None
  {
    hide ParseUi, FcsBytes, Crc.Fcs, High, Low, Flipped;
    var received := before + [x] + [y, High(Crc.Fcs(before + [b]))];
    assert received[..|received| - 2] == before + [x] && received[|received| - 2..] == [y, High(Crc.Fcs(before + [b]))];
    SeamMatches(before, b, x, y);
    if ParseUi(received, payloadCap).Some? {
      AcceptedHasFcs(received, payloadCap);
    }
  }

  lemma SeamRejected(p: Path, payload: seq<byte>, cap: nat, at: nat, becomes: seq<byte>, payloadCap: nat)
    requires BuildUi(p, payload, cap) != [] && |becomes| == 2
    requires var frame := BuildUi(p, payload, cap);
             at + 3 == |frame| && frame[at..at + 2] != becomes && !AtSeam(frame, at, becomes)
    ensures ParseUi(Altered(BuildUi(p, payload, cap), at, becomes), payloadCap) == None
  {
    var frame := BuildUi(p, payload, cap);
    SeamParts(p, payload, cap, at);
    AlteredSeam(frame, at, becomes);
    hide BuildUi, Altered, ParseUi, Crc.Fcs, High, Low, Flipped;
    assert frame[at..at + 2] == [frame[at], frame[at + 1]] && becomes == [becomes[0], becomes[1]];
    WrongSeam(frame[..at], frame[at], becomes[0], becomes[1], payloadCap);
  }

  lemma AlteredTail(frame: seq<byte>, at: nat, becomes: seq<byte>, n: nat)
    requires n <= at && at + |becomes| <= |frame| && frame[at..at + |becomes|] != becomes
    ensures var received := Altered(frame, at, becomes);
            |received| == |frame| && received[..n] == frame[..n] && received == frame[..n] + received[n..] && received[n..] != frame[n..]
  {
    var received := Altered(frame, at, becomes);
    assert received[n..][at - n..at - n + |becomes|] == becomes;
    assert frame[n..][at - n..at - n + |becomes|] == frame[at..at + |becomes|];
  }

  /** The rest of the adjacent pairs and all single bytes lie in one of the two parts. */
  lemma OnePartRejected(p: Path, payload: seq<byte>, cap: nat, at: nat, becomes: seq<byte>, payloadCap: nat)
    requires BuildUi(p, payload, cap) != [] && 1 <= |becomes| <= 2
    requires at + |becomes| <= |BuildUi(p, payload, cap)| && BuildUi(p, payload, cap)[at..at + |becomes|] != becomes
    requires at + |becomes| + 2 <= |BuildUi(p, payload, cap)| || at + 2 >= |BuildUi(p, payload, cap)|
    ensures ParseUi(Altered(BuildUi(p, payload, cap), at, becomes), payloadCap) == None
  {
    hide BuildUi, ParseUi;
    var frame := BuildUi(p, payload, cap);
    if at + |becomes| + 2 <= |frame| {
      AlteredBytesRejected(p, payload, cap, at, becomes, payloadCap);
    } else {
      BuiltSize(p, payload, cap);
      hide Altered;
      var n := |frame| - 2;
      AlteredTail(frame, at, becomes, n);
      AlteredFcsRejected(p, payload, cap, Altered(frame, at, becomes)[n..], payloadCap);
    }
  }

  /** The covered part with its last byte exchanged. */
  lemma CoveredExchanged(p: Path, payload: seq<byte>, x: byte)
    ensures var c := Covered(p, payload);
            var k := |payload|;
            && |c| > 0 && (k > 0 ==> c[|c| - 1] == payload[k - 1])
            && c[..|c| - 1] + [x] ==
               if k == 0 then AddressFields(p) + [CTRL_UI, x] + [] else AddressFields(p) + [CTRL_UI, PID_NOL3] + (payload[..k - 1] + [x])
  {
    hide AddressFields;
    var c := Covered(p, payload);
    if |payload| == 0 {
      assert c == AddressFields(p) + [CTRL_UI, PID_NOL3];
    } else {
      assert payload == payload[..|payload| - 1] + [payload[|payload| - 1]];
    }
  }

  /** With the right check sequence such a frame is accepted. */
  lemma ExchangedParses(p: Path, payload: seq<byte>, x: byte, payloadCap: nat)
    requires PathWellFormed(p) && |payload| <= payloadCap
    ensures var c := Covered(p, payload);
            var k := |payload|;
            |c| > 0 && ParseUi(c[..|c| - 1] + [x] + FcsBytes(c[..|c| - 1] + [x]), payloadCap) ==
            Some((p, if k == 0 then [] else payload[..k - 1] + [x]))
  {
    CoveredExchanged(p, payload, x);
    hide *;
    if |payload| == 0 {
      ParsesBack(p, x, [], payloadCap);
    } else {
      ParsesBack(p, PID_NOL3, payload[..|payload| - 1] + [x], payloadCap);
    }
  }

  /** The silent pattern turns a frame into what the exchanged covered part would have been sent as. */
  lemma SeamIsExchange(c: seq<byte>, becomes: seq<byte>)
    requires |c| > 0 && AtSeam(c + FcsBytes(c), |c| - 1, becomes)
    ensures becomes[0] == Flipped(c[|c| - 1], SEAM_LAST)
    ensures Altered(c + FcsBytes(c), |c| - 1, becomes) == c[..|c| - 1] + [becomes[0]] + FcsBytes(c[..|c| - 1] + [becomes[0]])
  {
    hide Crc.Fcs, High, Low, Flipped;
    var before, b := c[..|c| - 1], c[|c| - 1];
    assert c == before + [b];
    SeamDiffers(b);
    SeamMatches(before, b, becomes[0], becomes[1]);
    assert FcsBytes(before + [becomes[0]]) == [becomes[1], High(Crc.Fcs(c))];
  }

  lemma ExchangeAccepted(p: Path, payload: seq<byte>, becomes: seq<byte>, payloadCap: nat)
    requires PathWellFormed(p) && |payload| <= payloadCap && |becomes| == 2
    requires var c := Covered(p, payload); |c| > 0 && AtSeam(c + FcsBytes(c), |c| - 1, becomes)
    ensures var c := Covered(p, payload);
            ParseUi(Altered(c + FcsBytes(c), |c| - 1, becomes), payloadCap) == Some((p, LastFlipped(payload)))
  {
    CoveredExchanged(p, payload, becomes[0]);
    hide AtSeam, Covered, ParseUi, Altered, PathWellFormed, Flipped, FcsBytes;
    SeamIsExchange(Covered(p, payload), becomes);
    ExchangedParses(p, payload, becomes[0], payloadCap);
  }

  function LastFlipped(payload: seq<byte>): seq<byte> {
    if payload == [] then [] else payload[..|payload| - 1] + [Flipped(payload[|payload| - 1], SEAM_LAST)]
  }

  /** The silent pattern is accepted, with the last byte of the payload altered (or the PID, which is not looked at). */
  lemma SeamAccepted(p: Path, payload: seq<byte>, cap: nat, at: nat, becomes: seq<byte>, payloadCap: nat)
    requires PathWellFormed(p) && RoomFor(p, payload, cap) && |payload| <= payloadCap
    requires AtSeam(BuildUi(p, payload, cap), at, becomes)
    ensures ParseUi(Altered(BuildUi(p, payload, cap), at, becomes), payloadCap) == Some((p, LastFlipped(payload)))
  {
    NotAtSeam(BuildUi(p, payload, cap), at, becomes);
    hide *;
    UiRoundTrip(p, payload, cap, payloadCap);
    ExchangeAccepted(p, payload, becomes, payloadCap);
  }

  lemma SeamDiffers(b: byte)
    ensures Flipped(b, SEAM_LAST) != b
  {
  }

  /**
   Exactly: of all changes of one byte or two adjacent bytes anywhere in a built
   frame, the one silent pattern at the seam is accepted and all others are rejected.
   */
  lemma AdjacentExactly(p: Path, payload: seq<byte>, cap: nat, at: nat, becomes: seq<byte>, payloadCap: nat)
    requires PathWellFormed(p) && RoomFor(p, payload, cap) && |payload| <= payloadCap && 1 <= |becomes| <= 2
    requires at + |becomes| <= |BuildUi(p, payload, cap)| && BuildUi(p, payload, cap)[at..at + |becomes|] != becomes
    ensures var frame := BuildUi(p, payload, cap);
            ParseUi(Altered(frame, at, becomes), payloadCap) == None <==> !AtSeam(frame, at, becomes)
  {
    BuiltIfRoom(p, payload, cap);
    NotAtSeam(BuildUi(p, payload, cap), at, becomes);
    hide *;
    if |becomes| != 2 || at + 3 != |BuildUi(p, payload, cap)| {
      OnePartRejected(p, payload, cap, at, becomes, payloadCap);
    } else if AtSeam(BuildUi(p, payload, cap), at, becomes) {
      SeamAccepted(p, payload, cap, at, becomes, payloadCap);
    } else {
      SeamRejected(p, payload, cap, at, becomes, payloadCap);
    }
  }

  lemma BuiltIfRoom(p: Path, payload: seq<byte>, cap: nat)
    requires RoomFor(p, payload, cap)
    ensures BuildUi(p, payload, cap) != []
  {
  }

  lemma NotAtSeam(frame: seq<byte>, at: nat, becomes: seq<byte>)
    ensures AtSeam(frame, at, becomes) ==> |becomes| == 2 && at + 3 == |frame|
  {
  }
}
