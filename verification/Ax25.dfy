/**
 AX.25 UI frames on values: address fields (destination, digipeaters, source,
 in this order), control and PID bytes, payload, check sequence.
 */
module Ax25 {
  import opened Wrappers
  import opened Bytes
  import Crc

  const CALL_MAX: nat := 6
  const ADDR_LEN: nat := 7
  const MAX_DIGI: nat := 8
  const PAYLOAD_MAX: nat := 330
  const MIN_FRAME: nat := 16
  const CTRL_UI: byte := 0x03
  const PID_NOL3: byte := 0xF0
  const SPACE: byte := 0x20

  /** A call sign is a C string: its bytes up to, not including, the terminator. */
  datatype Address = Address(call: seq<byte>, ssid: nat)

  datatype Path = Path(dest: Address, source: Address, digis: seq<Address>)

  const NO_ADDRESS := Address([], 0)
  const NO_PATH := Path(NO_ADDRESS, NO_ADDRESS, [])

  /** What the C structure can hold. */
  predicate Fits(a: Address) {
    |a.call| <= CALL_MAX && forall i | 0 <= i < |a.call| :: a.call[i] != 0
  }

  /** A proper call: 1 to 6 printable characters without space, SSID up to 15. */
  predicate WellFormed(a: Address) {
    && 1 <= |a.call| <= CALL_MAX && a.ssid <= 15
    && forall i | 0 <= i < |a.call| :: 0x20 < a.call[i] < 0x7F
  }

  predicate PathWellFormed(p: Path) {
    && WellFormed(p.dest) && WellFormed(p.source) && |p.digis| <= MAX_DIGI
    && forall i | 0 <= i < |p.digis| :: WellFormed(p.digis[i])
  }

  function PadAt(call: seq<byte>, i: nat): byte {
    if i < |call| then call[i] else SPACE
  }

  /** Characters of the blank-padded call travel shifted up by one bit. */
  function CallByte(call: seq<byte>, i: nat): byte {
    PadAt(call, i) << 1
  }

  function SsidByte(ssid: nat, last: bool): byte {
    ((((ssid % 16) as byte) << 1) | 0x60) | (if last then 1 else 0)
  }

  function EncodeAddress(a: Address, last: bool): (s: seq<byte>)
    ensures |s| == ADDR_LEN
  {
    [CallByte(a.call, 0), CallByte(a.call, 1), CallByte(a.call, 2),
     CallByte(a.call, 3), CallByte(a.call, 4), CallByte(a.call, 5), SsidByte(a.ssid, last)]
  }

  /** A received character; a space ends the call. */
  function CharOf(b: byte): byte {
    var ch := (b >> 1) & 0x7F;
    if ch == SPACE then 0 else ch
  }

  function CString(raw: seq<byte>): (s: seq<byte>)
    ensures |s| <= |raw| && forall i | 0 <= i < |s| :: s[i] == raw[i] && s[i] != 0
    ensures |s| < |raw| ==> raw[|s|] == 0
  {
    if raw == [] || raw[0] == 0 then [] else [raw[0]] + CString(raw[1..])
  }

  function SsidOf(b: byte): nat {
    ((b >> 1) & 0x0F) as int
  }

  function DecodeAddress(s: seq<byte>): (a: Address)
    requires |s| >= ADDR_LEN
    ensures Fits(a)
  {
    Address(CString(RawCall(s)), SsidOf(s[6]))
  }

  function RawCall(s: seq<byte>): (raw: seq<byte>)
    requires |s| >= ADDR_LEN
    ensures |raw| == CALL_MAX
  {
    [CharOf(s[0]), CharOf(s[1]), CharOf(s[2]), CharOf(s[3]), CharOf(s[4]), CharOf(s[5])]
  }

  predicate IsLast(s: seq<byte>)
    requires |s| >= ADDR_LEN
  {
    s[6] & 1 != 0
  }

  function DigiFields(digis: seq<Address>): (s: seq<byte>)
    ensures |s| == ADDR_LEN * |digis|
  {
    if digis == [] then [] else EncodeAddress(digis[0], false) + DigiFields(digis[1..])
  }

  function AddressFields(p: Path): (s: seq<byte>)
    ensures |s| == ADDR_LEN * (2 + |p.digis|)
  {
    EncodeAddress(p.dest, false) + DigiFields(p.digis) + EncodeAddress(p.source, true)
  }

  function FcsBytes(data: seq<byte>): (s: seq<byte>)
    ensures |s| == 2
  {
    [Low(Crc.Fcs(data)), High(Crc.Fcs(data))]
  }

  /** The part of a UI frame that the check sequence covers. */
  function Covered(p: Path, payload: seq<byte>): seq<byte> {
    AddressFields(p) + [CTRL_UI, PID_NOL3] + payload
  }

  /**
   The built frame, or nothing.  When the address fields alone do not fit, the
   result of writing them is not checked and the frame starts without them.
   */
  function BuildUi(p: Path, payload: seq<byte>, cap: nat): seq<byte> {
    if |payload| + 32 > cap || |payload| > PAYLOAD_MAX then [] else
    var fields := if cap < (2 + |p.digis|) * ADDR_LEN then [] else AddressFields(p);
    if |fields| + 4 + |payload| > cap then [] else
    var body := fields + [CTRL_UI, PID_NOL3] + payload;
    body + FcsBytes(body)
  }

  /** All of the frame fits. */
  predicate RoomFor(p: Path, payload: seq<byte>, cap: nat) {
    |payload| <= PAYLOAD_MAX && |payload| + 32 <= cap && ADDR_LEN * (2 + |p.digis|) + 4 + |payload| <= cap
  }

  /** The address fields read so far: where reading stopped, or nothing if there are too many. */
  datatype Fields = Fields(pos: nat, path: Path)

  function StoreField(path: Path, n: nat, a: Address, last: bool): Path {
    if n == 0 then path.(dest := a)
    else if last then path.(source := a)
    else if n - 1 < MAX_DIGI then path.(digis := path.digis + [a])
    else path
  }

  function ReadFields(frame: seq<byte>, pos: nat, n: nat, path: Path): (r: Option<Fields>)
    requires pos <= |frame|
    ensures r.Some? ==> r.value.pos <= |frame|
    decreases |frame| - pos
  {
    if pos + ADDR_LEN > |frame| then Some(Fields(pos, path)) else
    var field := frame[pos..pos + ADDR_LEN];
    var path1 := StoreField(path, n, DecodeAddress(field), IsLast(field));
    if IsLast(field) then Some(Fields(pos + ADDR_LEN, path1))
    else if n + 1 > MAX_DIGI + 1 then None
    else ReadFields(frame, pos + ADDR_LEN, n + 1, path1)
  }

  /** The path and payload of a valid UI frame that fits the caller's buffer. */
  function ParseUi(frame: seq<byte>, cap: nat): Option<(Path, seq<byte>)> {
    if |frame| < MIN_FRAME then None else
    var fields := ReadFields(frame, 0, 0, NO_PATH);
    if fields.None? then None else
    var pos := fields.value.pos;
    var n := |frame|;
    if pos + 4 > n || frame[pos] != CTRL_UI then None
    else if frame[n - 2..] != FcsBytes(frame[..n - 2]) then None
    else if n - (pos + 2) - 2 > cap then None
    else Some((fields.value.path, frame[pos + 2..n - 2]))
  }

  // ---------- addresses survive ----------

  lemma CharSurvives(b: byte)
    requires 0x20 < b < 0x7F
    ensures CharOf(b << 1) == b && b != 0
  {
  }

  lemma PadSurvives()
    ensures CharOf(SPACE << 1) == 0
  {
  }

  lemma SsidSurvives(ssid: nat, last: bool)
    requires ssid <= 15
    ensures SsidOf(SsidByte(ssid, last)) == ssid
    ensures (SsidByte(ssid, last) & 1 != 0) == last
  {
    var v := (ssid % 16) as byte;
    NibbleSurvives(v, if last then 1 else 0);
    assert v as int == ssid;
  }

  lemma NibbleSurvives(v: byte, e: byte)
    requires v < 16 && e <= 1
    ensures ((((v << 1) | 0x60) | e) >> 1) & 0x0F == v
    ensures ((((v << 1) | 0x60) | e) & 1 != 0) == (e == 1)
  {
  }

  lemma {:induction false} CStringIs(raw: seq<byte>, call: seq<byte>)
    requires |call| <= |raw| && forall i | 0 <= i < |call| :: raw[i] == call[i] && call[i] != 0
    requires |call| < |raw| ==> raw[|call|] == 0
    ensures CString(raw) == call
  {
    if call != [] {
      CStringIs(raw[1..], call[1..]);
    }
  }

  lemma PadSurvivesAt(call: seq<byte>, i: nat)
    requires forall k | 0 <= k < |call| :: 0x20 < call[k] < 0x7F
    ensures CharOf(CallByte(call, i)) == if i < |call| then call[i] else 0
  {
    if i < |call| {
      CharSurvives(call[i]);
    } else {
      PadSurvives();
    }
  }

  lemma RawAt(a: Address, last: bool, i: nat)
    requires i < CALL_MAX
    ensures RawCall(EncodeAddress(a, last))[i] == CharOf(CallByte(a.call, i))
  {
    hide CharOf, CallByte, SsidByte;
  }

  lemma CallSurvives(a: Address, last: bool)
    requires WellFormed(a)
    ensures CString(RawCall(EncodeAddress(a, last))) == a.call
  {
    hide CharOf, CallByte, SsidByte, CString, RawCall, EncodeAddress;
    var raw := RawCall(EncodeAddress(a, last));
    forall i | 0 <= i < CALL_MAX ensures raw[i] == if i < |a.call| then a.call[i] else 0 {
      RawAt(a, last, i);
      PadSurvivesAt(a.call, i);
    }
    CStringIs(raw, a.call);
  }

  lemma AddressSurvives(a: Address, last: bool)
    requires WellFormed(a)
    ensures DecodeAddress(EncodeAddress(a, last)) == a && IsLast(EncodeAddress(a, last)) == last
  {
    SsidSurvives(a.ssid, last);
    CallSurvives(a, last);
    hide RawCall, CString, SsidOf, SsidByte, CallByte;
    assert EncodeAddress(a, last)[6] == SsidByte(a.ssid, last);
  }

  // ---------- paths survive ----------

  lemma FieldAt(frame: seq<byte>, pos: nat, a: Address, last: bool)
    requires WellFormed(a) && pos + ADDR_LEN <= |frame| && frame[pos..pos + ADDR_LEN] == EncodeAddress(a, last)
    ensures DecodeAddress(frame[pos..pos + ADDR_LEN]) == a && IsLast(frame[pos..pos + ADDR_LEN]) == last
  {
    AddressSurvives(a, last);
  }

  /** Reading the digipeaters and the source, after the destination and `done` digipeaters. */
  lemma {:induction false} TailSurvives(frame: seq<byte>, pos: nat, done: seq<Address>, todo: seq<Address>, source: Address, dest: Address)
    requires WellFormed(source) && (forall i | 0 <= i < |todo| :: WellFormed(todo[i])) && |done| + |todo| <= MAX_DIGI
    requires pos <= |frame| && DigiFields(todo) + EncodeAddress(source, true) <= frame[pos..]
    ensures ReadFields(frame, pos, |done| + 1, Path(dest, NO_ADDRESS, done)) ==
            Some(Fields(pos + ADDR_LEN * (|todo| + 1), Path(dest, source, done + todo)))
    decreases todo
  {
    hide DecodeAddress, EncodeAddress, IsLast, WellFormed;
    var rest := frame[pos..];
    if todo == [] {
      assert rest[..ADDR_LEN] == EncodeAddress(source, true);
      assert frame[pos..pos + ADDR_LEN] == rest[..ADDR_LEN];
      FieldAt(frame, pos, source, true);
      assert done + todo == done;
    } else {
      var all := DigiFields(todo) + EncodeAddress(source, true);
      assert all[..ADDR_LEN] == EncodeAddress(todo[0], false);
      assert all[ADDR_LEN..] == DigiFields(todo[1..]) + EncodeAddress(source, true);
      assert frame[pos..pos + ADDR_LEN] == rest[..ADDR_LEN] == all[..ADDR_LEN];
      assert frame[pos + ADDR_LEN..] == rest[ADDR_LEN..];
      FieldAt(frame, pos, todo[0], false);
      TailSurvives(frame, pos + ADDR_LEN, done + [todo[0]], todo[1..], source, dest);
      assert done + [todo[0]] + todo[1..] == done + todo;
    }
  }

  lemma PathSurvives(frame: seq<byte>, p: Path)
    requires PathWellFormed(p) && AddressFields(p) <= frame
    ensures ReadFields(frame, 0, 0, NO_PATH) == Some(Fields(ADDR_LEN * (2 + |p.digis|), p))
  {
    var s := AddressFields(p);
    hide DecodeAddress, EncodeAddress, IsLast, WellFormed;
    assert s[..ADDR_LEN] == EncodeAddress(p.dest, false);
    assert frame[0..ADDR_LEN] == s[..ADDR_LEN];
    FieldAt(frame, 0, p.dest, false);
    assert frame[ADDR_LEN..] == s[ADDR_LEN..] + frame[|s|..];
    assert s[ADDR_LEN..] == DigiFields(p.digis) + EncodeAddress(p.source, true);
    TailSurvives(frame, ADDR_LEN, [], p.digis, p.source, p.dest);
    assert [] + p.digis == p.digis;
  }

  /** Whatever its PID, a frame with the right check sequence parses to its path and payload. */
  lemma ParsesBack(p: Path, pid: byte, payload: seq<byte>, payloadCap: nat)
    requires PathWellFormed(p) && |payload| <= payloadCap
    ensures var body := AddressFields(p) + [CTRL_UI, pid] + payload;
            ParseUi(body + FcsBytes(body), payloadCap) == Some((p, payload))
  {
    var fields := AddressFields(p);
    var body := fields + [CTRL_UI, pid] + payload;
    var frame := body + FcsBytes(body);
    hide ReadFields, AddressFields, FcsBytes, PathWellFormed;
    assert frame == fields + ([CTRL_UI, pid] + payload + FcsBytes(body));
    PathSurvives(frame, p);
    var n := |frame|;
    assert frame[..n - 2] == body && frame[n - 2..] == FcsBytes(body);
    assert frame[|fields|] == CTRL_UI;
    assert frame[|fields| + 2..n - 2] == payload;
  }

  /** A built frame parses back to its path and payload. */
  lemma UiRoundTrip(p: Path, payload: seq<byte>, cap: nat, payloadCap: nat)
    requires PathWellFormed(p) && RoomFor(p, payload, cap) && |payload| <= payloadCap
    ensures BuildUi(p, payload, cap) == Covered(p, payload) + FcsBytes(Covered(p, payload))
    ensures ParseUi(BuildUi(p, payload, cap), payloadCap) == Some((p, payload))
  {
    hide ParseUi, AddressFields, FcsBytes, PathWellFormed;
    ParsesBack(p, PID_NOL3, payload, payloadCap);
  }

  lemma {:induction false} ReadingAdvances(frame: seq<byte>, pos: nat, n: nat, path: Path)
    requires pos <= |frame| && ReadFields(frame, pos, n, path).Some?
    ensures ReadFields(frame, pos, n, path).value.pos >= if pos + ADDR_LEN <= |frame| then pos + ADDR_LEN else pos
    decreases |frame| - pos
  {
    hide DecodeAddress, StoreField;
    if pos + ADDR_LEN <= |frame| && !IsLast(frame[pos..pos + ADDR_LEN]) && n + 1 <= MAX_DIGI + 1 {
      ReadingAdvances(frame, pos + ADDR_LEN, n + 1, StoreField(path, n, DecodeAddress(frame[pos..pos + ADDR_LEN]), false));
    }
  }

  /** A frame that was built without its addresses has its first bytes taken for one: the payload comes back shorter, if at all. */
  lemma PayloadShrinks(p: Path, payload: seq<byte>, cap: nat, payloadCap: nat)
    requires !RoomFor(p, payload, cap)
    ensures ParseUi(BuildUi(p, payload, cap), payloadCap).None? || |ParseUi(BuildUi(p, payload, cap), payloadCap).value.1| < |payload|
  {
    hide ReadFields, FcsBytes, AddressFields;
    var frame := BuildUi(p, payload, cap);
    if |frame| >= MIN_FRAME && ReadFields(frame, 0, 0, NO_PATH).Some? {
      ReadingAdvances(frame, 0, 0, NO_PATH);
    }
  }

  /** What is built parses back if and only if all of the frame fits, and the payload the reader's buffer. */
  lemma UiRoundTripExactly(p: Path, payload: seq<byte>, cap: nat, payloadCap: nat)
    requires PathWellFormed(p)
    ensures ParseUi(BuildUi(p, payload, cap), payloadCap) == Some((p, payload)) <==>
            RoomFor(p, payload, cap) && |payload| <= payloadCap
  {
    hide PathWellFormed;
    if !RoomFor(p, payload, cap) {
      PayloadShrinks(p, payload, cap, payloadCap);
    } else if |payload| <= payloadCap {
      UiRoundTrip(p, payload, cap, payloadCap);
    } else {
      PayloadFits(BuildUi(p, payload, cap), payloadCap);
    }
  }

  lemma PayloadFits(frame: seq<byte>, payloadCap: nat)
    ensures ParseUi(frame, payloadCap).Some? ==> |ParseUi(frame, payloadCap).value.1| <= payloadCap
  {
    hide ReadFields, FcsBytes;
  }

  const SHORT_CALL := Address([0x41], 0)
  const LONG_PATH := Path(SHORT_CALL, SHORT_CALL, seq(MAX_DIGI, i => SHORT_CALL))

  /** With eight digipeaters 40 bytes are too few, yet a frame of 8 payload bytes is built; it is refused when parsed. */
  lemma CrampedFrameIsLost(payload: seq<byte>, payloadCap: nat)
    requires |payload| == 8
    ensures PathWellFormed(LONG_PATH)
    ensures |BuildUi(LONG_PATH, payload, 40)| == 12 && ParseUi(BuildUi(LONG_PATH, payload, 40), payloadCap) == None
  {
    hide FcsBytes, ReadFields;
  }

  // ---------- too many addresses ----------

  lemma EvenIsNotLast(field: seq<byte>)
    requires |field| == ADDR_LEN && (field[6] as int) % 2 == 0
    ensures !IsLast(field)
  {
    var b := field[6];
    assert (b & 1) as int == (b as int) % 2;
  }

  lemma {:induction false} TooManyFrom(frame: seq<byte>, n: nat, path: Path)
    requires n < 10 && |frame| >= 70 && forall k | 0 <= k < 10 :: (frame[7 * k + 6] as int) % 2 == 0
    ensures ReadFields(frame, 7 * n, n, path) == None
    decreases 10 - n
  {
    hide DecodeAddress, StoreField, IsLast;
    var field := frame[7 * n..7 * n + 7];
    assert field[6] == frame[7 * n + 6];
    EvenIsNotLast(field);
    if n < 9 {
      TooManyFrom(frame, n + 1, StoreField(path, n, DecodeAddress(field), false));
    }
  }

  /** A frame without an end mark in its first ten addresses is refused. */
  lemma TooManyAddresses(frame: seq<byte>, cap: nat)
    requires |frame| >= 70 && forall k | 0 <= k < 10 :: (frame[7 * k + 6] as int) % 2 == 0
    ensures ParseUi(frame, cap) == None
  {
    TooManyFrom(frame, 0, NO_PATH);
    hide ReadFields;
  }
}
