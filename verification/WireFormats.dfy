/** The wire formats byte by byte, as numbers: HBX, AX.25 UI, the masked payload, KISS, and the check sequence's reference value. */
module WireFormats {
  import opened Wrappers
  import opened Bytes
  import Hbx
  import Crc
  import A = Ax25
  import Carriage
  import Kiss

  // ---------- HBX ----------

  lemma FlagBytes(v: bv16)
    ensures High(v) as bv16 == v >> 8 && Low(v) as bv16 == v & 0xFF
  {
  }

  lemma FourDigits(n: nat)
    requires n < 0x1_0000_0000
    ensures 0x100_0000 * (Digit(n / 0x100_0000) as int) + 0x1_0000 * (Digit(n / 0x1_0000) as int)
            + 0x100 * (Digit(n / 0x100) as int) + Digit(n) as int == n
  {
    hide Digit;
    DigitSum(n);
    DigitValue(n / 0x100_0000);
    DigitValue(n / 0x1_0000);
    DigitValue(n / 0x100);
    DigitValue(n);
  }

  /** "HBX", version 1, the protocol, two bytes of flags and four of length, most significant first, one byte that is never written, the payload. */
  lemma HbxLayout(f: Hbx.Frame, unused: byte)
    requires |f.payload| < 0x1_0000_0000
    ensures var e := Hbx.Encode(f, unused);
            && |e| == 12 + |f.payload| && e[0] == 0x48 && e[1] == 0x42 && e[2] == 0x58 && e[3] == 0x01 && e[4] == f.proto
            && e[5] as bv16 == f.flags >> 8 && e[6] as bv16 == f.flags & 0xFF
            && 0x100_0000 * (e[7] as int) + 0x1_0000 * (e[8] as int) + 0x100 * (e[9] as int) + e[10] as int == |f.payload|
            && e[11] == unused && e[12..] == f.payload
  {
    FlagBytes(f.flags);
    FourDigits(|f.payload|);
    hide High, Low, Digit;
  }

  /** A header is accepted exactly with this magic and version and a length of at most 4096. */
  lemma HbxAccepts(h: seq<byte>)
    requires |h| >= 12
    ensures Hbx.ValidHeader(h) <==>
            && h[0] == 0x48 && h[1] == 0x42 && h[2] == 0x58 && h[3] == 0x01
            && 0x100_0000 * (h[7] as int) + 0x1_0000 * (h[8] as int) + 0x100 * (h[9] as int) + h[10] as int <= 4096
  {
    assert h[..4] == [h[0], h[1], h[2], h[3]];
  }

  // ---------- AX.25 ----------

  /** The addresses in the order in which they are sent. */
  function At(p: A.Path, k: nat): A.Address
    requires k < 2 + |p.digis|
  {
    if k == 0 then p.dest else if k == 1 + |p.digis| then p.source else p.digis[k - 1]
  }

  lemma Shifted(b: byte)
    requires b as int < 128
    ensures (b << 1) as int == 2 * (b as int)
  {
    assert b < 128;
    assert b << 1 == b + b;
  }

  /** The SSID byte: 96, twice the SSID, and one for the last address. */
  lemma SsidIs(ssid: nat, last: bool)
    requires ssid <= 15
    ensures A.SsidByte(ssid, last) as int == 96 + 2 * ssid + if last then 1 else 0
  {
    AsByte(ssid);
    SsidBits(ssid as byte, if last then 1 else 0);
  }

  lemma SsidBits(v: byte, e: byte)
    requires v as int < 16 && e as int <= 1
    ensures (((v << 1) | 0x60) | e) as int == 96 + 2 * (v as int) + e as int
  {
    assert v < 16 && e <= 1;
    assert ((v << 1) | 0x60) | e == 0x60 + v + v + e;
  }

  /** An address field: six characters shifted up by one bit, blanks behind the call, and the SSID byte. */
  lemma AddressLayout(a: A.Address, last: bool)
    requires A.WellFormed(a)
    ensures var e := A.EncodeAddress(a, last);
            && (forall i | 0 <= i < 6 :: e[i] as int == 2 * (if i < |a.call| then a.call[i] as int else 32))
            && e[6] as int == 96 + 2 * a.ssid + if last then 1 else 0
  {
    SsidIs(a.ssid, last);
    var e := A.EncodeAddress(a, last);
    forall i | 0 <= i < 6 ensures e[i] as int == 2 * (if i < |a.call| then a.call[i] as int else 32) {
      CharLayout(a, i);
      assert e[i] == A.CallByte(a.call, i);
    }
    hide A.SsidByte, A.CallByte;
  }

  lemma CharLayout(a: A.Address, i: nat)
    requires A.WellFormed(a)
    ensures A.CallByte(a.call, i) as int == 2 * (if i < |a.call| then a.call[i] as int else 32)
  {
    var b := A.PadAt(a.call, i);
    if i < |a.call| {
      assert a.call[i] < 0x7F;
      BelowIs(b);
    }
    Shifted(b);
  }

  lemma BelowIs(b: byte)
    requires b < 0x7F
    ensures b as int < 128
  {
  }

  lemma {:induction false} DigisAt(digis: seq<A.Address>, k: nat)
    requires k < |digis|
    ensures A.DigiFields(digis)[7 * k..7 * k + 7] == A.EncodeAddress(digis[k], false)
  {
    hide A.EncodeAddress;
    var all := A.DigiFields(digis);
    assert all == A.EncodeAddress(digis[0], false) + A.DigiFields(digis[1..]);
    if k > 0 {
      DigisAt(digis[1..], k - 1);
      assert all[7 * k..7 * k + 7] == A.DigiFields(digis[1..])[7 * (k - 1)..7 * (k - 1) + 7];
    }
  }

  /** The addresses one after the other, destination first, source last and marked as such. */
  lemma FieldsLayout(p: A.Path, k: nat)
    requires k < 2 + |p.digis|
    ensures var s := A.AddressFields(p);
            |s| == 7 * (2 + |p.digis|) && s[7 * k..7 * k + 7] == A.EncodeAddress(At(p, k), k == 1 + |p.digis|)
  {
    hide A.EncodeAddress, A.DigiFields;
    var s := A.AddressFields(p);
    if 0 < k <= |p.digis| {
      DigisAt(p.digis, k - 1);
      assert s[7 * k..7 * k + 7] == A.DigiFields(p.digis)[7 * (k - 1)..7 * (k - 1) + 7];
    }
  }

  /** A built frame: the addresses, 0x03, 0xF0, the payload, and the check sequence of all that, low byte first. */
  lemma UiLayout(p: A.Path, payload: seq<byte>, cap: nat)
    requires |payload| <= 330 && |payload| + 32 <= cap && 7 * (2 + |p.digis|) + 4 + |payload| <= cap
    ensures var body := A.AddressFields(p) + [0x03, 0xF0] + payload;
            A.BuildUi(p, payload, cap) == body + [Low(Crc.Fcs(body)), High(Crc.Fcs(body))]
  {
    hide A.AddressFields, Crc.Fcs, High, Low;
  }

  /** Proper calls, in numbers; and what any address has room for. */
  lemma CallExactly(a: A.Address)
    ensures A.WellFormed(a) <==>
            1 <= |a.call| <= 6 && a.ssid <= 15 && forall i | 0 <= i < |a.call| :: 33 <= a.call[i] as int <= 126
    ensures A.Fits(a) <==> |a.call| <= 6 && forall i | 0 <= i < |a.call| :: a.call[i] as int != 0
  {
    forall i | 0 <= i < |a.call| ensures 0x20 < a.call[i] < 0x7F <==> 33 <= a.call[i] as int <= 126 {
      PrintableIs(a.call[i]);
    }
  }

  lemma PrintableIs(b: byte)
    ensures 0x20 < b < 0x7F <==> 33 <= b as int <= 126
    ensures b == 0 <==> b as int == 0
  {
  }

  /** A larger SSID loses its higher bits. */
  lemma SsidWraps(ssid: nat, last: bool)
    ensures A.SsidByte(ssid, last) == A.SsidByte(ssid % 16, last)
  {
    assert ssid % 16 % 16 == ssid % 16;
  }

  /** A frame with a single address that is marked as the last: accepted with 16 bytes or more, and no source. */
  lemma OneAddress(a: A.Address, payload: seq<byte>, cap: nat)
    requires A.WellFormed(a) && |payload| <= cap
    ensures var body := A.EncodeAddress(a, true) + [0x03, 0xF0] + payload;
            A.ParseUi(body + A.FcsBytes(body), cap) ==
            if 11 + |payload| >= 16 then Some((A.Path(a, A.Address([], 0), []), payload)) else None
  {
    var body := A.EncodeAddress(a, true) + [0x03, 0xF0] + payload;
    var frame := body + A.FcsBytes(body);
    var n := |frame|;
    assert frame[0..7] == A.EncodeAddress(a, true);
    A.FieldAt(frame, 0, a, true);
    hide A.FcsBytes, A.EncodeAddress, A.DecodeAddress, A.IsLast, A.WellFormed;
    if n >= 16 {
      OneField(frame, a);
      assert frame[..n - 2] == body && frame[n - 2..] == A.FcsBytes(body);
      assert frame[7] == 0x03 && frame[9..n - 2] == payload;
    }
  }

  lemma OneField(frame: seq<byte>, a: A.Address)
    requires |frame| >= 7 && A.DecodeAddress(frame[0..7]) == a && A.IsLast(frame[0..7])
    ensures A.ReadFields(frame, 0, 0, A.NO_PATH) == Some(A.Fields(7, A.Path(a, A.Address([], 0), [])))
  {
    hide A.DecodeAddress, A.IsLast;
  }

  /** What a frame must have room for. */
  lemma UiRoom(p: A.Path, payload: seq<byte>, cap: nat)
    ensures A.RoomFor(p, payload, cap) <==> |payload| <= 330 && |payload| + 32 <= cap && 18 + 7 * |p.digis| + |payload| <= cap
  {
  }

  lemma CheckValueStep(c: bv16, b: byte)
    ensures Crc.CrcByte(c, b) ==
            Crc.Step(Crc.Step(Crc.Step(Crc.Step(Crc.Step(Crc.Step(Crc.Step(Crc.Step(Crc.Xor(c, Crc.OnTop(b))))))))))
  {
    hide Crc.Step, Crc.Xor, Crc.OnTop;
    assert Crc.Steps(Crc.Xor(c, Crc.OnTop(b)), 8) == Crc.Steps(Crc.Step(Crc.Xor(c, Crc.OnTop(b))), 7);
  }

  lemma FcsNext(d: seq<byte>, i: nat)
    requires i < |d|
    ensures Crc.Fcs(d[..i + 1]) == Crc.CrcByte(Crc.Fcs(d[..i]), d[i]) && Crc.Fcs(d[..0]) == 0xFFFF
  {
    hide Crc.CrcByte;
    assert d[..i + 1][..i] == d[..i];
  }

  lemma CheckValueSteps()
    ensures Crc.CrcByte(0xFFFF, 0x31) == 0xC782
    ensures Crc.CrcByte(0xC782, 0x32) == 0x3DBA
    ensures Crc.CrcByte(0x3DBA, 0x33) == 0x5BCE
    ensures Crc.CrcByte(0x5BCE, 0x34) == 0x5349
    ensures Crc.CrcByte(0x5349, 0x35) == 0x4560
    ensures Crc.CrcByte(0x4560, 0x36) == 0x2EF4
    ensures Crc.CrcByte(0x2EF4, 0x37) == 0x7718
    ensures Crc.CrcByte(0x7718, 0x38) == 0xA12B
    ensures Crc.CrcByte(0xA12B, 0x39) == 0x29B1
  {
    CheckValueStep(0xFFFF, 0x31);
    CheckValueStep(0xC782, 0x32);
    CheckValueStep(0x3DBA, 0x33);
    CheckValueStep(0x5BCE, 0x34);
    CheckValueStep(0x5349, 0x35);
    CheckValueStep(0x4560, 0x36);
    CheckValueStep(0x2EF4, 0x37);
    CheckValueStep(0x7718, 0x38);
    CheckValueStep(0xA12B, 0x39);
  }

  /** The reference value of this CRC: that of the digits "123456789" is 0x29B1. */
  lemma CheckValue()
    ensures Crc.Fcs([0x31, 0x32, 0x33, 0x34, 0x35, 0x36, 0x37, 0x38, 0x39]) == 0x29B1
  {
    var d: seq<byte> := [0x31, 0x32, 0x33, 0x34, 0x35, 0x36, 0x37, 0x38, 0x39];
    CheckValueSteps();
    hide Crc.Fcs, Crc.CrcByte;
    FcsNext(d, 0);
    FcsNext(d, 1);
    FcsNext(d, 2);
    FcsNext(d, 3);
    FcsNext(d, 4);
    FcsNext(d, 5);
    FcsNext(d, 6);
    FcsNext(d, 7);
    FcsNext(d, 8);
    assert d[..9] == d;
  }

  // ---------- the masked payload ----------

  /** The number of digipeaters, the same address fields, the payload; sent as protocol 2 with flag 4. */
  lemma PackedLayout(p: A.Path, payload: seq<byte>, flags: bv16)
    requires |p.digis| <= 8 && 15 + 7 * |p.digis| + |payload| <= 4096
    ensures var f := Carriage.PackedFrame(p, payload, flags);
            && f.Some? && f.value.proto == 2 && f.value.flags == flags | 4
            && |f.value.payload| == 15 + 7 * |p.digis| + |payload| && f.value.payload[0] as int == |p.digis|
            && f.value.payload[1..] == A.AddressFields(p) + payload
  {
    FieldsLayout(p, 0);
    hide *;
    PackedBody(p, payload);
    PathFlag(p, payload, flags);
    FirstDigit(|p.digis|, A.AddressFields(p) + payload, Carriage.PackedFrame(p, payload, flags).value.payload);
  }

  lemma FirstDigit(n: nat, more: seq<byte>, s: seq<byte>)
    requires n < 256 && s == [Digit(n)] + more
    ensures |s| == 1 + |more| && s[0] as int == n && s[1..] == more
  {
    DigitValue(n);
    assert s[0] == Digit(n);
    hide *;
  }

  lemma PackedBody(p: A.Path, payload: seq<byte>)
    requires 15 + 7 * |p.digis| + |payload| <= 4096
    ensures Carriage.Pack(p, payload, 4096) == [Digit(|p.digis|)] + (A.AddressFields(p) + payload)
  {
    hide A.AddressFields, Digit;
  }

  lemma PathFlag(p: A.Path, payload: seq<byte>, flags: bv16)
    requires Carriage.Pack(p, payload, 4096) != []
    ensures Carriage.PackedFrame(p, payload, flags) == Some(Hbx.Frame(2, flags | 4, Carriage.Pack(p, payload, 4096)))
  {
    hide Carriage.Pack;
  }

  /** There is a packed payload exactly if all of it fits. */
  lemma PackExactly(p: A.Path, payload: seq<byte>, cap: nat)
    ensures Carriage.Pack(p, payload, cap) == [] <==> 15 + 7 * |p.digis| + |payload| > cap
    ensures Carriage.RoomToPack(p, payload, cap) <==> 15 + 7 * |p.digis| + |payload| <= cap
  {
    hide A.AddressFields, Digit;
  }

  /** A raw frame travels as protocol 1; a decoder never keeps 4108 bytes or more. */
  lemma CircuitNumbers(s: seq<byte>)
    ensures Carriage.PROTO_AX25 == 1 && |Hbx.Parse(s).1| < 4108
  {
    Hbx.ParseLeavesResidual(s);
  }

  // ---------- KISS ----------

  /** How a byte is sent: the delimiter 0xC0 and the escape 0xDB as two bytes, every other as it is. */
  lemma EscapeIs(b: byte)
    ensures Kiss.Escape(b) == if b == 0xC0 then [0xDB, 0xDC] else if b == 0xDB then [0xDB, 0xDD] else [b]
  {
  }

  lemma EscapeAllMore(s: seq<byte>, b: byte)
    ensures Kiss.EscapeAll(s + [b]) == Kiss.EscapeAll(s) + Kiss.Escape(b) && Kiss.EscapeAll([]) == []
  {
    assert (s + [b])[..|s|] == s;
    hide Kiss.Escape;
  }

  /** The first byte of a frame: the port in the high half, the command in the low one. */
  lemma CommandLayout(port: byte, cmd: byte)
    ensures Kiss.CommandByte(port, cmd) as int == 16 * ((port as int) % 16) + (cmd as int) % 16
  {
    CommandBits(port, cmd);
    LowHalf(port);
    LowHalf(cmd);
  }

  lemma LowHalf(b: byte)
    ensures (b & 0x0F) as int == (b as int) % 16
  {
  }

  lemma CommandBits(port: byte, cmd: byte)
    ensures Kiss.CommandByte(port, cmd) as int == 16 * ((port & 0x0F) as int) + (cmd & 0x0F) as int
  {
    assert Kiss.CommandByte(port, cmd) == ((port & 0x0F) << 4) + (cmd & 0x0F);
  }

  /** 0xC0, the escaped command byte and payload, 0xC0. */
  lemma KissLayout(port: byte, cmd: byte, payload: seq<byte>)
    ensures Kiss.Encoded(port, cmd, payload) == [0xC0] + Kiss.EscapeAll([Kiss.CommandByte(port, cmd)] + payload) + [0xC0]
  {
  }

  /** Payloads of up to 2047 bytes arrive, longer ones do not. */
  lemma KissLimit(port: byte, cmd: byte, payload: seq<byte>)
    ensures Kiss.Feed(Kiss.READY, Kiss.Encoded(port, cmd, payload)).1 == if |payload| <= 2047 then [Kiss.Frame(port & 0x0F, payload)] else []
  {
    Kiss.SelfSynchronising(Kiss.READY, port, cmd, payload);
    Kiss.FeedOne(Kiss.READY, Kiss.FEND);
    hide Kiss.Feed, Kiss.Encoded;
  }
}
