/**
 The two ways a UI frame travels over a circuit: as the raw AX.25 frame, or as
 a masked payload that carries the path in front.  Both preserve path and
 payload from end to end.
 */
module Carriage {
  import opened Wrappers
  import opened Bytes
  import opened Ax25
  import Hbx
  import Ax25Codec

  const PROTO_AX25: byte := 0x01
  const PROTO_AX25_UI: byte := 0x02
  const FLAG_PATH: bv16 := 0x0004

  /** The masked payload, or nothing if it does not fit. */
  function Pack(p: Path, payload: seq<byte>, cap: nat): seq<byte> {
    if 1 + |payload| > cap then []
    else if 1 + ADDR_LEN * (2 + |p.digis|) > cap then []
    else if |payload| > 0 && 1 + ADDR_LEN * (2 + |p.digis|) + |payload| > cap then []
    else [Digit(|p.digis|)] + AddressFields(p) + payload
  }

  /** The HBX frame of a masked payload, as received by the other end; none if it cannot be encoded. */
  function PackedFrame(p: Path, payload: seq<byte>, flags: bv16): Option<Hbx.Frame> {
    var body := Pack(p, payload, Hbx.MAX_PAYLOAD);
    if body == [] && |payload| > 0 then None
    else Some(Hbx.Frame(PROTO_AX25_UI, flags | FLAG_PATH, body))
  }

  function UnpackDigis(s: seq<byte>, n: nat): (digis: seq<Address>)
    requires |s| >= ADDR_LEN * n
    ensures |digis| == n
    decreases n
  {
    if n == 0 then [] else [DecodeAddress(s)] + UnpackDigis(s[ADDR_LEN..], n - 1)
  }

  function CountOf(b: byte): nat {
    b as int
  }

  /** The path and payload of a masked payload, given a path to fill in. */
  function Unpack(s: seq<byte>, cap: nat): Option<(Path, seq<byte>)> {
    if |s| < 1 then None else
    var n := CountOf(s[0]);
    if n > MAX_DIGI || 1 + ADDR_LEN * (2 + n) > |s| then None else
    var dest := DecodeAddress(s[1..]);
    var digis := UnpackDigis(s[1 + ADDR_LEN..], n);
    var source := DecodeAddress(s[1 + ADDR_LEN * (1 + n)..]);
    var payload := s[1 + ADDR_LEN * (2 + n)..];
    if |payload| > cap then None else Some((Path(dest, source, digis), payload))
  }

  lemma DecodePrefix(s: seq<byte>, a: Address, last: bool)
    requires WellFormed(a) && EncodeAddress(a, last) <= s
    ensures DecodeAddress(s) == a
  {
    AddressSurvives(a, last);
    var e := EncodeAddress(a, last);
    assert forall i | 0 <= i < ADDR_LEN :: s[i] == e[i];
  }

  lemma {:induction false} DigisSurvive(s: seq<byte>, digis: seq<Address>)
    requires (forall i | 0 <= i < |digis| :: WellFormed(digis[i])) && DigiFields(digis) <= s
    ensures UnpackDigis(s, |digis|) == digis
    decreases digis
  {
    hide DecodeAddress, EncodeAddress, WellFormed;
    if digis != [] {
      var f := DigiFields(digis);
      assert f[..ADDR_LEN] == EncodeAddress(digis[0], false);
      DecodePrefix(s, digis[0], false);
      assert s[ADDR_LEN..][..|f| - ADDR_LEN] == f[ADDR_LEN..] == DigiFields(digis[1..]);
      DigisSurvive(s[ADDR_LEN..], digis[1..]);
    }
  }

  predicate RoomToPack(p: Path, payload: seq<byte>, cap: nat) {
    1 + ADDR_LEN * (2 + |p.digis|) + |payload| <= cap
  }

  lemma PackRoundTrip(p: Path, payload: seq<byte>, cap: nat, payloadCap: nat)
    requires PathWellFormed(p) && RoomToPack(p, payload, cap) && |payload| <= payloadCap
    ensures Unpack(Pack(p, payload, cap), payloadCap) == Some((p, payload))
  {
    hide *;
    var n := |p.digis|;
    var (dest, mid, source) := (EncodeAddress(p.dest, false), DigiFields(p.digis), EncodeAddress(p.source, true));
    var s := [Digit(n)] + dest + mid + source + payload;
    PackIs(p, payload, cap);
    FieldSizes(p);
    Pieces(Digit(n), dest, mid, source, payload, n);
    DecodePrefix(s[1..], p.dest, false);
    DigisSurvive(s[8..], p.digis);
    DecodePrefix(s[1 + 7 * (1 + n)..], p.source, true);
    UnpackIs(s, p, payload, payloadCap);
  }

  lemma PackIs(p: Path, payload: seq<byte>, cap: nat)
    requires PathWellFormed(p) && RoomToPack(p, payload, cap)
    ensures WellFormed(p.dest) && WellFormed(p.source) && forall i | 0 <= i < |p.digis| :: WellFormed(p.digis[i])
    ensures |p.digis| <= 8
    ensures Pack(p, payload, cap) ==
            [Digit(|p.digis|)] + EncodeAddress(p.dest, false) + DigiFields(p.digis) + EncodeAddress(p.source, true) + payload
  {
    hide EncodeAddress, DigiFields, Digit, WellFormed;
    assert Pack(p, payload, cap) == [Digit(|p.digis|)] + AddressFields(p) + payload;
  }

  lemma FieldSizes(p: Path)
    ensures ADDR_LEN == 7 && MAX_DIGI == 8 && |EncodeAddress(p.dest, false)| == 7 && |EncodeAddress(p.source, true)| == 7
    ensures |DigiFields(p.digis)| == 7 * |p.digis|
  {
  }

  lemma UnpackIs(s: seq<byte>, p: Path, payload: seq<byte>, cap: nat)
    requires |p.digis| <= MAX_DIGI && |s| == 1 + ADDR_LEN * (2 + |p.digis|) + |payload| && s[0] == Digit(|p.digis|)
    requires DecodeAddress(s[1..]) == p.dest && UnpackDigis(s[1 + ADDR_LEN..], |p.digis|) == p.digis
    requires DecodeAddress(s[1 + ADDR_LEN * (1 + |p.digis|)..]) == p.source
    requires s[1 + ADDR_LEN * (2 + |p.digis|)..] == payload && |payload| <= cap
    ensures Unpack(s, cap) == Some((p, payload))
  {
    hide Digit, CountOf, DecodeAddress, UnpackDigis;
    CountDigit(|p.digis|);
  }

  lemma CountDigit(n: nat)
    requires n < 256
    ensures CountOf(Digit(n)) == n
  {
    DigitValue(n);
    hide Digit;
  }

  lemma Pieces(d: byte, dest: seq<byte>, mid: seq<byte>, source: seq<byte>, payload: seq<byte>, n: nat)
    requires |dest| == |source| == ADDR_LEN && |mid| == ADDR_LEN * n
    ensures var s := [d] + dest + mid + source + payload;
            && |s| == 1 + ADDR_LEN * (2 + n) + |payload|
            && s[0] == d && dest <= s[1..] && mid <= s[1 + ADDR_LEN..] && source <= s[1 + ADDR_LEN * (1 + n)..]
            && s[1 + ADDR_LEN * (2 + n)..] == payload
  {
    var s := [d] + dest + mid + source + payload;
    assert s[1..] == dest + (mid + source + payload);
    assert s[1 + ADDR_LEN..] == mid + (source + payload);
    assert s[1 + ADDR_LEN * (1 + n)..] == source + payload;
  }

  /**
   Raw carriage: build the frame, encode it for the circuit, and whatever way
   the stream is cut, the other end parses the same path and payload from the
   one frame it is given.
   */
  lemma RawEndToEnd(p: Path, payload: seq<byte>, cap: nat, payloadCap: nat, flags: bv16, unused: byte, chunks: seq<seq<byte>>)
    requires PathWellFormed(p) && RoomFor(p, payload, cap) && |payload| <= payloadCap
    requires Concat(chunks) == Hbx.Encode(Hbx.Frame(PROTO_AX25, flags, BuildUi(p, payload, cap)), unused)
    ensures var (frames, kept) := Hbx.Feeds([], chunks);
            && kept == [] && |frames| == 1 && frames[0].proto == PROTO_AX25 && frames[0].flags == flags
            && ParseUi(frames[0].payload, payloadCap) == Some((p, payload))
  {
    UiRoundTrip(p, payload, cap, payloadCap);
    var f := Hbx.Frame(PROTO_AX25, flags, BuildUi(p, payload, cap));
    assert |f.payload| <= Hbx.MAX_PAYLOAD by {
      BuiltSize(p, payload, cap);
    }
    hide BuildUi, ParseUi, Hbx.Encode;
    OneFrame(f, unused, chunks);
  }

  lemma BuiltSize(p: Path, payload: seq<byte>, cap: nat)
    requires PathWellFormed(p)
    ensures |BuildUi(p, payload, cap)| <= ADDR_LEN * (2 + MAX_DIGI) + 4 + PAYLOAD_MAX
  {
  }

  lemma OneFrame(f: Hbx.Frame, unused: byte, chunks: seq<seq<byte>>)
    requires |f.payload| <= Hbx.MAX_PAYLOAD && Concat(chunks) == Hbx.Encode(f, unused)
    ensures Hbx.Feeds([], chunks) == ([f], [])
  {
    Hbx.StreamingIsBatch([], chunks);
    Hbx.RoundTrip(f, unused, []);
    assert Hbx.Encode(f, unused) + [] == Hbx.Encode(f, unused) == [] + Hbx.Encode(f, unused);
    assert Hbx.Parse([]) == ([], []);
    assert [f] + [] == [f];
  }

  /** Masked carriage: the same for the packed path and payload. */
  lemma PackedEndToEnd(p: Path, payload: seq<byte>, payloadCap: nat, flags: bv16, unused: byte, chunks: seq<seq<byte>>)
    requires PathWellFormed(p) && RoomToPack(p, payload, Hbx.MAX_PAYLOAD) && |payload| <= payloadCap
    requires PackedFrame(p, payload, flags).Some?
    requires Concat(chunks) == Hbx.Encode(PackedFrame(p, payload, flags).value, unused)
    ensures var (frames, kept) := Hbx.Feeds([], chunks);
            && kept == [] && |frames| == 1 && frames[0].proto == PROTO_AX25_UI && frames[0].flags & FLAG_PATH != 0
            && Unpack(frames[0].payload, payloadCap) == Some((p, payload))
  {
    PackRoundTrip(p, payload, Hbx.MAX_PAYLOAD, payloadCap);
    var f := PackedFrame(p, payload, flags).value;
    FlagSet(flags);
    assert |f.payload| <= Hbx.MAX_PAYLOAD;
    hide Pack, Unpack, Hbx.Encode;
    OneFrame(f, unused, chunks);
  }

  lemma FlagSet(flags: bv16)
    ensures (flags | FLAG_PATH) & FLAG_PATH != 0
  {
  }

  /** And with room for it the masked frame is always there to be sent. */
  lemma PackedFrameExists(p: Path, payload: seq<byte>, flags: bv16)
    requires RoomToPack(p, payload, Hbx.MAX_PAYLOAD)
    ensures PackedFrame(p, payload, flags).Some? && |PackedFrame(p, payload, flags).value.payload| == 1 + ADDR_LEN * (2 + |p.digis|) + |payload|
  {
  }

  // ---------- in place ----------

  /** Pack into the first n bytes of `out`; 0 if it does not fit. */
  method PackInto(p: Path, payload: seq<byte>, out: array<byte>, cap: nat) returns (n: nat)
    requires cap <= out.Length
    modifies out
    ensures n <= cap && out[..n] == Pack(p, payload, cap)
  {
    hide AddressFields, Digit;
    if 1 + |payload| > cap {
      return 0;
    }
    Ax25Codec.AppendBytes([Digit(|p.digis|)], out, 0);
    if 1 + ADDR_LEN * (2 + |p.digis|) > cap {
      return 0;
    }
    Ax25Codec.WriteAddresses(p, out, 1);
    n := 1 + ADDR_LEN * (2 + |p.digis|);
    if |payload| > 0 {
      if n + |payload| > cap {
        return 0;
      }
      Ax25Codec.AppendBytes(payload, out, n);
      n := n + |payload|;
    } else {
      assert payload == [];
    }
  }

  lemma {:induction false} UnpackMore(s: seq<byte>, n: nat)
    requires |s| >= ADDR_LEN * (n + 1)
    ensures UnpackDigis(s, n + 1) == UnpackDigis(s, n) + [DecodeAddress(s[ADDR_LEN * n..])]
  {
    hide DecodeAddress;
    if n == 0 {
      assert s[ADDR_LEN * 0..] == s;
    } else {
      var t := s[ADDR_LEN..];
      UnpackMore(t, n - 1);
      assert t[ADDR_LEN * (n - 1)..] == s[ADDR_LEN * n..];
      var first := [DecodeAddress(s)];
      assert UnpackDigis(s, n + 1) == first + UnpackDigis(t, n);
      assert UnpackDigis(s, n) == first + UnpackDigis(t, n - 1);
      hide UnpackDigis;
    }
  }

  /** The path and the payload length of a masked payload, the payload copied out; 0 if it is refused. */
  method UnpackInto(s: seq<byte>, ui: array<byte>, cap: nat) returns (n: nat, path: Path)
    requires cap <= ui.Length
    modifies ui
    ensures Unpack(s, cap).None? ==> n == 0
    ensures Unpack(s, cap).Some? ==>
              path == Unpack(s, cap).value.0 && n == |Unpack(s, cap).value.1| && ui[..n] == Unpack(s, cap).value.1
  {
    hide DecodeAddress, CountOf;
    n, path := 0, NO_PATH;
    if |s| < 1 {
      return;
    }
    var count := CountOf(s[0]);
    if count > MAX_DIGI || 1 + ADDR_LEN * (2 + count) > |s| {
      return;
    }
    path := path.(dest := DecodeAddress(s[1..]));
    var pos := 1 + ADDR_LEN;
    ghost var fields := s[pos..];
    var i := 0;
    while i < count
      invariant 0 <= i <= count && pos == 1 + ADDR_LEN * (1 + i)
      invariant path == Path(DecodeAddress(s[1..]), NO_ADDRESS, UnpackDigis(fields, i))
    {
      UnpackMore(fields, i);
      assert fields[ADDR_LEN * i..] == s[pos..];
      path := path.(digis := path.digis + [DecodeAddress(s[pos..])]);
      pos := pos + ADDR_LEN;
      i := i + 1;
    }
    path := path.(source := DecodeAddress(s[pos..]));
    pos := pos + ADDR_LEN;
    if |s| - pos > cap {
      return;
    }
    Copy(s[pos..], ui, 0);
    n := |s| - pos;
  }
}
