/** Building and parsing UI frames in place, as loops over the caller's buffers. */
module Ax25Codec {
  import opened Wrappers
  import opened Bytes
  import opened Ax25
  import Crc

  method EncodeAddressInto(a: Address, last: bool, out: array<byte>, at: nat)
    requires at + ADDR_LEN <= out.Length
    modifies out
    ensures out[..at + ADDR_LEN] == old(out[..at]) + EncodeAddress(a, last)
  {
    ghost var was := out[..at];
    var i := 0;
    hide CallByte, SsidByte, EncodeAddress;
    while i < CALL_MAX
      invariant 0 <= i <= CALL_MAX
      invariant out[..at] == was
      invariant forall k | at <= k < at + i :: out[k] == CallByte(a.call, k - at)
    {
      out[at + i] := CallByte(a.call, i);
      i := i + 1;
    }
    out[at + 6] := SsidByte(a.ssid, last);
    FieldBytes(a, last, out[at..at + ADDR_LEN]);
    assert out[..at + ADDR_LEN] == out[..at] + out[at..at + ADDR_LEN];
  }

  lemma FieldBytes(a: Address, last: bool, field: seq<byte>)
    requires |field| == ADDR_LEN && field[6] == SsidByte(a.ssid, last)
    requires forall k | 0 <= k < CALL_MAX :: field[k] == CallByte(a.call, k)
    ensures field == EncodeAddress(a, last)
  {
    hide CallByte, SsidByte;
  }

  /** The address fields behind the first `at` bytes. */
  method WriteAddresses(p: Path, out: array<byte>, at: nat)
    requires at + ADDR_LEN * (2 + |p.digis|) <= out.Length
    modifies out
    ensures out[..at + ADDR_LEN * (2 + |p.digis|)] == old(out[..at]) + AddressFields(p)
  {
    hide EncodeAddress;
    ghost var was := out[..at];
    EncodeAddressInto(p.dest, false, out, at);
    var pos := at + ADDR_LEN;
    ghost var done := EncodeAddress(p.dest, false);
    assert out[..pos] == was + done;
    assert p.digis[0..] == p.digis;
    var i := 0;
    while i < |p.digis|
      invariant 0 <= i <= |p.digis| && pos == at + ADDR_LEN * (1 + i)
      invariant out[..pos] == was + done
      invariant done + DigiFields(p.digis[i..]) == EncodeAddress(p.dest, false) + DigiFields(p.digis)
    {
      EncodeAddressInto(p.digis[i], false, out, pos);
      assert p.digis[i..][1..] == p.digis[i + 1..];
      NextField(done, p.digis[i..]);
      assert was + (done + EncodeAddress(p.digis[i], false)) == was + done + EncodeAddress(p.digis[i], false);
      done := done + EncodeAddress(p.digis[i], false);
      pos := pos + ADDR_LEN;
      i := i + 1;
    }
    assert done == EncodeAddress(p.dest, false) + DigiFields(p.digis);
    EncodeAddressInto(p.source, true, out, pos);
    assert was + (done + EncodeAddress(p.source, true)) == was + done + EncodeAddress(p.source, true);
  }

  /** All address fields at the start of `out`, or none if they do not fit. */
  method AppendAddresses(p: Path, out: array<byte>, cap: nat) returns (pos: nat)
    requires cap <= out.Length
    modifies out
    ensures pos <= cap
    ensures out[..pos] == if cap < (2 + |p.digis|) * ADDR_LEN then [] else AddressFields(p)
  {
    if cap < (2 + |p.digis|) * ADDR_LEN {
      return 0;
    }
    hide AddressFields;
    WriteAddresses(p, out, 0);
    pos := ADDR_LEN * (2 + |p.digis|);
    assert out[..pos] == [] + AddressFields(p);
  }

  lemma NextField(done: seq<byte>, todo: seq<Address>)
    requires todo != []
    ensures done + EncodeAddress(todo[0], false) + DigiFields(todo[1..]) == done + DigiFields(todo)
  {
    hide EncodeAddress;
  }

  method AppendBytes(src: seq<byte>, out: array<byte>, at: nat)
    requires at + |src| <= out.Length
    modifies out
    ensures out[..at + |src|] == old(out[..at]) + src
  {
    Copy(src, out, at);
  }

  /** The frame is built in the first n bytes; 0 means it was refused. */
  method BuildInto(p: Path, payload: seq<byte>, out: array<byte>, cap: nat) returns (n: nat)
    requires cap <= out.Length
    modifies out
    ensures n <= cap && out[..n] == BuildUi(p, payload, cap)
  {
    BuildParts(p, payload, cap);
    hide BuildUi, AddressFields, FcsBytes;
    if |payload| + 32 > cap || |payload| > PAYLOAD_MAX {
      return 0;
    }
    var pos := AppendAddresses(p, out, cap);
    if pos + 4 + |payload| > cap {
      return 0;
    }
    AppendBytes([CTRL_UI, PID_NOL3], out, pos);
    pos := pos + 2;
    AppendBytes(payload, out, pos);
    pos := pos + |payload|;
    var crc := Crc.Compute(out[..pos]);
    CheckBytes(out[..pos], crc);
    AppendBytes([Low(crc), High(crc)], out, pos);
    n := pos + 2;
  }

  lemma BuildParts(p: Path, payload: seq<byte>, cap: nat)
    ensures var fields := if cap < (2 + |p.digis|) * ADDR_LEN then [] else AddressFields(p);
            var body := fields + [CTRL_UI, PID_NOL3] + payload;
            BuildUi(p, payload, cap) ==
            if |payload| + 32 > cap || |payload| > PAYLOAD_MAX || |fields| + 4 + |payload| > cap then [] else body + FcsBytes(body)
  {
  }

  lemma CheckBytes(body: seq<byte>, crc: bv16)
    requires crc == Crc.Fcs(body)
    ensures FcsBytes(body) == [Low(crc), High(crc)]
  {
  }

  /** The payload length and path of a valid frame, the payload copied out; 0 if it is refused. */
  method ParseInto(frame: seq<byte>, payload: array<byte>, cap: nat) returns (n: nat, path: Path)
    requires cap <= payload.Length
    modifies payload
    ensures ParseUi(frame, cap).None? ==> n == 0
    ensures ParseUi(frame, cap).Some? ==>
              path == ParseUi(frame, cap).value.0 && n == |ParseUi(frame, cap).value.1| && payload[..n] == ParseUi(frame, cap).value.1
  {
    hide DecodeAddress, IsLast, FcsBytes;
    n, path := 0, NO_PATH;
    if |frame| < MIN_FRAME {
      return;
    }
    var pos, digi, last := 0, 0, false;
    ghost var all := ReadFields(frame, 0, 0, NO_PATH);
    while pos + ADDR_LEN <= |frame| && !last
      invariant pos <= |frame|
      invariant !last ==> all == ReadFields(frame, pos, digi, path)
      invariant last ==> all == Some(Fields(pos, path))
      decreases |frame| - pos
    {
      var field := frame[pos..pos + ADDR_LEN];
      last := IsLast(field);
      var tmp := DecodeAddress(field);
      if digi == 0 {
        path := path.(dest := tmp);
      } else if !last {
        if digi - 1 < MAX_DIGI {
          path := path.(digis := path.digis + [tmp]);
        }
      } else {
        path := path.(source := tmp);
      }
      pos := pos + ADDR_LEN;
      digi := digi + 1;
      if !last && digi > MAX_DIGI + 1 {
        return;
      }
    }
    assert all == Some(Fields(pos, path));
    if pos + 4 > |frame| || frame[pos] != CTRL_UI {
      return;
    }
    pos := pos + 2;
    var m := |frame| - 2;
    var crc := Crc.Compute(frame[..m]);
    CheckBytes(frame[..m], crc);
    assert frame[m..] == [frame[m], frame[m + 1]];
    HalvesJoin(frame[m + 1], frame[m]);
    JoinHalves(crc);
    if Join(frame[m + 1], frame[m]) != crc {
      return;
    }
    if m - pos > cap {
      return;
    }
    Copy(frame[pos..m], payload, 0);
    n := m - pos;
  }
}
