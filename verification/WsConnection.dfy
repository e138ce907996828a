/** The WebSocket receive side in place: a fixed buffer that is filled by reads and shifted frame by frame. */
module WsConnection {
  import opened Bytes
  import W = WsFrames

  class Connection {
    var established: bool
    const rxBuf: array<byte>
    var rxLen: nat

    ghost predicate Valid()
      reads this
    {
      rxBuf.Length == W.BUFFER && rxLen <= rxBuf.Length
    }

    ghost function Kept(): seq<byte>
      requires Valid()
      reads this, rxBuf
    {
      rxBuf[..rxLen]
    }

    constructor ()
      ensures Valid() && fresh(rxBuf) && Kept() == [] && !established
    {
      established, rxLen := false, 0;
      rxBuf := new byte[W.BUFFER](_ => 0);
    }

    /** The size of the frame in front, if it can be told. */
    method PeekFrame() returns (h: W.Head)
      requires Valid()
      ensures h == W.Peek(Kept())
    {
      hide W.Length7, W.Length16;
      if rxLen < 2 {
        return W.Unknown;
      }
      LengthBound(rxBuf[1]);
      var payload, header := W.Length7(rxBuf[1]), 2;
      if payload == 126 {
        if rxLen < 4 {
          return W.Unknown;
        }
        payload, header := W.Length16(rxBuf[2], rxBuf[3]), 4;
      } else if payload == 127 {
        return W.Refused;
      }
      if payload > W.MAX_PAYLOAD {
        return W.Refused;
      }
      h := W.Size(header + 4, payload);
    }

    /** The payload of the frame in front, unmasked. */
    method Unmask(header: nat, n: nat) returns (payload: seq<byte>)
      requires Valid() && 4 <= header && header + n <= rxLen && n <= W.MAX_PAYLOAD
      ensures payload == W.Mask(Kept()[header..header + n], Kept()[header - 4..header])
    {
      hide W.Masked;
      var mask := rxBuf[header - 4..header];
      var out := new byte[W.MAX_PAYLOAD](_ => 0);
      var i := 0;
      while i < n
        invariant 0 <= i <= n
        invariant forall j | 0 <= j < i :: out[j] == W.Masked(rxBuf[header + j], mask[j % 4])
      {
        out[i] := W.Masked(rxBuf[header + i], mask[i % 4]);
        i := i + 1;
      }
      payload := out[..n];
      assert payload == W.Mask(rxBuf[header..header + n], mask);
      assert rxBuf[header..header + n] == Kept()[header..header + n] && mask == Kept()[header - 4..header];
    }

    method HandleFrame(h: W.Head) returns (events: seq<W.Event>, outcome: W.Outcome)
      requires Valid() && W.Complete(Kept()) && h == W.Peek(Kept())
      ensures (events, outcome) == W.Handle(Kept())
    {
      hide W.Peek, W.Mask, W.TopBit, W.Opcode;
      events := [];
      if !W.TopBit(rxBuf[0]) {
        return [], W.Unsupported;
      }
      if !W.TopBit(rxBuf[1]) {
        return [], W.Io;
      }
      var payload := Unmask(h.header, h.payload);
      match W.Opcode(rxBuf[0]) {
        case 1 =>
          if |payload| > 0 {
            events := [W.Data(payload)];
          }
        case 2 =>
          if |payload| > 0 {
            events := [W.Data(payload)];
          }
        case 8 =>
          return [], W.Io;
        case 9 =>
          events := [W.Pong];
        case _ =>
      }
      outcome := W.Fine;
    }

    /** Move what follows the first n bytes to the front. */
    method Shift(n: nat)
      requires Valid() && 0 < n <= rxLen
      modifies this`rxLen, rxBuf
      ensures Valid() && Kept() == old(Kept())[n..]
    {
      Copy(rxBuf[n..rxLen], rxBuf, 0);
      rxLen := rxLen - n;
    }

    method Append(chunk: seq<byte>)
      requires Valid() && rxLen + |chunk| <= W.BUFFER
      modifies this`rxLen, rxBuf
      ensures Valid() && Kept() == old(Kept()) + chunk
    {
      Copy(chunk, rxBuf, rxLen);
      rxLen := rxLen + |chunk|;
    }

    /** One read of the socket; an empty chunk stands for a closed connection or an error. */
    method ReadFrames(chunk: seq<byte>) returns (events: seq<W.Event>, outcome: W.Outcome)
      requires Valid()
      modifies this`rxLen, rxBuf
      ensures Valid()
      ensures W.State(Kept(), events, outcome) ==
              if old(established) then W.Read(old(Kept()), chunk) else W.State(old(Kept()), [], W.Invalid)
    {
      events := [];
      if !established {
        return [], W.Invalid;
      }
      if chunk == [] {
        return [], W.Io;
      }
      if rxLen + |chunk| > rxBuf.Length {
        rxLen := 0;
        return [], W.Io;
      }
      Append(chunk);
      events, outcome := Drain();
    }

    method Drain() returns (events: seq<W.Event>, outcome: W.Outcome)
      requires Valid()
      modifies this`rxLen, rxBuf
      ensures Valid() && W.State(Kept(), events, outcome) == W.Run(old(Kept()))
    {
      hide W.Peek, W.Handle, W.Run;
      events := [];
      ghost var whole := Kept();
      assert [] + W.Run(whole).events == W.Run(whole).events;
      while rxLen >= 2
        invariant Valid()
        invariant W.Run(whole) == (var r := W.Run(Kept()); r.(events := events + r.events))
        decreases rxLen
      {
        W.RunCases(Kept());
        var h := PeekFrame();
        assert events + [] == events;
        if h.Refused? {
          return events, W.Unsupported;
        }
        if h.Unknown? || rxLen < h.header + h.payload {
          return events, W.Fine;
        }
        var more, rc := HandleFrame(h);
        if rc != W.Fine {
          return events, rc;
        }
        ghost var rest := Kept()[h.header + h.payload..];
        assert events + (more + W.Run(rest).events) == (events + more) + W.Run(rest).events;
        Shift(h.header + h.payload);
        events := events + more;
      }
      PeekShort(Kept());
      W.RunCases(Kept());
      assert events + [] == events;
      outcome := W.Fine;
    }
  }

  lemma LengthBound(b: byte)
    ensures W.Length7(b) < 128
  {
  }

  lemma PeekShort(s: seq<byte>)
    requires |s| < 2
    ensures W.Peek(s).Unknown?
  {
  }
}
