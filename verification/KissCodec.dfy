/** The KISS decoder and encoder in place. */
module KissCodec {
  import opened Bytes
  import K = Kiss

  class Decoder {
    const buf: array<byte>
    var len: nat
    var inFrame: bool
    var escape: bool

    ghost predicate Valid()
      reads this
    {
      buf.Length == K.MAX_FRAME && len <= buf.Length
    }

    ghost function View(): K.Decoder
      requires Valid()
      reads this, buf
    {
      K.Decoder(buf[..len], inFrame, escape)
    }

    constructor ()
      ensures Valid() && fresh(buf) && View() == K.INIT
    {
      buf := new byte[K.MAX_FRAME](_ => 0);
      len, inFrame, escape := 0, false, false;
    }

    method DeliverFrame() returns (out: seq<K.Frame>)
      requires Valid() && inFrame && len > 0
      ensures out == K.Flush(View())
    {
      assert buf[1..len] == buf[..len][1..];
      out := [K.Frame(K.PortOf(buf[0]), buf[1..len])];
    }

    method FeedByte(data: byte) returns (out: seq<K.Frame>)
      requires Valid()
      modifies this, buf
      ensures Valid() && (View(), out) == K.FeedByte(old(View()), data)
    {
      out := [];
      var b := data;
      if b == K.FEND {
        if inFrame && len > 0 {
          out := DeliverFrame();
        }
        inFrame, escape, len := true, false, 0;
        return;
      }
      if !inFrame {
        return;
      }
      if escape {
        if b == K.TFEND {
          b := K.FEND;
        } else if b == K.TFESC {
          b := K.FESC;
        }
        escape := false;
      } else if b == K.FESC {
        escape := true;
        return;
      }
      if len >= K.MAX_FRAME {
        len, inFrame := 0, false;
        return;
      }
      ghost var was := buf[..len];
      buf[len] := b;
      len := len + 1;
      assert buf[..len] == was + [b];
    }

    method Feed(data: seq<byte>) returns (out: seq<K.Frame>)
      requires Valid()
      modifies this, buf
      ensures Valid() && (View(), out) == K.Feed(old(View()), data)
    {
      ghost var d := View();
      K.FeedNone(d);
      hide K.FeedByte, K.Feed;
      assert data[..0] == [];
      out := [];
      var i := 0;
      while i < |data|
        invariant 0 <= i <= |data| && Valid()
        invariant (View(), out) == K.Feed(d, data[..i])
      {
        K.FeedConcat(d, data[..i], [data[i]]);
        K.FeedOne(View(), data[i]);
        assert data[..i + 1] == data[..i] + [data[i]];
        var more := FeedByte(data[i]);
        out := out + more;
        i := i + 1;
      }
      assert data[..i] == data;
    }
  }

  /** Append one escaped byte; 0 if it does not fit. */
  method WriteByte(b: byte, out: array<byte>, cap: nat, at: nat) returns (pos: nat)
    requires 0 < at <= cap <= out.Length
    modifies out
    ensures pos == if at + |K.Escape(b)| <= cap then at + |K.Escape(b)| else 0
    ensures pos > 0 ==> out[..pos] == old(out[..at]) + K.Escape(b)
  {
    if at + 1 > cap {
      return 0;
    }
    if b == K.FEND {
      if at + 2 > cap {
        return 0;
      }
      out[at], out[at + 1] := K.FESC, K.TFEND;
      return at + 2;
    }
    if b == K.FESC {
      if at + 2 > cap {
        return 0;
      }
      out[at], out[at + 1] := K.FESC, K.TFESC;
      return at + 2;
    }
    out[at] := b;
    pos := at + 1;
  }

  lemma {:induction false} EscapeGrows(s: seq<byte>, i: nat)
    requires i <= |s|
    ensures |K.EscapeAll(s[..i])| <= |K.EscapeAll(s)|
    decreases |s| - i
  {
    if i < |s| {
      assert s[..i + 1][..i] == s[..i];
      EscapeGrows(s, i + 1);
    } else {
      assert s[..i] == s;
    }
  }

  /** Append all bytes escaped behind the opening delimiter; 0 as soon as one does not fit. */
  method WriteAll(s: seq<byte>, out: array<byte>, cap: nat) returns (pos: nat)
    requires 1 <= cap <= out.Length && out[0] == K.FEND
    modifies out
    ensures pos == if 1 + |K.EscapeAll(s)| <= cap then 1 + |K.EscapeAll(s)| else 0
    ensures pos > 0 ==> out[..pos] == [K.FEND] + K.EscapeAll(s)
  {
    hide K.EscapeAll, K.Escape;
    pos := 1;
    EscapedNone(s);
    var i := 0;
    while i < |s|
      invariant 0 <= i <= |s| && 0 < pos <= cap
      invariant out[..pos] == [K.FEND] + K.EscapeAll(s[..i])
    {
      EscapedPrefix(s, i);
      ghost var done := K.EscapeAll(s[..i]);
      pos := WriteByte(s[i], out, cap, pos);
      if pos == 0 {
        return 0;
      }
      assert out[..pos] == [K.FEND] + (done + K.Escape(s[i]));
      i := i + 1;
    }
    assert s[..i] == s;
  }

  lemma EscapedNone(s: seq<byte>)
    ensures K.EscapeAll(s[..0]) == []
  {
  }

  /** Encode into the first n bytes of `out`; it works exactly when the frame, and four bytes beside the payload, fit. */
  method EncodeInto(port: byte, cmd: byte, payload: seq<byte>, out: array<byte>, cap: nat) returns (n: nat)
    requires cap <= out.Length
    modifies out
    ensures var e := K.Encoded(port, cmd, payload);
            n == (if |payload| + 4 <= cap && |e| <= cap then |e| else 0) && (n > 0 ==> out[..n] == e)
  {
    if cap < 3 || |payload| + 4 > cap {
      return 0;
    }
    EncodedParts(port, cmd, payload);
    hide K.Encoded, K.EscapeAll, K.CommandByte;
    out[0] := K.FEND;
    var pos := WriteAll([K.CommandByte(port, cmd)] + payload, out, cap);
    if pos == 0 || pos + 1 > cap {
      return 0;
    }
    out[pos] := K.FEND;
    n := pos + 1;
  }

  lemma EncodedParts(port: byte, cmd: byte, payload: seq<byte>)
    ensures K.Encoded(port, cmd, payload) == [K.FEND] + K.EscapeAll([K.CommandByte(port, cmd)] + payload) + [K.FEND]
  {
  }

  /** One more byte of the frame, as far as it fits. */
  lemma EscapedPrefix(s: seq<byte>, i: nat)
    requires i < |s|
    ensures K.EscapeAll(s[..i + 1]) == K.EscapeAll(s[..i]) + K.Escape(s[i]) && |K.EscapeAll(s[..i + 1])| <= |K.EscapeAll(s)|
    ensures i == 0 ==> K.EscapeAll(s[..i + 1]) == K.Escape(s[i])
  {
    assert s[..i + 1][..i] == s[..i];
    EscapeGrows(s, i + 1);
  }
}
