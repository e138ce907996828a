/** The HBX decoder and encoder in place: a byte buffer with a fill mark, and an output buffer. */
module HbxCodec {
  import opened Bytes
  import opened Hbx

  class Decoder {
    const buf: array<byte>
    var len: nat
    var need: nat
    var haveHeader: bool
    var proto: byte
    var flags: bv16

    /** Between bytes the buffer holds a residual; so it is never full. */
    ghost predicate Valid()
      reads this, buf
    {
      && buf.Length == MAX_FRAME && len < MAX_FRAME
      && (if haveHeader then
            len >= HEADER && ValidHeader(buf[..len]) && need == Need(buf[..len]) && len < HEADER + need &&
            proto == buf[4] && flags == Join(buf[5], buf[6])
          else len < HEADER)
    }

    ghost function Kept(): seq<byte>
      requires len <= buf.Length
      reads this, buf
    {
      buf[..len]
    }

    constructor ()
      ensures Valid() && fresh(buf) && Kept() == []
    {
      buf := new byte[MAX_FRAME](_ => 0);
      len, need, haveHeader, proto, flags := 0, 0, false, 0, 0;
    }

    /** Take the header at the start of the buffer, if it is one. */
    method ParseHeader() returns (ok: bool)
      requires buf.Length == MAX_FRAME && HEADER <= len <= MAX_FRAME
      modifies this`proto, this`flags, this`need
      ensures ok == ValidHeader(Kept())
      ensures ok ==> need == Need(Kept()) && proto == buf[4] && flags == Join(buf[5], buf[6])
    {
      assert Kept()[..4] == [buf[0], buf[1], buf[2], buf[3]];
      if buf[0] != 0x48 || buf[1] != 0x42 || buf[2] != 0x58 || buf[3] != 0x01 {
        return false;
      }
      proto := buf[4];
      flags := Join(buf[5], buf[6]);
      need := Be32(buf[7], buf[8], buf[9], buf[10]);
      if need > MAX_PAYLOAD {
        return false;
      }
      ok := true;
    }

    method DropFirst()
      requires buf.Length == MAX_FRAME && 0 < len <= MAX_FRAME
      modifies buf, this`len
      ensures len == old(len) - 1 && Kept() == old(Kept())[1..]
    {
      ghost var was := buf[..len];
      var i := 0;
      while i + 1 < len
        invariant len == |was| && 0 <= i < len
        invariant forall k | 0 <= k < i :: buf[k] == was[k + 1]
        invariant forall k | i <= k < len :: buf[k] == was[k]
      {
        buf[i] := buf[i + 1];
        i := i + 1;
      }
      len := len - 1;
    }

    method Deliver() returns (out: seq<Frame>)
      requires buf.Length == MAX_FRAME && HEADER <= len <= MAX_FRAME && need + HEADER == len
      requires ValidHeader(Kept()) && need == Need(Kept()) && proto == buf[4] && flags == Join(buf[5], buf[6])
      modifies this`len, this`need, this`haveHeader
      ensures Valid() && Kept() == [] && out == [FrameAt(old(Kept()))]
    {
      FrameParts(Kept());
      hide Need, ValidHeader, FrameAt, Join;
      out := [Frame(proto, flags, buf[HEADER..len])];
      assert buf[HEADER..len] == buf[..len][HEADER..];
      len, need, haveHeader := 0, 0, false;
    }

    method FeedByte(b: byte) returns (out: seq<Frame>)
      requires Valid()
      modifies this, buf
      ensures Valid() && (out, Kept()) == Parse(old(Kept()) + [b])
    {
      ghost var s := Kept() + [b];
      ByteParse(Kept(), b);
      hide Parse, Need;
      out := [];
      buf[len] := b;
      len := len + 1;
      assert Kept() == s;
      if !haveHeader {
        if len < HEADER {
          return;
        }
        var ok := ParseHeader();
        if !ok {
          DropFirst();
          return;
        }
        haveHeader := true;
      }
      if len < HEADER + need {
        return;
      }
      out := Deliver();
    }

    /** Feed a chunk: exactly the frames of the parse are delivered, exactly its residual is kept. */
    method Feed(data: seq<byte>) returns (out: seq<Frame>)
      requires Valid()
      modifies this, buf
      ensures Valid() && (out, Kept()) == Parse(old(Kept()) + data)
    {
      ghost var kept := Kept();
      assert kept + data[..0] == kept;
      KeptParses();
      hide Parse, Valid;
      out := [];
      var i := 0;
      while i < |data|
        invariant 0 <= i <= |data| && Valid()
        invariant (out, Kept()) == Parse(kept + data[..i])
      {
        ParseSplit(kept + data[..i], [data[i]]);
        assert kept + data[..i + 1] == kept + data[..i] + [data[i]];
        var more := FeedByte(data[i]);
        out := out + more;
        i := i + 1;
      }
      assert data[..i] == data;
    }

    lemma KeptParses()
      requires Valid()
      ensures Residual(Kept()) && Parse(Kept()) == ([], Kept())
    {
    }
  }

  lemma FrameParts(s: seq<byte>)
    requires |s| >= HEADER && |s| == HEADER + Need(s)
    ensures FrameAt(s) == Frame(s[4], Join(s[5], s[6]), s[HEADER..])
  {
    hide Need, Join;
    assert s[HEADER..|s|] == s[HEADER..];
  }

  /** One more byte on a residual completes a frame, spoils a header, or neither. */
  lemma ByteParse(kept: seq<byte>, b: byte)
    requires Residual(kept)
    ensures var s := kept + [b];
            && Parse(s) ==
                 (if |s| < HEADER then ([], s)
                  else if !ValidHeader(s) then ([], s[1..])
                  else if |s| < HEADER + Need(s) then ([], s)
                  else ([FrameAt(s)], []))
            && (|s| >= HEADER && !ValidHeader(s) ==> |s| == HEADER)
            && (|s| >= HEADER && ValidHeader(s) ==> |s| <= HEADER + Need(s))
  {
    var s := kept + [b];
    if |kept| >= HEADER {
      HeaderPrefix(kept, [b]);
    }
    if |s| >= HEADER && ValidHeader(s) && |s| >= HEADER + Need(s) {
      assert s[HEADER + Need(s)..] == [];
      assert Parse([]) == ([], []);
      assert [FrameAt(s)] + [] == [FrameAt(s)];
    }
  }

  /** Encode into `out`; 0 if the payload or the buffer does not fit.  Byte 11 is left as it was. */
  method EncodeInto(f: Frame, out: array<byte>, cap: nat) returns (n: nat)
    requires cap <= out.Length
    modifies out
    ensures n == if |f.payload| <= MAX_PAYLOAD && HEADER + |f.payload| <= cap then HEADER + |f.payload| else 0
    ensures n > 0 ==> out[..n] == Encode(f, old(out[..])[11])
    ensures out[n..] == old(out[..])[n..]
  {
    if cap < HEADER || |f.payload| > MAX_PAYLOAD || HEADER + |f.payload| > cap {
      assert out[..] == old(out[..]);
      return 0;
    }
    ghost var was := out[..];
    hide Header;
    WriteHeader(f.proto, f.flags, |f.payload|, out);
    ghost var mid := out[..];
    n := HEADER + |f.payload|;
    Copy(f.payload, out, HEADER);
    assert out[..n] == mid[..HEADER] + f.payload;
  }

  method WriteBe16(v: bv16, out: array<byte>, at: nat)
    requires at + 2 <= out.Length
    modifies out
    ensures out[..] == old(out[..at]) + [High(v), Low(v)] + old(out[at + 2..])
  {
    hide High, Low;
    out[at], out[at + 1] := High(v), Low(v);
  }

  method WriteBe32(n: nat, out: array<byte>, at: nat)
    requires at + 4 <= out.Length
    modifies out
    ensures out[..] == old(out[..at]) + [Digit(n / 0x100_0000), Digit(n / 0x1_0000), Digit(n / 0x100), Digit(n)] + old(out[at + 4..])
  {
    hide Digit;
    out[at], out[at + 1] := Digit(n / 0x100_0000), Digit(n / 0x1_0000);
    out[at + 2], out[at + 3] := Digit(n / 0x100), Digit(n);
  }

  /** Three adjacent writes at the start of a buffer. */
  lemma ThreeWrites(w0: seq<byte>, w1: seq<byte>, w2: seq<byte>, w3: seq<byte>, a: seq<byte>, b: seq<byte>, c: seq<byte>)
    requires |w0| >= 12 && |a| == 5 && |b| == 2 && |c| == 4
    requires w1 == w0[..0] + a + w0[5..] && w2 == w1[..5] + b + w1[7..] && w3 == w2[..7] + c + w2[11..]
    ensures w3[..12] == a + b + c + [w0[11]] && w3[12..] == w0[12..]
  {
    assert w1[..5] == a && w1[7..] == w0[7..];
    assert w2[..7] == a + b && w2[11..] == w0[11..];
    assert w3[..11] == a + b + c && w3[11..] == w0[11..];
  }

  method WriteHeader(proto: byte, flags: bv16, n: nat, out: array<byte>)
    requires out.Length >= 12
    modifies out
    ensures out[..12] == Header(proto, flags, n, old(out[11]))
    ensures out[12..] == old(out[12..])
  {
    hide *;
    ghost var w0 := out[..];
    Copy(MagicAnd(proto), out, 0);
    ghost var w1 := out[..];
    WriteBe16(flags, out, 5);
    ghost var w2 := out[..];
    WriteBe32(n, out, 7);
    ghost var digits := [Digit(n / 0x100_0000), Digit(n / 0x1_0000), Digit(n / 0x100), Digit(n)];
    ThreeWrites(w0, w1, w2, out[..], MagicAnd(proto), [High(flags), Low(flags)], digits);
    HeaderParts(proto, flags, n, w0[11]);
    assert out[..12] == out[..][..12] && out[12..] == out[..][12..];
  }

  function MagicAnd(proto: byte): (s: seq<byte>)
    ensures |s| == 5
  {
    Magic() + [proto]
  }

  lemma HeaderParts(proto: byte, flags: bv16, n: nat, unused: byte)
    ensures HEADER == 12
    ensures Header(proto, flags, n, unused) ==
            MagicAnd(proto) + [High(flags), Low(flags)] +
            [Digit(n / 0x100_0000), Digit(n / 0x1_0000), Digit(n / 0x100), Digit(n)] + [unused]
  {
  }
}
