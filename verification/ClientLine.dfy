/** The client's line editor in place: a line buffer, a history ring and an escape buffer, edited key by key. */
module ClientLine {
  import opened Wrappers
  import opened Bytes
  import L = LineEditor
  import T = Terminal

  /** The entries of the ring, newest first. */
  function Listed(slots: seq<seq<byte>>, next: nat, count: nat): (r: seq<seq<byte>>)
    requires |slots| == L.HISTORY_MAX && next < |slots| && count <= |slots|
    ensures |r| == count
  {
    seq(count, i requires 0 <= i < count => slots[Slot(next, i)])
  }

  function Slot(next: nat, i: nat): (k: nat)
    requires next < L.HISTORY_MAX && i < L.HISTORY_MAX
    ensures k < L.HISTORY_MAX
  {
    (next + L.HISTORY_MAX - 1 - i) % L.HISTORY_MAX
  }

  /** Writing the next slot puts an entry in front and drops the oldest of a full ring. */
  lemma RingRemembers(slots: seq<seq<byte>>, next: nat, count: nat, line: seq<byte>)
    requires |slots| == L.HISTORY_MAX && next < |slots| && count <= |slots|
    ensures Listed(slots[next := line], (next + 1) % L.HISTORY_MAX, if count < L.HISTORY_MAX then count + 1 else count)
            == L.First([line] + Listed(slots, next, count), L.HISTORY_MAX)
  {
    var n := (next + 1) % L.HISTORY_MAX;
    assert Slot(n, 0) == next;
    forall i | 0 < i < L.HISTORY_MAX ensures Slot(n, i) == Slot(next, i - 1) != next {
    }
  }

  class Editor {
    const line: array<byte>
    var lineLen: nat
    var lineCursor: nat
    const history: array<seq<byte>>
    var historyCount: nat
    var historyNext: nat
    var historyView: int
    var historySaved: seq<byte>
    const rawEnabled: bool
    var escState: L.Esc
    const csiBuf: array<byte>
    var csiLen: nat

    ghost predicate Shaped()
      reads this, line
    {
      && line.Length == L.LINE_MAX && csiBuf.Length == L.CSI_MAX && line != csiBuf && history.Length == L.HISTORY_MAX
      && lineCursor <= lineLen < L.LINE_MAX && line[lineLen] == 0
      && historyNext < L.HISTORY_MAX && historyCount <= L.HISTORY_MAX
      && csiLen < L.CSI_MAX
    }

    ghost function Text(): L.Zipper
      requires Shaped()
      reads this, line
    {
      L.Zipper(line[..lineCursor], line[lineCursor..lineLen])
    }

    ghost function View(): L.Editor
      requires Shaped()
      reads this, line, history, csiBuf
    {
      L.Editor(rawEnabled, Text(), Listed(history[..], historyNext, historyCount), historyView, historySaved,
               escState, csiBuf[..csiLen])
    }

    ghost predicate Valid()
      reads this, line, history, csiBuf
    {
      Shaped() && L.Valid(View())
    }

    constructor (raw: bool)
      ensures Valid() && fresh(line) && fresh(history) && fresh(csiBuf) && View() == L.Init(raw)
    {
      line := new byte[L.LINE_MAX](_ => 0);
      history := new seq<byte>[L.HISTORY_MAX](_ => []);
      csiBuf := new byte[L.CSI_MAX](_ => 0);
      lineLen, lineCursor, historyCount, historyNext, csiLen := 0, 0, 0, 0, 0;
      historyView, historySaved, rawEnabled, escState := -1, [], raw, L.Plain;
    }

    /** What reaches the terminal. */
    function Shown(out: seq<byte>): seq<byte> {
      if rawEnabled then out else []
    }

    method MoveBack(count: nat) returns (out: seq<byte>)
      ensures out == Shown(T.Backspaces(count))
    {
      out := [];
      if !rawEnabled {
        return;
      }
      var sent := 0;
      while sent < count
        invariant sent <= count && out == T.Backspaces(sent)
      {
        var chunk := if count - sent > 64 then 64 else count - sent;
        BackspacesAdd(sent, chunk);
        out := out + T.Backspaces(chunk);
        sent := sent + chunk;
      }
    }

    method RefreshSuffix() returns (out: seq<byte>)
      requires Shaped()
      ensures out == Shown(T.Redraw(Text().after))
    {
      if !rawEnabled {
        return [];
      }
      var back := MoveBack(lineLen - lineCursor);
      out := line[lineCursor..lineLen] + T.ERASE + back;
    }

    method CursorLeft() returns (out: seq<byte>)
      requires Valid()
      modifies this`lineCursor
      ensures Valid() && View() == L.MoveLeft(old(View())).ed && out == L.MoveLeft(old(View())).out
    {
      L.ApplyKeeps(View(), L.Left);
      hide L.Valid, Listed, T.Backspaces;
      if lineCursor == 0 {
        return [];
      }
      lineCursor := lineCursor - 1;
      out := Shown([T.BS]);
    }

    method CursorRight() returns (out: seq<byte>)
      requires Valid()
      modifies this`lineCursor
      ensures Valid() && View() == L.MoveRight(old(View())).ed && out == L.MoveRight(old(View())).out
    {
      L.ApplyKeeps(View(), L.Right);
      hide L.Valid, Listed, T.Backspaces;
      if lineCursor >= lineLen {
        return [];
      }
      out := Shown([line[lineCursor]]);
      lineCursor := lineCursor + 1;
    }

    method CursorHome() returns (out: seq<byte>)
      requires Shaped()
      ensures out == L.MoveHome(View()).out
    {
      hide T.Backspaces;
      out := MoveBack(lineCursor);
    }

    method CursorEnd() returns (out: seq<byte>)
      requires Valid()
      modifies this`lineCursor
      ensures Valid() && View() == L.MoveEnd(old(View())).ed && out == L.MoveEnd(old(View())).out
    {
      L.ApplyKeeps(View(), L.End);
      hide L.Valid, Listed, T.Backspaces;
      out := [];
      ghost var start := lineCursor;
      while lineCursor < lineLen
        invariant Valid() && start <= lineCursor
        invariant out == Shown(line[start..lineCursor])
        invariant View() == old(View()).(text := Text())
      {
        var more := CursorRight();
        out := out + more;
      }
    }

    /** Close the gap of one byte at the cursor, with the terminator. */
    method CloseGap()
      requires Shaped() && lineCursor < lineLen
      modifies this`lineLen, line
      ensures Shaped() && Text() == L.Zipper(old(Text().before), old(Text().after)[1..])
    {
      Copy(line[lineCursor + 1..lineLen + 1], line, lineCursor);
      lineLen := lineLen - 1;
      line[lineLen] := 0;
    }

    method DeleteForward() returns (out: seq<byte>)
      requires Valid()
      modifies this`lineLen, line
      ensures Valid() && View() == L.DeleteForward(old(View())).ed && out == L.DeleteForward(old(View())).out
    {
      L.ApplyKeeps(View(), L.Delete);
      hide L.Valid, Listed, T.Redraw;
      if lineCursor >= lineLen {
        return [];
      }
      CloseGap();
      out := RefreshSuffix();
    }

    method BackspaceChar() returns (out: seq<byte>)
      requires Valid()
      modifies this`lineLen, this`lineCursor, line
      ensures Valid() && View() == L.Backspace(old(View())).ed && out == L.Backspace(old(View())).out
    {
      L.ApplyKeeps(View(), L.Erase);
      hide L.Valid, Listed, T.Redraw;
      if lineCursor == 0 {
        return [];
      }
      lineCursor := lineCursor - 1;
      CloseGap();
      var more := RefreshSuffix();
      out := Shown([T.BS] + more);
    }

    /** Make room for a byte at the cursor. */
    method OpenGap()
      requires Shaped() && lineLen + 1 < L.LINE_MAX
      modifies line
      ensures line[..lineCursor] == old(line[..lineCursor]) && line[lineCursor + 1..lineLen + 1] == old(line[lineCursor..lineLen])
    {
      ghost var was := line[..];
      if lineCursor < lineLen {
        Copy(line[lineCursor..lineLen], line, lineCursor + 1);
        GapIs(was, line[..], lineCursor, lineLen);
        assert line[..lineCursor] == line[..][..lineCursor] && line[lineCursor + 1..lineLen + 1] == line[..][lineCursor + 1..lineLen + 1];
      }
    }

    /** Open a gap at the cursor and fill it. */
    method Put(ch: byte)
      requires Shaped() && lineLen + 1 < L.LINE_MAX
      modifies this`lineLen, this`lineCursor, line
      ensures Shaped() && Text() == L.Zipper(old(Text().before) + [ch], old(Text().after))
    {
      OpenGap();
      line[lineCursor] := ch;
      lineLen := lineLen + 1;
      lineCursor := lineCursor + 1;
      line[lineLen] := 0;
    }

    method InsertChar(ch: byte) returns (out: seq<byte>)
      requires Valid()
      modifies this`lineLen, this`lineCursor, line
      ensures Valid() && View() == L.Insert(old(View()), ch).ed && out == L.Insert(old(View()), ch).out
    {
      L.ApplyKeeps(View(), L.Type(ch));
      hide L.Valid, Listed, T.Redraw;
      if ch < 0x20 || ch == 0x7F {
        return [];
      }
      if lineLen + 1 >= line.Length {
        return [];
      }
      Put(ch);
      var more := RefreshSuffix();
      out := Shown([ch] + more);
    }

    method HistoryAdd(entry: seq<byte>)
      requires Shaped()
      modifies this`historyNext, this`historyCount, this`historyView, this`historySaved, history
      ensures Shaped()
      ensures Listed(history[..], historyNext, historyCount) ==
              L.Remember(old(Listed(history[..], historyNext, historyCount)), entry)
      ensures historyView == (if L.Storable(entry) then -1 else old(historyView))
      ensures historySaved == (if L.Storable(entry) then [] else old(historySaved))
    {
      hide L.Storable;
      if !L.Storable(entry) {
        return;
      }
      RingRemembers(history[..], historyNext, historyCount, entry);
      ghost var slots := history[..];
      history[historyNext] := entry;
      assert history[..] == slots[historyNext := entry];
      historyNext := (historyNext + 1) % L.HISTORY_MAX;
      if historyCount < L.HISTORY_MAX {
        historyCount := historyCount + 1;
      }
      historyView, historySaved := -1, [];
    }

    method LineReplace(text: seq<byte>) returns (out: seq<byte>)
      requires Shaped() && |text| < L.LINE_MAX
      modifies this`lineLen, this`lineCursor, line
      ensures Shaped() && Text() == L.Replace(old(View()), text).ed.text && out == L.Replace(old(View()), text).out
    {
      hide T.Backspaces, T.ERASE;
      var back := MoveBack(lineCursor);
      out := Shown(back + text + T.ERASE);
      Copy(text, line, 0);
      line[|text|] := 0;
      lineLen := |text|;
      lineCursor := |text|;
    }

    lemma EntriesFit()
      requires Valid()
      ensures historyView == View().view && historySaved == View().saved && line[..lineLen] == L.Line(View().text)
      ensures |historySaved| < L.LINE_MAX && historyCount == |View().history| && historyView < historyCount
      ensures forall i | 0 <= i < historyCount :: history[Slot(historyNext, i)] == View().history[i] && |View().history[i]| < L.LINE_MAX
    {
      hide L.Storable, T.AllPrintable, Slot;
    }

    /** Show an entry of the history, or the saved line. */
    method ShowEntry(view: int, text: seq<byte>) returns (out: seq<byte>)
      requires Shaped() && |text| < L.LINE_MAX
      modifies this`lineLen, this`lineCursor, this`historyView, line
      ensures Shaped() && View() == L.Replace(old(View()).(view := view), text).ed
      ensures out == L.Replace(old(View()).(view := view), text).out
    {
      hide T.Backspaces, Listed;
      historyView := view;
      out := LineReplace(text);
    }

    method SaveLine()
      requires Shaped()
      modifies this`historySaved
      ensures Shaped() && View() == old(View()).(saved := L.Line(old(View()).text))
    {
      hide Listed;
      historySaved := line[..lineLen];
      assert historySaved == L.Line(Text());
    }

    method HistoryUp() returns (out: seq<byte>)
      requires Valid()
      modifies this`lineLen, this`lineCursor, this`historyView, this`historySaved, line
      ensures Valid() && View() == L.HistoryUp(old(View())).ed && out == L.HistoryUp(old(View())).out
    {
      L.UpKeeps(View());
      EntriesFit();
      hide L.Valid, View, Slot, L.Replace;
      if historyCount == 0 {
        return [];
      }
      if historyView < 0 {
        SaveLine();
        out := ShowEntry(0, history[Slot(historyNext, 0)]);
      } else if historyView + 1 < historyCount {
        out := ShowEntry(historyView + 1, history[Slot(historyNext, historyView + 1)]);
      } else {
        return [];
      }
    }

    method HistoryDown() returns (out: seq<byte>)
      requires Valid()
      modifies this`lineLen, this`lineCursor, this`historyView, line
      ensures Valid() && View() == L.HistoryDown(old(View())).ed && out == L.HistoryDown(old(View())).out
    {
      L.DownKeeps(View());
      EntriesFit();
      hide L.Valid, View, Slot, L.Replace;
      if historyView < 0 {
        return [];
      }
      if historyView == 0 {
        out := ShowEntry(-1, historySaved);
        return;
      }
      out := ShowEntry(historyView - 1, history[Slot(historyNext, historyView - 1)]);
    }

    /** The cursor keys that both escape forms know. */
    method ApplyMotion(final: byte) returns (out: seq<byte>)
      requires Valid()
      modifies this`lineCursor
      ensures Valid() && View() == L.Apply(old(View()), L.Ss3Key(final)).ed && out == L.Apply(old(View()), L.Ss3Key(final)).out
    {
      L.ApplyKeeps(View(), L.Ss3Key(final));
      hide L.Valid, View, T.Backspaces;
      out := [];
      if final == 0x43 {
        out := CursorRight();
      } else if final == 0x44 {
        out := CursorLeft();
      } else if final == 0x48 {
        out := CursorHome();
      } else if final == 0x46 {
        out := CursorEnd();
      }
    }

    method ApplyTilde(params: seq<byte>) returns (out: seq<byte>)
      requires Valid()
      modifies this`lineCursor, this`lineLen, line
      ensures var key := L.CsiKey(params, 0x7E);
              Valid() && View() == L.Apply(old(View()), key).ed && out == L.Apply(old(View()), key).out
    {
      L.ApplyKeeps(View(), L.CsiKey(params, 0x7E));
      hide L.Valid, View, T.Backspaces, T.Redraw, L.UpToNul;
      out := [];
      var p := L.UpToNul(params);
      if p == [0x31] || p == [0x37] {
        out := CursorHome();
      } else if p == [0x33] {
        out := DeleteForward();
      } else if p == [0x34] || p == [0x38] {
        out := CursorEnd();
      }
    }

    method ApplyCsi(params: seq<byte>, final: byte) returns (out: seq<byte>)
      requires Valid()
      modifies this`lineLen, this`lineCursor, this`historyView, this`historySaved, line
      ensures var key := L.CsiKey(params, final);
              Valid() && View() == L.Apply(old(View()), key).ed && out == L.Apply(old(View()), key).out
    {
      hide L.HistoryUp, L.HistoryDown, L.Ss3Key, L.UpToNul, View, Valid;
      if final == 0x41 {
        out := HistoryUp();
      } else if final == 0x42 {
        out := HistoryDown();
      } else if final == 0x7E {
        out := ApplyTilde(params);
      } else {
        out := ApplyMotion(final);
      }
    }

    /** Go to a state of the filter with an empty buffer. */
    method EnterEscape(esc: L.Esc)
      requires Valid()
      modifies this`escState, this`csiLen
      ensures Valid() && View() == old(View()).(esc := esc, csi := [])
    {
      hide L.Fitting, L.Storable;
      escState := esc;
      csiLen := 0;
    }

    method EscapeReset()
      requires Valid()
      modifies this`escState, this`csiLen
      ensures Valid() && View() == old(View()).(esc := L.Plain, csi := [])
    {
      EnterEscape(L.Plain);
    }

    method Expect(esc: L.Esc)
      requires Valid()
      modifies this`escState
      ensures Valid() && View() == old(View()).(esc := esc)
    {
      hide L.Fitting, L.Storable;
      escState := esc;
    }

    lemma EscapeFields()
      requires Valid()
      ensures L.Valid(View()) && View().esc == escState
      ensures csiLen < csiBuf.Length == L.CSI_MAX == 24 && View().csi == csiBuf[..csiLen]
    {
    }

    method PushCsi(b: byte)
      requires Valid() && csiLen + 1 < csiBuf.Length
      modifies this`csiLen, csiBuf
      ensures Valid() && View() == old(View()).(csi := old(View()).csi + [b])
    {
      hide L.Fitting, L.Storable;
      ghost var csi := csiBuf[..csiLen];
      csiBuf[csiLen] := b;
      csiLen := csiLen + 1;
      assert csiBuf[..csiLen] == csi + [b];
    }

    /** A byte of a control sequence. */
    method FilterCsi(b: byte) returns (out: seq<byte>)
      requires Valid() && escState == L.Csi
      modifies this`lineLen, this`lineCursor, this`historyView, this`historySaved, this`escState, this`csiLen, line, csiBuf
      ensures Valid() && L.Result(View(), out, None) == L.Step(old(View()), b)
    {
      EscapeFields();
      CsiStep(View(), b);
      hide *;
      if csiLen + 1 >= csiBuf.Length {
        EscapeReset();
        return [];
      }
      ghost var csi := View().csi;
      PushCsi(b);
      EscapeFields();
      if !L.Final(b) {
        return [];
      }
      var params := csiBuf[..csiLen - 1];
      assert params == csi;
      EscapeReset();
      out := ApplyCsi(params, b);
    }

    /** Whether the byte belongs to an escape sequence; if so, what completing it does. */
    method FilterEscapeByte(b: byte) returns (consumed: bool, out: seq<byte>)
      requires Valid()
      modifies this`lineLen, this`lineCursor, this`historyView, this`historySaved, this`escState, this`csiLen, line, csiBuf
      ensures Valid()
      ensures consumed ==> L.Result(View(), out, None) == L.Step(old(View()), b)
      ensures !consumed ==> out == [] && View() == L.Decoded(old(View()), b) && L.KeyOf(old(View()), b) == L.PlainKey(b)
    {
      EscapeFields();
      PlainSteps(View(), b);
      hide *;
      out := [];
      match escState {
        case Plain =>
          consumed := b == 0x9B || b == 0x1B;
          if b == 0x9B {
            EnterEscape(L.Csi);
          } else if b == 0x1B {
            Expect(L.Escape);
          }
        case Escape =>
          consumed := b == 0x5B || b == 0x4F;
          if b == 0x5B {
            EnterEscape(L.Csi);
          } else if b == 0x4F {
            Expect(L.Ss3);
          } else {
            EscapeReset();
          }
        case Ss3 =>
          consumed := true;
          EscapeReset();
          out := ApplyMotion(b);
        case Csi =>
          consumed := true;
          out := FilterCsi(b);
      }
    }

    /** The enter key: hand the line out, remember it, start an empty one. */
    method SubmitLine() returns (out: seq<byte>, submitted: seq<byte>)
      requires Valid()
      modifies this`lineLen, this`lineCursor, this`historyNext, this`historyCount, this`historyView, this`historySaved, line, history
      ensures Valid() && L.Result(View(), out, Some(submitted)) == L.Submit(old(View()))
    {
      L.SubmitKeeps(View());
      hide L.Valid, L.Storable, L.Remember, Listed;
      out := Shown([T.CR, T.LF]);
      submitted := line[..lineLen];
      assert submitted == L.Line(Text());
      HistoryAdd(submitted);
      ClearLine();
      historyView := -1;
    }

    method ClearLine()
      requires Shaped()
      modifies this`lineLen, this`lineCursor, line
      ensures Shaped() && Text() == L.BLANK
    {
      line[0] := 0;
      lineLen, lineCursor := 0, 0;
    }

    /** A byte that no escape sequence claims. */
    method PlainByte(b: byte) returns (out: seq<byte>, submitted: Option<seq<byte>>)
      requires Valid()
      modifies this`lineLen, this`lineCursor, this`historyNext, this`historyCount, this`historyView, this`historySaved, line, history
      ensures Valid() && L.Result(View(), out, submitted) == L.Apply(old(View()), L.PlainKey(b))
    {
      L.ApplyKeeps(View(), L.PlainKey(b));
      hide L.Valid, View, L.Storable, L.Remember, T.Redraw, L.Submit, L.Backspace, L.Insert;
      submitted := None;
      if b == 0x08 || b == 0x7F {
        out := BackspaceChar();
        return;
      }
      if b == 0x0D || b == 0x0A {
        var text;
        out, text := SubmitLine();
        submitted := Some(text);
        return;
      }
      out := InsertChar(b);
    }

    /** One read of the terminal; a line that does not fit the caller's buffer is cut. */
    method Poll(buf: seq<byte>, outLen: nat) returns (out: seq<byte>, submitted: Option<seq<byte>>)
      requires Valid() && outLen > 0
      modifies this, line, history, csiBuf
      ensures Valid()
      ensures var r := L.Poll(old(View()), buf);
              View() == r.ed && out == r.out
              && submitted == if r.line.Some? && |r.line.value| >= outLen then Some(r.line.value[..outLen - 1]) else r.line
    {
      hide L.Valid, L.Step, L.Decoded, L.KeyOf, L.PlainKey, View;
      out, submitted := [], None;
      ghost var start := L.Poll(View(), buf);
      assert buf[0..] == buf && [] + start.out == start.out;
      var i := 0;
      while i < |buf|
        invariant 0 <= i <= |buf| && Valid()
        invariant start == (var r := L.Poll(View(), buf[i..]); r.(out := out + r.out))
      {
        ghost var before := View();
        assert buf[i..][1..] == buf[i + 1..];
        var text;
        var more;
        more, text := Key(buf[i]);
        ghost var rest := L.Poll(View(), buf[i + 1..]);
        assert out + (more + rest.out) == (out + more) + rest.out;
        out := out + more;
        if text.Some? {
          submitted := if |text.value| >= outLen then Some(text.value[..outLen - 1]) else text;
          return;
        }
        i := i + 1;
      }
      assert out + [] == out;
    }

    method Key(b: byte) returns (out: seq<byte>, submitted: Option<seq<byte>>)
      requires Valid()
      modifies this, line, history, csiBuf
      ensures Valid() && L.Result(View(), out, submitted) == L.Step(old(View()), b)
    {
      hide L.Valid, L.Apply, L.Decode, L.PlainKey, View;
      var consumed;
      submitted := None;
      consumed, out := FilterEscapeByte(b);
      if !consumed {
        out, submitted := PlainByte(b);
      }
    }
  }

  lemma NothingApplied(ed: L.Editor)
    requires L.Valid(ed)
    ensures L.Apply(ed, L.Nothing) == L.Result(ed, [], None)
  {
  }

  /** What a byte of a control sequence does, case by case. */
  lemma CsiStep(ed: L.Editor, b: byte)
    requires L.Valid(ed) && ed.esc == L.Csi
    ensures var reset := ed.(esc := L.Plain, csi := []);
            L.Step(ed, b) ==
            if |ed.csi| + 1 >= L.CSI_MAX then L.Result(reset, [], None)
            else if !L.Final(b) then L.Result(ed.(csi := ed.csi + [b]), [], None)
            else (L.DecodeKeeps(ed, b); L.Apply(reset, L.CsiKey(ed.csi, b)))
  {
    L.DecodeKeeps(ed, b);
    NothingApplied(L.Decoded(ed, b));
    hide L.Valid, L.Apply, L.CsiKey;
  }

  /** What a byte does in the other states of the filter. */
  lemma PlainSteps(ed: L.Editor, b: byte)
    requires L.Valid(ed)
    ensures ed.esc == L.Plain ==>
              if b == 0x9B then L.Step(ed, b) == L.Result(ed.(esc := L.Csi, csi := []), [], None)
              else if b == 0x1B then L.Step(ed, b) == L.Result(ed.(esc := L.Escape), [], None)
              else L.Decoded(ed, b) == ed && L.KeyOf(ed, b) == L.PlainKey(b)
    ensures ed.esc == L.Escape ==>
              if b == 0x5B then L.Step(ed, b) == L.Result(ed.(esc := L.Csi, csi := []), [], None)
              else if b == 0x4F then L.Step(ed, b) == L.Result(ed.(esc := L.Ss3), [], None)
              else L.Decoded(ed, b) == ed.(esc := L.Plain, csi := []) && L.KeyOf(ed, b) == L.PlainKey(b)
    ensures ed.esc == L.Ss3 ==>
              L.Step(ed, b) == (L.DecodeKeeps(ed, b); L.Apply(ed.(esc := L.Plain, csi := []), L.Ss3Key(b)))
  {
    L.DecodeKeeps(ed, b);
    NothingApplied(L.Decoded(ed, b));
    hide L.Valid, L.Apply, L.Ss3Key, L.PlainKey;
  }

  lemma GapIs(was: seq<byte>, now: seq<byte>, at: nat, n: nat)
    requires at < n < |was| && now == was[..at + 1] + was[at..n] + was[at + 1 + (n - at)..]
    ensures now[..at] == was[..at] && now[at + 1..n + 1] == was[at..n]
  {
  }

  lemma {:induction false} BackspacesAdd(a: nat, b: nat)
    ensures T.Backspaces(a + b) == T.Backspaces(a) + T.Backspaces(b)
    decreases a
  {
    if a > 0 {
      BackspacesAdd(a - 1, b);
    }
  }
}
