/** Which bytes are which key, and what the keys and the limits of the editor mean for the text. */
module LineEditorKeys {
  import opened Wrappers
  import opened Bytes
  import opened LineEditor
  import opened LineEditorRuns
  import T = Terminal

  /** The usual sequences of a terminal for each key. */
  function Sequences(key: Key): seq<seq<byte>> {
    match key
    case Up => [[0x1B, 0x5B, 0x41], [0x9B, 0x41]]
    case Down => [[0x1B, 0x5B, 0x42], [0x9B, 0x42]]
    case Right => [[0x1B, 0x5B, 0x43], [0x9B, 0x43], [0x1B, 0x4F, 0x43]]
    case Left => [[0x1B, 0x5B, 0x44], [0x9B, 0x44], [0x1B, 0x4F, 0x44]]
    case Home => [[0x1B, 0x5B, 0x48], [0x9B, 0x48], [0x1B, 0x4F, 0x48], [0x1B, 0x5B, 0x31, 0x7E], [0x1B, 0x5B, 0x37, 0x7E]]
    case End => [[0x1B, 0x5B, 0x46], [0x9B, 0x46], [0x1B, 0x4F, 0x46], [0x1B, 0x5B, 0x34, 0x7E], [0x1B, 0x5B, 0x38, 0x7E]]
    case Delete => [[0x1B, 0x5B, 0x33, 0x7E], [0x9B, 0x33, 0x7E]]
    case Erase => [[0x08], [0x7F]]
    case Enter => [[0x0D], [0x0A]]
    case _ => []
  }

  /** Between keys, with nothing left of an earlier sequence. */
  predicate AtRest(ed: Editor) {
    Valid(ed) && ed.esc == Plain && ed.csi == []
  }

  lemma PollOne(ed: Editor, b: byte)
    requires Valid(ed)
    ensures Poll(ed, [b]) == Step(ed, b)
  {
    hide Step;
    assert [b][1..] == [];
    assert Step(ed, b).out + [] == Step(ed, b).out;
  }

  /** One more byte of a read that has not shown or ended anything yet. */
  lemma PollMore(ed: Editor, s: seq<byte>, ed1: Editor, b: byte)
    requires Valid(ed) && Valid(ed1) && Poll(ed, s) == Result(ed1, [], None)
    ensures Poll(ed, s + [b]) == Step(ed1, b)
  {
    hide Step, Poll;
    RestOfReadDropped(ed, s, [b]);
    PollOne(ed1, b);
    assert [] + Step(ed1, b).out == Step(ed1, b).out;
  }

  lemma Begun(ed: Editor)
    requires AtRest(ed)
    ensures Step(ed, 0x1B) == Result(ed.(esc := Escape), [], None) && Step(ed, 0x9B) == Result(ed.(esc := Csi), [], None)
    ensures Valid(ed.(esc := Escape)) && Valid(ed.(esc := Csi)) && Valid(ed.(esc := Ss3))
    ensures Step(ed.(esc := Escape), 0x5B) == Result(ed.(esc := Csi), [], None)
    ensures Step(ed.(esc := Escape), 0x4F) == Result(ed.(esc := Ss3), [], None)
  {
    hide Fitting, Storable;
  }

  lemma Finished(ed: Editor, b: byte)
    requires AtRest(ed) && Valid(ed.(esc := Csi)) && Valid(ed.(esc := Ss3))
    ensures Final(b) ==> Step(ed.(esc := Csi), b) == Apply(ed, CsiKey([], b))
    ensures Step(ed.(esc := Ss3), b) == Apply(ed, Ss3Key(b))
    ensures !Final(b) ==> Valid(ed.(esc := Csi, csi := [b])) && Step(ed.(esc := Csi), b) == Result(ed.(esc := Csi, csi := [b]), [], None)
  {
    hide Fitting, Storable, CsiKey, Ss3Key, Apply;
    assert ed.csi + [b] == [b];
    assert Apply(ed.(esc := Csi, csi := [b]), Nothing) == Result(ed.(esc := Csi, csi := [b]), [], None) || Final(b) by {
      if !Final(b) {
        NothingDone(ed.(esc := Csi, csi := [b]));
      }
    }
  }

  lemma NothingDone(ed: Editor)
    requires |ed.csi| < CSI_MAX && Valid(ed.(csi := []))
    ensures Valid(ed) && Apply(ed, Nothing) == Result(ed, [], None)
  {
  }

  lemma FinishedTilde(ed: Editor, p: byte)
    requires AtRest(ed) && Valid(ed.(esc := Csi, csi := [p]))
    ensures Step(ed.(esc := Csi, csi := [p]), 0x7E) == Apply(ed, CsiKey([p], 0x7E))
  {
    hide Fitting, Storable, CsiKey, Apply;
  }

  /** Both ways to begin a control sequence, and the one before the application keys. */
  lemma Introduced(ed: Editor)
    requires AtRest(ed)
    ensures Poll(ed, [0x1B, 0x5B]) == Result(ed.(esc := Csi), [], None) && Poll(ed, [0x9B]) == Result(ed.(esc := Csi), [], None)
    ensures Poll(ed, [0x1B, 0x4F]) == Result(ed.(esc := Ss3), [], None)
  {
    Begun(ed);
    hide Step, Poll;
    PollOne(ed, 0x1B);
    PollOne(ed, 0x9B);
    PollMore(ed, [0x1B], ed.(esc := Escape), 0x5B);
    PollMore(ed, [0x1B], ed.(esc := Escape), 0x4F);
    assert [0x1B as byte] + [0x5B] == [0x1B, 0x5B] && [0x1B as byte] + [0x4F] == [0x1B, 0x4F];
  }

  /** A control sequence without parameters, in both forms. */
  lemma Control(ed: Editor, final: byte)
    requires AtRest(ed) && Final(final)
    ensures Poll(ed, [0x1B, 0x5B, final]) == Apply(ed, CsiKey([], final)) && Poll(ed, [0x9B, final]) == Apply(ed, CsiKey([], final))
    ensures Poll(ed, [0x1B, 0x4F, final]) == Apply(ed, Ss3Key(final))
  {
    Begun(ed);
    Introduced(ed);
    Finished(ed, final);
    hide Step, Poll, CsiKey, Apply, Ss3Key;
    PollMore(ed, [0x1B, 0x5B], ed.(esc := Csi), final);
    PollMore(ed, [0x9B], ed.(esc := Csi), final);
    PollMore(ed, [0x1B, 0x4F], ed.(esc := Ss3), final);
    assert [0x1B, 0x5B] + [final] == [0x1B, 0x5B, final] && [0x9B] + [final] == [0x9B, final] && [0x1B, 0x4F] + [final] == [0x1B, 0x4F, final];
  }

  lemma TildeFrom(ed: Editor, intro: seq<byte>, p: byte)
    requires AtRest(ed) && !Final(p) && Valid(ed.(esc := Csi)) && Poll(ed, intro) == Result(ed.(esc := Csi), [], None)
    ensures Poll(ed, intro + [p] + [0x7E]) == Apply(ed, CsiKey([p], 0x7E))
  {
    Begun(ed);
    Finished(ed, p);
    FinishedTilde(ed, p);
    hide Step, Poll, CsiKey, Apply;
    var ed1 := ed.(esc := Csi, csi := [p]);
    PollMore(ed, intro, ed.(esc := Csi), p);
    PollMore(ed, intro + [p], ed1, 0x7E);
  }

  /** One with a parameter byte and a tilde. */
  lemma Tilde(ed: Editor, p: byte)
    requires AtRest(ed) && !Final(p)
    ensures Poll(ed, [0x1B, 0x5B, p, 0x7E]) == Apply(ed, CsiKey([p], 0x7E)) && Poll(ed, [0x9B, p, 0x7E]) == Apply(ed, CsiKey([p], 0x7E))
  {
    Begun(ed);
    Introduced(ed);
    hide Step, Poll, CsiKey, Apply, AtRest, Valid;
    TildeFrom(ed, [0x1B, 0x5B], p);
    TildeFrom(ed, [0x9B], p);
    assert [0x1B, 0x5B] + [p] + [0x7E] == [0x1B, 0x5B, p, 0x7E] && [0x9B] + [p] + [0x7E] == [0x9B, p, 0x7E];
  }

  lemma TildeKeys()
    ensures CsiKey([0x31], 0x7E) == Home == CsiKey([0x37], 0x7E) && CsiKey([0x34], 0x7E) == End == CsiKey([0x38], 0x7E)
    ensures CsiKey([0x33], 0x7E) == Delete
  {
    assert forall b: byte :: [b][1..] == [];
    assert forall b: byte | b != 0 :: UpToNul([b]) == [b];
  }

  lemma ControlKeys()
    ensures CsiKey([], 0x41) == Up && CsiKey([], 0x42) == Down
    ensures CsiKey([], 0x43) == Right == Ss3Key(0x43) && CsiKey([], 0x44) == Left == Ss3Key(0x44)
    ensures CsiKey([], 0x48) == Home == Ss3Key(0x48) && CsiKey([], 0x46) == End == Ss3Key(0x46)
    ensures PlainKey(0x08) == Erase == PlainKey(0x7F) && PlainKey(0x0D) == Enter == PlainKey(0x0A)
  {
  }

  /** A read of one of a key's sequences does what the key does. */
  lemma KeyDoes(ed: Editor, key: Key, s: seq<byte>)
    requires AtRest(ed) && s in Sequences(key)
    ensures Poll(ed, s) == Apply(ed, key)
  {
    hide Poll, Apply, CsiKey, Ss3Key, PlainKey, AtRest, Valid;
    ControlKeys();
    TildeKeys();
    match key {
      case Up => Control(ed, 0x41);
      case Down => Control(ed, 0x42);
      case Right => Control(ed, 0x43);
      case Left => Control(ed, 0x44);
      case Home =>
        Control(ed, 0x48);
        Tilde(ed, 0x31);
        Tilde(ed, 0x37);
      case End =>
        Control(ed, 0x46);
        Tilde(ed, 0x34);
        Tilde(ed, 0x38);
      case Delete =>
        Tilde(ed, 0x33);
      case Erase =>
        PlainKeyDoes(ed, 0x08);
        PlainKeyDoes(ed, 0x7F);
      case Enter =>
        PlainKeyDoes(ed, 0x0D);
        PlainKeyDoes(ed, 0x0A);
      case _ =>
    }
  }

  lemma PlainKeyDoes(ed: Editor, b: byte)
    requires AtRest(ed) && b != 0x1B && b != 0x9B
    ensures Poll(ed, [b]) == Apply(ed, PlainKey(b))
  {
    PollOne(ed, b);
    hide Fitting, Storable, PlainKey, Apply, Poll;
  }

  // ---------- what the keys mean for the text ----------

  /** The cursor keys move within the text and leave it alone; home leaves even the cursor alone; end goes behind the last character. */
  lemma CursorKeys(ed: Editor)
    requires Valid(ed)
    ensures var left, right := MoveLeft(ed).ed.text, MoveRight(ed).ed.text;
            var k := |ed.text.before|;
            && Line(left) == Line(ed.text) == Line(right)
            && |left.before| == (if k > 0 then k - 1 else 0)
            && |right.before| == (if k < |Line(ed.text)| then k + 1 else k)
    ensures MoveEnd(ed).ed == ed.(text := Zipper(Line(ed.text), [])) && MoveHome(ed).ed == ed
  {
    hide Fitting, Storable;
    var z := ed.text;
    if z.before != [] {
      assert z.before[..|z.before| - 1] + [z.before[|z.before| - 1]] == z.before;
    }
    if z.after != [] {
      assert [z.after[0]] + z.after[1..] == z.after;
    }
  }

  /** Erasing takes away the character before the cursor, deleting the one at it. */
  lemma ErasingKeys(ed: Editor)
    requires Valid(ed)
    ensures var k := |ed.text.before|;
            var line := Line(ed.text);
            var erased, deleted := Backspace(ed).ed.text, DeleteForward(ed).ed.text;
            && (k > 0 ==> Line(erased) == line[..k - 1] + line[k..] && |erased.before| == k - 1)
            && (k == 0 ==> erased == ed.text)
            && (k < |line| ==> Line(deleted) == line[..k] + line[k + 1..] && |deleted.before| == k)
            && (k == |line| ==> deleted == ed.text)
  {
    hide Fitting, Storable, T.Redraw;
  }

  /** The enter key hands out the line and leaves an empty one that shows no entry of the history. */
  lemma EnterKey(ed: Editor)
    requires Valid(ed)
    ensures var r := Submit(ed);
            r.line == Some(Line(ed.text)) && r.ed.text == Zipper([], []) && r.ed.view == -1 && r.ed.raw == ed.raw
    ensures Submit(ed).ed.saved == if Storable(Line(ed.text)) then [] else ed.saved
  {
    hide Storable, Remember;
  }

  /** The limits: 79 printable bytes a line, 25 lines of history. */
  lemma Limits(ed: Editor)
    requires Valid(ed)
    ensures |Line(ed.text)| <= 79 && |ed.history| <= 25 && Room(ed) == 79 - |Line(ed.text)|
    ensures forall i | 0 <= i < |Line(ed.text)| :: 0x20 <= Line(ed.text)[i] && Line(ed.text)[i] != 0x7F
  {
    assert forall i | 0 <= i < |Line(ed.text)| :: Line(ed.text)[i] in Line(ed.text);
  }

  /** A full history drops its oldest line for a new one, and not before. */
  lemma HistoryLimit(history: seq<seq<byte>>, line: seq<byte>)
    requires Storable(line)
    ensures |history| < 25 ==> Remember(history, line) == [line] + history
    ensures |history| == 25 ==> Remember(history, line) == [line] + history[..24]
  {
    hide Storable;
  }

  /** A control sequence may have 22 bytes before the final one; with the 24th byte it is given up without effect. */
  lemma ControlLimit(ed: Editor, b: byte)
    requires Valid(ed) && ed.esc == Csi
    ensures |ed.csi| == 23 ==> Step(ed, b) == Result(ed.(esc := Plain, csi := []), [], None)
    ensures |ed.csi| <= 22 && !Final(b) ==> Step(ed, b) == Result(ed.(csi := ed.csi + [b]), [], None)
  {
    hide Fitting, Storable;
  }

  /** Final bytes are 0x40 to 0x7E. */
  lemma FinalExactly(b: byte)
    ensures Final(b) <==> 64 <= b as int <= 126
  {
  }

  /** A session is its reads one after the other, with the lines that they complete. */
  lemma SessionIs(ed: Editor, polls: seq<seq<byte>>)
    requires Valid(ed) && polls != []
    ensures var first := Poll(ed, polls[0]);
            var more := Run(first.ed, polls[1..]);
            Run(ed, polls) == Session(more.ed, first.out + more.out, (if first.line == None then [] else [first.line.value]) + more.lines)
  {
    hide Poll;
  }

  /** Without a terminal nothing is shown, whatever is read. */
  lemma {:induction false} NothingShown(ed: Editor, chunk: seq<byte>)
    requires Valid(ed) && !ed.raw
    ensures Poll(ed, chunk).out == [] && !Poll(ed, chunk).ed.raw
    decreases chunk
  {
    hide Step;
    if chunk != [] {
      StepShowsNothing(ed, chunk[0]);
      if Step(ed, chunk[0]).line == None {
        NothingShown(Step(ed, chunk[0]).ed, chunk[1..]);
      }
    }
  }

  lemma StepShowsNothing(ed: Editor, b: byte)
    requires Valid(ed) && !ed.raw
    ensures Step(ed, b).out == [] && !Step(ed, b).ed.raw
  {
    DecodeKeeps(ed, b);
    KeyShowsNothing(Decoded(ed, b), KeyOf(ed, b));
    hide Decode, Apply, Fitting, Storable;
  }

  lemma KeyShowsNothing(ed: Editor, key: Key)
    requires Valid(ed) && !ed.raw
    ensures Apply(ed, key).out == [] && !Apply(ed, key).ed.raw
  {
    hide Fitting, Storable, Remember, T.Redraw, T.Backspaces;
  }
}
