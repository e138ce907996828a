/** What the line editor keeps over whole sessions: the screen mirrors the line, the history is exact, recall is undone. */
module LineEditorRuns {
  import opened Wrappers
  import opened Bytes
  import opened LineEditor
  import T = Terminal

  /** The terminal row shows exactly the line, with its cursor at the editor's. */
  predicate Mirrors(r: T.Row, z: Zipper) {
    r == T.Row(Line(z), |z.before|, T.Text)
  }

  lemma MirrorInsert(r: T.Row, z: Zipper, b: byte)
    requires Mirrors(r, z) && T.AllPrintable(Line(z)) && T.Printable(b)
    ensures Mirrors(T.Feed(r, [b] + T.Redraw(z.after)), Zipper(z.before + [b], z.after))
  {
    hide T.Feed, T.Printable, T.Redraw;
    assert T.AllPrintable(z.after) && T.AllPrintable([b]) by {
      assert forall c | c in z.after :: c in Line(z);
    }
    T.FeedConcat(r, [b], T.Redraw(z.after));
    T.FeedPrintable(r, [b]);
    T.FeedRedraw(T.Feed(r, [b]), z.after);
  }

  lemma MirrorBackspace(r: T.Row, z: Zipper)
    requires Mirrors(r, z) && T.AllPrintable(Line(z)) && z.before != []
    ensures Mirrors(T.Feed(r, [T.BS] + T.Redraw(z.after)), Zipper(z.before[..|z.before| - 1], z.after))
  {
    hide T.Feed, T.Printable, T.Redraw;
    assert T.AllPrintable(z.after) by {
      assert forall c | c in z.after :: c in Line(z);
    }
    T.FeedConcat(r, [T.BS], T.Redraw(z.after));
    T.FeedBack(r);
    T.FeedRedraw(T.Feed(r, [T.BS]), z.after);
  }

  lemma MirrorDelete(r: T.Row, z: Zipper)
    requires Mirrors(r, z) && T.AllPrintable(Line(z)) && z.after != []
    ensures Mirrors(T.Feed(r, T.Redraw(z.after[1..])), Zipper(z.before, z.after[1..]))
  {
    hide T.Feed, T.Printable, T.Redraw;
    assert T.AllPrintable(z.after[1..]) by {
      assert forall c | c in z.after[1..] :: c in Line(z);
    }
    T.FeedRedraw(r, z.after[1..]);
  }

  lemma MirrorLeft(r: T.Row, z: Zipper)
    requires Mirrors(r, z) && z.before != []
    ensures var n := |z.before| - 1; Mirrors(T.Feed(r, [T.BS]), Zipper(z.before[..n], [z.before[n]] + z.after))
  {
    hide T.Feed;
    T.FeedBack(r);
  }

  /** Printing what is already there moves the cursor over it. */
  lemma MirrorForward(r: T.Row, z: Zipper, n: nat)
    requires Mirrors(r, z) && T.AllPrintable(Line(z)) && n <= |z.after|
    ensures Mirrors(T.Feed(r, z.after[..n]), Zipper(z.before + z.after[..n], z.after[n..]))
  {
    hide T.Feed, T.Printable;
    assert T.AllPrintable(z.after[..n]) by {
      assert forall c | c in z.after[..n] :: c in Line(z);
    }
    T.FeedPrintable(r, z.after[..n]);
  }

  lemma MirrorReplace(r: T.Row, z: Zipper, line: seq<byte>)
    requires Mirrors(r, z) && T.AllPrintable(line)
    ensures Mirrors(T.Feed(r, T.Backspaces(|z.before|) + line + T.ERASE), Zipper(line, []))
  {
    hide T.Feed, T.Printable, T.Backspaces, T.ERASE;
    T.FeedConcat(r, T.Backspaces(|z.before|) + line, T.ERASE);
    T.FeedConcat(r, T.Backspaces(|z.before|), line);
    T.FeedBackspaces(r, |z.before|);
    var start := r.(cursor := 0);
    T.FeedPrintable(start, line);
    T.FeedErase(T.Feed(start, line));
  }

  lemma MirrorNone(r: T.Row, z: Zipper)
    requires Mirrors(r, z)
    ensures Mirrors(T.Feed(r, []), z) && T.Valid(r) && r.mode == T.Text
  {
  }

  /** One key: the mirror survives unless it is the home key away from the start of the line. */
  lemma ApplyMirror(ed: Editor, key: Key, r: T.Row)
    requires Valid(ed) && ed.raw && Mirrors(r, ed.text)
    ensures Mirrors(T.Feed(r, Apply(ed, key).out), Apply(ed, key).ed.text) <==> !(key == Home && ed.text.before != [])
  {
    hide T.Feed, T.Printable, T.Redraw, T.Backspaces, Mirrors, Remember, Storable;
    var z := ed.text;
    MirrorNone(r, z);
    match key {
      case Up =>
        MirrorUp(ed, r);
      case Down =>
        MirrorDown(ed, r);
      case Right =>
        if z.after != [] {
          MirrorForward(r, z, 1);
          assert z.after[..1] == [z.after[0]];
        }
      case Left =>
        if z.before != [] {
          MirrorLeft(r, z);
        }
      case Home =>
        MirrorHome(ed, r);
      case End =>
        MirrorForward(r, z, |z.after|);
        assert z.after[..|z.after|] == z.after && z.after[|z.after|..] == [];
      case Delete =>
        if z.after != [] {
          MirrorDelete(r, z);
        }
      case Erase =>
        if z.before != [] {
          MirrorBackspace(r, z);
        }
      case Enter =>
        EnterRestores(ed, r);
      case Type(b) =>
        if T.Printable(b) {
          MirrorInsert(r, z, b);
        }
      case Nothing =>
    }
  }

  lemma MirrorUp(ed: Editor, r: T.Row)
    requires Valid(ed) && ed.raw && Mirrors(r, ed.text)
    ensures Mirrors(T.Feed(r, HistoryUp(ed).out), HistoryUp(ed).ed.text)
  {
    hide T.Feed, T.Printable, T.Backspaces, Mirrors, Storable;
    MirrorNone(r, ed.text);
    if ed.history != [] {
      var i := if ed.view < 0 then 0 else ed.view + 1;
      if i < |ed.history| {
        MirrorReplace(r, ed.text, ed.history[i]);
      }
    }
  }

  lemma MirrorDown(ed: Editor, r: T.Row)
    requires Valid(ed) && ed.raw && Mirrors(r, ed.text)
    ensures Mirrors(T.Feed(r, HistoryDown(ed).out), HistoryDown(ed).ed.text)
  {
    hide T.Feed, T.Printable, T.Backspaces, Mirrors, Storable;
    MirrorNone(r, ed.text);
    if ed.view >= 0 {
      MirrorReplace(r, ed.text, if ed.view == 0 then ed.saved else ed.history[ed.view - 1]);
    }
  }

  lemma MirrorHome(ed: Editor, r: T.Row)
    requires ed.raw && Mirrors(r, ed.text)
    ensures Mirrors(T.Feed(r, MoveHome(ed).out), ed.text) <==> ed.text.before == []
  {
    T.FeedBackspaces(r, |ed.text.before|);
    hide T.Feed, T.Backspaces;
  }

  /** Ending the line restores the mirror from whatever the row shows. */
  lemma EnterRestores(ed: Editor, r: T.Row)
    requires ed.raw && T.Valid(r) && r.mode == T.Text
    ensures Mirrors(T.Feed(r, Submit(ed).out), Submit(ed).ed.text)
  {
    hide T.Feed, Remember, Storable;
    T.FeedNewline(r);
  }

  /** No step of this read uses the home key away from the start of the line. */
  predicate AvoidsHome(ed: Editor, chunk: seq<byte>)
    requires Valid(ed)
    decreases chunk
  {
    chunk == [] ||
    (&& !(KeyOf(ed, chunk[0]) == Home && ed.text.before != [])
     && (Step(ed, chunk[0]).line.Some? || AvoidsHome(Step(ed, chunk[0]).ed, chunk[1..])))
  }

  lemma StepMirror(ed: Editor, b: byte, r: T.Row)
    requires Valid(ed) && ed.raw && Mirrors(r, ed.text)
    ensures Mirrors(T.Feed(r, Step(ed, b).out), Step(ed, b).ed.text) <==> !(KeyOf(ed, b) == Home && ed.text.before != [])
    ensures Step(ed, b).ed.raw
  {
    DecodeKeeps(ed, b);
    ApplyMirror(Decoded(ed, b), KeyOf(ed, b), r);
    hide Decode, T.Feed, Mirrors, Fitting, Remember, Storable;
  }

  lemma {:induction false} PollMirror(ed: Editor, chunk: seq<byte>, r: T.Row)
    requires Valid(ed) && ed.raw && Mirrors(r, ed.text) && AvoidsHome(ed, chunk)
    ensures Mirrors(T.Feed(r, Poll(ed, chunk).out), Poll(ed, chunk).ed.text) && Poll(ed, chunk).ed.raw
    decreases chunk
  {
    hide Step, KeyOf, T.Feed;
    if chunk == [] {
      MirrorNone(r, ed.text);
    } else {
      StepMirror(ed, chunk[0], r);
      var first := Step(ed, chunk[0]);
      if first.line.None? {
        var r1 := T.Feed(r, first.out);
        PollMirror(first.ed, chunk[1..], r1);
        T.FeedConcat(r, first.out, Poll(first.ed, chunk[1..]).out);
      }
    }
  }

  // ---------- sessions ----------

  datatype Session = Session(ed: Editor, out: seq<byte>, lines: seq<seq<byte>>)

  function Run(ed: Editor, polls: seq<seq<byte>>): (s: Session)
    requires Valid(ed)
    ensures Valid(s.ed)
    decreases polls
  {
    if polls == [] then Session(ed, [], [])
    else
      var first := Poll(ed, polls[0]);
      var more := Run(first.ed, polls[1..]);
      Session(more.ed, first.out + more.out, (if first.line.Some? then [first.line.value] else []) + more.lines)
  }

  predicate AvoidsHomeRun(ed: Editor, polls: seq<seq<byte>>)
    requires Valid(ed)
    decreases polls
  {
    polls == [] || (AvoidsHome(ed, polls[0]) && AvoidsHomeRun(Poll(ed, polls[0]).ed, polls[1..]))
  }

  lemma {:induction false} RunMirror(ed: Editor, polls: seq<seq<byte>>, r: T.Row)
    requires Valid(ed) && ed.raw && Mirrors(r, ed.text) && AvoidsHomeRun(ed, polls)
    ensures Mirrors(T.Feed(r, Run(ed, polls).out), Run(ed, polls).ed.text)
    decreases polls
  {
    hide Poll, AvoidsHome, T.Feed;
    if polls == [] {
      MirrorNone(r, ed.text);
    } else {
      PollMirror(ed, polls[0], r);
      var first := Poll(ed, polls[0]);
      RunMirror(first.ed, polls[1..], T.Feed(r, first.out));
      T.FeedConcat(r, first.out, Run(first.ed, polls[1..]).out);
    }
  }

  /**
   Screen mirror: over any session without the home key, a terminal that
   starts on an empty row shows exactly the line being edited, with its cursor
   in the same place; and the line always has fewer than 80 printable bytes.
   */
  lemma ScreenMirrors(polls: seq<seq<byte>>)
    requires AvoidsHomeRun(Init(true), polls)
    ensures var s := Run(Init(true), polls);
            Mirrors(T.Feed(T.EMPTY, s.out), s.ed.text) && Fitting(Line(s.ed.text))
  {
    hide Fitting, T.Feed, AvoidsHomeRun, Run;
    RunMirror(Init(true), polls, T.EMPTY);
  }

  // ---------- one read ----------

  /** What follows a line in the same read is dropped. */
  lemma {:induction false} RestOfReadDropped(ed: Editor, s: seq<byte>, t: seq<byte>)
    requires Valid(ed)
    ensures if Poll(ed, s).line.Some? then Poll(ed, s + t) == Poll(ed, s)
            else Poll(ed, s + t) == (var b := Poll(Poll(ed, s).ed, t); b.(out := Poll(ed, s).out + b.out))
    decreases s
  {
    hide Step;
    if s == [] {
      assert s + t == t && [] + Poll(ed, t).out == Poll(ed, t).out;
    } else {
      assert (s + t)[1..] == s[1..] + t;
      var first := Step(ed, s[0]);
      if first.line.None? {
        RestOfReadDropped(first.ed, s[1..], t);
        var a := Poll(first.ed, s[1..]);
        var b := Poll(a.ed, t);
        assert first.out + (a.out + b.out) == (first.out + a.out) + b.out;
      }
    }
  }

  /** Bytes that the filter passes on as text. */
  predicate Typeable(b: byte) {
    T.Printable(b) && b != 0x9B
  }

  function Room(ed: Editor): nat
    requires Valid(ed)
  {
    LINE_MAX - 1 - |Line(ed.text)|
  }

  lemma TypeOne(ed: Editor, b: byte)
    requires Valid(ed) && ed.esc == Plain && Typeable(b)
    ensures var z := ed.text; var r := Step(ed, b);
            r.line == None && r.ed == ed.(text := if Room(ed) > 0 then Zipper(z.before + [b], z.after) else z)
  {
    hide Fitting, Storable, T.Redraw;
    assert Step(ed, b) == Insert(ed, b);
  }

  /** Typing inserts at the cursor, as far as there is room. */
  lemma {:induction false} Typing(ed: Editor, s: seq<byte>)
    requires Valid(ed) && ed.esc == Plain && forall i | 0 <= i < |s| :: Typeable(s[i])
    ensures var z := ed.text; var n := if |s| <= Room(ed) then |s| else Room(ed);
            Poll(ed, s).line == None && Poll(ed, s).ed == ed.(text := Zipper(z.before + s[..n], z.after))
    decreases s
  {
    hide Step, Fitting, Storable, Typeable, Valid;
    var z := ed.text;
    RoomBound(ed);
    if s == [] {
      assert z.before + s[..0] == z.before;
    } else {
      TypeOne(ed, s[0]);
      var next := Step(ed, s[0]).ed;
      RoomBound(next);
      forall i | 0 <= i < |s[1..]| ensures Typeable(s[1..][i]) {
        assert s[1..][i] == s[i + 1];
      }
      Typing(next, s[1..]);
      var n := if |s| <= Room(ed) then |s| else Room(ed);
      if n > 0 {
        assert (z.before + [s[0]]) + s[1..][..n - 1] == z.before + s[..n];
      } else {
        assert z.before + s[..0] == z.before && z.before + s[1..][..0] == z.before;
      }
    }
  }

  lemma RoomBound(ed: Editor)
    requires Valid(ed)
    ensures Room(ed) == 79 - |ed.text.before| - |ed.text.after| >= 0
  {
  }

  // ---------- history ----------

  /** The lines worth keeping, newest first. */
  function Kept(lines: seq<seq<byte>>): seq<seq<byte>> {
    if lines == [] then []
    else Kept(lines[1..]) + (if Storable(lines[0]) then [lines[0]] else [])
  }

  lemma ApplyHistory(ed: Editor, key: Key)
    requires Valid(ed)
    ensures var r := Apply(ed, key);
            r.ed.history == (if r.line.Some? then Remember(ed.history, r.line.value) else ed.history)
  {
    hide Storable, Remember, Fitting, T.Redraw, T.Backspaces;
  }

  lemma {:induction false} PollHistory(ed: Editor, chunk: seq<byte>)
    requires Valid(ed)
    ensures var r := Poll(ed, chunk);
            r.ed.history == (if r.line.Some? then Remember(ed.history, r.line.value) else ed.history)
    decreases chunk
  {
    hide Apply, Remember, Fitting, Storable, Decode;
    if chunk != [] {
      DecodeKeeps(ed, chunk[0]);
      ApplyHistory(Decoded(ed, chunk[0]), KeyOf(ed, chunk[0]));
      if Step(ed, chunk[0]).line.None? {
        PollHistory(Step(ed, chunk[0]).ed, chunk[1..]);
      }
    }
  }

  lemma FirstAppend(a: seq<seq<byte>>, b: seq<seq<byte>>)
    ensures First(a + First(b, HISTORY_MAX), HISTORY_MAX) == First(a + b, HISTORY_MAX)
  {
  }

  lemma KeptBefore(line: seq<byte>, lines: seq<seq<byte>>, history: seq<seq<byte>>)
    ensures First(Kept(lines) + Remember(history, line), HISTORY_MAX) == First(Kept([line] + lines) + history, HISTORY_MAX)
  {
    hide Storable;
    assert ([line] + lines)[1..] == lines;
    if Storable(line) {
      FirstAppend(Kept(lines), [line] + history);
      assert Kept(lines) + ([line] + history) == Kept(lines) + [line] + history;
    } else {
      assert Kept(lines) + [] == Kept(lines);
    }
  }

  /** The history holds the last 25 submitted lines worth keeping, newest first. */
  lemma {:induction false} HistoryExact(ed: Editor, polls: seq<seq<byte>>)
    requires Valid(ed)
    ensures Run(ed, polls).ed.history == First(Kept(Run(ed, polls).lines) + ed.history, HISTORY_MAX)
    decreases polls
  {
    HistoryFits(ed);
    hide Poll, Storable, Valid, Remember;
    if polls == [] {
      assert Kept([]) + ed.history == ed.history;
    } else {
      var first := Poll(ed, polls[0]);
      var more := Run(first.ed, polls[1..]);
      PollHistory(ed, polls[0]);
      HistoryExact(first.ed, polls[1..]);
      if first.line.Some? {
        KeptBefore(first.line.value, more.lines, ed.history);
      } else {
        assert [] + more.lines == more.lines;
      }
    }
  }

  lemma HistoryFits(ed: Editor)
    requires Valid(ed)
    ensures |ed.history| <= HISTORY_MAX
  {
  }

  /** Whatever is kept was submitted and is storable. */
  lemma {:induction false} KeptFrom(lines: seq<seq<byte>>)
    ensures forall l | l in Kept(lines) :: l in lines && Storable(l)
  {
    hide Storable;
    if lines != [] {
      KeptFrom(lines[1..]);
    }
  }

  // ---------- recall ----------

  function Ups(ed: Editor, n: nat): (r: Editor)
    requires Valid(ed)
    ensures Valid(r)
  {
    if n == 0 then ed
    else
      UpKeeps(Ups(ed, n - 1));
      HistoryUp(Ups(ed, n - 1)).ed
  }

  function Downs(ed: Editor, n: nat): (r: Editor)
    requires Valid(ed)
    ensures Valid(r)
  {
    if n == 0 then ed
    else
      DownKeeps(Downs(ed, n - 1));
      HistoryDown(Downs(ed, n - 1)).ed
  }

  function Least(a: nat, b: nat): nat {
    if a <= b then a else b
  }

  lemma UpOnce(ed: Editor)
    requires Valid(ed)
    ensures -1 <= ed.view < |ed.history|
    ensures HistoryUp(ed).ed ==
            if ed.view + 1 < |ed.history| then
              ed.(view := ed.view + 1, saved := if ed.view < 0 then Line(ed.text) else ed.saved, text := Zipper(ed.history[ed.view + 1], []))
            else ed
  {
    hide Fitting, Storable, T.Backspaces;
  }

  lemma DownOnce(ed: Editor)
    requires Valid(ed)
    ensures -1 <= ed.view < |ed.history|
    ensures HistoryDown(ed).ed ==
            if ed.view < 0 then ed
            else ed.(view := ed.view - 1, text := Zipper(if ed.view == 0 then ed.saved else ed.history[ed.view - 1], []))
  {
    hide Fitting, Storable, T.Backspaces;
  }

  /** Pressing up n times shows the n-th last line, or the oldest one. */
  lemma {:induction false} RecallShows(ed: Editor, n: nat)
    requires Valid(ed) && ed.view == -1
    ensures var k := Least(n, |ed.history|);
            Ups(ed, n) == if k == 0 then ed else ed.(view := k - 1, saved := Line(ed.text), text := Zipper(ed.history[k - 1], []))
  {
    hide Valid, HistoryUp, Line;
    if n > 0 {
      RecallShows(ed, n - 1);
      UpOnce(Ups(ed, n - 1));
    }
  }

  lemma {:induction false} DownShows(ed: Editor, n: nat)
    requires Valid(ed) && ed.view >= 0
    ensures n <= ed.view ==> ed.view < |ed.history|
    ensures Downs(ed, n) ==
            if n == 0 then ed
            else if n <= ed.view then ed.(view := ed.view - n, text := Zipper(ed.history[ed.view - n], []))
            else ed.(view := -1, text := Zipper(ed.saved, []))
  {
    hide Valid, HistoryDown;
    DownOnce(ed);
    if n > 0 {
      DownShows(ed, n - 1);
      DownOnce(Downs(ed, n - 1));
    }
  }

  /** Recall is undone by at least as many downs: the line comes back, with the cursor at its end. */
  lemma RecallUndone(ed: Editor, n: nat, m: nat)
    requires Valid(ed) && ed.view == -1
    ensures var k := Least(n, |ed.history|);
            0 < k <= m ==> Downs(Ups(ed, n), m) == ed.(saved := Line(ed.text), text := Zipper(Line(ed.text), []))
  {
    RecallShows(ed, n);
    hide Ups, Downs, Fitting, Storable;
    if Least(n, |ed.history|) > 0 {
      DownShows(Ups(ed, n), m);
    }
  }

  // ---------- editing ----------

  lemma InsertThenBackspace(ed: Editor, b: byte)
    requires Valid(ed) && T.Printable(b) && Room(ed) > 0
    ensures Backspace(Insert(ed, b).ed).ed == ed
  {
    hide T.Redraw, Storable, T.Printable, Fitting;
    assert (ed.text.before + [b])[..|ed.text.before|] == ed.text.before;
  }

  lemma InsertThenDelete(ed: Editor, b: byte)
    requires Valid(ed) && T.Printable(b) && Room(ed) > 0
    ensures DeleteForward(MoveLeft(Insert(ed, b).ed).ed).ed == ed
  {
    hide T.Redraw, Storable, T.Printable, Fitting;
    assert (ed.text.before + [b])[..|ed.text.before|] == ed.text.before;
    assert ([b] + ed.text.after)[1..] == ed.text.after;
  }

  lemma LeftThenRight(ed: Editor)
    requires ed.text.before != []
    ensures MoveRight(MoveLeft(ed).ed).ed == ed
  {
    var z := ed.text;
    var n := |z.before| - 1;
    assert z.before[..n] + [z.before[n]] == z.before && ([z.before[n]] + z.after)[1..] == z.after;
  }

  lemma RightThenLeft(ed: Editor)
    requires ed.text.after != []
    ensures MoveLeft(MoveRight(ed).ed).ed == ed
  {
    var z := ed.text;
    assert (z.before + [z.after[0]])[..|z.before|] == z.before && [z.after[0]] + z.after[1..] == z.after;
  }

  /** Typing and erasing, and moving and moving back, undo each other. */
  lemma EditsUndone(ed: Editor, b: byte)
    requires Valid(ed)
    ensures T.Printable(b) && Room(ed) > 0 ==> Backspace(Insert(ed, b).ed).ed == ed
    ensures T.Printable(b) && Room(ed) > 0 ==> DeleteForward(MoveLeft(Insert(ed, b).ed).ed).ed == ed
    ensures ed.text.before != [] ==> MoveRight(MoveLeft(ed).ed).ed == ed
    ensures ed.text.after != [] ==> MoveLeft(MoveRight(ed).ed).ed == ed
  {
    hide *;
    if T.Printable(b) && Room(ed) > 0 {
      InsertThenBackspace(ed, b);
      InsertThenDelete(ed, b);
    }
    if ed.text.before != [] {
      LeftThenRight(ed);
    }
    if ed.text.after != [] {
      RightThenLeft(ed);
    }
  }
}
