/**
 The client's line editor on values: the text is a zipper around the cursor,
 the history a list, newest first.  Each operation also says what it writes to
 the terminal.
 */
module LineEditor {
  import opened Wrappers
  import opened Bytes
  import T = Terminal

  const LINE_MAX: nat := 80
  const HISTORY_MAX: nat := 25
  const CSI_MAX: nat := 24

  datatype Zipper = Zipper(before: seq<byte>, after: seq<byte>)

  datatype Esc = Plain | Escape | Csi | Ss3

  /** `view` is the history entry shown, -1 for none; `raw` says that a terminal is attached. */
  datatype Editor = Editor(raw: bool, text: Zipper, history: seq<seq<byte>>, view: int, saved: seq<byte>,
                           esc: Esc, csi: seq<byte>)

  const BLANK := Zipper([], [])

  function Init(raw: bool): (ed: Editor)
    ensures Valid(ed)
  {
    Editor(raw, BLANK, [], -1, [], Plain, [])
  }

  function Line(z: Zipper): seq<byte> {
    z.before + z.after
  }

  predicate Fitting(line: seq<byte>) {
    |line| < LINE_MAX && T.AllPrintable(line)
  }

  predicate Valid(ed: Editor) {
    && Fitting(Line(ed.text)) && Fitting(ed.saved)
    && |ed.history| <= HISTORY_MAX && -1 <= ed.view < |ed.history|
    && (forall i | 0 <= i < |ed.history| :: Fitting(ed.history[i]) && Storable(ed.history[i]))
    && |ed.csi| < CSI_MAX
  }

  // ---------- what is kept in the history ----------

  const LOGIN: seq<byte> := [0x2F, 0x6C, 0x6F, 0x67, 0x69, 0x6E, 0x20]
  const REGISTER: seq<byte> := [0x2F, 0x72, 0x65, 0x67, 0x69, 0x73, 0x74, 0x65, 0x72, 0x20]
  const CHANGEME: seq<byte> := [0x2F, 0x63, 0x68, 0x61, 0x6E, 0x67, 0x65, 0x6D, 0x65, 0x20]
  const USERCHANGE: seq<byte> := [0x2F, 0x75, 0x73, 0x65, 0x72, 0x63, 0x68, 0x61, 0x6E, 0x67, 0x65, 0x20]

  /** Not empty, and not starting with one of four commands that carry a password, written exactly so. */
  predicate Storable(line: seq<byte>) {
    line != [] && !(LOGIN <= line) && !(REGISTER <= line) && !(CHANGEME <= line) && !(USERCHANGE <= line)
  }

  function First(s: seq<seq<byte>>, n: nat): (r: seq<seq<byte>>)
    ensures |r| <= n
  {
    if |s| <= n then s else s[..n]
  }

  function Remember(history: seq<seq<byte>>, line: seq<byte>): seq<seq<byte>> {
    if Storable(line) then First([line] + history, HISTORY_MAX) else history
  }

  // ---------- keys ----------

  datatype Key = Nothing | Up | Down | Right | Left | Home | End | Delete | Erase | Enter | Type(b: byte)

  function PlainKey(b: byte): Key {
    if b == 0x08 || b == 0x7F then Erase else if b == 0x0D || b == 0x0A then Enter else Type(b)
  }

  function Ss3Key(b: byte): Key {
    if b == 0x43 then Right else if b == 0x44 then Left else if b == 0x48 then Home else if b == 0x46 then End else Nothing
  }

  /** The parameters are compared as C strings: a zero byte ends them. */
  function UpToNul(s: seq<byte>): seq<byte> {
    if s == [] || s[0] == 0 then [] else [s[0]] + UpToNul(s[1..])
  }

  function CsiKey(params: seq<byte>, final: byte): Key {
    if final == 0x41 then Up
    else if final == 0x42 then Down
    else if final == 0x7E then
      var p := UpToNul(params);
      if p == [0x31] || p == [0x37] then Home
      else if p == [0x33] then Delete
      else if p == [0x34] || p == [0x38] then End
      else Nothing
    else Ss3Key(final)
  }

  predicate Final(b: byte) {
    0x40 <= b <= 0x7E
  }

  /** The escape filter: its new state, and the key that the byte completes. */
  function Decode(esc: Esc, csi: seq<byte>, b: byte): (Esc, seq<byte>, Key) {
    match esc
    case Plain =>
      if b == 0x9B then (Csi, [], Nothing)
      else if b == 0x1B then (Escape, csi, Nothing)
      else (Plain, csi, PlainKey(b))
    case Escape =>
      if b == 0x5B then (Csi, [], Nothing)
      else if b == 0x4F then (Ss3, csi, Nothing)
      else (Plain, [], PlainKey(b))
    case Ss3 => (Plain, [], Ss3Key(b))
    case Csi =>
      if |csi| + 1 >= CSI_MAX then (Plain, [], Nothing)
      else if !Final(b) then (Csi, csi + [b], Nothing)
      else (Plain, [], CsiKey(csi, b))
  }

  // ---------- operations ----------

  datatype Result = Result(ed: Editor, out: seq<byte>, line: Option<seq<byte>>)

  function Show(ed: Editor, out: seq<byte>): seq<byte> {
    if ed.raw then out else []
  }

  function Edited(ed: Editor, z: Zipper, out: seq<byte>): Result {
    Result(ed.(text := z), Show(ed, out), None)
  }

  function Insert(ed: Editor, b: byte): Result {
    var z := ed.text;
    if !T.Printable(b) || |Line(z)| + 1 >= LINE_MAX then Result(ed, [], None)
    else Edited(ed, Zipper(z.before + [b], z.after), [b] + T.Redraw(z.after))
  }

  function Backspace(ed: Editor): Result {
    var z := ed.text;
    var n := |z.before|;
    if n == 0 then Result(ed, [], None)
    else Edited(ed, Zipper(z.before[..n - 1], z.after), [T.BS] + T.Redraw(z.after))
  }

  function DeleteForward(ed: Editor): Result {
    var z := ed.text;
    if z.after == [] then Result(ed, [], None)
    else Edited(ed, Zipper(z.before, z.after[1..]), T.Redraw(z.after[1..]))
  }

  function MoveLeft(ed: Editor): Result {
    var z := ed.text;
    var n := |z.before|;
    if n == 0 then Result(ed, [], None)
    else Edited(ed, Zipper(z.before[..n - 1], [z.before[n - 1]] + z.after), [T.BS])
  }

  function MoveRight(ed: Editor): Result {
    var z := ed.text;
    if z.after == [] then Result(ed, [], None)
    else Edited(ed, Zipper(z.before + [z.after[0]], z.after[1..]), [z.after[0]])
  }

  /** Moves the cursor of the screen, and only that one. */
  function MoveHome(ed: Editor): Result {
    Result(ed, Show(ed, T.Backspaces(|ed.text.before|)), None)
  }

  function MoveEnd(ed: Editor): Result {
    Edited(ed, Zipper(Line(ed.text), []), ed.text.after)
  }

  function Replace(ed: Editor, line: seq<byte>): Result {
    Edited(ed, Zipper(line, []), T.Backspaces(|ed.text.before|) + line + T.ERASE)
  }

  function HistoryUp(ed: Editor): Result
    requires Valid(ed)
  {
    if ed.history == [] then Result(ed, [], None)
    else if ed.view < 0 then Replace(ed.(saved := Line(ed.text), view := 0), ed.history[0])
    else if ed.view + 1 < |ed.history| then Replace(ed.(view := ed.view + 1), ed.history[ed.view + 1])
    else Result(ed, [], None)
  }

  function HistoryDown(ed: Editor): Result
    requires Valid(ed)
  {
    if ed.view < 0 then Result(ed, [], None)
    else if ed.view == 0 then Replace(ed.(view := -1), ed.saved)
    else Replace(ed.(view := ed.view - 1), ed.history[ed.view - 1])
  }

  function Submit(ed: Editor): Result {
    var line := Line(ed.text);
    Result(ed.(text := BLANK, history := Remember(ed.history, line), view := -1,
               saved := if Storable(line) then [] else ed.saved),
           Show(ed, [T.CR, T.LF]), Some(line))
  }

  function Apply(ed: Editor, key: Key): Result
    requires Valid(ed)
  {
    match key
    case Nothing => Result(ed, [], None)
    case Up => HistoryUp(ed)
    case Down => HistoryDown(ed)
    case Right => MoveRight(ed)
    case Left => MoveLeft(ed)
    case Home => MoveHome(ed)
    case End => MoveEnd(ed)
    case Delete => DeleteForward(ed)
    case Erase => Backspace(ed)
    case Enter => Submit(ed)
    case Type(b) => Insert(ed, b)
  }

  function KeyOf(ed: Editor, b: byte): Key {
    Decode(ed.esc, ed.csi, b).2
  }

  function Decoded(ed: Editor, b: byte): Editor {
    ed.(esc := Decode(ed.esc, ed.csi, b).0, csi := Decode(ed.esc, ed.csi, b).1)
  }

  function Step(ed: Editor, b: byte): (r: Result)
    requires Valid(ed)
    ensures Valid(r.ed)
  {
    DecodeKeeps(ed, b);
    ApplyKeeps(Decoded(ed, b), KeyOf(ed, b));
    Apply(Decoded(ed, b), KeyOf(ed, b))
  }

  /** One read: it stops at the first line and drops the bytes behind it. */
  function Poll(ed: Editor, chunk: seq<byte>): (r: Result)
    requires Valid(ed)
    ensures Valid(r.ed)
    decreases chunk
  {
    if chunk == [] then Result(ed, [], None)
    else
      var first := Step(ed, chunk[0]);
      if first.line.Some? then first
      else
        var more := Poll(first.ed, chunk[1..]);
        more.(out := first.out + more.out)
  }

  // ---------- invariant ----------

  lemma DecodeKeeps(ed: Editor, b: byte)
    requires Valid(ed)
    ensures Valid(Decoded(ed, b)) && Decoded(ed, b).text == ed.text
  {
    hide Fitting, Storable, CsiKey, Ss3Key, PlainKey;
  }

  lemma ReplaceKeeps(ed: Editor, line: seq<byte>)
    requires Valid(ed) && Fitting(line)
    ensures Valid(Replace(ed, line).ed)
  {
    hide Storable, T.Backspaces, T.AllPrintable;
    assert line + [] == line;
  }

  /** Every operation keeps the line below 80 bytes and printable, the history at most 25 entries, all of them storable. */
  lemma ApplyKeeps(ed: Editor, key: Key)
    requires Valid(ed)
    ensures Valid(Apply(ed, key).ed)
  {
    hide Storable, T.Backspaces, T.Redraw, Fitting;
    match key {
      case Up =>
        UpKeeps(ed);
      case Down =>
        DownKeeps(ed);
      case Enter =>
        SubmitKeeps(ed);
      case Type(b) =>
        InsertKeeps(ed, b);
      case Right =>
        if ed.text.after != [] {
          assert Line(MoveRight(ed).ed.text) == Line(ed.text);
        }
      case Left =>
        if ed.text.before != [] {
          assert Line(MoveLeft(ed).ed.text) == Line(ed.text);
        }
      case End =>
        assert Line(MoveEnd(ed).ed.text) == Line(ed.text);
      case Delete =>
        DeleteKeeps(ed);
      case Erase =>
        BackspaceKeeps(ed);
      case _ =>
    }
  }

  lemma UpKeeps(ed: Editor)
    requires Valid(ed)
    ensures Valid(HistoryUp(ed).ed)
  {
    hide Storable, Fitting, Replace;
    if ed.history != [] {
      if ed.view < 0 {
        ReplaceKeeps(ed.(saved := Line(ed.text), view := 0), ed.history[0]);
      } else if ed.view + 1 < |ed.history| {
        ReplaceKeeps(ed.(view := ed.view + 1), ed.history[ed.view + 1]);
      }
    }
  }

  lemma DownKeeps(ed: Editor)
    requires Valid(ed)
    ensures Valid(HistoryDown(ed).ed)
  {
    hide Storable, Fitting, Replace;
    if ed.view == 0 {
      ReplaceKeeps(ed.(view := -1), ed.saved);
    } else if ed.view > 0 {
      ReplaceKeeps(ed.(view := ed.view - 1), ed.history[ed.view - 1]);
    }
  }

  lemma SubmitKeeps(ed: Editor)
    requires Valid(ed)
    ensures Valid(Submit(ed).ed)
  {
    NonePrintable();
    RememberKeeps(ed, Line(ed.text));
    hide Storable, T.AllPrintable, Remember;
    assert Line(BLANK) == [];
  }

  lemma RememberKeeps(ed: Editor, line: seq<byte>)
    requires Valid(ed) && Fitting(line)
    ensures |Remember(ed.history, line)| <= HISTORY_MAX
    ensures forall h | h in Remember(ed.history, line) :: Fitting(h) && Storable(h)
  {
    hide Storable, Fitting;
  }

  lemma NonePrintable()
    ensures T.AllPrintable([])
  {
  }

  lemma InsertKeeps(ed: Editor, b: byte)
    requires Valid(ed)
    ensures Valid(Insert(ed, b).ed)
  {
    hide Storable, T.Redraw;
    var z := ed.text;
    assert forall c | c in Line(Zipper(z.before + [b], z.after)) :: c == b || c in Line(z);
  }

  lemma DeleteKeeps(ed: Editor)
    requires Valid(ed)
    ensures Valid(DeleteForward(ed).ed)
  {
    hide Storable, T.Redraw;
    var z := ed.text;
    if z.after != [] {
      assert forall c | c in Line(Zipper(z.before, z.after[1..])) :: c in Line(z);
    }
  }

  lemma BackspaceKeeps(ed: Editor)
    requires Valid(ed)
    ensures Valid(Backspace(ed).ed)
  {
    hide Storable, T.Redraw;
    var z := ed.text;
    if z.before != [] {
      assert forall c | c in Line(Zipper(z.before[..|z.before| - 1], z.after)) :: c in Line(z);
    }
  }
}
