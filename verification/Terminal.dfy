/** One row of a simple terminal: printable bytes take a cell each, with backspace, carriage return, line feed and erase-to-end. */
module Terminal {
  import opened Bytes

  const BS: byte := 0x08
  const LF: byte := 0x0A
  const CR: byte := 0x0D
  const ESC: byte := 0x1B
  const BLANK: byte := 0x20

  datatype Mode = Text | Escaped | Control

  datatype Row = Row(cells: seq<byte>, cursor: nat, mode: Mode)

  const EMPTY := Row([], 0, Text)

  predicate Printable(b: byte) {
    b >= 0x20 && b != 0x7F
  }

  predicate AllPrintable(s: seq<byte>) {
    forall b | b in s :: Printable(b)
  }

  predicate Valid(r: Row) {
    r.cursor <= |r.cells|
  }

  /** Printing overwrites from the cursor on. */
  function Print(cells: seq<byte>, at: nat, s: seq<byte>): seq<byte>
    requires at <= |cells|
  {
    cells[..at] + s + (if at + |s| <= |cells| then cells[at + |s|..] else [])
  }

  function Feed1(r: Row, b: byte): (q: Row)
    requires Valid(r)
    ensures Valid(q)
  {
    match r.mode
    case Text =>
      if Printable(b) then Row(Print(r.cells, r.cursor, [b]), r.cursor + 1, Text)
      else if b == BS then r.(cursor := if r.cursor > 0 then r.cursor - 1 else 0)
      else if b == CR then r.(cursor := 0)
      else if b == LF then r.(cells := seq(r.cursor, i => BLANK))
      else if b == ESC then r.(mode := Escaped)
      else r
    case Escaped => r.(mode := if b == 0x5B then Control else Text)
    case Control =>
      if b == 0x4B then Row(r.cells[..r.cursor], r.cursor, Text)
      else if 0x40 <= b <= 0x7E then r.(mode := Text)
      else r
  }

  function Feed(r: Row, s: seq<byte>): (q: Row)
    requires Valid(r)
    ensures Valid(q)
    decreases s
  {
    if s == [] then r else Feed(Feed1(r, s[0]), s[1..])
  }

  lemma {:induction false} FeedConcat(r: Row, s: seq<byte>, t: seq<byte>)
    requires Valid(r)
    ensures Feed(r, s + t) == Feed(Feed(r, s), t)
    decreases s
  {
    hide Feed1;
    if s == [] {
      assert s + t == t;
    } else {
      assert (s + t)[1..] == s[1..] + t;
      FeedConcat(Feed1(r, s[0]), s[1..], t);
    }
  }

  lemma {:induction false} FeedPrintable(r: Row, s: seq<byte>)
    requires Valid(r) && r.mode == Text && AllPrintable(s)
    ensures Feed(r, s) == Row(Print(r.cells, r.cursor, s), r.cursor + |s|, Text)
    decreases s
  {
    if s == [] {
      assert Print(r.cells, r.cursor, s) == r.cells;
    } else {
      assert Printable(s[0]);
      assert forall b | b in s[1..] :: b in s;
      FeedPrintable(Feed1(r, s[0]), s[1..]);
      PrintTwice(r.cells, r.cursor, s);
    }
  }

  lemma PrintTwice(cells: seq<byte>, at: nat, s: seq<byte>)
    requires at <= |cells| && s != []
    ensures Print(Print(cells, at, [s[0]]), at + 1, s[1..]) == Print(cells, at, s)
  {
    var once := Print(cells, at, [s[0]]);
    assert once[..at + 1] == cells[..at] + [s[0]];
    assert [s[0]] + s[1..] == s;
  }

  function Backspaces(n: nat): (s: seq<byte>)
    ensures |s| == n
  {
    if n == 0 then [] else [BS] + Backspaces(n - 1)
  }

  lemma {:induction false} FeedBackspaces(r: Row, n: nat)
    requires Valid(r) && r.mode == Text
    ensures Feed(r, Backspaces(n)) == r.(cursor := if n <= r.cursor then r.cursor - n else 0)
    decreases n
  {
    if n > 0 {
      assert Backspaces(n)[1..] == Backspaces(n - 1);
      FeedBackspaces(Feed1(r, BS), n - 1);
    }
  }

  const ERASE: seq<byte> := [0x1B, 0x5B, 0x4B]

  lemma EraseSteps(r: Row)
    requires Valid(r) && r.mode == Text
    ensures Feed1(Feed1(Feed1(r, 0x1B), 0x5B), 0x4B) == Row(r.cells[..r.cursor], r.cursor, Text)
  {
    assert Feed1(r, 0x1B) == r.(mode := Escaped);
    assert Feed1(r.(mode := Escaped), 0x5B) == r.(mode := Control);
  }

  lemma FeedErase(r: Row)
    requires Valid(r) && r.mode == Text
    ensures Feed(r, ERASE) == Row(r.cells[..r.cursor], r.cursor, Text)
  {
    hide Feed1, Feed;
    EraseSteps(r);
    var a := Feed1(r, 0x1B);
    FeedOne(r, 0x1B);
    FeedOne(a, 0x5B);
    FeedOne(Feed1(a, 0x5B), 0x4B);
    FeedConcat(r, [0x1B], [0x5B]);
    FeedConcat(r, [0x1B] + [0x5B], [0x4B]);
    assert ERASE == [0x1B] + [0x5B] + [0x4B];
  }

  lemma FeedOne(r: Row, b: byte)
    requires Valid(r)
    ensures Feed(r, [b]) == Feed1(r, b)
  {
    hide Feed1;
    assert [b][1..] == [];
    assert Feed(Feed1(r, b), []) == Feed1(r, b);
  }

  lemma FeedNewline(r: Row)
    requires Valid(r) && r.mode == Text
    ensures Feed(r, [CR, LF]) == EMPTY
  {
    var a := Feed1(r, CR);
    assert [CR, LF][1..] == [LF] && [LF][1..] == [];
    assert Feed(a, [LF]) == Feed(Feed1(a, LF), []);
  }

  /** What redrawing the text right of the cursor does: the rest of the row becomes that text. */
  function Redraw(s: seq<byte>): seq<byte> {
    s + ERASE + Backspaces(|s|)
  }

  lemma FeedRedraw(r: Row, s: seq<byte>)
    requires Valid(r) && r.mode == Text && AllPrintable(s)
    ensures Feed(r, Redraw(s)) == Row(r.cells[..r.cursor] + s, r.cursor, Text)
  {
    hide Feed, Feed1, Backspaces;
    FeedConcat(r, s + ERASE, Backspaces(|s|));
    FeedConcat(r, s, ERASE);
    FeedPrintable(r, s);
    var shown := Feed(r, s);
    assert shown.cells[..shown.cursor] == r.cells[..r.cursor] + s;
    FeedErase(shown);
    FeedBackspaces(Feed(shown, ERASE), |s|);
  }

  lemma FeedBack(r: Row)
    requires Valid(r) && r.mode == Text
    ensures Feed(r, [BS]) == r.(cursor := if r.cursor > 0 then r.cursor - 1 else 0)
  {
    assert [BS] == Backspaces(1) by {
      assert Backspaces(0) == [];
    }
    FeedBackspaces(r, 1);
  }
}
