/** How the server reads a line that the client sends: white space, a slash, an alias, a verb and its arguments. */
module CommandLine {
  import opened Wrappers
  import opened Bytes

  const SLASH: byte := 0x2F
  const BLANK: byte := 0x20
  const TOKEN_MAX: nat := 16

  datatype Command = Command(verb: seq<byte>, args: seq<seq<byte>>)

  const COMMANDS: seq<byte> := [0x63, 0x6F, 0x6D, 0x6D, 0x61, 0x6E, 0x64, 0x73]
  const COMMAND: seq<byte> := [0x63, 0x6F, 0x6D, 0x6D, 0x61, 0x6E, 0x64]
  const CMD: seq<byte> := [0x63, 0x6D, 0x64]
  const HELP := Command([0x68, 0x65, 0x6C, 0x70], [])

  const LOGIN: seq<byte> := [0x6C, 0x6F, 0x67, 0x69, 0x6E]
  const REGISTER: seq<byte> := [0x72, 0x65, 0x67, 0x69, 0x73, 0x74, 0x65, 0x72]
  const CHANGEME: seq<byte> := [0x63, 0x68, 0x61, 0x6E, 0x67, 0x65, 0x6D, 0x65]
  const USERCHANGE: seq<byte> := [0x75, 0x73, 0x65, 0x72, 0x63, 0x68, 0x61, 0x6E, 0x67, 0x65]
  const CHANGEUSER: seq<byte> := [0x63, 0x68, 0x61, 0x6E, 0x67, 0x65, 0x75, 0x73, 0x65, 0x72]

  predicate Space(b: byte) {
    b == BLANK || 0x09 <= b <= 0x0D
  }

  function Trim(s: seq<byte>): (r: seq<byte>)
    ensures |r| <= |s| && (r == [] || !Space(r[0]))
  {
    if s == [] || !Space(s[0]) then s else Trim(s[1..])
  }

  /** The bytes up to the first white space. */
  function Word(s: seq<byte>): (w: seq<byte>)
    ensures w <= s && (s != [] && !Space(s[0]) ==> w != [])
  {
    if s == [] || Space(s[0]) then [] else [s[0]] + Word(s[1..])
  }

  function Tokens(s: seq<byte>): seq<seq<byte>>
    decreases |s|
  {
    var t := Trim(s);
    if t == [] then [] else [Word(t)] + Tokens(t[|Word(t)|..])
  }

  function Lower(b: byte): byte {
    if 0x41 <= b <= 0x5A then b + 0x20 else b
  }

  predicate SameWord(a: seq<byte>, b: seq<byte>) {
    |a| == |b| && forall i | 0 <= i < |a| :: Lower(a[i]) == Lower(b[i])
  }

  datatype Stripped = Help | Rest(s: seq<byte>) | Other

  /** An alias in front is skipped; alone it asks for help.  Alone it may be in any case, in front it may not. */
  function StripOne(s: seq<byte>, alias: seq<byte>): Stripped {
    if SameWord(s, alias) then Help
    else if alias < s && Space(s[|alias|]) then
      var r := Trim(s[|alias|..]);
      if r == [] then Help else Rest(r)
    else Other
  }

  function StripAlias(s: seq<byte>): Stripped {
    if s == [] then Help
    else if !StripOne(s, COMMANDS).Other? then StripOne(s, COMMANDS)
    else if !StripOne(s, COMMAND).Other? then StripOne(s, COMMAND)
    else if !StripOne(s, CMD).Other? then StripOne(s, CMD)
    else Rest(s)
  }

  function CommandOf(tokens: seq<seq<byte>>): Option<Command> {
    if tokens == [] then Some(HELP)
    else if |tokens| > TOKEN_MAX then None
    else Some(Command(tokens[0], tokens[1..]))
  }

  /** The command in a line; none if it is chat, a comment, or has too many words. */
  function Parse(line: seq<byte>): Option<Command> {
    var t := Trim(line);
    if t == [] || t[0] != SLASH then None
    else
      var stripped := StripAlias(Trim(t[1..]));
      if stripped.Rest? then CommandOf(Tokens(stripped.s)) else Some(HELP)
  }

  /** The commands one of whose arguments is a password, given that many arguments. */
  predicate TakesPassword(c: Command) {
    || (SameWord(c.verb, LOGIN) && |c.args| >= 2)
    || (SameWord(c.verb, REGISTER) && |c.args| >= 6)
    || (SameWord(c.verb, CHANGEME) && |c.args| >= 6)
    || ((SameWord(c.verb, USERCHANGE) || SameWord(c.verb, CHANGEUSER)) && |c.args| >= 7)
  }

  /** The server reads a password in this line. */
  predicate CarriesPassword(line: seq<byte>) {
    Parse(line).Some? && TakesPassword(Parse(line).value)
  }

  // ---------- a plainly written verb ----------

  predicate Unbroken(w: seq<byte>) {
    w != [] && forall i | 0 <= i < |w| :: !Space(w[i])
  }

  lemma {:induction false} WordIs(w: seq<byte>, more: seq<byte>)
    requires (forall i | 0 <= i < |w| :: !Space(w[i])) && (more == [] || Space(more[0]))
    ensures Word(w + more) == w
  {
    if w == [] {
      assert w + more == more;
    } else {
      assert (w + more)[1..] == w[1..] + more;
      WordIs(w[1..], more);
    }
  }

  lemma TokensFront(w: seq<byte>, more: seq<byte>)
    requires Unbroken(w) && (more == [] || Space(more[0]))
    ensures Tokens(w + more) == [w] + Tokens(more)
  {
    WordIs(w, more);
    assert !Space((w + more)[0]);
    assert (w + more)[|w|..] == more;
  }

  lemma TokensBlank(more: seq<byte>)
    ensures Tokens([BLANK] + more) == Tokens(more)
  {
    assert ([BLANK] + more)[1..] == more;
  }

  lemma NotThisAlias(w: seq<byte>, more: seq<byte>, alias: seq<byte>)
    requires Unbroken(w) && Unbroken(alias) && w != alias
    ensures StripOne(w + [BLANK] + more, alias).Other?
  {
    assert Space((w + [BLANK] + more)[|w|]);
  }

  lemma ParseRest(rest: seq<byte>)
    requires rest != [] && !Space(rest[0])
    ensures Parse([SLASH] + rest) == if StripAlias(rest).Rest? then CommandOf(Tokens(StripAlias(rest).s)) else Some(HELP)
  {
    hide StripAlias, Tokens, CommandOf;
    assert ([SLASH] + rest)[1..] == rest;
  }

  /** Right behind the slash, ended by a blank and no alias, the verb is what is written there. */
  lemma VerbAsWritten(w: seq<byte>, more: seq<byte>)
    requires Unbroken(w) && w != COMMANDS && w != COMMAND && w != CMD
    ensures Parse([SLASH] + w + [BLANK] + more) == CommandOf([w] + Tokens(more))
  {
    hide StripOne, Tokens, CommandOf, Parse, COMMANDS, COMMAND, CMD;
    var rest := w + [BLANK] + more;
    assert [SLASH] + w + [BLANK] + more == [SLASH] + rest;
    AliasesUnbroken();
    NotThisAlias(w, more, COMMANDS);
    NotThisAlias(w, more, COMMAND);
    NotThisAlias(w, more, CMD);
    assert StripAlias(rest) == Rest(rest);
    assert rest[0] == w[0];
    ParseRest(rest);
    TokensFront(w, [BLANK] + more);
    TokensBlank(more);
    assert w + ([BLANK] + more) == rest;
  }

  lemma AliasesUnbroken()
    ensures Unbroken(COMMANDS) && Unbroken(COMMAND) && Unbroken(CMD)
  {
  }

  /** Two words, for instance. */
  lemma TwoTokens(a: seq<byte>, b: seq<byte>)
    requires Unbroken(a) && Unbroken(b)
    ensures Tokens(a + [BLANK] + b) == [a, b]
  {
    hide Tokens, Unbroken;
    assert ([BLANK] + b)[0] == BLANK;
    TokensFront(a, [BLANK] + b);
    TokensBlank(b);
    TokensFront(b, []);
    NoTokens();
    assert b + [] == b && a + ([BLANK] + b) == a + [BLANK] + b;
  }

  lemma NoTokens()
    ensures Tokens([]) == []
  {
  }

  // ---------- what is skipped in front ----------

  /** White space in front of the slash, or between it and the verb, makes no difference. */
  lemma BlanksSkipped(b: byte, rest: seq<byte>)
    requires Space(b)
    ensures Parse([b] + rest) == Parse(rest)
    ensures Parse([SLASH] + [b] + rest) == Parse([SLASH] + rest)
  {
    hide StripAlias, Tokens, CommandOf;
    assert ([b] + rest)[1..] == rest;
    assert ([SLASH] + [b] + rest)[1..] == [b] + rest && ([SLASH] + rest)[1..] == rest;
    assert Trim([b] + rest) == Trim(rest);
  }

  /** An alias in front of the verb is skipped, once. */
  lemma AliasSkipped(alias: seq<byte>, rest: seq<byte>)
    requires alias == COMMANDS || alias == COMMAND || alias == CMD
    requires Trim(rest) != []
    ensures Parse([SLASH] + alias + [BLANK] + rest) == CommandOf(Tokens(Trim(rest)))
  {
    AliasStripped(alias, rest);
    AliasesUnbroken();
    hide *;
    UnbrokenFront(alias, [BLANK] + rest);
    assert alias + [BLANK] + rest == alias + ([BLANK] + rest);
    ParseRest(alias + [BLANK] + rest);
    Regrouped([SLASH], alias, [BLANK], rest);
  }

  lemma Regrouped(a: seq<byte>, b: seq<byte>, c: seq<byte>, d: seq<byte>)
    ensures a + (b + c + d) == a + b + c + d
  {
  }

  lemma UnbrokenFront(w: seq<byte>, more: seq<byte>)
    requires Unbroken(w)
    ensures w + more != [] && !Space((w + more)[0])
  {
    assert (w + more)[0] == w[0];
  }

  lemma AliasStripped(alias: seq<byte>, rest: seq<byte>)
    requires alias == COMMANDS || alias == COMMAND || alias == CMD
    requires Trim(rest) != []
    ensures StripAlias(alias + [BLANK] + rest) == Rest(Trim(rest))
  {
    AliasesUnbroken();
    var s := alias + [BLANK] + rest;
    StripThis(alias, rest);
    if alias != COMMANDS {
      NotThisAlias(alias, rest, COMMANDS);
    }
    if alias == CMD {
      NotThisAlias(alias, rest, COMMAND);
    }
    hide StripOne, Trim;
  }

  lemma StripThis(alias: seq<byte>, rest: seq<byte>)
    requires Unbroken(alias) && Trim(rest) != []
    ensures StripOne(alias + [BLANK] + rest, alias) == Rest(Trim(rest))
  {
    var s := alias + [BLANK] + rest;
    assert s[|alias|..] == [BLANK] + rest && ([BLANK] + rest)[1..] == rest;
    assert s[..|alias|] == alias && s[|alias|] == BLANK;
  }

  /** How many arguments make one of them a password. */
  lemma PasswordCounts(args: seq<seq<byte>>)
    ensures TakesPassword(Command(LOGIN, args)) <==> |args| >= 2
    ensures TakesPassword(Command(REGISTER, args)) <==> |args| >= 6
    ensures TakesPassword(Command(CHANGEME, args)) <==> |args| >= 6
    ensures TakesPassword(Command(USERCHANGE, args)) <==> |args| >= 7
    ensures TakesPassword(Command(CHANGEUSER, args)) <==> |args| >= 7
  {
  }

  // ---------- bytes and limits ----------

  /** White space is a blank or one of the bytes 9 to 13. */
  lemma SpaceExactly(b: byte)
    ensures Space(b) <==> b as int == 32 || 9 <= b as int <= 13
  {
  }

  /** Words are the same up to the case of the letters A to Z. */
  lemma SameWordExactly(a: seq<byte>, b: seq<byte>)
    ensures SameWord(a, b) <==>
            |a| == |b| && forall i | 0 <= i < |a| :: SameLetter(a[i], b[i])
  {
    hide Lower;
    forall i | 0 <= i < |a| && |a| == |b| ensures Lower(a[i]) == Lower(b[i]) <==> SameLetter(a[i], b[i]) {
      SameLetterIs(a[i], b[i]);
    }
  }

  predicate SameLetter(a: byte, b: byte) {
    || a == b
    || (65 <= a as int <= 90 && b as int == a as int + 32)
    || (65 <= b as int <= 90 && a as int == b as int + 32)
  }

  lemma SameByte(a: byte, b: byte)
    ensures a == b <==> a as int == b as int
  {
    ValueOfByte(a);
    ValueOfByte(b);
  }

  lemma SameLetterIs(a: byte, b: byte)
    ensures Lower(a) == Lower(b) <==> SameLetter(a, b)
  {
    LowerIs(a);
    LowerIs(b);
    SameByte(Lower(a), Lower(b));
    SameByte(a, b);
    hide Lower;
    SameNumber(a as int, b as int);
  }

  lemma SameNumber(x: int, y: int)
    ensures (if 65 <= x <= 90 then x + 32 else x) == (if 65 <= y <= 90 then y + 32 else y) <==>
            x == y || (65 <= x <= 90 && y == x + 32) || (65 <= y <= 90 && x == y + 32)
  {
  }

  lemma LowerIs(b: byte)
    ensures Lower(b) as int == if 65 <= b as int <= 90 then b as int + 32 else b as int
  {
  }

  /** Sixteen words are a command, seventeen are not. */
  lemma TokenLimit(tokens: seq<seq<byte>>)
    requires tokens != []
    ensures |tokens| <= 16 ==> CommandOf(tokens) == Some(Command(tokens[0], tokens[1..]))
    ensures |tokens| > 16 ==> CommandOf(tokens) == None
  {
  }
}
