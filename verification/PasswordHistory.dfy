/** Which lines with a password the line editor keeps for recall: all that are not written in one of four exact ways. */
module PasswordHistory {
  import opened Wrappers
  import opened Bytes
  import opened LineEditor
  import opened LineEditorRuns
  import C = CommandLine
  import T = Terminal

  /** Slash, one of four verbs in lower case, a blank, with nothing in front or between. */
  predicate PlainlyWritten(line: seq<byte>) {
    && C.Parse(line).Some?
    && var verb := C.Parse(line).value.verb;
       && (verb == C.LOGIN || verb == C.REGISTER || verb == C.CHANGEME || verb == C.USERCHANGE)
       && [C.SLASH] + verb + [C.BLANK] <= line
  }

  lemma PrefixVerb(verb: seq<byte>, line: seq<byte>)
    requires C.Unbroken(verb) && verb != C.COMMANDS && verb != C.COMMAND && verb != C.CMD
    requires [C.SLASH] + verb + [C.BLANK] <= line && C.Parse(line).Some?
    ensures C.Parse(line).value.verb == verb
  {
    var front := [C.SLASH] + verb + [C.BLANK];
    assert line == front + line[|front|..];
    C.VerbAsWritten(verb, line[|front|..]);
    hide C.Parse, C.Tokens;
  }

  lemma Prefixes()
    ensures LOGIN == [C.SLASH] + C.LOGIN + [C.BLANK] && REGISTER == [C.SLASH] + C.REGISTER + [C.BLANK]
    ensures CHANGEME == [C.SLASH] + C.CHANGEME + [C.BLANK] && USERCHANGE == [C.SLASH] + C.USERCHANGE + [C.BLANK]
  {
  }

  lemma VerbsUnbroken()
    ensures C.Unbroken(C.LOGIN) && C.Unbroken(C.REGISTER) && C.Unbroken(C.CHANGEME) && C.Unbroken(C.USERCHANGE)
  {
  }

  /** A line in which the server reads a password is worth keeping, to the editor, unless it is plainly written. */
  lemma StorableExactly(line: seq<byte>)
    requires C.CarriesPassword(line)
    ensures Storable(line) <==> !PlainlyWritten(line)
  {
    Prefixes();
    VerbsUnbroken();
    assert line != [];
    if LOGIN <= line {
      PrefixVerb(C.LOGIN, line);
    }
    if REGISTER <= line {
      PrefixVerb(C.REGISTER, line);
    }
    if CHANGEME <= line {
      PrefixVerb(C.CHANGEME, line);
    }
    if USERCHANGE <= line {
      PrefixVerb(C.USERCHANGE, line);
    }
    hide C.Parse, C.Unbroken;
  }

  lemma EnterSubmits(ed: Editor)
    requires Valid(ed) && ed.esc == Plain
    ensures var r := Poll(ed, [T.CR]);
            r.line == Some(Line(ed.text)) && r.ed.history == Remember(ed.history, Line(ed.text))
  {
    hide Storable, Remember, Fitting;
    assert [T.CR][1..] == [];
  }

  /** Typing a line and ending it submits it and remembers it. */
  lemma TypedIsRemembered(ed: Editor, line: seq<byte>)
    requires Valid(ed) && ed.esc == Plain && ed.text == BLANK && |line| < LINE_MAX && forall i | 0 <= i < |line| :: Typeable(line[i])
    ensures var r := Poll(ed, line + [T.CR]);
            r.line == Some(line) && r.ed.history == Remember(ed.history, line)
  {
    Typing(ed, line);
    RestOfReadDropped(ed, line, [T.CR]);
    EnterSubmits(Poll(ed, line).ed);
    hide Poll, Storable, Remember, Fitting;
    assert [] + line[..|line|] == line && line + [] == line;
  }

  /**
   So the password of a typed line can be recalled with the up key exactly when
   the line is not plainly written.
   */
  lemma PasswordRecallable(ed: Editor, line: seq<byte>)
    requires Valid(ed) && ed.esc == Plain && ed.text == BLANK && |line| < LINE_MAX && forall i | 0 <= i < |line| :: Typeable(line[i])
    requires C.CarriesPassword(line)
    ensures Poll(ed, line + [T.CR]).ed.history ==
            if PlainlyWritten(line) then ed.history else First([line] + ed.history, HISTORY_MAX)
  {
    TypedIsRemembered(ed, line);
    StorableExactly(line);
    hide Poll, Storable, PlainlyWritten, C.CarriesPassword;
  }

  /** The recallable lines of a session were submitted in it, and none with a password is plainly written. */
  lemma RecalledLines(raw: bool, polls: seq<seq<byte>>, i: nat)
    requires i < |Run(Init(raw), polls).ed.history|
    ensures var line := Run(Init(raw), polls).ed.history[i];
            line in Run(Init(raw), polls).lines && (C.CarriesPassword(line) ==> !PlainlyWritten(line))
  {
    HistoryExact(Init(raw), polls);
    var lines := Run(Init(raw), polls).lines;
    assert Kept(lines) + [] == Kept(lines);
    var line := Run(Init(raw), polls).ed.history[i];
    hide Run, Storable, C.CarriesPassword, PlainlyWritten;
    KeptFrom(lines);
    if C.CarriesPassword(line) {
      StorableExactly(line);
    }
  }

  const LOUD_VERB: seq<byte> := [0x4C, 0x4F, 0x47, 0x49, 0x4E]

  /** "/LOGIN b s" */
  const LOUD: seq<byte> := [0x2F, 0x4C, 0x4F, 0x47, 0x49, 0x4E, 0x20, 0x62, 0x20, 0x73]

  lemma LoudParts()
    ensures LOUD == [C.SLASH] + LOUD_VERB + [C.BLANK] + ([0x62] + [C.BLANK] + [0x73])
    ensures C.Unbroken(LOUD_VERB) && C.Unbroken([0x62]) && C.Unbroken([0x73])
    ensures LOUD_VERB != C.COMMANDS && LOUD_VERB != C.COMMAND && LOUD_VERB != C.CMD
    ensures C.SameWord(LOUD_VERB, C.LOGIN) && LOUD_VERB != C.LOGIN && LOUD_VERB != C.REGISTER && LOUD_VERB != C.CHANGEME && LOUD_VERB != C.USERCHANGE
    ensures |LOUD| < LINE_MAX && forall i | 0 <= i < |LOUD| :: Typeable(LOUD[i])
  {
  }

  lemma LoudParses()
    ensures C.Parse(LOUD) == Some(C.Command(LOUD_VERB, [[0x62], [0x73]]))
  {
    LoudParts();
    hide *;
    C.VerbAsWritten(LOUD_VERB, [0x62] + [C.BLANK] + [0x73]);
    C.TwoTokens([0x62], [0x73]);
    LoudCommand();
  }

  lemma LoudCommand()
    ensures C.CommandOf([LOUD_VERB] + [[0x62], [0x73]]) == Some(C.Command(LOUD_VERB, [[0x62], [0x73]]))
  {
    assert ([LOUD_VERB] + [[0x62], [0x73]])[1..] == [[0x62], [0x73]];
  }

  lemma LoudCarries()
    ensures C.CarriesPassword(LOUD) && !PlainlyWritten(LOUD)
  {
    LoudParts();
    LoudParses();
    hide C.Parse, LOUD, LOUD_VERB, C.SameWord, C.LOGIN, C.REGISTER, C.CHANGEME, C.USERCHANGE;
  }

  /** For instance a verb in capitals: the server takes it, and the editor recalls it with its password. */
  lemma LoudLoginRecalled(raw: bool)
    ensures C.CarriesPassword(LOUD) && Poll(Init(raw), LOUD + [T.CR]).ed.history == [LOUD]
  {
    LoudParts();
    LoudCarries();
    InitFields(raw);
    hide *;
    PasswordRecallable(Init(raw), LOUD);
    FirstOfOne(LOUD);
  }

  lemma InitFields(raw: bool)
    ensures Init(raw).esc == Plain && Init(raw).text == BLANK && Init(raw).history == []
  {
  }

  lemma FirstOfOne(line: seq<byte>)
    ensures First([line] + [], HISTORY_MAX) == [line]
  {
  }
}
