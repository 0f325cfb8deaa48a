/**
 The printer: single-quoting of one word (section 2.2.2 of POSIX.1-2017 XCU), command lines made
 of quoted words, and the POSIX command text of an SSH target. The lemmas show that the denylist's
 lexer is a parser for this printer.
 */
module ShellQuote {
  import opened Wrappers
  import opened Whitespace
  import opened ShellLexer
  import opened ShellSegments

  /** Inside single quotes, a single quote is written by closing, escaping and reopening. */
  function EscapeMark(c: char): string {
    if c == '\'' then "'\\''" else [c]
  }

  function EscapeMarks(value: string): string
    decreases |value|
  {
    if value == "" then ""
    else EscapeMark(value[0]) + EscapeMarks(value[1..])
  }

  function QuoteWord(value: string): string {
    "'" + EscapeMarks(value) + "'"
  }

  lemma {:induction false} EscapeMarksConcat(a: string, b: string)
    ensures EscapeMarks(a + b) == EscapeMarks(a) + EscapeMarks(b)
    decreases |a|
  {
    if a == "" {
      assert a + b == b;
    } else {
      assert (a + b)[0] == a[0] && (a + b)[1..] == a[1..] + b;
      EscapeMarksConcat(a[1..], b);
    }
  }

  lemma {:induction false} NothingToEscape(value: string)
    requires '\'' !in value
    ensures EscapeMarks(value) == value
    decreases |value|
  {
    if value != "" {
      assert value[0] in value;
      NothingToEscape(value[1..]);
      assert value == [value[0]] + value[1..];
    }
  }

  /** Single quotes around everything, each single quote of the word between two such stretches as `\'`. */
  lemma QuoteWordExactly(a: string, b: string)
    ensures '\'' !in a ==> QuoteWord(a) == "'" + a + "'"
    ensures QuoteWord(a + ("'" + b)) == QuoteWord(a) + "\\'" + QuoteWord(b)
  {
    if '\'' !in a {
      NothingToEscape(a);
    }
    EscapeMarksConcat(a, "'" + b);
    EscapeMarksConcat("'", b);
    assert EscapeMarks("'") == "'\\''" + "" by {
      assert "'"[1..] == "";
    }
    hide EscapeMarks;
    Reopened(EscapeMarks(a), EscapeMarks(b));
  }

  lemma Reopened(x: string, y: string)
    ensures "'" + (x + ("'\\''" + y)) + "'" == ("'" + x + "'") + "\\'" + ("'" + y + "'")
  {
    assert "'\\''" == "'" + "\\'" + "'";
  }

  /** A word of a command line: written as it stands, or quoted. */
  datatype Token = Bare(text: string) | Quoted(text: string)

  function RenderToken(token: Token): string {
    if token.Bare? then token.text else QuoteWord(token.text)
  }

  /** Tokens separated by single spaces. */
  function Render(tokens: seq<Token>): string
    decreases |tokens|
  {
    if tokens == [] then ""
    else if |tokens| == 1 then RenderToken(tokens[0])
    else RenderToken(tokens[0]) + (" " + Render(tokens[1..]))
  }

  function Quotes(argv: seq<string>): seq<Token> {
    seq(|argv|, i requires 0 <= i < |argv| => Quoted(argv[i]))
  }

  /** The command line of an argument vector: every word quoted. */
  function CommandLine(argv: seq<string>): string {
    Render(Quotes(argv))
  }

  function Texts(tokens: seq<Token>): seq<string> {
    seq(|tokens|, i requires 0 <= i < |tokens| => tokens[i].text)
  }

  predicate PlainCharacter(c: char) {
    !IsQuoteMark(c) && !IsSeparator(c) && c != '\\'
  }

  /** A word that needs no quotes. */
  predicate IsBare(text: string) {
    text != "" && forall i :: 0 <= i < |text| ==> PlainCharacter(text[i]) && !IsWhitespace(text[i])
  }

  predicate Printable(tokens: seq<Token>) {
    forall i :: 0 <= i < |tokens| ==> tokens[i].Bare? ==> IsBare(tokens[i].text)
  }

  /** The POSIX branch of an SSH target's remote command. */
  function RemoteCommand(userRoot: Option<string>, cliPath: string): string {
    var root := match userRoot
      case None => ""
      case Some(path) => "env " + QuoteWord("DEEPCODE_USER_ROOT=" + path) + " ";
    "exec " + root + QuoteWord(cliPath) + " gui-attach"
  }

  /******* How the word reader sees printed text *******/

  lemma WordRunTwo(st: WordState, a: char, b: char)
    ensures WordRun(st, [a, b]) == WordStep(WordStep(st, a), b)
  {
    assert [a, b] == [a] + [b];
    WordRunOne(st, [a], b);
    WordRunOne(st, [], a);
    assert [] + [a] == [a];
  }

  lemma WordsReadMark(st: WordState, c: char)
    requires st.quote.Single? && !st.escaped && st.started
    ensures WordRun(st, EscapeMark(c)) == st.(current := st.current + [c])
  {
    if c == '\'' {
      assert EscapeMark(c) == ['\'', '\\'] + ['\'', '\''];
      WordRunConcat(st, ['\'', '\\'], ['\'', '\'']);
      WordRunTwo(st, '\'', '\\');
      WordRunTwo(st.(quote := Unquoted, escaped := true), '\'', '\'');
    } else {
      WordRunOne(st, "", c);
      assert "" + [c] == [c];
    }
  }

  lemma {:induction false} WordsReadEscaped(st: WordState, value: string)
    requires st.quote.Single? && !st.escaped && st.started
    ensures WordRun(st, EscapeMarks(value)) == st.(current := st.current + value)
    decreases |value|
  {
    if value == "" {
      assert st.current + value == st.current;
    } else {
      var next := st.(current := st.current + [value[0]]);
      WordsReadMark(st, value[0]);
      WordRunConcat(st, EscapeMark(value[0]), EscapeMarks(value[1..]));
      WordsReadEscaped(next, value[1..]);
      assert next.current + value[1..] == st.current + value;
    }
  }

  /** Reading a quoted word outside quotes appends exactly the word. */
  lemma WordsReadQuoted(st: WordState, value: string)
    requires st.quote.Unquoted? && !st.escaped
    ensures WordRun(st, QuoteWord(value)) == st.(current := st.current + value, started := true)
  {
    var inside := st.(quote := Single, started := true);
    var body := EscapeMarks(value);
    WordRunOne(st, "", '\'');
    assert "" + ['\''] == "'";
    WordRunConcat(st, "'", body);
    WordsReadEscaped(inside, value);
    WordRunOne(st, "'" + body, '\'');
  }

  lemma {:induction false} WordsReadBare(st: WordState, text: string)
    requires st.quote.Unquoted? && !st.escaped
    requires forall i :: 0 <= i < |text| ==> PlainCharacter(text[i]) && !IsWhitespace(text[i])
    ensures WordRun(st, text) == st.(current := st.current + text, started := st.started || text != "")
    decreases |text|
  {
    if text == "" {
      assert st.current + text == st.current;
    } else {
      var next := st.(current := st.current + [text[0]], started := true);
      WordsReadBare(next, text[1..]);
      assert next.current + text[1..] == st.current + text;
    }
  }

  /** The state between two words. */
  function Between(words: seq<string>): WordState {
    WordState(words, "", Unquoted, false, false)
  }

  lemma WordsReadToken(words: seq<string>, token: Token)
    requires token.Bare? ==> IsBare(token.text)
    ensures WordRun(Between(words), RenderToken(token)) == Between(words).(current := token.text, started := true)
  {
    assert "" + token.text == token.text;
    if token.Bare? {
      WordsReadBare(Between(words), token.text);
    } else {
      WordsReadQuoted(Between(words), token.text);
    }
  }

  lemma WordsReadSpace(words: seq<string>, word: string)
    ensures WordRun(Between(words).(current := word, started := true), " ") == Between(words + [word])
  {
  }

  lemma WordsReadTokenAndSpace(words: seq<string>, token: Token, rest: string)
    requires token.Bare? ==> IsBare(token.text)
    ensures WordRun(Between(words), RenderToken(token) + (" " + rest)) == WordRun(Between(words + [token.text]), rest)
  {
    hide WordRun, RenderToken;
    WordsReadToken(words, token);
    WordRunConcat(Between(words), RenderToken(token), " " + rest);
    WordRunConcat(Between(words).(current := token.text, started := true), " ", rest);
    WordsReadSpace(words, token.text);
  }

  lemma TextsSplit(words: seq<string>, tokens: seq<Token>)
    requires tokens != []
    ensures words + [tokens[0].text] + Texts(tokens[1..]) == words + Texts(tokens)
  {
  }

  lemma WordsReadLast(words: seq<string>, token: Token)
    requires token.Bare? ==> IsBare(token.text)
    ensures WordFinish(WordRun(Between(words), RenderToken(token))) == words + [token.text]
  {
    hide WordRun, RenderToken, IsBare;
    WordsReadToken(words, token);
  }

  lemma {:induction false} WordsReadTokens(words: seq<string>, tokens: seq<Token>)
    requires Printable(tokens)
    ensures WordFinish(WordRun(Between(words), Render(tokens))) == words + Texts(tokens)
    decreases |tokens|
  {
    if tokens == [] {
      assert words + Texts(tokens) == words;
    } else {
      hide WordRun, WordFinish, RenderToken, IsBare, Texts;
      TextsSplit(words, tokens);
      if |tokens| == 1 {
        WordsReadLast(words, tokens[0]);
      } else {
        WordsReadTokenAndSpace(words, tokens[0], Render(tokens[1..]));
        WordsReadTokens(words + [tokens[0].text], tokens[1..]);
      }
    }
  }

  /******* How the splitter sees printed text *******/

  lemma SplitPassesMark(st: SplitState, c: char)
    requires st.quote.Single? && !st.escaped
    ensures SplitRun(st, EscapeMark(c)) == st.(current := st.current + EscapeMark(c))
  {
    if c == '\'' {
      SplitRunOne(st, "", '\'');
      SplitRunOne(st, "'", '\\');
      SplitRunOne(st, "'\\", '\'');
      SplitRunOne(st, "'\\'", '\'');
      assert "" + ['\''] == "'" && "'" + ['\\'] == "'\\" && "'\\" + ['\''] == "'\\'" && "'\\'" + ['\''] == "'\\''";
      assert st.current + ['\''] + ['\\'] + ['\''] + ['\''] == st.current + "'\\''";
    } else {
      SplitRunOne(st, "", c);
      assert "" + [c] == [c];
    }
  }

  lemma {:induction false} SplitPassesEscaped(st: SplitState, value: string)
    requires st.quote.Single? && !st.escaped
    ensures SplitRun(st, EscapeMarks(value)) == st.(current := st.current + EscapeMarks(value))
    decreases |value|
  {
    if value == "" {
      assert st.current + EscapeMarks(value) == st.current;
    } else {
      var head, rest := EscapeMark(value[0]), EscapeMarks(value[1..]);
      SplitPassesMark(st, value[0]);
      SplitRunConcat(st, head, rest);
      SplitPassesEscaped(st.(current := st.current + head), value[1..]);
      Regroup(st.current, head, rest, "", "");
    }
  }

  lemma QuotedIsPlain(value: string)
    ensures Plain(QuoteWord(value))
  {
    var body := EscapeMarks(value);
    SplitRunOne(SplitStart, "", '\'');
    assert "" + ['\''] == "'";
    var inside := SplitStart.(quote := Single, current := "'");
    SplitRunConcat(SplitStart, "'", body);
    SplitPassesEscaped(inside, value);
    SplitRunOne(SplitStart, "'" + body, '\'');
  }

  lemma {:induction false} PlainText(text: string)
    requires forall i :: 0 <= i < |text| ==> PlainCharacter(text[i])
    ensures Plain(text)
    decreases |text|
  {
    if text != "" {
      SplitRunOne(SplitStart, "", text[0]);
      assert "" + [text[0]] == text[..1];
      PlainText(text[1..]);
      PlainConcat(text[..1], text[1..]);
      assert text[..1] + text[1..] == text;
    }
  }

  lemma {:induction false} RenderIsPlain(tokens: seq<Token>)
    requires Printable(tokens)
    ensures Plain(Render(tokens))
    decreases |tokens|
  {
    if tokens != [] {
      if tokens[0].Bare? {
        PlainText(tokens[0].text);
      } else {
        QuotedIsPlain(tokens[0].text);
      }
      if |tokens| > 1 {
        RenderIsPlain(tokens[1..]);
        PlainText(" ");
        PlainConcat(" ", Render(tokens[1..]));
        PlainConcat(RenderToken(tokens[0]), " " + Render(tokens[1..]));
      }
    }
  }

  /******* Round trips *******/

  /** Print then parse: one segment, and exactly the printed words. */
  lemma RenderRoundTrip(tokens: seq<Token>)
    requires Printable(tokens)
    ensures Plain(Render(tokens))
    ensures Words(Render(tokens)) == Texts(tokens)
  {
    RenderIsPlain(tokens);
    WordsReadTokens([], tokens);
    assert [] + Texts(tokens) == Texts(tokens);
  }

  /** Any argument vector, with any characters, survives quoting, splitting and reading unchanged. */
  lemma QuotedArgvRoundTrip(argv: seq<string>)
    ensures Segments(CommandLine(argv)) == [CommandLine(argv)]
    ensures Words(CommandLine(argv)) == argv
  {
    RenderRoundTrip(Quotes(argv));
    PlainIsOneSegment(CommandLine(argv));
    assert Texts(Quotes(argv)) == argv;
  }

  /** Consequently no two argument vectors print alike. */
  lemma CommandLineInjective(a: seq<string>, b: seq<string>)
    requires CommandLine(a) == CommandLine(b)
    ensures a == b
  {
    QuotedArgvRoundTrip(a);
    QuotedArgvRoundTrip(b);
  }

  function RemoteTokens(userRoot: Option<string>, cliPath: string): seq<Token> {
    var tail := [Quoted(cliPath), Bare("gui-attach")];
    [Bare("exec")] + match userRoot
      case None => tail
      case Some(path) => [Bare("env"), Quoted("DEEPCODE_USER_ROOT=" + path)] + tail
  }

  lemma RenderMore(a: Token, rest: seq<Token>)
    requires rest != []
    ensures Render([a] + rest) == RenderToken(a) + (" " + Render(rest))
  {
  }

  lemma RegroupThree(a: string, b: string, c: string)
    ensures (a + " ") + "" + b + (" " + c) == a + (" " + (b + (" " + c)))
  {
  }

  lemma RegroupFive(a: string, e: string, q: string, b: string, c: string)
    ensures (a + " ") + (e + " " + q + " ") + b + (" " + c) == a + (" " + (e + (" " + (q + (" " + (b + (" " + c)))))))
  {
  }

  lemma RemoteCommandIsRendered(userRoot: Option<string>, cliPath: string)
    ensures RemoteCommand(userRoot, cliPath) == Render(RemoteTokens(userRoot, cliPath))
  {
    var last, attach := Quoted(cliPath), Bare("gui-attach");
    var tail := [last, attach];
    assert "exec" + " " == "exec " && "env" + " " == "env " && " " + "gui-attach" == " gui-attach";
    match userRoot {
      case None =>
        RenderMore(Bare("exec"), tail);
        RegroupThree("exec", QuoteWord(cliPath), "gui-attach");
      case Some(path) =>
        var assignment := Quoted("DEEPCODE_USER_ROOT=" + path);
        RenderMore(assignment, tail);
        RenderMore(Bare("env"), [assignment] + tail);
        RenderMore(Bare("exec"), [Bare("env")] + ([assignment] + tail));
        assert [Bare("env"), assignment] + tail == [Bare("env")] + ([assignment] + tail);
        RegroupFive("exec", "env", RenderToken(assignment), QuoteWord(cliPath), "gui-attach");
    }
  }

  lemma RemoteTokensPrintable(userRoot: Option<string>, cliPath: string)
    ensures Printable(RemoteTokens(userRoot, cliPath))
  {
    assert IsBare("exec") && IsBare("env") && IsBare("gui-attach");
    hide IsBare;
  }

  /** Whatever characters the paths hold, the remote shell text is one command with exactly these words. */
  lemma RemoteCommandKeepsPaths(userRoot: Option<string>, cliPath: string)
    ensures var text := RemoteCommand(userRoot, cliPath);
      && Segments(text) == [text]
      && Words(text) == ["exec"] + (if userRoot.Some? then ["env", "DEEPCODE_USER_ROOT=" + userRoot.value] else [])
                        + [cliPath, "gui-attach"]
  {
    RemoteCommandIsRendered(userRoot, cliPath);
    RemoteTokensPrintable(userRoot, cliPath);
    RenderRoundTrip(RemoteTokens(userRoot, cliPath));
    PlainIsOneSegment(RemoteCommand(userRoot, cliPath));
  }
}
