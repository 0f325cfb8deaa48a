/**
 The two hand-written automata of the command denylist: the splitter, which cuts a script at
 unquoted separators, and the word reader, which removes quotes and escapes. Each automaton is a
 step function over its own loop variables; the methods are the loops and are proved equal to runs
 of the steps. The lemmas relate the two automata to each other and to the shell-quoting printer.

 This is the lexer of the program, not POSIX: a backslash inside double quotes escapes any
 character, unlike section 2.2.3 of POSIX.1-2017 XCU.
 */
module ShellLexer {
  import opened Whitespace

  datatype Quote = Unquoted | Single | Double

  predicate IsQuoteMark(c: char) {
    c == '\'' || c == '"'
  }

  predicate IsSeparator(c: char) {
    c == ';' || c == '\n' || c == '&' || c == '|'
  }

  /** The quote state after a quote mark that is not escaped. */
  function Toggle(quote: Quote, mark: char): Quote {
    var own := if mark == '\'' then Single else Double;
    if quote == own then Unquoted else if quote.Unquoted? then own else quote
  }

  /******* The splitter *******/

  /** `segments` are closed, `current` is the open one: the text from `start` to the cursor. */
  datatype SplitState = SplitState(segments: seq<string>, current: string, quote: Quote, escaped: bool)

  const SplitStart := SplitState([], "", Unquoted, false)

  function SplitStep(st: SplitState, c: char): SplitState {
    if st.escaped then
      st.(current := st.current + [c], escaped := false)
    else if c == '\\' && !st.quote.Single? then
      st.(current := st.current + [c], escaped := true)
    else if IsQuoteMark(c) then
      st.(current := st.current + [c], quote := Toggle(st.quote, c))
    else if st.quote.Unquoted? && IsSeparator(c) then
      st.(segments := st.segments + [st.current], current := "")
    else
      st.(current := st.current + [c])
  }

  function SplitRun(st: SplitState, text: string): SplitState
    decreases |text|
  {
    if text == "" then st else SplitRun(SplitStep(st, text[0]), text[1..])
  }

  function SplitFinish(st: SplitState): seq<string> {
    st.segments + [st.current]
  }

  function Segments(command: string): seq<string> {
    SplitFinish(SplitRun(SplitStart, command))
  }

  /** The text leaves the splitter outside quotes and with no pending escape. */
  predicate EndsNeutral(text: string) {
    var end := SplitRun(SplitStart, text);
    end.quote.Unquoted? && !end.escaped
  }

  method ShellCommandSegments(command: string) returns (segments: seq<string>)
    ensures segments == Segments(command)
  {
    segments := [];
    var start := 0;
    var quote := Unquoted;
    var escaped := false;
    for index := 0 to |command|
      invariant 0 <= start <= index
      invariant SplitRun(SplitState(segments, command[start..index], quote, escaped), command[index..])
             == SplitRun(SplitStart, command)
    {
      var character := command[index];
      assert command[index..][0] == character && command[index..][1..] == command[index + 1..];
      assert command[start..index] + [character] == command[start..index + 1];
      ghost var before := SplitState(segments, command[start..index], quote, escaped);
      assert SplitRun(before, command[index..]) == SplitRun(SplitStep(before, character), command[index + 1..]);
      if escaped {
        escaped := false;
        continue;
      }
      if character == '\\' && !quote.Single? {
        escaped := true;
        continue;
      }
      if IsQuoteMark(character) {
        quote := Toggle(quote, character);
        continue;
      }
      if quote.Unquoted? && IsSeparator(character) {
        segments := segments + [command[start..index]];
        start := index + 1;
        assert command[start..index + 1] == "";
      }
    }
    segments := segments + [command[start..]];
    assert command[start..] == command[start..|command|];
  }

  /******* The word reader *******/

  datatype WordState = WordState(words: seq<string>, current: string, quote: Quote, escaped: bool, started: bool)

  const WordStart := WordState([], "", Unquoted, false, false)

  function WordStep(st: WordState, c: char): WordState {
    if st.escaped then
      st.(current := st.current + [c], escaped := false, started := true)
    else if c == '\\' && !st.quote.Single? then
      st.(escaped := true)
    else if IsQuoteMark(c) then
      var kept := if Toggle(st.quote, c) == st.quote then st.current + [c] else st.current;
      st.(current := kept, quote := Toggle(st.quote, c), started := true)
    else if IsWhitespace(c) && st.quote.Unquoted? then
      if st.started then st.(words := st.words + [st.current], current := "", started := false) else st
    else
      st.(current := st.current + [c], started := true)
  }

  function WordRun(st: WordState, text: string): WordState
    decreases |text|
  {
    if text == "" then st else WordRun(WordStep(st, text[0]), text[1..])
  }

  /** A trailing lone backslash is kept as a character. */
  function WordFinish(st: WordState): seq<string> {
    if st.started || st.escaped then
      st.words + [if st.escaped then st.current + "\\" else st.current]
    else
      st.words
  }

  function Words(segment: string): seq<string> {
    WordFinish(WordRun(WordStart, segment))
  }

  method ShellWords(segment: string) returns (words: seq<string>)
    ensures words == Words(segment)
  {
    words := [];
    var current := "";
    var quote := Unquoted;
    var escaped := false;
    var started := false;
    for index := 0 to |segment|
      invariant WordRun(WordState(words, current, quote, escaped, started), segment[index..])
             == WordRun(WordStart, segment)
    {
      var character := segment[index];
      assert segment[index..][0] == character && segment[index..][1..] == segment[index + 1..];
      if escaped {
        started := true;
        current := current + [character];
        escaped := false;
        continue;
      }
      if character == '\\' && !quote.Single? {
        escaped := true;
        continue;
      }
      if IsQuoteMark(character) {
        started := true;
        var own := if character == '\'' then Single else Double;
        if quote == own {
          quote := Unquoted;
        } else if quote.Unquoted? {
          quote := own;
        } else {
          current := current + [character];
        }
        continue;
      }
      if IsWhitespace(character) && quote.Unquoted? {
        if started {
          words := words + [current];
          current := "";
          started := false;
        }
        continue;
      }
      started := true;
      current := current + [character];
    }
    if escaped {
      current := current + "\\";
    }
    if started || escaped {
      words := words + [current];
    }
  }

  /******* Runs compose *******/

  lemma {:induction false} SplitRunConcat(st: SplitState, a: string, b: string)
    ensures SplitRun(st, a + b) == SplitRun(SplitRun(st, a), b)
    decreases |a|
  {
    if a == "" {
      assert a + b == b;
    } else {
      assert (a + b)[0] == a[0] && (a + b)[1..] == a[1..] + b;
      SplitRunConcat(SplitStep(st, a[0]), a[1..], b);
    }
  }

  lemma {:induction false} WordRunConcat(st: WordState, a: string, b: string)
    ensures WordRun(st, a + b) == WordRun(WordRun(st, a), b)
    decreases |a|
  {
    if a == "" {
      assert a + b == b;
    } else {
      assert (a + b)[0] == a[0] && (a + b)[1..] == a[1..] + b;
      WordRunConcat(WordStep(st, a[0]), a[1..], b);
    }
  }

  lemma WordRunOne(st: WordState, text: string, c: char)
    ensures WordRun(st, text + [c]) == WordStep(WordRun(st, text), c)
  {
    WordRunConcat(st, text, [c]);
    var end := WordRun(st, text);
    assert WordRun(end, [c]) == WordRun(WordStep(end, c), [c][1..]);
  }

  lemma SplitRunOne(st: SplitState, text: string, c: char)
    ensures SplitRun(st, text + [c]) == SplitStep(SplitRun(st, text), c)
  {
    SplitRunConcat(st, text, [c]);
    var end := SplitRun(st, text);
    assert SplitRun(end, [c]) == SplitRun(SplitStep(end, c), [c][1..]);
  }

  /** Closed segments and the open text are only ever extended, so a run can be started anywhere. */
  lemma {:induction false} SplitRunShift(st: SplitState, closed: seq<string>, text: string)
    requires st.segments == []
    ensures SplitRun(st.(segments := closed), text)
         == SplitRun(st, text).(segments := closed + SplitRun(st, text).segments)
    decreases |text|
  {
    if text == "" {
      assert closed + [] == closed;
    } else {
      var next := SplitStep(st, text[0]);
      var shifted := SplitStep(st.(segments := closed), text[0]);
      assert shifted == next.(segments := closed + next.segments);
      var base := next.(segments := []);
      SplitRunShift(base, next.segments, text[1..]);
      SplitRunShift(base, closed + next.segments, text[1..]);
      assert next == base.(segments := next.segments);
      var rest := SplitRun(base, text[1..]).segments;
      assert closed + (next.segments + rest) == (closed + next.segments) + rest;
    }
  }

  /******* The two automata agree *******/

  function WordLists(segments: seq<string>): seq<seq<string>> {
    if segments == [] then [] else [Words(segments[0])] + WordLists(segments[1..])
  }

  lemma {:induction false} WordListsAppend(a: seq<string>, b: seq<string>)
    ensures WordLists(a + b) == WordLists(a) + WordLists(b)
  {
    if a == [] {
      assert a + b == b;
    } else {
      assert (a + b)[0] == a[0] && (a + b)[1..] == a[1..] + b;
      WordListsAppend(a[1..], b);
    }
  }

  /** The reference reader: one automaton, one pass; an unquoted separator ends the command. */
  datatype CommandState = CommandState(commands: seq<seq<string>>, line: WordState)

  function CommandStep(st: CommandState, c: char): CommandState {
    if st.line.quote.Unquoted? && !st.line.escaped && IsSeparator(c) then
      CommandState(st.commands + [WordFinish(st.line)], WordStart)
    else
      st.(line := WordStep(st.line, c))
  }

  function CommandRun(st: CommandState, text: string): CommandState
    decreases |text|
  {
    if text == "" then st else CommandRun(CommandStep(st, text[0]), text[1..])
  }

  function Commands(text: string): seq<seq<string>> {
    var end := CommandRun(CommandState([], WordStart), text);
    end.commands + [WordFinish(end.line)]
  }

  /** At every position the splitter's flags are the flags of a word reader freshly started on the open segment. */
  ghost predicate InStep(split: SplitState, reference: CommandState) {
    && reference.line == WordRun(WordStart, split.current)
    && reference.commands == WordLists(split.segments)
    && split.quote == reference.line.quote
    && split.escaped == reference.line.escaped
  }

  lemma {:induction false} InStepPreserved(split: SplitState, reference: CommandState, c: char)
    requires InStep(split, reference)
    ensures InStep(SplitStep(split, c), CommandStep(reference, c))
  {
    WordRunOne(WordStart, split.current, c);
    WordListsAppend(split.segments, [split.current]);
    assert WordLists([split.current]) == [Words(split.current)];
    assert WordRun(WordStart, "") == WordStart;
    hide IsWhitespace, Toggle, WordRun, WordLists, WordFinish;
  }

  lemma {:induction false} InStepRun(split: SplitState, reference: CommandState, text: string)
    requires InStep(split, reference)
    ensures InStep(SplitRun(split, text), CommandRun(reference, text))
    decreases |text|
  {
    if text != "" {
      InStepPreserved(split, reference, text[0]);
      InStepRun(SplitStep(split, text[0]), CommandStep(reference, text[0]), text[1..]);
    }
  }
}
