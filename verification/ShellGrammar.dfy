/**
 What the two automata of the denylist read, stated without them. A text is spelled by lexemes: bare
 characters, a backslash with the character it escapes, single- and double-quoted stretches, and, only
 at its end, whatever was left open. Every text has such a spelling; words are the runs of lexemes
 between bare white space, and segments the runs between bare separators.
 */
module ShellGrammar {
  import opened Whitespace
  import opened ShellLexer
  import opened ShellSegments

  /** One character between double quotes. */
  datatype Part = Part(c: char, escaped: bool)

  datatype Lexeme =
    | Bare(c: char)
    | Escaped(c: char)
    | InSingle(text: string)
    | InDouble(parts: seq<Part>)
    | OpenSingle(text: string)
    | OpenDouble(parts: seq<Part>)
    | OpenEscape(parts: seq<Part>)
    | LoneBackslash

  function SpellPart(part: Part): string {
    if part.escaped then ['\\', part.c] else [part.c]
  }

  function SpellParts(parts: seq<Part>): string {
    if parts == [] then "" else SpellPart(parts[0]) + SpellParts(parts[1..])
  }

  function Characters(parts: seq<Part>): string {
    seq(|parts|, i requires 0 <= i < |parts| => parts[i].c)
  }

  function SpellOne(lexeme: Lexeme): string {
    match lexeme
    case Bare(c) => [c]
    case Escaped(c) => ['\\', c]
    case InSingle(text) => "'" + text + "'"
    case InDouble(parts) => "\"" + SpellParts(parts) + "\""
    case OpenSingle(text) => "'" + text
    case OpenDouble(parts) => "\"" + SpellParts(parts)
    case OpenEscape(parts) => "\"" + SpellParts(parts) + "\\"
    case LoneBackslash => "\\"
  }

  function Spell(lexemes: seq<Lexeme>): string {
    if lexemes == [] then "" else SpellOne(lexemes[0]) + Spell(lexemes[1..])
  }

  /** The characters that a lexeme stands for; a backslash with nothing to escape stands for itself. */
  function Meaning(lexeme: Lexeme): string {
    match lexeme
    case Bare(c) => [c]
    case Escaped(c) => [c]
    case InSingle(text) => text
    case InDouble(parts) => Characters(parts)
    case OpenSingle(text) => text
    case OpenDouble(parts) => Characters(parts)
    case OpenEscape(parts) => Characters(parts) + "\\"
    case LoneBackslash => "\\"
  }

  function Value(run: seq<Lexeme>): string {
    if run == [] then "" else Meaning(run[0]) + Value(run[1..])
  }

  predicate Closed(lexeme: Lexeme) {
    lexeme.Bare? || lexeme.Escaped? || lexeme.InSingle? || lexeme.InDouble?
  }

  ghost predicate GoodParts(parts: seq<Part>) {
    forall i :: 0 <= i < |parts| && !parts[i].escaped ==> parts[i].c != '"' && parts[i].c != '\\'
  }

  /** Bare characters are no quotes or backslashes; quoted text does not end its own quotes. */
  ghost predicate GoodOne(lexeme: Lexeme) {
    match lexeme
    case Bare(c) => c != '\'' && c != '"' && c != '\\'
    case Escaped(_) => true
    case InSingle(text) => '\'' !in text
    case InDouble(parts) => GoodParts(parts)
    case OpenSingle(text) => '\'' !in text
    case OpenDouble(parts) => GoodParts(parts)
    case OpenEscape(parts) => GoodParts(parts)
    case LoneBackslash => true
  }

  /** Only the last lexeme may be left open. */
  ghost predicate Good(lexemes: seq<Lexeme>) {
    && (forall i :: 0 <= i < |lexemes| ==> GoodOne(lexemes[i]))
    && (forall i :: 0 <= i < |lexemes| - 1 ==> Closed(lexemes[i]))
  }

  predicate IsGap(lexeme: Lexeme) {
    lexeme.Bare? && lexeme.c in WHITE_SPACE
  }

  predicate IsBreak(lexeme: Lexeme) {
    lexeme.Bare? && lexeme.c in ";\n&|"
  }

  /** The stretches between the elements that separate. */
  function Runs<T>(s: seq<T>, separates: T -> bool): (runs: seq<seq<T>>)
    ensures runs != []
  {
    if s == [] then [[]]
    else
      var rest := Runs(s[1..], separates);
      if separates(s[0]) then [[]] + rest else [[s[0]] + rest[0]] + rest[1..]
  }

  lemma RunOfOne<T>(x: T, separates: T -> bool)
    requires !separates(x)
    ensures Runs([x], separates) == [[x]]
  {
    var none: seq<seq<T>> := [[]];
    assert [x][1..] == [] && Runs([x][1..], separates) == none;
    assert [x] + none[0] == [x];
    assert [[x] + none[0]] + none[1..] == [[x]];
  }

  /** The values of the runs that are not empty. */
  function Values(runs: seq<seq<Lexeme>>): seq<string> {
    if runs == [] then []
    else (if runs[0] == [] then [] else [Value(runs[0])]) + Values(runs[1..])
  }

  function Spellings(runs: seq<seq<Lexeme>>): seq<string> {
    seq(|runs|, i requires 0 <= i < |runs| => Spell(runs[i]))
  }

  /******* The word reader, lexeme by lexeme *******/

  lemma WordRunTail(st: WordState, c: char, rest: string)
    ensures WordRun(st, [c] + rest) == WordRun(WordStep(st, c), rest)
  {
    assert ([c] + rest)[1..] == rest;
  }

  lemma {:induction false} WordsInSingle(st: WordState, text: string)
    requires st.quote.Single? && !st.escaped && st.started && '\'' !in text
    ensures WordRun(st, text) == st.(current := st.current + text)
    decreases |text|
  {
    if text == "" {
      assert st.current + text == st.current;
    } else {
      var next := st.(current := st.current + [text[0]]);
      assert text == [text[0]] + text[1..];
      assert text[0] in text;
      WordsInSingle(next, text[1..]);
      assert next.current + text[1..] == st.current + text;
    }
  }

  lemma WordsPart(st: WordState, part: Part)
    requires st.quote.Double? && !st.escaped && st.started
    requires !part.escaped ==> part.c != '"' && part.c != '\\'
    ensures WordRun(st, SpellPart(part)) == st.(current := st.current + [part.c])
  {
    if part.escaped {
      WordRunTail(st, '\\', [part.c]);
      assert ['\\'] + [part.c] == SpellPart(part);
      WordRunTail(st.(escaped := true), part.c, "");
      assert [part.c] + "" == [part.c];
    } else {
      WordRunTail(st, part.c, "");
      assert [part.c] + "" == [part.c];
    }
  }

  lemma {:induction false} WordsInDouble(st: WordState, parts: seq<Part>)
    requires st.quote.Double? && !st.escaped && st.started && GoodParts(parts)
    ensures WordRun(st, SpellParts(parts)) == st.(current := st.current + Characters(parts))
    decreases |parts|
  {
    if parts == [] {
      assert st.current + Characters(parts) == st.current;
    } else {
      var next := st.(current := st.current + [parts[0].c]);
      WordsPart(st, parts[0]);
      WordRunConcat(st, SpellPart(parts[0]), SpellParts(parts[1..]));
      WordsInDouble(next, parts[1..]);
      assert Characters(parts) == [parts[0].c] + Characters(parts[1..]);
      assert next.current + Characters(parts[1..]) == st.current + Characters(parts);
    }
  }

  /** A closed lexeme that is no gap joins the open word. */
  lemma WordsClosed(st: WordState, lexeme: Lexeme)
    requires st.quote.Unquoted? && !st.escaped && GoodOne(lexeme) && Closed(lexeme) && !IsGap(lexeme)
    ensures WordRun(st, SpellOne(lexeme)) == st.(current := st.current + Meaning(lexeme), started := true)
  {
    match lexeme {
      case Bare(c) =>
        WhiteSpaceCharacters(c);
        WordRunTail(st, c, "");
        assert [c] + "" == [c];
      case Escaped(c) =>
        WordRunTail(st, '\\', [c]);
        assert ['\\'] + [c] == ['\\', c];
        WordRunTail(st.(escaped := true), c, "");
        assert [c] + "" == [c];
      case InSingle(text) =>
        WordsOpenSingle(st, text);
        WordRunOne(st, "'" + text, '\'');
      case InDouble(parts) =>
        WordsOpenDouble(st, parts);
        WordRunOne(st, "\"" + SpellParts(parts), '"');
    }
  }

  lemma WordsOpenSingle(st: WordState, text: string)
    requires st.quote.Unquoted? && !st.escaped && '\'' !in text
    ensures WordRun(st, "'" + text) == st.(current := st.current + text, started := true, quote := Single)
  {
    WordRunTail(st, '\'', text);
    WordsInSingle(st.(quote := Single, started := true), text);
  }

  lemma WordsOpenDouble(st: WordState, parts: seq<Part>)
    requires st.quote.Unquoted? && !st.escaped && GoodParts(parts)
    ensures WordRun(st, "\"" + SpellParts(parts))
         == st.(current := st.current + Characters(parts), started := true, quote := Double)
  {
    WordRunTail(st, '"', SpellParts(parts));
    WordsInDouble(st.(quote := Double, started := true), parts);
  }

  /** A gap ends the open word, if there is one. */
  lemma WordsGap(st: WordState, lexeme: Lexeme)
    requires st.quote.Unquoted? && !st.escaped && GoodOne(lexeme) && IsGap(lexeme)
    ensures WordRun(st, SpellOne(lexeme))
         == if st.started then st.(words := st.words + [st.current], current := "", started := false) else st
  {
    WhiteSpaceCharacters(lexeme.c);
    WordRunTail(st, lexeme.c, "");
    assert [lexeme.c] + "" == [lexeme.c];
  }

  lemma WordsOpen(st: WordState, lexeme: Lexeme)
    requires st.quote.Unquoted? && !st.escaped && GoodOne(lexeme) && !Closed(lexeme)
    ensures WordFinish(WordRun(st, SpellOne(lexeme))) == st.words + [st.current + Meaning(lexeme)]
  {
    match lexeme {
      case OpenSingle(text) =>
        WordsOpenSingle(st, text);
      case OpenDouble(parts) =>
        WordsOpenDouble(st, parts);
      case OpenEscape(parts) =>
        WordsOpenDouble(st, parts);
        WordRunOne(st, "\"" + SpellParts(parts), '\\');
        assert st.current + Characters(parts) + "\\" == st.current + Meaning(lexeme);
      case LoneBackslash =>
        WordRunTail(st, '\\', "");
        assert ['\\'] + "" == "\\";
    }
  }

  /** The words still to come when the first run continues the open word. */
  function WordsToCome(started: bool, current: string, runs: seq<seq<Lexeme>>): seq<string>
    requires runs != []
  {
    (if started || runs[0] != [] then [current + Value(runs[0])] else []) + Values(runs[1..])
  }

  lemma ToComeAfterGap(st: WordState, rest: seq<seq<Lexeme>>)
    requires rest != [] && (!st.started ==> st.current == "")
    ensures st.words + WordsToCome(st.started, st.current, [[]] + rest)
         == (if st.started then st.words + [st.current] else st.words) + WordsToCome(false, "", rest)
  {
    assert ([[]] + rest)[1..] == rest;
    assert st.current + Value([]) == st.current;
    assert "" + Value(rest[0]) == Value(rest[0]);
    hide Value;
  }

  lemma ToComeAfterPiece(started: bool, current: string, lexeme: Lexeme, rest: seq<seq<Lexeme>>)
    requires rest != []
    ensures WordsToCome(started, current, [[lexeme] + rest[0]] + rest[1..])
         == WordsToCome(true, current + Meaning(lexeme), rest)
  {
    var runs := [[lexeme] + rest[0]] + rest[1..];
    assert runs[1..] == rest[1..];
    assert runs[0][1..] == rest[0];
    assert current + (Meaning(lexeme) + Value(rest[0])) == current + Meaning(lexeme) + Value(rest[0]);
  }

  lemma {:induction false} WordsFrom(st: WordState, lexemes: seq<Lexeme>)
    requires st.quote.Unquoted? && !st.escaped && Good(lexemes) && (!st.started ==> st.current == "")
    ensures WordFinish(WordRun(st, Spell(lexemes)))
         == st.words + WordsToCome(st.started, st.current, Runs(lexemes, IsGap))
    decreases |lexemes|
  {
    if lexemes == [] {
      assert st.current + Value([]) == st.current;
    } else {
      var first, rest := lexemes[0], lexemes[1..];
      WordRunConcat(st, SpellOne(first), Spell(rest));
      if !Closed(first) {
        assert rest == [];
        WordsOpen(st, first);
        RunOfOne(first, IsGap);
        assert SpellOne(first) + "" == SpellOne(first);
        ToComeAfterPiece(st.started, st.current, first, [[]]);
        assert st.current + Meaning(first) + Value([]) == st.current + Meaning(first);
      } else {
        var next := WordRun(st, SpellOne(first));
        if IsGap(first) {
          WordsGap(st, first);
          ToComeAfterGap(st, Runs(rest, IsGap));
        } else {
          WordsClosed(st, first);
          ToComeAfterPiece(st.started, st.current, first, Runs(rest, IsGap));
        }
        WordsFrom(next, rest);
      }
    }
  }

  /** The words of a text are the values of the runs of lexemes between bare white space. */
  lemma WordsOfLexemes(lexemes: seq<Lexeme>)
    requires Good(lexemes)
    ensures Words(Spell(lexemes)) == Values(Runs(lexemes, IsGap))
  {
    WordsFrom(WordStart, lexemes);
    var runs := Runs(lexemes, IsGap);
    assert "" + Value(runs[0]) == Value(runs[0]);
    assert [] + WordsToCome(false, "", runs) == Values(runs);
  }

  /******* The splitter, lexeme by lexeme *******/

  lemma SplitRunHead(st: SplitState, c: char, rest: string)
    ensures SplitRun(st, [c] + rest) == SplitRun(SplitStep(st, c), rest)
  {
    assert ([c] + rest)[1..] == rest;
  }

  lemma {:induction false} SplitInSingle(st: SplitState, text: string)
    requires st.quote.Single? && !st.escaped && '\'' !in text
    ensures SplitRun(st, text) == st.(current := st.current + text)
    decreases |text|
  {
    if text == "" {
      assert st.current + text == st.current;
    } else {
      var next := st.(current := st.current + [text[0]]);
      assert text[0] in text;
      SplitInSingle(next, text[1..]);
      assert next.current + text[1..] == st.current + text;
    }
  }

  lemma Associate(a: string, b: string, c: string)
    ensures a + b + c == a + (b + c)
  {
  }

  lemma SplitPart(st: SplitState, part: Part)
    requires st.quote.Double? && !st.escaped
    requires !part.escaped ==> part.c != '"' && part.c != '\\'
    ensures SplitRun(st, SpellPart(part)) == st.(current := st.current + SpellPart(part))
  {
    if part.escaped {
      SplitRunHead(st, '\\', [part.c]);
      assert ['\\'] + [part.c] == SpellPart(part);
      SplitRunHead(SplitStep(st, '\\'), part.c, "");
      assert [part.c] + "" == [part.c];
      assert st.current + ['\\'] + [part.c] == st.current + SpellPart(part);
    } else {
      SplitRunHead(st, part.c, "");
      assert [part.c] + "" == [part.c];
    }
  }

  lemma {:induction false} SplitInDouble(st: SplitState, parts: seq<Part>)
    requires st.quote.Double? && !st.escaped && GoodParts(parts)
    ensures SplitRun(st, SpellParts(parts)) == st.(current := st.current + SpellParts(parts))
    decreases |parts|
  {
    if parts == [] {
      assert st.current + "" == st.current;
    } else {
      var head, rest := SpellPart(parts[0]), SpellParts(parts[1..]);
      SplitPart(st, parts[0]);
      SplitRunConcat(st, head, rest);
      SplitInDouble(st.(current := st.current + head), parts[1..]);
      Associate(st.current, head, rest);
      hide SplitRun, SplitStep, SpellPart;
    }
  }

  lemma SplitOpenSingle(st: SplitState, text: string)
    requires st.quote.Unquoted? && !st.escaped && '\'' !in text
    ensures SplitRun(st, "'" + text) == st.(current := st.current + ("'" + text), quote := Single)
  {
    SplitRunHead(st, '\'', text);
    SplitInSingle(SplitStep(st, '\''), text);
    assert st.current + ['\''] + text == st.current + ("'" + text);
  }

  lemma SplitOpenDouble(st: SplitState, parts: seq<Part>)
    requires st.quote.Unquoted? && !st.escaped && GoodParts(parts)
    ensures SplitRun(st, "\"" + SpellParts(parts)) == st.(current := st.current + ("\"" + SpellParts(parts)), quote := Double)
  {
    SplitRunHead(st, '"', SpellParts(parts));
    SplitInDouble(SplitStep(st, '"'), parts);
    hide SplitRun, SpellParts;
    Associate(st.current, "\"", SpellParts(parts));
  }

  /** What is no bare separator stays in the open segment. */
  lemma SplitClosed(st: SplitState, lexeme: Lexeme)
    requires st.quote.Unquoted? && !st.escaped && GoodOne(lexeme) && Closed(lexeme) && !IsBreak(lexeme)
    ensures SplitRun(st, SpellOne(lexeme)) == st.(current := st.current + SpellOne(lexeme))
  {
    match lexeme {
      case Bare(c) =>
        SplitRunHead(st, c, "");
        assert [c] + "" == [c];
      case Escaped(c) =>
        SplitRunHead(st, '\\', [c]);
        assert ['\\'] + [c] == ['\\', c];
        SplitRunHead(SplitStep(st, '\\'), c, "");
        assert [c] + "" == [c];
        assert st.current + ['\\'] + [c] == st.current + ['\\', c];
      case InSingle(text) =>
        SplitOpenSingle(st, text);
        SplitRunOne(st, "'" + text, '\'');
        assert st.current + ("'" + text) + ['\''] == st.current + SpellOne(lexeme);
      case InDouble(parts) =>
        SplitOpenDouble(st, parts);
        SplitRunOne(st, "\"" + SpellParts(parts), '"');
        assert st.current + ("\"" + SpellParts(parts)) + ['"'] == st.current + SpellOne(lexeme);
    }
  }

  lemma SplitBreak(st: SplitState, lexeme: Lexeme)
    requires st.quote.Unquoted? && !st.escaped && GoodOne(lexeme) && IsBreak(lexeme)
    ensures SplitRun(st, SpellOne(lexeme)) == st.(segments := st.segments + [st.current], current := "")
  {
    SplitRunHead(st, lexeme.c, "");
    assert [lexeme.c] + "" == [lexeme.c];
  }

  lemma SplitOpen(st: SplitState, lexeme: Lexeme)
    requires st.quote.Unquoted? && !st.escaped && GoodOne(lexeme) && !Closed(lexeme)
    ensures SplitFinish(SplitRun(st, SpellOne(lexeme))) == st.segments + [st.current + SpellOne(lexeme)]
  {
    match lexeme {
      case OpenSingle(text) =>
        SplitOpenSingle(st, text);
      case OpenDouble(parts) =>
        SplitOpenDouble(st, parts);
      case OpenEscape(parts) =>
        SplitOpenDouble(st, parts);
        SplitRunOne(st, "\"" + SpellParts(parts), '\\');
        assert st.current + ("\"" + SpellParts(parts)) + ['\\'] == st.current + SpellOne(lexeme);
      case LoneBackslash =>
        SplitRunHead(st, '\\', "");
        assert ['\\'] + "" == "\\";
    }
  }

  function SegmentsToCome(current: string, runs: seq<seq<Lexeme>>): seq<string>
    requires runs != []
  {
    [current + Spell(runs[0])] + Spellings(runs[1..])
  }

  lemma SpellingsOf(runs: seq<seq<Lexeme>>)
    requires runs != []
    ensures Spellings(runs) == [Spell(runs[0])] + Spellings(runs[1..])
  {
    hide Spell;
  }

  lemma Regrouped<T>(a: seq<T>, b: seq<T>, c: seq<T>)
    ensures a + (b + c) == (a + b) + c
  {
  }

  lemma ToComeAfterBreak(st: SplitState, rest: seq<seq<Lexeme>>)
    requires rest != []
    ensures st.segments + SegmentsToCome(st.current, [[]] + rest)
         == (st.segments + [st.current]) + SegmentsToCome("", rest)
  {
    assert st.current + Spell([]) == st.current;
    assert "" + Spell(rest[0]) == Spell(rest[0]);
    SpellingsOf(rest);
    hide Spell, Spellings;
    assert ([[]] + rest)[1..] == rest;
    Regrouped(st.segments, [st.current], Spellings(rest));
  }

  lemma ToComeAfterLexeme(current: string, lexeme: Lexeme, rest: seq<seq<Lexeme>>)
    requires rest != []
    ensures SegmentsToCome(current, [[lexeme] + rest[0]] + rest[1..])
         == SegmentsToCome(current + SpellOne(lexeme), rest)
  {
    var runs := [[lexeme] + rest[0]] + rest[1..];
    assert runs[1..] == rest[1..];
    assert runs[0][1..] == rest[0];
    assert current + (SpellOne(lexeme) + Spell(rest[0])) == current + SpellOne(lexeme) + Spell(rest[0]);
  }

  lemma {:induction false} SegmentsFrom(st: SplitState, lexemes: seq<Lexeme>)
    requires st.quote.Unquoted? && !st.escaped && Good(lexemes)
    ensures SplitFinish(SplitRun(st, Spell(lexemes)))
         == st.segments + SegmentsToCome(st.current, Runs(lexemes, IsBreak))
    decreases |lexemes|
  {
    if lexemes == [] {
      assert st.current + Spell([]) == st.current;
    } else {
      var first, rest := lexemes[0], lexemes[1..];
      SplitRunConcat(st, SpellOne(first), Spell(rest));
      if !Closed(first) {
        assert rest == [] && lexemes == [first];
        SplitOpen(st, first);
        assert SpellOne(first) + "" == SpellOne(first);
        ToComeAfterLexeme(st.current, first, [[]]);
        RunOfOne(first, IsBreak);
        assert st.current + SpellOne(first) + Spell([]) == st.current + SpellOne(first);
      } else {
        var next := SplitRun(st, SpellOne(first));
        if IsBreak(first) {
          SplitBreak(st, first);
          ToComeAfterBreak(st, Runs(rest, IsBreak));
        } else {
          SplitClosed(st, first);
          ToComeAfterLexeme(st.current, first, Runs(rest, IsBreak));
        }
        SegmentsFrom(next, rest);
      }
    }
  }

  /** The segments of a text are the runs of lexemes between bare separators, as they are spelled. */
  lemma SegmentsOfLexemes(lexemes: seq<Lexeme>)
    requires Good(lexemes)
    ensures Segments(Spell(lexemes)) == Spellings(Runs(lexemes, IsBreak))
  {
    SegmentsFrom(SplitStart, lexemes);
    var runs := Runs(lexemes, IsBreak);
    SpellingsOf(runs);
    hide Spell, Runs, Spellings, SplitRun, Good;
    assert "" + Spell(runs[0]) == Spell(runs[0]);
    assert [] + SegmentsToCome("", runs) == Spellings(runs);
  }

  predicate AllClosed(lexemes: seq<Lexeme>) {
    forall i :: 0 <= i < |lexemes| ==> Closed(lexemes[i])
  }

  lemma {:induction false} NeutralFrom(st: SplitState, lexemes: seq<Lexeme>)
    requires st.quote.Unquoted? && !st.escaped && Good(lexemes)
    ensures var end := SplitRun(st, Spell(lexemes));
      end.quote.Unquoted? && !end.escaped <==> AllClosed(lexemes)
    decreases |lexemes|
  {
    if lexemes != [] {
      var first, rest := lexemes[0], lexemes[1..];
      SplitRunConcat(st, SpellOne(first), Spell(rest));
      assert AllClosed(lexemes) <==> Closed(first) && AllClosed(rest);
      if !Closed(first) {
        assert rest == [];
        assert SpellOne(first) + "" == SpellOne(first);
        OpenIsNotNeutral(st, first);
      } else if IsBreak(first) {
        SplitBreak(st, first);
        NeutralFrom(SplitRun(st, SpellOne(first)), rest);
      } else {
        SplitClosed(st, first);
        NeutralFrom(SplitRun(st, SpellOne(first)), rest);
      }
    }
  }

  lemma OpenIsNotNeutral(st: SplitState, lexeme: Lexeme)
    requires st.quote.Unquoted? && !st.escaped && GoodOne(lexeme) && !Closed(lexeme)
    ensures var end := SplitRun(st, SpellOne(lexeme)); !end.quote.Unquoted? || end.escaped
  {
    match lexeme {
      case OpenSingle(text) =>
        SplitOpenSingle(st, text);
      case OpenDouble(parts) =>
        SplitOpenDouble(st, parts);
      case OpenEscape(parts) =>
        SplitOpenDouble(st, parts);
        SplitRunOne(st, "\"" + SpellParts(parts), '\\');
      case LoneBackslash =>
        SplitRunHead(st, '\\', "");
        assert ['\\'] + "" == "\\";
    }
  }

  /** A text is finished exactly when no quote and no escape is left open at its end. */
  lemma FinishedExactly(lexemes: seq<Lexeme>)
    requires Good(lexemes)
    ensures EndsNeutral(Spell(lexemes)) <==> AllClosed(lexemes)
  {
    NeutralFrom(SplitStart, lexemes);
  }

  /******* Every text is spelled *******/

  lemma {:induction false} SpellAppend(lexemes: seq<Lexeme>, last: Lexeme)
    ensures Spell(lexemes + [last]) == Spell(lexemes) + SpellOne(last)
  {
    if lexemes == [] {
      assert lexemes + [last] == [last] && [last][1..] == [];
    } else {
      assert (lexemes + [last])[0] == lexemes[0] && (lexemes + [last])[1..] == lexemes[1..] + [last];
      SpellAppend(lexemes[1..], last);
    }
  }

  lemma {:induction false} SpellPartsAppend(parts: seq<Part>, last: Part)
    ensures SpellParts(parts + [last]) == SpellParts(parts) + SpellPart(last)
  {
    if parts == [] {
      assert parts + [last] == [last] && [last][1..] == [];
    } else {
      assert (parts + [last])[0] == parts[0] && (parts + [last])[1..] == parts[1..] + [last];
      SpellPartsAppend(parts[1..], last);
    }
  }

  /** The lexeme that one character more begins after closed lexemes. */
  function Begin(c: char): Lexeme {
    if c == '\'' then OpenSingle("")
    else if c == '"' then OpenDouble([])
    else if c == '\\' then LoneBackslash
    else Bare(c)
  }

  /** The open lexeme with one character more. */
  function Continue(lexeme: Lexeme, c: char): Lexeme
    requires !Closed(lexeme)
  {
    match lexeme
    case OpenSingle(text) => if c == '\'' then InSingle(text) else OpenSingle(text + [c])
    case OpenDouble(parts) =>
      if c == '"' then InDouble(parts) else if c == '\\' then OpenEscape(parts) else OpenDouble(parts + [Part(c, false)])
    case OpenEscape(parts) => OpenDouble(parts + [Part(c, true)])
    case LoneBackslash => Escaped(c)
  }

  lemma BeginIsGood(c: char)
    ensures GoodOne(Begin(c)) && SpellOne(Begin(c)) == [c]
  {
  }

  lemma ContinueIsGood(lexeme: Lexeme, c: char)
    requires GoodOne(lexeme) && !Closed(lexeme)
    ensures GoodOne(Continue(lexeme, c)) && SpellOne(Continue(lexeme, c)) == SpellOne(lexeme) + [c]
  {
    match lexeme {
      case OpenSingle(text) =>
      case OpenDouble(parts) => SpellPartsAppend(parts, Part(c, false));
      case OpenEscape(parts) => SpellPartsAppend(parts, Part(c, true));
      case LoneBackslash =>
    }
  }

  lemma OpenLexemeGoesOn(front: seq<Lexeme>, last: Lexeme, c: char)
    requires Good(front + [last]) && !Closed(last)
    ensures Good(front + [Continue(last, c)]) && Spell(front + [Continue(last, c)]) == Spell(front + [last]) + [c]
  {
    assert (front + [last])[|front|] == last;
    ContinueIsGood(last, c);
    SpellAppend(front, last);
    SpellAppend(front, Continue(last, c));
    Associate(Spell(front), SpellOne(last), [c]);
    GoodAppend(front, last, Continue(last, c));
  }

  lemma GoodAppend(front: seq<Lexeme>, last: Lexeme, other: Lexeme)
    requires Good(front + [last]) && GoodOne(other)
    ensures Good(front + [other])
  {
    hide GoodOne, Closed;
    var a, b := front + [last], front + [other];
    assert forall i :: 0 <= i < |front| ==> b[i] == a[i];
  }

  lemma NextLexemeBegins(before: seq<Lexeme>, c: char)
    requires Good(before) && (before != [] ==> Closed(before[|before| - 1]))
    ensures Good(before + [Begin(c)]) && Spell(before + [Begin(c)]) == Spell(before) + [c]
  {
    BeginIsGood(c);
    SpellAppend(before, Begin(c));
    hide Spell, SpellOne, GoodOne, Begin, Closed;
  }

  lemma OneCharacterMore(before: seq<Lexeme>, c: char) returns (lexemes: seq<Lexeme>)
    requires Good(before)
    ensures Good(lexemes) && Spell(lexemes) == Spell(before) + [c]
  {
    hide Good, Spell, Begin, Continue, Closed;
    if before != [] && !Closed(before[|before| - 1]) {
      var last, front := before[|before| - 1], before[..|before| - 1];
      assert before == front + [last];
      OpenLexemeGoesOn(front, last, c);
      lexemes := front + [Continue(last, c)];
    } else {
      NextLexemeBegins(before, c);
      lexemes := before + [Begin(c)];
    }
  }

  /** Every text is spelled by lexemes of which at most the last is open. */
  lemma {:induction false} EveryTextIsSpelled(text: string) returns (lexemes: seq<Lexeme>)
    ensures Good(lexemes) && Spell(lexemes) == text
    decreases |text|
  {
    lexemes := [];
    if text != "" {
      hide Good, Spell;
      var front, c := text[..|text| - 1], text[|text| - 1];
      var before := EveryTextIsSpelled(front);
      lexemes := OneCharacterMore(before, c);
      assert text == front + [c];
    }
  }

  /** Between double quotes nothing but the mark itself and the backslash is special. */
  lemma DoubleQuotesKeepText(text: string)
    requires '"' !in text && '\\' !in text
    ensures Words("\"" + text + "\"") == [text]
    ensures Segments("\"" + text + "\"") == ["\"" + text + "\""]
  {
    var parts := seq(|text|, i requires 0 <= i < |text| => Part(text[i], false));
    var word := InDouble(parts);
    PlainPartsSpell(text, parts);
    assert Characters(parts) == text;
    OneWord(word);
  }

  lemma {:induction false} PlainPartsSpell(text: string, parts: seq<Part>)
    requires |parts| == |text| && forall i :: 0 <= i < |text| ==> parts[i] == Part(text[i], false)
    ensures SpellParts(parts) == text
  {
    if text != "" {
      PlainPartsSpell(text[1..], parts[1..]);
      assert text == [text[0]] + text[1..];
    }
  }

  /** A backslash outside quotes keeps the next character, whatever it is. */
  lemma BackslashKeepsCharacter(c: char)
    ensures Words(['\\', c]) == [[c]] && Segments(['\\', c]) == [['\\', c]]
  {
    OneWord(Escaped(c));
  }

  lemma OneWord(lexeme: Lexeme)
    requires GoodOne(lexeme) && Closed(lexeme) && !lexeme.Bare?
    ensures Words(SpellOne(lexeme)) == [Meaning(lexeme)] && Segments(SpellOne(lexeme)) == [SpellOne(lexeme)]
  {
    var all := [lexeme];
    assert all[1..] == [];
    assert SpellOne(lexeme) + "" == SpellOne(lexeme) && Meaning(lexeme) + "" == Meaning(lexeme);
    RunOfOne(lexeme, IsGap);
    RunOfOne(lexeme, IsBreak);
    var runs: seq<seq<Lexeme>> := [all];
    assert runs[1..] == [] && Values(runs[1..]) == [];
    assert Values(runs) == [Value(all)] + [] && Value(all) == Meaning(lexeme) + Value(all[1..]);
    assert Spell(all) == SpellOne(lexeme) + Spell(all[1..]) && Spellings(runs) == [Spell(all)];
    SegmentsOfLexemes(all);
    WordsOfLexemes(all);
  }

  /** So any splitter and any reader with these two laws are the program's. */
  lemma LexerIsDetermined(split: string -> seq<string>, read: string -> seq<string>, text: string)
    requires forall lexemes :: Good(lexemes) ==> split(Spell(lexemes)) == Spellings(Runs(lexemes, IsBreak))
    requires forall lexemes :: Good(lexemes) ==> read(Spell(lexemes)) == Values(Runs(lexemes, IsGap))
    ensures split(text) == Segments(text) && read(text) == Words(text)
  {
    var lexemes := EveryTextIsSpelled(text);
    SegmentsOfLexemes(lexemes);
    WordsOfLexemes(lexemes);
  }
}
