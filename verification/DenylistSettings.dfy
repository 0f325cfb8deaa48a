/**
 Reading the denylist from user settings. A setting is accepted as a whole or refused with the
 first error; every accepted rule blocks the command it was written from.
 */
module DenylistSettings {
  import opened Wrappers
  import opened Whitespace
  import opened Utf8
  import opened ShellLexer
  import opened ShellSegments
  import opened ShellQuote
  import opened CommandDenylist

  /** The setting's value: absent, not an array, or an array whose non-string elements are None. */
  datatype Setting = Absent | NotAnArray | Array(values: seq<Option<string>>)

  datatype SettingsError = NotCommandStrings | NotArray | TooManyCommands | NotOneCommand | SeparateCommands | NoCommandName

  const DEFAULT_COMMANDS := ["rm -rf /"]
  const MAX_COMMANDS := 256
  const MAX_COMMAND_BYTES := 16384

  predicate IsControl(c: char) {
    (c as int) < 0x20 || 0x7F <= (c as int) < 0xA0
  }

  function ParseRule(command: string): Result<CommandRule, SettingsError> {
    var text := Trim(command);
    if text == "" || Length(text) > MAX_COMMAND_BYTES || exists i :: 0 <= i < |text| && IsControl(text[i]) then
      Failure(NotOneCommand)
    else if |Segments(text)| != 1 then
      Failure(SeparateCommands)
    else
      var words := CommandWords(Words(text));
      if words == [] then Failure(NoCommandName)
      else
        var removal := ExecutableBasename(words[0]) == "rm" && RmRecursivelyForcesSystemRoot(words[1..]);
        Success(RuleRecord(text, words, removal))
  }

  function ParseRules(commands: seq<string>): Result<seq<CommandRule>, SettingsError> {
    if commands == [] then Success([])
    else
      match ParseRule(commands[0])
      case Failure(error) => Failure(error)
      case Success(rule) =>
        match ParseRules(commands[1..])
        case Failure(error) => Failure(error)
        case Success(rules) => Success([rule] + rules)
  }

  function Strings(values: seq<Option<string>>): Result<seq<string>, SettingsError> {
    if values == [] then Success([])
    else if values[0].None? then Failure(NotCommandStrings)
    else
      match Strings(values[1..])
      case Failure(error) => Failure(error)
      case Success(rest) => Success([values[0].value] + rest)
  }

  function FromSettings(setting: Setting): Result<seq<CommandRule>, SettingsError> {
    var commands := match setting
      case Absent => Success(DEFAULT_COMMANDS)
      case NotAnArray => Failure(NotArray)
      case Array(values) => Strings(values);
    match commands
    case Failure(error) => Failure(error)
    case Success(texts) => if |texts| > MAX_COMMANDS then Failure(TooManyCommands) else ParseRules(texts)
  }

  /******* What an accepted rule is *******/

  /** A rule as the parser makes it from its own text. */
  ghost predicate ReadFromText(rule: CommandRule) {
    && Segments(rule.text) == [rule.text]
    && rule.words == CommandWords(Words(rule.text))
    && (rule.rootRemoval <==> ExecutableBasename(rule.words[0]) == "rm" && RmRecursivelyForcesSystemRoot(rule.words[1..]))
  }

  lemma ParsedRuleIsRead(command: string)
    ensures ParseRule(command).Success? ==> ReadFromText(ParseRule(command).value)
  {
    var text := Trim(command);
    if |Segments(text)| == 1 {
      var breaks := SegmentsCutTheText(text);
      assert Interleave(Segments(text), breaks) == Segments(text)[0];
    }
  }

  lemma {:induction false} ParsedRulesAreRead(commands: seq<string>)
    ensures ParseRules(commands).Success? ==>
      && |ParseRules(commands).value| == |commands|
      && forall r :: r in ParseRules(commands).value ==> ReadFromText(r)
  {
    if commands != [] {
      hide ParseRule, ReadFromText;
      ParsedRuleIsRead(commands[0]);
      ParsedRulesAreRead(commands[1..]);
    }
  }

  /******* Which settings are accepted *******/

  /** One nonempty command of at most 16,384 bytes, with no control character and no unquoted separator. */
  ghost predicate IsOneCommand(text: string) {
    && text != "" && |Encode(text)| <= 16384
    && (forall i :: 0 <= i < |text| ==> ' ' <= text[i] <= '~' || text[i] >= '\U{A0}')
    && Segments(text) == [text]
  }

  lemma OneSegmentIsTheText(text: string)
    ensures |Segments(text)| == 1 <==> Segments(text) == [text]
  {
    var breaks := SegmentsCutTheText(text);
    if |Segments(text)| == 1 {
      assert Interleave(Segments(text), breaks) == Segments(text)[0];
    }
  }

  /** A rule is accepted exactly when the trimmed text is one command with a program; it keeps that text. */
  lemma RuleAcceptedExactly(command: string)
    ensures IsCore(command, Trim(command))
    ensures ParseRule(command).Success? <==> IsOneCommand(Trim(command)) && CommandWords(Words(Trim(command))) != []
    ensures ParseRule(command).Success? ==> ParseRule(command).value.text == Trim(command)
  {
    var text := Trim(command);
    TrimIsCore(command);
    EncodedLength(text);
    OneSegmentIsTheText(text);
    hide Trim, IsCore, Length, Segments, Words, CommandWords, ExecutableBasename, RmRecursivelyForcesSystemRoot;
    assert (exists i :: 0 <= i < |text| && IsControl(text[i]))
      <==> !(forall i :: 0 <= i < |text| ==> ' ' <= text[i] <= '~' || text[i] >= '\U{A0}');
  }

  /** The list has one rule for each command, in order; the first command that is no rule gives the error. */
  lemma {:induction false} EveryCommandIsARule(commands: seq<string>)
    ensures ParseRules(commands).Success? <==> forall i :: 0 <= i < |commands| ==> ParseRule(commands[i]).Success?
    ensures ParseRules(commands).Success? ==>
      && |ParseRules(commands).value| == |commands|
      && forall i :: 0 <= i < |commands| ==> ParseRule(commands[i]) == Success(ParseRules(commands).value[i])
    ensures ParseRules(commands).Failure? ==>
      exists k :: 0 <= k < |commands| && ParseRule(commands[k]).Failure? && ParseRule(commands[k]).error == ParseRules(commands).error
               && forall j :: 0 <= j < k ==> ParseRule(commands[j]).Success?
  {
    hide ParseRule;
    if commands != [] && ParseRule(commands[0]).Success? {
      var rest := commands[1..];
      EveryCommandIsARule(rest);
      assert forall i :: 1 <= i < |commands| ==> commands[i] == rest[i - 1];
      if ParseRules(rest).Failure? {
        var k :| 0 <= k < |rest| && ParseRule(rest[k]).Failure? && ParseRule(rest[k]).error == ParseRules(rest).error
                 && forall j :: 0 <= j < k ==> ParseRule(rest[j]).Success?;
        assert commands[k + 1] == rest[k];
      }
    }
  }

  lemma {:induction false} StringsExactly(values: seq<Option<string>>)
    ensures Strings(values).Success? <==> forall i :: 0 <= i < |values| ==> values[i].Some?
    ensures Strings(values).Success? ==>
      |Strings(values).value| == |values| && forall i :: 0 <= i < |values| ==> values[i] == Some(Strings(values).value[i])
    ensures Strings(values).Failure? ==> Strings(values).error == NotCommandStrings
  {
    if values != [] && values[0].Some? {
      StringsExactly(values[1..]);
      assert forall i :: 1 <= i < |values| ==> values[i] == values[1..][i - 1];
    }
  }

  /** A setting is accepted exactly when it is absent or lists at most 256 commands, each a rule; every one becomes a rule. */
  lemma SettingAcceptedExactly(setting: Setting)
    ensures FromSettings(setting).Success? <==>
      match setting
      case Absent => true
      case NotAnArray => false
      case Array(values) =>
        |values| <= 256 && forall i :: 0 <= i < |values| ==> values[i].Some? && ParseRule(values[i].value).Success?
    ensures setting.Array? && FromSettings(setting).Success? ==>
      var rules := FromSettings(setting).value;
      |rules| == |setting.values|
      && forall i :: 0 <= i < |rules| ==> setting.values[i].Some? && ParseRule(setting.values[i].value) == Success(rules[i])
  {
    hide ParseRule, ParseRules, Strings;
    match setting {
      case Absent => DefaultIsRootRemoval();
      case NotAnArray =>
      case Array(values) =>
        StringsExactly(values);
        if Strings(values).Success? {
          EveryCommandIsARule(Strings(values).value);
        }
    }
  }

  /******* Every accepted rule blocks its own command *******/

  lemma {:induction false} DropOptionsAppend(words: seq<string>, extra: seq<string>)
    requires DropOptions(words) != []
    ensures DropOptions(words + extra) == DropOptions(words) + extra
  {
    hide IsWrapperOption;
    assert (words + extra)[0] == words[0];
    if IsWrapperOption(words[0]) {
      assert (words + extra)[1..] == words[1..] + extra;
      DropOptionsAppend(words[1..], extra);
    }
  }

  lemma {:induction false} CommandWordsAppend(words: seq<string>, extra: seq<string>)
    requires CommandWords(words) != []
    ensures CommandWords(words + extra) == CommandWords(words) + extra
    decreases |words|
  {
    hide IsPassThrough, IsWrapper, CommandWords, DropOptions;
    var word, rest := words[0], words[1..];
    CommandWordsOf(word, rest);
    CommandWordsOf(word, rest + extra);
    assert words == [word] + rest && words + extra == [word] + (rest + extra);
    if IsPassThrough(word) {
      CommandWordsAppend(rest, extra);
    } else if IsWrapper(word) {
      CommandWordsOfNothing();
      DropOptionsAppend(rest, extra);
      CommandWordsAppend(DropOptions(rest), extra);
    }
  }

  lemma {:induction false} OptionsEndAppend(arguments: seq<string>, extra: seq<string>)
    ensures OptionsEnd(arguments) < |arguments| ==> OptionsEnd(arguments + extra) == OptionsEnd(arguments)
    ensures OptionsEnd(arguments + extra) >= OptionsEnd(arguments)
  {
    if arguments != [] && arguments[0] != "--" {
      assert (arguments + extra)[0] == arguments[0] && (arguments + extra)[1..] == arguments[1..] + extra;
      OptionsEndAppend(arguments[1..], extra);
    } else if arguments != [] {
      assert (arguments + extra)[0] == arguments[0];
    }
  }

  /** Further arguments never make a forced root removal harmless. */
  lemma RemovalAppend(arguments: seq<string>, extra: seq<string>)
    requires RmRecursivelyForcesSystemRoot(arguments)
    ensures RmRecursivelyForcesSystemRoot(arguments + extra)
  {
    OptionsEndAppend(arguments, extra);
    var all := arguments + extra;
    var r :| 0 <= r < OptionsEnd(arguments) && AsksRecursive(arguments[r]);
    var f :| 0 <= f < OptionsEnd(arguments) && AsksForce(arguments[f]);
    var t :| 0 <= t < |arguments| && IsTarget(arguments, t) && IsSystemRootTarget(arguments[t]);
    hide AsksRecursive, AsksForce, IsSystemRootTarget, IsLongOption, IsShortOption, OptionsEnd;
    assert all[r] == arguments[r] && all[f] == arguments[f] && all[t] == arguments[t];
    assert IsTarget(all, t);
  }

  lemma RuleMatchesItsCommand(rule: CommandRule, extra: seq<string>)
    requires ReadFromText(rule)
    ensures RuleMatches(rule, ExecutableBasename(rule.words[0]), rule.words[1..] + extra)
  {
    if rule.rootRemoval {
      RemovalAppend(rule.words[1..], extra);
    }
  }

  lemma DirectVerdict(rule: CommandRule, words: seq<string>, depth: Depth)
    requires CommandWords(words) != []
    requires RuleMatches(rule, ExecutableBasename(CommandWords(words)[0]), CommandWords(words)[1..])
    ensures MatchWords([rule], words, depth) == Some(rule.text)
  {
  }

  lemma RuleBlocksWords(rule: CommandRule, extra: seq<string>, depth: Depth)
    requires ReadFromText(rule)
    ensures MatchWords([rule], Words(rule.text) + extra, depth) == Some(rule.text)
  {
    hide ExecutableBasename, RuleMatches, Segments, Words, CommandWords, MatchWords;
    CommandWordsAppend(Words(rule.text), extra);
    RuleMatchesItsCommand(rule, extra);
    var command := CommandWords(Words(rule.text) + extra);
    assert command[0] == rule.words[0] && command[1..] == rule.words[1..] + extra;
    DirectVerdict(rule, Words(rule.text) + extra, depth);
  }

  /** A printed argument vector after a finished text adds exactly its words. */
  lemma WordsOfExtendedText(text: string, extra: seq<string>)
    requires Segments(text) == [text] && EndsNeutral(text)
    ensures Words(text + (" " + CommandLine(extra))) == Words(text) + extra
  {
    var end := WordRun(WordStart, text);
    InStepRun(SplitStart, CommandState([], WordStart), text);
    SplitCurrent(SplitStart, text);
    assert "" + text == text;
    assert WordRun(WordStart, text).quote.Unquoted? && !WordRun(WordStart, text).escaped;
    WordRunConcat(WordStart, text, " " + CommandLine(extra));
    WordRunConcat(end, " ", CommandLine(extra));
    var spaced := WordRun(end, " ");
    assert spaced == WordStep(end, ' ') by {
      WordRunOne(end, "", ' ');
      assert "" + [' '] == " ";
    }
    PendingWordIsEmpty(WordStart, text);
    assert spaced == Between(WordFinish(end));
    WordsReadTokens(WordFinish(end), Quotes(extra));
    assert Texts(Quotes(extra)) == extra;
  }

  lemma {:induction false} PendingWordIsEmpty(st: WordState, text: string)
    requires !st.started ==> st.current == ""
    ensures !WordRun(st, text).started ==> WordRun(st, text).current == ""
    decreases |text|
  {
    if text != "" {
      PendingWordIsEmpty(WordStep(st, text[0]), text[1..]);
    }
  }

  lemma ExtendedTextIsOneSegment(text: string, extra: seq<string>)
    requires Segments(text) == [text] && EndsNeutral(text)
    ensures Segments(text + (" " + CommandLine(extra))) == [text + (" " + CommandLine(extra))]
  {
    SplitCurrent(SplitStart, text);
    assert "" + text == text;
    assert Plain(text);
    hide Render, Segments;
    PlainText(" ");
    RenderIsPlain(Quotes(extra));
    PlainConcat(" ", CommandLine(extra));
    PlainConcat(text, " " + CommandLine(extra));
    PlainIsOneSegment(text + (" " + CommandLine(extra)));
  }

  lemma ReadRuleBlocksItsOwnText(rules: seq<CommandRule>, rule: CommandRule)
    requires rule in rules && ReadFromText(rule)
    ensures MatchingRule(rules, rule.text).Some?
  {
    RuleBlocksWords(rule, [], 0);
    assert Words(rule.text) + [] == Words(rule.text);
    PlainTextMatchesItsWords([rule], rule.text, 0);
    MoreRulesMatchText([rule], rules, rule.text, 0);
  }

  lemma ReadRuleBlocksItsExtensions(rules: seq<CommandRule>, rule: CommandRule, extra: seq<string>)
    requires rule in rules && ReadFromText(rule) && EndsNeutral(rule.text)
    ensures MatchingRule(rules, rule.text + (" " + CommandLine(extra))).Some?
  {
    TextOfReadRule(rule);
    hide ReadFromText, EndsNeutral, CommandLine, MatchAtDepth;
    var text := rule.text + (" " + CommandLine(extra));
    RuleBlocksWords(rule, extra, 0);
    WordsOfExtendedText(rule.text, extra);
    ExtendedTextIsOneSegment(rule.text, extra);
    PlainTextMatchesItsWords([rule], text, 0);
    MoreRulesMatchText([rule], rules, text, 0);
  }

  lemma TextOfReadRule(rule: CommandRule)
    requires ReadFromText(rule)
    ensures Segments(rule.text) == [rule.text]
  {
  }

  /** An accepted setting has a bounded number of rules, each as read from its own text. */
  lemma AcceptedRulesAreRead(setting: Setting)
    ensures FromSettings(setting).Success? ==>
      |FromSettings(setting).value| <= MAX_COMMANDS && forall r :: r in FromSettings(setting).value ==> ReadFromText(r)
  {
    hide ParseRules, ReadFromText;
    match setting {
      case Absent => ParsedRulesAreRead(DEFAULT_COMMANDS);
      case Array(values) => if Strings(values).Success? { ParsedRulesAreRead(Strings(values).value); }
      case NotAnArray =>
    }
  }

  /** No rule of an accepted setting is dead: the list blocks each rule's own text. */
  lemma AcceptedRulesBlockTheirOwnText(setting: Setting)
    ensures FromSettings(setting).Success? ==>
      var rules := FromSettings(setting).value;
      forall r :: r in rules ==> MatchingRule(rules, r.text).Some?
  {
    hide FromSettings, ReadFromText, MatchingRule;
    AcceptedRulesAreRead(setting);
    if FromSettings(setting).Success? {
      var rules := FromSettings(setting).value;
      forall r | r in rules ensures MatchingRule(rules, r.text).Some? {
        ReadRuleBlocksItsOwnText(rules, r);
      }
    }
  }

  /** Nor can it be dodged by quoting further arguments after it, when its text is finished. */
  lemma AcceptedRulesBlockTheirExtensions(setting: Setting, extra: seq<string>)
    ensures FromSettings(setting).Success? ==>
      var rules := FromSettings(setting).value;
      forall r :: r in rules && EndsNeutral(r.text) ==> MatchingRule(rules, r.text + (" " + CommandLine(extra))).Some?
  {
    hide FromSettings, ReadFromText, MatchingRule, EndsNeutral, CommandLine;
    AcceptedRulesAreRead(setting);
    if FromSettings(setting).Success? {
      var rules := FromSettings(setting).value;
      forall r | r in rules && EndsNeutral(r.text) ensures MatchingRule(rules, r.text + (" " + CommandLine(extra))).Some? {
        ReadRuleBlocksItsExtensions(rules, r, extra);
      }
    }
  }

  /******* The default rule, and where wrappings hide its command *******/

  const ROOT_REMOVAL := "rm -rf /"

  function DefaultRule(): CommandRule {
    RuleRecord(ROOT_REMOVAL, ["rm", "-rf", "/"], true)
  }

  lemma RootRemovalReads()
    ensures Segments(ROOT_REMOVAL) == [ROOT_REMOVAL] && Words(ROOT_REMOVAL) == ["rm", "-rf", "/"]
  {
    var tokens := [Bare("rm"), Bare("-rf"), Bare("/")];
    assert IsBare("rm") && IsBare("-rf") && IsBare("/");
    assert tokens[1..] == [Bare("-rf"), Bare("/")] && tokens[1..][1..] == [Bare("/")];
    assert Render(tokens) == ROOT_REMOVAL by {
      assert "rm" + (" " + ("-rf" + (" " + "/"))) == ROOT_REMOVAL;
    }
    assert Texts(tokens) == ["rm", "-rf", "/"];
    hide Render, Segments, Words;
    RenderRoundTrip(tokens);
    PlainIsOneSegment(Render(tokens));
  }

  /** A lower-case word is its own program name and no assignment or option. */
  lemma LowercaseWord(word: string)
    requires word != "" && forall i :: 0 <= i < |word| ==> 'a' <= word[i] <= 'z'
    ensures ExecutableBasename(word) == word && ProgramName(word) == word && !IsWrapperOption(word)
  {
    BasenameOfPart(word);
    hide ExecutableBasename;
    assert forall i :: 0 <= i < |word| ==> LowerCharacter(word[i]) == word[i];
    assert ToAsciiLowercase(word) == word;
  }

  lemma RemovalIsTheCommand()
    ensures CommandWords(["rm", "-rf", "/"]) == ["rm", "-rf", "/"]
  {
    LowercaseWord("rm");
    hide ExecutableBasename, ToAsciiLowercase;
    assert |"rm"| == 2;
  }

  lemma RemovalIsForced()
    ensures RmRecursivelyForcesSystemRoot(["-rf", "/"])
  {
    var arguments := ["-rf", "/"];
    assert arguments[0][1] == 'r' && arguments[0][2] == 'f';
    assert HasFlag(arguments[0], {'r', 'R'}) && HasFlag(arguments[0], {'f'});
    assert arguments[1..] == ["/"] && arguments[1..][1..] == [];
    assert OptionsEnd(arguments[1..][1..]) == 0 && OptionsEnd(arguments[1..]) == 1;
    assert IsTarget(arguments, 1) && IsSystemRootTarget(arguments[1]);
  }

  /** A trimmed text of one segment with a command is accepted as a rule with that command. */
  lemma OneCommandParses(text: string, words: seq<string>)
    requires Trim(text) == text && text != "" && Length(text) <= MAX_COMMAND_BYTES
    requires forall i :: 0 <= i < |text| ==> !IsControl(text[i])
    requires Segments(text) == [text] && CommandWords(Words(text)) == words && words != []
    ensures ParseRule(text) == Success(RuleRecord(text, words,
      ExecutableBasename(words[0]) == "rm" && RmRecursivelyForcesSystemRoot(words[1..])))
  {
    hide Trim, Length, Segments, Words, CommandWords, ExecutableBasename, RmRecursivelyForcesSystemRoot;
    assert |[text]| == 1;
  }

  lemma RootRemovalIsText()
    ensures Trim(ROOT_REMOVAL) == ROOT_REMOVAL && ROOT_REMOVAL != "" && Length(ROOT_REMOVAL) <= MAX_COMMAND_BYTES
    ensures forall i :: 0 <= i < |ROOT_REMOVAL| ==> !IsControl(ROOT_REMOVAL[i])
  {
    TrimKeepsCore(ROOT_REMOVAL, "");
    EncodedLength(ROOT_REMOVAL);
    hide Trim, Length;
    assert ROOT_REMOVAL + "" == ROOT_REMOVAL;
  }

  lemma RootRemovalParses()
    ensures ParseRule(ROOT_REMOVAL) == Success(DefaultRule())
  {
    RootRemovalReads();
    RemovalIsTheCommand();
    BasenameOfPart("rm");
    RemovalIsForced();
    RootRemovalIsText();
    var words := ["rm", "-rf", "/"];
    assert DefaultRule() == RuleRecord(ROOT_REMOVAL, words, true);
    hide *;
    assert words[0] == "rm" && words[1..] == ["-rf", "/"];
    OneCommandParses(ROOT_REMOVAL, words);
  }

  /** Without a setting the list is the one rule against removing the root. */
  lemma DefaultIsRootRemoval()
    ensures FromSettings(Absent) == Success([DefaultRule()])
  {
    RootRemovalParses();
    hide ParseRule;
    assert DEFAULT_COMMANDS[1..] == [];
    assert ParseRules([]) == Success([]);
    assert [DefaultRule()] + [] == [DefaultRule()];
  }

  lemma RootRemovalIsMatched()
    ensures MatchAtDepth([DefaultRule()], ROOT_REMOVAL, MAX_DEPTH).Some?
  {
    RootRemovalReads();
    RemovalIsTheCommand();
    BasenameOfPart("rm");
    RemovalIsForced();
    hide Segments, Words, CommandWords, ExecutableBasename, RmRecursivelyForcesSystemRoot, MatchAtDepth;
    PlainTextMatchesItsWords([DefaultRule()], ROOT_REMOVAL, MAX_DEPTH);
    assert ["rm", "-rf", "/"][1..] == ["-rf", "/"];
  }

  /** Under the default rule the removal is blocked through four wrappings in `sh -c`, and with a fifth it is not. */
  lemma FiveWrappingsHideRootRemoval(layers: nat)
    ensures FromSettings(Absent).Success?
    ensures MatchingRule(FromSettings(Absent).value, Wrapped(layers, ROOT_REMOVAL)).Some? <==> layers <= 4
  {
    var rules: seq<CommandRule> := [DefaultRule()];
    DefaultIsRootRemoval();
    RootRemovalIsMatched();
    hide FromSettings, MatchingRule, MatchAtDepth, Wrapped, LayerBlocked;
    DirectMatchUnderWrappings(rules, layers, ROOT_REMOVAL);
    forall inner ensures !LayerBlocked(rules, inner) {
      DefaultBlocksNoLayer(inner);
    }
  }

  lemma SudoHasAUserOption()
    ensures IsWrapper("sudo") && IsWrapperOption("-u")
  {
    LowercaseWord("sudo");
    hide ExecutableBasename, ToAsciiLowercase;
    assert |"sudo"| == 4;
  }

  lemma RootIsAProgram()
    ensures ExecutableBasename("root") == "root" && !IsShell("root")
    ensures !IsWrapperOption("root") && !IsPassThrough("root") && !IsWrapper("root")
  {
    LowercaseWord("root");
    hide ExecutableBasename, ToAsciiLowercase;
    assert |"root"| == 4 && "root"[0] == 'r';
    assert "bash"[0] == 'b' && "dash"[0] == 'd' && "sudo"[0] == 's';
  }

  lemma DefaultNeedsRemoval(program: string, arguments: seq<string>)
    requires program != "rm"
    ensures FirstRule([DefaultRule()], program, arguments).None?
  {
    BasenameOfPart("rm");
    hide ExecutableBasename;
    assert FirstRule([DefaultRule()][1..], program, arguments).None?;
  }

  /** An option's separate value is taken for the program: under the default rule this removal is not blocked. */
  lemma SudoUserHidesRootRemoval()
    ensures FromSettings(Absent).Success?
    ensures MatchingArgv(FromSettings(Absent).value, ["sudo", "-u", "root", "rm", "-rf", "/"]).None?
    ensures MatchingRule(FromSettings(Absent).value, CommandLine(["sudo", "-u", "root", "rm", "-rf", "/"])).None?
  {
    var rules: seq<CommandRule> := [DefaultRule()];
    var removal := ["rm", "-rf", "/"];
    var argv := ["sudo", "-u", "root", "rm", "-rf", "/"];
    DefaultIsRootRemoval();
    SudoHasAUserOption();
    RootIsAProgram();
    hide *;
    WordAfterOptionsIsTheProgram(rules, "sudo", ["-u"], "root", removal);
    assert argv == ["sudo"] + ["-u"] + (["root"] + removal);
    assert |"rm"| != |"root"|;
    DefaultNeedsRemoval("root", removal);
    TextAndArgvAgree(rules, argv);
  }

  lemma DefaultBlocksNoLayer(inner: string)
    ensures !LayerBlocked([DefaultRule()], inner)
  {
    LowercaseWord("rm");
    hide ExecutableBasename, RmRecursivelyForcesSystemRoot;
    var program := ExecutableBasename(DefaultRule().words[0]);
    assert program[0] == 'r' && "sh"[0] == 's';
    var rules: seq<CommandRule> := [DefaultRule()];
    assert !RuleMatches(rules[0], "sh", ["-c", inner]);
    assert FirstRule(rules[1..], "sh", ["-c", inner]).None?;
  }
}
