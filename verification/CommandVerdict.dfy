/**
 The denylist's verdict stated by the characters of a command: which words stand in front of the
 program, when a rule applies to it, and which argument of a shell is a script to be judged in turn.
 Every command has one of these forms, so together they determine the verdict.
 */
module CommandVerdict {
  import opened Wrappers
  import opened ShellLexer
  import opened CommandDenylist

  const SMALL := "abcdefghijklmnopqrstuvwxyz"
  const CAPITALS := "ABCDEFGHIJKLMNOPQRSTUVWXYZ"
  const DIGITS := "0123456789"

  /******* Kinds of words *******/

  predicate IsIdentifier(name: string) {
    && name != "" && name[0] !in DIGITS
    && forall i :: 0 <= i < |name| ==> name[i] in SMALL || name[i] in CAPITALS || name[i] in DIGITS || name[i] == '_'
  }

  ghost predicate Assigns(word: string) {
    exists name, value :: word == name + "=" + value && IsIdentifier(name)
  }

  lemma LettersAndDigits(c: char)
    ensures c in SMALL <==> 'a' <= c <= 'z'
    ensures c in CAPITALS <==> 'A' <= c <= 'Z'
    ensures c in DIGITS <==> '0' <= c <= '9'
  {
  }

  /** Assignments are exactly an identifier, an equals sign and any value. */
  lemma AssignmentExactly(word: string)
    ensures IsEnvironmentAssignment(word) <==> Assigns(word)
  {
    forall c ensures c in SMALL <==> 'a' <= c <= 'z'
      ensures c in CAPITALS <==> 'A' <= c <= 'Z'
      ensures c in DIGITS <==> '0' <= c <= '9'
    {
      LettersAndDigits(c);
    }
    if IsEnvironmentAssignment(word) {
      var n :| 0 < n < |word| && word[n] == '=' && forall i :: 0 <= i < n ==> IsNameCharacter(word[i], i == 0);
      assert word == word[..n] + "=" + word[n + 1..];
      assert IsIdentifier(word[..n]);
    }
    if Assigns(word) {
      var name, value :| word == name + "=" + value && IsIdentifier(name);
      var n := |name|;
      assert word[n] == '=';
      assert forall i :: 0 <= i < n ==> word[i] == name[i];
    }
  }

  /** The character with its capital taken as the small letter. */
  ghost predicate SameLetter(c: char, small: char) {
    c == small || exists k :: 0 <= k < 26 && c == CAPITALS[k] && small == SMALL[k]
  }

  ghost predicate SameIgnoringCase(word: string, name: string) {
    |word| == |name| && forall i :: 0 <= i < |name| ==> SameLetter(word[i], name[i])
  }

  lemma AlphabetOrder(k: nat)
    requires k < 26
    ensures CAPITALS[k] == (('A' as int) + k) as char && SMALL[k] == (('a' as int) + k) as char
  {
  }

  lemma SameLetterExactly(c: char, small: char)
    requires 'a' <= small <= 'z'
    ensures SameLetter(c, small) <==> LowerCharacter(c) == small
  {
    forall k: nat | k < 26
      ensures CAPITALS[k] == (('A' as int) + k) as char && SMALL[k] == (('a' as int) + k) as char
    {
      AlphabetOrder(k);
    }
    assert |CAPITALS| == |SMALL| == 26;
    hide CAPITALS, SMALL;
    if 'A' <= c <= 'Z' {
      var k := (c as int) - ('A' as int);
      assert CAPITALS[k] == c;
    }
  }

  lemma NamesIgnoreCase(word: string, name: string)
    requires forall i :: 0 <= i < |name| ==> 'a' <= name[i] <= 'z'
    ensures ToAsciiLowercase(word) == name <==> SameIgnoringCase(word, name)
  {
    forall i | 0 <= i < |name| && i < |word| ensures SameLetter(word[i], name[i]) <==> LowerCharacter(word[i]) == name[i] {
      SameLetterExactly(word[i], name[i]);
    }
    hide SameLetter, LowerCharacter;
  }

  ghost predicate Named(word: string, name: string) {
    SameIgnoringCase(ExecutableBasename(word), name)
  }

  /** Words in front of the program that change nothing. */
  ghost predicate IsLeading(word: string) {
    Assigns(word) || Named(word, "command") || Named(word, "builtin") || Named(word, "exec")
  }

  /** Words that run the program after their options. */
  ghost predicate RunsProgram(word: string) {
    !IsLeading(word) && (Named(word, "env") || Named(word, "sudo"))
  }

  ghost predicate IsOption(word: string) {
    "-" <= word || Assigns(word)
  }

  lemma WordKinds(word: string)
    ensures IsPassThrough(word) <==> IsLeading(word)
    ensures IsWrapper(word) <==> RunsProgram(word)
    ensures IsWrapperOption(word) <==> IsOption(word)
  {
    AssignmentExactly(word);
    NamesIgnoreCase(ExecutableBasename(word), "command");
    NamesIgnoreCase(ExecutableBasename(word), "builtin");
    NamesIgnoreCase(ExecutableBasename(word), "exec");
    NamesIgnoreCase(ExecutableBasename(word), "env");
    NamesIgnoreCase(ExecutableBasename(word), "sudo");
    hide ExecutableBasename, ToAsciiLowercase, SameIgnoringCase, IsEnvironmentAssignment, Assigns;
  }

  /******* What stands in front of the program *******/

  datatype Prefix = Leading(word: string) | Runner(word: string, options: seq<string>)

  function PrefixWords(prefixes: seq<Prefix>): seq<string> {
    if prefixes == [] then []
    else
      (match prefixes[0]
       case Leading(word) => [word]
       case Runner(word, options) => [word] + options)
      + PrefixWords(prefixes[1..])
  }

  /** The prefixes end where the command begins, and each runner has all its options. */
  ghost predicate StandsBefore(prefixes: seq<Prefix>, command: seq<string>) {
    if prefixes == [] then
      command != [] ==> !IsLeading(command[0]) && !RunsProgram(command[0])
    else
      && StandsBefore(prefixes[1..], command)
      && match prefixes[0]
         case Leading(word) => IsLeading(word)
         case Runner(word, options) =>
           var rest := PrefixWords(prefixes[1..]) + command;
           && RunsProgram(word) && (forall i :: 0 <= i < |options| ==> IsOption(options[i]))
           && (rest != [] ==> !IsOption(rest[0]))
  }

  lemma PassThroughDropped(word: string, rest: seq<string>)
    requires IsLeading(word)
    ensures CommandWords([word] + rest) == CommandWords(rest)
  {
    WordKinds(word);
    CommandWordsOf(word, rest);
  }

  lemma RunnerDropped(word: string, options: seq<string>, rest: seq<string>)
    requires RunsProgram(word) && (forall i :: 0 <= i < |options| ==> IsOption(options[i]))
    requires rest != [] ==> !IsOption(rest[0])
    ensures CommandWords([word] + options + rest) == CommandWords(rest)
  {
    WordKinds(word);
    forall i | 0 <= i < |options| ensures IsWrapperOption(options[i]) {
      WordKinds(options[i]);
    }
    if rest != [] {
      WordKinds(rest[0]);
    }
    hide *;
    WrapperCommand(word, options, rest);
  }

  lemma ProgramStays(command: seq<string>)
    requires command != [] ==> !IsLeading(command[0]) && !RunsProgram(command[0])
    ensures CommandWords(command) == command
  {
    if command != [] {
      WordKinds(command[0]);
    }
    hide IsPassThrough, IsWrapper, IsLeading, RunsProgram;
  }

  /** The command proper is what follows the prefixes. */
  lemma {:induction false} CommandFollowsPrefixes(prefixes: seq<Prefix>, command: seq<string>)
    requires StandsBefore(prefixes, command)
    ensures CommandWords(PrefixWords(prefixes) + command) == command
    decreases |prefixes|
  {
    hide IsLeading, RunsProgram, IsOption, CommandWords;
    if prefixes == [] {
      assert PrefixWords(prefixes) + command == command;
      ProgramStays(command);
    } else {
      var rest := PrefixWords(prefixes[1..]) + command;
      CommandFollowsPrefixes(prefixes[1..], command);
      match prefixes[0] {
        case Leading(word) =>
          assert PrefixWords(prefixes) + command == [word] + rest;
          PassThroughDropped(word, rest);
        case Runner(word, options) =>
          assert PrefixWords(prefixes) + command == [word] + options + rest;
          RunnerDropped(word, options, rest);
      }
    }
  }

  lemma {:induction false} TakeOptions(words: seq<string>) returns (options: seq<string>, rest: seq<string>)
    ensures words == options + rest && (forall i :: 0 <= i < |options| ==> IsOption(options[i]))
    ensures rest != [] ==> !IsOption(rest[0])
    decreases |words|
  {
    options, rest := [], words;
    if words != [] && IsOption(words[0]) {
      var more;
      more, rest := TakeOptions(words[1..]);
      options := [words[0]] + more;
    }
  }

  /** Every argument vector consists of prefixes and a command. */
  lemma {:induction false} EveryVectorHasPrefixes(words: seq<string>) returns (prefixes: seq<Prefix>, command: seq<string>)
    ensures words == PrefixWords(prefixes) + command && StandsBefore(prefixes, command)
    decreases |words|
  {
    hide IsLeading, RunsProgram, IsOption;
    prefixes, command := [], words;
    if words != [] && IsLeading(words[0]) {
      var more;
      more, command := EveryVectorHasPrefixes(words[1..]);
      prefixes := [Leading(words[0])] + more;
      assert prefixes[1..] == more;
    } else if words != [] && RunsProgram(words[0]) {
      var more;
      var options, rest := TakeOptions(words[1..]);
      more, command := EveryVectorHasPrefixes(rest);
      prefixes := [Runner(words[0], options)] + more;
      assert prefixes[1..] == more;
    }
  }

  /******* When a rule applies *******/

  predicate OnlySlashes(s: string) {
    forall i :: 0 <= i < |s| ==> s[i] == '/' || s[i] == '\\'
  }

  // `/`, `/*` or `/.`, with either slash and any more slashes behind.
  ghost predicate NamesRoot(target: string) {
    exists slashes :: OnlySlashes(slashes) &&
      (|| (target == slashes && target != "")
       || target == "/*" + slashes || target == "\\*" + slashes || target == "/." + slashes || target == "\\." + slashes)
  }

  lemma RootTargetExactly(target: string)
    ensures IsSystemRootTarget(target) <==> NamesRoot(target)
  {
    if IsSystemRootTarget(target) {
      if target != "" && AllSlashes(target) {
        assert OnlySlashes(target);
      } else {
        assert OnlySlashes(target[2..]);
        assert target == [target[0], target[1]] + target[2..];
      }
    }
    if NamesRoot(target) {
      var slashes :| OnlySlashes(slashes) &&
        (|| (target == slashes && target != "")
         || target == "/*" + slashes || target == "\\*" + slashes || target == "/." + slashes || target == "\\." + slashes);
      if target != slashes {
        assert target[2..] == slashes;
      }
    }
  }

  /** A single dash with this letter somewhere behind it. */
  ghost predicate ShortFlag(word: string, letter: char) {
    exists a, b :: word == "-" + a + [letter] + b && !("--" <= word)
  }

  lemma ShortFlagExactly(word: string, letter: char)
    requires letter != '-'
    ensures ShortFlag(word, letter) <==> HasFlag(word, {letter})
  {
    if HasFlag(word, {letter}) {
      var i :| 1 <= i < |word| && word[i] == letter;
      assert word == "-" + word[1..i] + [letter] + word[i + 1..];
    }
    if ShortFlag(word, letter) {
      var a, b :| word == "-" + a + [letter] + b && !("--" <= word);
      assert word[1 + |a|] == letter;
    }
  }

  ghost predicate Recursive(word: string) {
    word == "--recursive" || ShortFlag(word, 'r') || ShortFlag(word, 'R')
  }

  ghost predicate Forcing(word: string) {
    word == "--force" || ShortFlag(word, 'f')
  }

  lemma OptionsExactly(word: string)
    ensures AsksRecursive(word) <==> Recursive(word)
    ensures AsksForce(word) <==> Forcing(word)
  {
    ShortFlagExactly(word, 'r');
    ShortFlagExactly(word, 'R');
    ShortFlagExactly(word, 'f');
    hide ShortFlag;
  }

  /** Words before the first `--` that are a recursive and a forcing option, and a file that names the root. */
  ghost predicate RemovesRoot(options: seq<string>, files: seq<string>) {
    && (exists i :: 0 <= i < |options| && Recursive(options[i]))
    && (exists i :: 0 <= i < |options| && Forcing(options[i]))
    && (|| (exists i :: 0 <= i < |files| && NamesRoot(files[i]))
        || (exists i :: 0 <= i < |options| && NamesRoot(options[i])))
  }

  lemma {:induction false} EndOfOptions(options: seq<string>, files: seq<string>)
    requires forall i :: 0 <= i < |options| ==> options[i] != "--"
    ensures OptionsEnd(options) == |options| && OptionsEnd(options + ["--"] + files) == |options|
  {
    if options == [] {
      assert (options + ["--"] + files)[0] == "--";
    } else {
      EndOfOptions(options[1..], files);
      assert (options + ["--"] + files)[1..] == options[1..] + ["--"] + files;
    }
  }

  lemma RootIsNoOption(word: string)
    ensures NamesRoot(word) ==> !IsLongOption(word) && !IsShortOption(word)
  {
    RootTargetExactly(word);
  }

  /** `rm` options and files, without or with a `--` between them. */
  lemma ForcedRemovalExactly(options: seq<string>, files: seq<string>)
    requires forall i :: 0 <= i < |options| ==> options[i] != "--"
    ensures RmRecursivelyForcesSystemRoot(options) <==> RemovesRoot(options, [])
    ensures RmRecursivelyForcesSystemRoot(options + ["--"] + files) <==> RemovesRoot(options, files)
  {
    EndOfOptions(options, files);
    RemovalBefore(options, options, []);
    RemovalBefore(options + ["--"] + files, options, files);
  }

  lemma RemovalBefore(arguments: seq<string>, options: seq<string>, files: seq<string>)
    requires (arguments == options && files == []) || arguments == options + ["--"] + files
    requires OptionsEnd(arguments) == |options|
    ensures RmRecursivelyForcesSystemRoot(arguments) <==> RemovesRoot(options, files)
  {
    forall word ensures (AsksRecursive(word) <==> Recursive(word)) && (AsksForce(word) <==> Forcing(word)) {
      OptionsExactly(word);
    }
    forall word ensures IsSystemRootTarget(word) <==> NamesRoot(word) {
      RootTargetExactly(word);
    }
    forall word ensures NamesRoot(word) ==> !IsLongOption(word) && !IsShortOption(word) {
      RootIsNoOption(word);
    }
    hide AsksRecursive, AsksForce, Recursive, Forcing, IsSystemRootTarget, NamesRoot, IsLongOption, IsShortOption, OptionsEnd;
    assert forall i :: 0 <= i < |options| ==> arguments[i] == options[i];
    assert forall i :: 0 <= i < |files| ==> arguments[|options| + 1 + i] == files[i];
    TargetsAre(arguments, options, files);
  }

  lemma TargetsAre(arguments: seq<string>, options: seq<string>, files: seq<string>)
    requires (arguments == options && files == []) || arguments == options + ["--"] + files
    requires OptionsEnd(arguments) == |options|
    requires forall word :: NamesRoot(word) ==> !IsLongOption(word) && !IsShortOption(word)
    ensures (exists i :: 0 <= i < |arguments| && IsTarget(arguments, i) && NamesRoot(arguments[i]))
       <==> || (exists i :: 0 <= i < |files| && NamesRoot(files[i]))
            || (exists i :: 0 <= i < |options| && NamesRoot(options[i]))
  {
    hide NamesRoot, IsLongOption, IsShortOption, OptionsEnd;
    forall i | 0 <= i < |options| && NamesRoot(options[i]) ensures IsTarget(arguments, i) && arguments[i] == options[i] {
    }
    forall i | 0 <= i < |files| && NamesRoot(files[i])
      ensures IsTarget(arguments, |options| + 1 + i) && arguments[|options| + 1 + i] == files[i]
    {
    }
    if i :| 0 <= i < |arguments| && IsTarget(arguments, i) && NamesRoot(arguments[i]) {
      if i < |options| {
        assert options[i] == arguments[i];
      } else {
        assert files[i - |options| - 1] == arguments[i];
      }
    }
  }

  /** A rule names the program and begins the arguments, or is the rule against removing the root. */
  ghost predicate Applies(rule: CommandRule, program: string, arguments: seq<string>) {
    && ExecutableBasename(rule.words[0]) == program
    && if rule.rootRemoval then RmRecursivelyForcesSystemRoot(arguments)
       else exists more :: arguments == rule.words[1..] + more
  }

  lemma AppliesExactly(rule: CommandRule, program: string, arguments: seq<string>)
    ensures RuleMatches(rule, program, arguments) <==> Applies(rule, program, arguments)
  {
    hide ExecutableBasename, RmRecursivelyForcesSystemRoot;
    if rule.words[1..] <= arguments {
      assert arguments == rule.words[1..] + arguments[|rule.words| - 1..];
    }
  }

  /** The direct verdict is the text of the first rule that applies. */
  ghost predicate IsDirect(rules: seq<CommandRule>, program: string, arguments: seq<string>, verdict: Option<string>) {
    match verdict
    case None => forall k :: 0 <= k < |rules| ==> !Applies(rules[k], program, arguments)
    case Some(text) =>
      exists k :: 0 <= k < |rules| && Applies(rules[k], program, arguments) && rules[k].text == text
               && forall j :: 0 <= j < k ==> !Applies(rules[j], program, arguments)
  }

  lemma {:induction false} FirstRuleIsDirect(rules: seq<CommandRule>, program: string, arguments: seq<string>)
    ensures IsDirect(rules, program, arguments, FirstRule(rules, program, arguments))
  {
    hide Applies, RuleMatches;
    if rules != [] {
      AppliesExactly(rules[0], program, arguments);
      var rest := rules[1..];
      var verdict := FirstRule(rest, program, arguments);
      FirstRuleIsDirect(rest, program, arguments);
      if !RuleMatches(rules[0], program, arguments) && verdict.Some? {
        var k :| 0 <= k < |rest| && Applies(rest[k], program, arguments) && rest[k].text == verdict.value
                 && forall j :: 0 <= j < k ==> !Applies(rest[j], program, arguments);
        assert rules[k + 1] == rest[k];
        assert forall j :: 0 <= j < k + 1 ==> !Applies(rules[j], program, arguments) by {
          forall j | 0 <= j < k + 1 ensures !Applies(rules[j], program, arguments) {
            if j > 0 {
              assert rules[j] == rest[j - 1];
            }
          }
        }
      } else if !RuleMatches(rules[0], program, arguments) {
        forall j | 0 <= j < |rules| ensures !Applies(rules[j], program, arguments) {
          if j > 0 {
            assert rules[j] == rest[j - 1];
          }
        }
      }
    }
  }

  /******* Which argument is a script *******/

  const SHELLS := ["sh", "bash", "zsh", "dash", "ksh"]

  /** A dash and, anywhere behind it, a `c`. */
  ghost predicate IsFlag(word: string) {
    exists a, b :: word == "-" + a + "c" + b
  }

  lemma FlagExactly(word: string)
    ensures IsScriptFlag(word) <==> IsFlag(word)
  {
    if IsScriptFlag(word) {
      var i :| 0 <= i < |word[1..]| && word[1..][i] == 'c';
      assert word == "-" + word[1..i + 1] + "c" + word[i + 2..];
    }
    if IsFlag(word) {
      var a, b :| word == "-" + a + "c" + b;
      assert word[1..][|a|] == 'c';
    }
  }

  lemma {:induction false} ScriptFollowsFlag(before: seq<string>, flag: string, script: string, after: seq<string>)
    requires IsFlag(flag) && forall i :: 0 <= i < |before| ==> !IsFlag(before[i])
    ensures NestedScript(before + [flag, script] + after) == Some(script)
  {
    hide IsFlag, IsScriptFlag;
    var arguments := before + [flag, script] + after;
    FlagExactly(arguments[0]);
    if before == [] {
      assert arguments[0] == flag && arguments[1] == script;
    } else {
      assert arguments[1..] == before[1..] + [flag, script] + after;
      ScriptFollowsFlag(before[1..], flag, script, after);
    }
  }

  lemma {:induction false} NoFlagNoScript(arguments: seq<string>)
    requires forall i :: 0 <= i < |arguments| - 1 ==> !IsFlag(arguments[i])
    ensures NestedScript(arguments).None?
  {
    hide IsFlag, IsScriptFlag;
    if |arguments| >= 2 {
      FlagExactly(arguments[0]);
      NoFlagNoScript(arguments[1..]);
    }
  }

  lemma ShellsByName(program: string)
    ensures IsShell(program) <==> program in SHELLS
  {
  }

  /******* The verdict *******/

  lemma VerdictAfterPrefixes(rules: seq<CommandRule>, prefixes: seq<Prefix>, word: string, arguments: seq<string>, depth: Depth)
    requires StandsBefore(prefixes, [word] + arguments)
    ensures MatchWords(rules, PrefixWords(prefixes) + ([word] + arguments), depth)
         == OrElse(FirstRule(rules, ExecutableBasename(word), arguments),
                   if depth < 4 && ExecutableBasename(word) in SHELLS && NestedScript(arguments).Some?
                   then MatchAtDepth(rules, NestedScript(arguments).value, depth + 1) else None)
  {
    CommandFollowsPrefixes(prefixes, [word] + arguments);
    ShellsByName(ExecutableBasename(word));
    hide StandsBefore, PrefixWords, CommandWords, FirstRule, NestedScript, IsShell, ExecutableBasename, MatchAtDepth;
    assert ([word] + arguments)[1..] == arguments;
  }

  /** A shell is judged by the first rule on it, or else by the script behind its first flag, one level deeper. */
  lemma ShellRunsScript(rules: seq<CommandRule>, prefixes: seq<Prefix>, shell: string, before: seq<string>, flag: string,
                        script: string, after: seq<string>, depth: Depth) returns (direct: Option<string>)
    requires ExecutableBasename(shell) in SHELLS
    requires IsFlag(flag) && forall i :: 0 <= i < |before| ==> !IsFlag(before[i])
    requires StandsBefore(prefixes, [shell] + (before + [flag, script] + after))
    ensures IsDirect(rules, ExecutableBasename(shell), before + [flag, script] + after, direct)
    ensures MatchWords(rules, PrefixWords(prefixes) + ([shell] + (before + [flag, script] + after)), depth)
         == if direct.Some? then direct else if depth < 4 then MatchAtDepth(rules, script, depth + 1) else None
  {
    hide FirstRule, StandsBefore, MatchWords, PrefixWords, NestedScript, ExecutableBasename, IsFlag, MatchAtDepth, IsDirect;
    var arguments := before + [flag, script] + after;
    direct := FirstRule(rules, ExecutableBasename(shell), arguments);
    FirstRuleIsDirect(rules, ExecutableBasename(shell), arguments);
    ScriptFollowsFlag(before, flag, script, after);
    VerdictAfterPrefixes(rules, prefixes, shell, arguments, depth);
  }

  lemma ShellWord(shell: string)
    requires shell in SHELLS
    ensures 2 <= |shell| <= 4 && forall i :: 0 <= i < |shell| ==> 'a' <= shell[i] <= 'z'
    ensures |shell| == 3 ==> shell[0] != 'e'
    ensures |shell| == 4 ==> shell[0] != 'e' && shell[0] != 's'
  {
  }

  lemma SmallWordIsNoAssignment(word: string)
    requires forall i :: 0 <= i < |word| ==> 'a' <= word[i] <= 'z'
    ensures !Assigns(word)
  {
    forall name: string, value: string ensures word != name + "=" + value {
      EqualsSign(name, value);
    }
  }

  lemma EqualsSign(name: string, value: string)
    ensures (name + "=" + value)[|name|] == '='
  {
  }

  lemma DifferentNames(word: string, name: string)
    requires word != "" && name != "" && 'a' <= word[0] <= 'z' && 'a' <= name[0] <= 'z'
    requires |word| != |name| || word[0] != name[0]
    ensures !SameIgnoringCase(word, name)
  {
    SameLetterExactly(word[0], name[0]);
    hide SameLetter;
  }

  lemma ShellIsTheProgram(shell: string)
    requires shell in SHELLS
    ensures ExecutableBasename(shell) == shell && !IsLeading(shell) && !RunsProgram(shell)
  {
    ShellWord(shell);
    hide SHELLS, ExecutableBasename, Assigns, SameIgnoringCase;
    BasenameOfPart(shell);
    SmallWordIsNoAssignment(shell);
    DifferentNames(shell, "command");
    DifferentNames(shell, "builtin");
    DifferentNames(shell, "exec");
    DifferentNames(shell, "env");
    DifferentNames(shell, "sudo");
  }

  /** So `bash -lc '...'` and the like are followed, for each shell by its name, unless a rule blocks the shell itself. */
  lemma NamedShellRunsScript(rules: seq<CommandRule>, shell: string, before: seq<string>, flag: string,
                             script: string, after: seq<string>, depth: Depth) returns (direct: Option<string>)
    requires shell in SHELLS && IsFlag(flag) && forall i :: 0 <= i < |before| ==> !IsFlag(before[i])
    ensures IsDirect(rules, shell, before + [flag, script] + after, direct)
    ensures MatchWords(rules, [shell] + (before + [flag, script] + after), depth)
         == if direct.Some? then direct else if depth < 4 then MatchAtDepth(rules, script, depth + 1) else None
  {
    ShellIsTheProgram(shell);
    var arguments := before + [flag, script] + after;
    assert StandsBefore([], [shell] + arguments);
    assert PrefixWords([]) + ([shell] + arguments) == [shell] + arguments;
    hide *;
    direct := ShellRunsScript(rules, [], shell, before, flag, script, after, depth);
  }

  /** Every other command is judged by the first rule that applies to it and nothing else. */
  lemma OthersAreJudgedDirectly(rules: seq<CommandRule>, prefixes: seq<Prefix>, word: string, arguments: seq<string>, depth: Depth)
    requires ExecutableBasename(word) !in SHELLS || forall i :: 0 <= i < |arguments| - 1 ==> !IsFlag(arguments[i])
    requires StandsBefore(prefixes, [word] + arguments)
    ensures IsDirect(rules, ExecutableBasename(word), arguments,
                     MatchWords(rules, PrefixWords(prefixes) + ([word] + arguments), depth))
  {
    hide IsDirect, FirstRule, StandsBefore, MatchWords, PrefixWords, NestedScript, ExecutableBasename, IsFlag, MatchAtDepth;
    FirstRuleIsDirect(rules, ExecutableBasename(word), arguments);
    if ExecutableBasename(word) in SHELLS {
      NoFlagNoScript(arguments);
    }
    VerdictAfterPrefixes(rules, prefixes, word, arguments, depth);
  }

  /** Without a program nothing is blocked. */
  lemma NoProgramNoVerdict(rules: seq<CommandRule>, prefixes: seq<Prefix>, depth: Depth)
    requires StandsBefore(prefixes, [])
    ensures MatchWords(rules, PrefixWords(prefixes), depth).None?
  {
    CommandFollowsPrefixes(prefixes, []);
    assert PrefixWords(prefixes) + [] == PrefixWords(prefixes);
  }

  /** A text is judged by the first of its segments that is blocked. */
  lemma {:induction false} FirstBlockedSegment(rules: seq<CommandRule>, segments: seq<string>, depth: Depth)
    ensures MatchSegments(rules, segments, depth).None?
       <==> forall k :: 0 <= k < |segments| ==> MatchWords(rules, Words(segments[k]), depth).None?
    ensures MatchSegments(rules, segments, depth).Some? ==>
      exists k :: 0 <= k < |segments| && MatchWords(rules, Words(segments[k]), depth) == MatchSegments(rules, segments, depth)
               && forall j :: 0 <= j < k ==> MatchWords(rules, Words(segments[j]), depth).None?
    decreases |segments|
  {
    hide MatchWords, Words;
    if segments != [] && MatchWords(rules, Words(segments[0]), depth).None? {
      var rest := segments[1..];
      FirstBlockedSegment(rules, rest, depth);
      assert forall k :: 1 <= k < |segments| ==> segments[k] == rest[k - 1];
      if MatchSegments(rules, rest, depth).Some? {
        var k :| 0 <= k < |rest| && MatchWords(rules, Words(rest[k]), depth) == MatchSegments(rules, rest, depth)
                 && forall j :: 0 <= j < k ==> MatchWords(rules, Words(rest[j]), depth).None?;
        assert segments[k + 1] == rest[k];
      } else {
        forall k | 0 <= k < |segments| ensures MatchWords(rules, Words(segments[k]), depth).None? {
          if k > 0 {
            assert segments[k] == rest[k - 1];
          }
        }
      }
    }
  }

  lemma TextIsJudgedBySegments(rules: seq<CommandRule>, text: string, depth: Depth)
    ensures var segments := Segments(text);
      && (MatchAtDepth(rules, text, depth).None? <==>
            forall k :: 0 <= k < |segments| ==> MatchWords(rules, Words(segments[k]), depth).None?)
      && (MatchAtDepth(rules, text, depth).Some? ==>
            exists k :: 0 <= k < |segments| && MatchWords(rules, Words(segments[k]), depth) == MatchAtDepth(rules, text, depth)
                     && forall j :: 0 <= j < k ==> MatchWords(rules, Words(segments[j]), depth).None?)
  {
    FirstBlockedSegment(rules, Segments(text), depth);
    hide MatchWords, Words, Segments;
  }
}
