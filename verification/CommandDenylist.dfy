/**
 User-owned command rules: finding the program of a command, matching rules against it, and
 following `sh -c` scripts to a bounded depth. The text form and the argument-vector form of the
 matcher are proved to agree through the quoting printer, and the matcher's algebra is proved for
 every rule list and every script.
 */
module CommandDenylist {
  import opened Wrappers
  import opened ShellLexer
  import opened ShellSegments
  import opened ShellQuote

  /******* Words of a command *******/

  predicate IsSlash(c: char) {
    c == '/' || c == '\\'
  }

  predicate AllSlashes(s: string) {
    forall i :: 0 <= i < |s| ==> IsSlash(s[i])
  }

  predicate Leads(c: char, s: string) {
    s != "" && s[0] == c
  }

  function TrimSlashes(s: string): string
    decreases |s|
  {
    if s != "" && IsSlash(s[|s| - 1]) then TrimSlashes(s[..|s| - 1]) else s
  }

  function AfterLastSlash(s: string): string
    decreases |s|
  {
    if s == "" || IsSlash(s[|s| - 1]) then "" else AfterLastSlash(s[..|s| - 1]) + [s[|s| - 1]]
  }

  /** The last non-empty part between slashes; a word of slashes only is returned whole. */
  function ExecutableBasename(value: string): string {
    if TrimSlashes(value) == "" then value else AfterLastSlash(TrimSlashes(value))
  }

  lemma {:induction false} TrimmedSlashes(s: string)
    ensures var t := TrimSlashes(s);
      t <= s && AllSlashes(s[|t|..]) && (t != "" ==> !IsSlash(t[|t| - 1]))
    decreases |s|
  {
    if s != "" && IsSlash(s[|s| - 1]) {
      var shorter, t := s[..|s| - 1], TrimSlashes(s);
      TrimmedSlashes(shorter);
      forall i | |t| <= i < |s| ensures IsSlash(s[i]) {
        if i < |shorter| {
          assert shorter[|t|..][i - |t|] == s[i];
        }
      }
    }
  }

  lemma {:induction false} PartAfterLastSlash(s: string)
    ensures var p := AfterLastSlash(s);
      && |p| <= |s| && s == s[..|s| - |p|] + p
      && (forall i :: 0 <= i < |p| ==> !IsSlash(p[i]))
      && (|p| < |s| ==> IsSlash(s[|s| - |p| - 1]))
    decreases |s|
  {
    if s != "" && !IsSlash(s[|s| - 1]) {
      PartAfterLastSlash(s[..|s| - 1]);
    }
  }

  /** The program name is the last non-empty part between slashes of either kind. */
  lemma BasenameIsLastPart(value: string) returns (directory: string, trailing: string)
    ensures AllSlashes(value) ==> ExecutableBasename(value) == value
    ensures !AllSlashes(value) ==>
      var name := ExecutableBasename(value);
      && value == directory + name + trailing && name != "" && AllSlashes(trailing)
      && (forall i :: 0 <= i < |name| ==> !IsSlash(name[i]))
      && (directory == "" || IsSlash(directory[|directory| - 1]))
  {
    hide TrimSlashes, AfterLastSlash, IsSlash;
    TrimmedSlashes(value);
    var trimmed := TrimSlashes(value);
    PartAfterLastSlash(trimmed);
    directory := trimmed[..|trimmed| - |AfterLastSlash(trimmed)|];
    trailing := value[|trimmed|..];
    if trimmed == "" {
      assert trailing == value;
    } else {
      assert !IsSlash(value[|trimmed| - 1]);
      assert value == trimmed + trailing;
    }
  }

  function LowerCharacter(c: char): char {
    if 'A' <= c <= 'Z' then ((c as int) + 32) as char else c
  }

  lemma {:induction false} NothingBeforeLastSlash(s: string)
    requires forall i :: 0 <= i < |s| ==> !IsSlash(s[i])
    ensures AfterLastSlash(s) == s
    decreases |s|
  {
    if s != "" {
      NothingBeforeLastSlash(s[..|s| - 1]);
    }
  }

  /** A word without slashes is its own program name. */
  lemma BasenameOfPart(word: string)
    requires forall i :: 0 <= i < |word| ==> !IsSlash(word[i])
    ensures ExecutableBasename(word) == word
  {
    NothingBeforeLastSlash(word);
  }

  function ToAsciiLowercase(s: string): string {
    seq(|s|, i requires 0 <= i < |s| => LowerCharacter(s[i]))
  }

  predicate IsNameCharacter(c: char, first: bool) {
    c == '_' || 'a' <= c <= 'z' || 'A' <= c <= 'Z' || ('0' <= c <= '9' && !first)
  }

  /** `NAME=value`: an identifier stands before the first equals sign. */
  predicate IsEnvironmentAssignment(value: string) {
    exists n :: 0 < n < |value| && value[n] == '='
      && forall i :: 0 <= i < n ==> IsNameCharacter(value[i], i == 0)
  }

  function ProgramName(word: string): string {
    ToAsciiLowercase(ExecutableBasename(word))
  }

  predicate IsTransparentName(name: string) {
    name == "command" || name == "builtin" || name == "exec"
  }

  predicate IsWrapperName(name: string) {
    name == "env" || name == "sudo"
  }

  predicate IsPassThrough(word: string) {
    IsEnvironmentAssignment(word) || IsTransparentName(ProgramName(word))
  }

  predicate IsWrapper(word: string) {
    !IsPassThrough(word) && IsWrapperName(ProgramName(word))
  }

  predicate IsWrapperOption(word: string) {
    Leads('-', word) || IsEnvironmentAssignment(word)
  }

  function DropOptions(words: seq<string>): (rest: seq<string>)
    ensures |rest| <= |words|
  {
    if words != [] && IsWrapperOption(words[0]) then DropOptions(words[1..]) else words
  }

  /** The command proper: the words from its program on, or nothing when there is no program. */
  function CommandWords(words: seq<string>): (rest: seq<string>)
    ensures |rest| <= |words|
    decreases |words|
  {
    if words == [] then []
    else if IsPassThrough(words[0]) then CommandWords(words[1..])
    else if IsWrapper(words[0]) then CommandWords(DropOptions(words[1..]))
    else words
  }

  /** One turn of the option skipping. */
  lemma DropOptionsStep(words: seq<string>, index: nat)
    requires index <= |words|
    ensures DropOptions(words[index..])
         == if index < |words| && IsWrapperOption(words[index]) then DropOptions(words[index + 1..]) else words[index..]
  {
  }

  /** One turn of the search: what the command words are, by the kind of the word at `index`. */
  lemma CommandWordsStep(words: seq<string>, index: nat)
    requires index < |words|
    ensures var word := words[index];
      CommandWords(words[index..])
        == if IsEnvironmentAssignment(word) || IsTransparentName(ProgramName(word)) then CommandWords(words[index + 1..])
           else if IsWrapperName(ProgramName(word)) then CommandWords(DropOptions(words[index + 1..]))
           else words[index..]
  {
  }

  lemma CommandWordsOfNothing()
    ensures CommandWords([]) == []
  {
  }

  method ShellProgramIndex(words: seq<string>) returns (found: Option<nat>)
    ensures found.None? <==> CommandWords(words) == []
    ensures found.Some? ==> found.value < |words| && words[found.value..] == CommandWords(words)
  {
    hide CommandWords, DropOptions, IsTransparentName, IsWrapperName, ProgramName, IsEnvironmentAssignment, IsWrapperOption;
    var index := 0;
    while index < |words|
      invariant 0 <= index <= |words|
      invariant CommandWords(words[index..]) == CommandWords(words)
    {
      CommandWordsStep(words, index);
      var word := ProgramName(words[index]);
      if IsEnvironmentAssignment(words[index]) {
        index := index + 1;
        continue;
      }
      if IsTransparentName(word) {
        index := index + 1;
        continue;
      }
      if IsWrapperName(word) {
        index := index + 1;
        ghost var first := index;
        while index < |words| && IsWrapperOption(words[index])
          invariant first <= index <= |words|
          invariant DropOptions(words[index..]) == DropOptions(words[first..])
        {
          DropOptionsStep(words, index);
          index := index + 1;
        }
        DropOptionsStep(words, index);
        continue;
      }
      return Some(index);
    }
    assert words[index..] == [];
    CommandWordsOfNothing();
    return None;
  }

  /******* rm -rf / *******/

  // `/` in any number, `/*` or `/.`, with either slash and any trailing slashes.
  predicate IsSystemRootTarget(target: string) {
    || (target != "" && AllSlashes(target))
    || (|target| >= 2 && IsSlash(target[0]) && target[1] in {'*', '.'} && AllSlashes(target[2..]))
  }

  method NormalizesToSystemRoot(target: string) returns (root: bool)
    ensures root == IsSystemRootTarget(target)
  {
    var slashed := seq(|target|, i requires 0 <= i < |target| => if target[i] == '\\' then '/' else target[i]);
    var normalized := slashed;
    while |normalized| > 1 && normalized[|normalized| - 1] == '/'
      invariant |normalized| <= |slashed| && normalized == slashed[..|normalized|]
      invariant forall i :: |normalized| <= i < |slashed| ==> slashed[i] == '/'
      invariant slashed != "" ==> normalized != ""
    {
      normalized := normalized[..|normalized| - 1];
    }
    var lower := ToAsciiLowercase(normalized);
    root := lower == "/" || lower == "/*" || lower == "/.";
    RootCharacters(target, slashed, normalized, root);
  }

  lemma RootCharacters(target: string, slashed: string, normalized: string, root: bool)
    requires |slashed| == |target|
    requires forall i :: 0 <= i < |target| ==> slashed[i] == if target[i] == '\\' then '/' else target[i]
    requires |normalized| <= |slashed| && normalized == slashed[..|normalized|]
    requires forall i :: |normalized| <= i < |slashed| ==> slashed[i] == '/'
    requires slashed != "" ==> normalized != ""
    requires !(|normalized| > 1 && normalized[|normalized| - 1] == '/')
    requires root == (ToAsciiLowercase(normalized) in {"/", "/*", "/."})
    ensures root == IsSystemRootTarget(target)
  {
    var lower := ToAsciiLowercase(normalized);
    var n := |normalized|;
    assert forall i :: 0 <= i < |target| ==> IsSlash(target[i]) == (slashed[i] == '/');
    assert forall i :: 0 <= i < n ==> lower[i] == LowerCharacter(target[i]) || (lower[i] == '/' && IsSlash(target[i]));
    if root && n == 1 {
      assert lower[0] == '/';
      assert AllSlashes(target);
    } else if root {
      assert lower[0] == '/' && lower[1] in {'*', '.'};
      assert AllSlashes(target[2..]);
    }
    if target != "" && AllSlashes(target) {
      assert slashed[n - 1] == '/';
      assert lower == "/";
    }
    if |target| >= 2 && IsSlash(target[0]) && target[1] in {'*', '.'} && AllSlashes(target[2..]) {
      forall i | 2 <= i < |target| ensures slashed[i] == '/' {
        assert target[2..][i - 2] == target[i];
      }
      assert n == 2 && lower == [lower[0], lower[1]];
    }
  }

  /** The position of the first `--`, or the number of arguments. */
  function OptionsEnd(arguments: seq<string>): (n: nat)
    ensures n <= |arguments|
    ensures forall i :: 0 <= i < n ==> arguments[i] != "--"
    ensures n < |arguments| ==> arguments[n] == "--"
  {
    if arguments == [] || arguments[0] == "--" then 0 else 1 + OptionsEnd(arguments[1..])
  }

  predicate IsLongOption(argument: string) {
    |argument| >= 2 && argument[0] == '-' && argument[1] == '-'
  }

  predicate IsShortOption(argument: string) {
    |argument| >= 2 && argument[0] == '-' && argument[1] != '-'
  }

  predicate HasFlag(argument: string, flags: set<char>) {
    IsShortOption(argument) && exists i :: 1 <= i < |argument| && argument[i] in flags
  }

  predicate AsksRecursive(argument: string) {
    argument == "--recursive" || HasFlag(argument, {'r', 'R'})
  }

  predicate AsksForce(argument: string) {
    argument == "--force" || HasFlag(argument, {'f'})
  }

  /** An argument that names a file: not an option, or standing after `--`. */
  predicate IsTarget(arguments: seq<string>, i: nat)
    requires i < |arguments|
  {
    var end := OptionsEnd(arguments);
    i > end || (i < end && !IsLongOption(arguments[i]) && !IsShortOption(arguments[i]))
  }

  predicate RmRecursivelyForcesSystemRoot(arguments: seq<string>) {
    var end := OptionsEnd(arguments);
    && (exists i :: 0 <= i < end && AsksRecursive(arguments[i]))
    && (exists i :: 0 <= i < end && AsksForce(arguments[i]))
    && (exists i :: 0 <= i < |arguments| && IsTarget(arguments, i) && IsSystemRootTarget(arguments[i]))
  }

  method RmForces(arguments: seq<string>) returns (forced: bool)
    ensures forced == RmRecursivelyForcesSystemRoot(arguments)
  {
    var recursive, force := false, false;
    var targets: seq<string> := [];
    var optionsFinished := false;
    ghost var end := OptionsEnd(arguments);
    for index := 0 to |arguments|
      invariant optionsFinished == (end < index)
      invariant recursive == exists i :: 0 <= i < end && i < index && AsksRecursive(arguments[i])
      invariant force == exists i :: 0 <= i < end && i < index && AsksForce(arguments[i])
      invariant forall t :: t in targets <==> exists i :: 0 <= i < index && IsTarget(arguments, i) && arguments[i] == t
    {
      var argument := arguments[index];
      if !optionsFinished && argument == "--" {
        assert index == end;
        optionsFinished := true;
        continue;
      }
      assert index != end;
      if !optionsFinished && IsLongOption(argument) {
        assert !HasFlag(argument, {'r', 'R'}) && !HasFlag(argument, {'f'});
        recursive := recursive || argument == "--recursive";
        force := force || argument == "--force";
        assert AsksRecursive(arguments[index]) == (argument == "--recursive");
        assert !IsTarget(arguments, index);
        continue;
      }
      if !optionsFinished && Leads('-', argument) && argument != "-" {
        assert IsShortOption(argument);
        assert argument != "--recursive" && argument != "--force" by { assert "--recursive"[1] == '-' && "--force"[1] == '-'; }
        recursive := recursive || exists i :: 1 <= i < |argument| && argument[i] in {'r', 'R'};
        force := force || exists i :: 1 <= i < |argument| && argument[i] in {'f'};
        assert !IsTarget(arguments, index);
        continue;
      }
      assert index < end ==> !AsksRecursive(argument) && !AsksForce(argument);
      assert IsTarget(arguments, index);
      targets := targets + [argument];
    }
    forced := false;
    for index := 0 to |targets|
      invariant forced == exists i :: 0 <= i < index && IsSystemRootTarget(targets[i])
    {
      var root := NormalizesToSystemRoot(targets[index]);
      forced := forced || root;
    }
    assert forced == exists t :: t in targets && IsSystemRootTarget(t);
    forced := recursive && force && forced;
  }

  /******* The matcher *******/

  datatype RuleRecord = RuleRecord(text: string, words: seq<string>, rootRemoval: bool)

  /** Accepted rules name a program; the matcher reads it unconditionally. */
  type CommandRule = rule: RuleRecord | rule.words != [] witness RuleRecord("", [""], false)

  predicate RuleMatches(rule: CommandRule, program: string, arguments: seq<string>) {
    && ExecutableBasename(rule.words[0]) == program
    && if rule.rootRemoval then RmRecursivelyForcesSystemRoot(arguments) else rule.words[1..] <= arguments
  }

  function FirstRule(rules: seq<CommandRule>, program: string, arguments: seq<string>): Option<string> {
    if rules == [] then None
    else if RuleMatches(rules[0], program, arguments) then Some(rules[0].text)
    else FirstRule(rules[1..], program, arguments)
  }

  predicate IsShell(program: string) {
    program == "sh" || program == "bash" || program == "zsh" || program == "dash" || program == "ksh"
  }

  /** `-c`, alone or among other short flags. */
  predicate IsScriptFlag(argument: string) {
    Leads('-', argument) && 'c' in argument[1..]
  }

  function NestedScript(arguments: seq<string>): Option<string> {
    if |arguments| < 2 then None
    else if IsScriptFlag(arguments[0]) then Some(arguments[1])
    else NestedScript(arguments[1..])
  }

  const MAX_DEPTH := 4

  type Depth = d: nat | d <= MAX_DEPTH

  function MatchAtDepth(rules: seq<CommandRule>, command: string, depth: Depth): Option<string>
    decreases MAX_DEPTH - depth, 2, 0
  {
    MatchSegments(rules, Segments(command), depth)
  }

  function MatchSegments(rules: seq<CommandRule>, segments: seq<string>, depth: Depth): Option<string>
    decreases MAX_DEPTH - depth, 1, |segments|
  {
    if segments == [] then None
    else
      var first := MatchWords(rules, Words(segments[0]), depth);
      if first.Some? then first else MatchSegments(rules, segments[1..], depth)
  }

  function MatchWords(rules: seq<CommandRule>, words: seq<string>, depth: Depth): Option<string>
    decreases MAX_DEPTH - depth, 0, 0
  {
    var command := CommandWords(words);
    if command == [] then None
    else
      var program := ExecutableBasename(command[0]);
      var direct := FirstRule(rules, program, command[1..]);
      if direct.Some? then direct
      else if depth < MAX_DEPTH && IsShell(program) then
        match NestedScript(command[1..])
        case Some(script) => MatchAtDepth(rules, script, depth + 1)
        case None => None
      else None
  }

  function MatchingRule(rules: seq<CommandRule>, command: string): Option<string> {
    MatchAtDepth(rules, command, 0)
  }

  function MatchingArgv(rules: seq<CommandRule>, argv: seq<string>): Option<string> {
    MatchWords(rules, argv, 0)
  }

  /******* Text form and argument-vector form *******/

  lemma PlainTextMatchesItsWords(rules: seq<CommandRule>, text: string, depth: Depth)
    requires Segments(text) == [text]
    ensures MatchAtDepth(rules, text, depth) == MatchWords(rules, Words(text), depth)
  {
    assert MatchSegments(rules, [text][1..], depth).None?;
  }

  /** Quoting an argument vector into a command line changes no verdict. */
  lemma TextAndArgvAgree(rules: seq<CommandRule>, argv: seq<string>)
    ensures MatchingRule(rules, CommandLine(argv)) == MatchingArgv(rules, argv)
  {
    QuotedArgvRoundTrip(argv);
    PlainTextMatchesItsWords(rules, CommandLine(argv), 0);
  }

  /******* Dependence on the rule list *******/

  lemma {:induction false} FirstRuleExists(rules: seq<CommandRule>, program: string, arguments: seq<string>)
    ensures FirstRule(rules, program, arguments).Some?
       <==> exists r :: r in rules && RuleMatches(r, program, arguments)
    ensures FirstRule(rules, program, arguments).Some? ==>
      exists r :: r in rules && RuleMatches(r, program, arguments) && r.text == FirstRule(rules, program, arguments).value
  {
    if rules != [] && !RuleMatches(rules[0], program, arguments) {
      FirstRuleExists(rules[1..], program, arguments);
      assert forall r :: r in rules <==> r == rules[0] || r in rules[1..];
    } else if rules != [] {
      assert rules[0] in rules;
    }
  }

  lemma {:induction false} MoreRulesMatchWords(a: seq<CommandRule>, b: seq<CommandRule>, words: seq<string>, depth: Depth)
    requires forall r :: r in a ==> r in b
    ensures MatchWords(a, words, depth).Some? ==> MatchWords(b, words, depth).Some?
    decreases MAX_DEPTH - depth, 0, 0
  {
    if MatchWords(a, words, depth).Some? {
      var command := CommandWords(words);
      var program := ExecutableBasename(command[0]);
      FirstRuleExists(a, program, command[1..]);
      FirstRuleExists(b, program, command[1..]);
      if FirstRule(a, program, command[1..]).None? {
        MoreRulesMatchText(a, b, NestedScript(command[1..]).value, depth + 1);
      }
    }
  }

  lemma {:induction false} MoreRulesMatchSegments(a: seq<CommandRule>, b: seq<CommandRule>, segments: seq<string>, depth: Depth)
    requires forall r :: r in a ==> r in b
    ensures MatchSegments(a, segments, depth).Some? ==> MatchSegments(b, segments, depth).Some?
    decreases MAX_DEPTH - depth, 1, |segments|
  {
    if segments != [] {
      MoreRulesMatchWords(a, b, Words(segments[0]), depth);
      MoreRulesMatchSegments(a, b, segments[1..], depth);
    }
  }

  /** Adding, repeating or reordering rules never unblocks a command. */
  lemma {:induction false} MoreRulesMatchText(a: seq<CommandRule>, b: seq<CommandRule>, command: string, depth: Depth)
    requires forall r :: r in a ==> r in b
    ensures MatchAtDepth(a, command, depth).Some? ==> MatchAtDepth(b, command, depth).Some?
    decreases MAX_DEPTH - depth, 2, 0
  {
    MoreRulesMatchSegments(a, b, Segments(command), depth);
  }

  lemma {:induction false} OneRuleMatchesWords(rules: seq<CommandRule>, words: seq<string>, depth: Depth) returns (rule: CommandRule)
    requires MatchWords(rules, words, depth).Some?
    ensures rule in rules && MatchWords([rule], words, depth) == MatchWords(rules, words, depth) == Some(rule.text)
    decreases MAX_DEPTH - depth, 0, 0
  {
    var command := CommandWords(words);
    var program := ExecutableBasename(command[0]);
    var direct := FirstRule(rules, program, command[1..]);
    FirstRuleExists(rules, program, command[1..]);
    if direct.Some? {
      rule :| rule in rules && RuleMatches(rule, program, command[1..]) && rule.text == direct.value;
      assert FirstRule([rule], program, command[1..]) == Some(rule.text);
    } else {
      rule := OneRuleMatchesText(rules, NestedScript(command[1..]).value, depth + 1);
      FirstRuleExists([rule], program, command[1..]);
    }
  }

  lemma {:induction false} OneRuleMatchesSegments(rules: seq<CommandRule>, segments: seq<string>, depth: Depth) returns (rule: CommandRule)
    requires MatchSegments(rules, segments, depth).Some?
    ensures rule in rules && MatchSegments([rule], segments, depth) == MatchSegments(rules, segments, depth) == Some(rule.text)
    decreases MAX_DEPTH - depth, 1, |segments|
  {
    if MatchWords(rules, Words(segments[0]), depth).Some? {
      rule := OneRuleMatchesWords(rules, Words(segments[0]), depth);
    } else {
      rule := OneRuleMatchesSegments(rules, segments[1..], depth);
      MoreRulesMatchWords([rule], rules, Words(segments[0]), depth);
    }
  }

  /** The verdict names a rule of the list that blocks the command by itself. */
  lemma {:induction false} OneRuleMatchesText(rules: seq<CommandRule>, command: string, depth: Depth) returns (rule: CommandRule)
    requires MatchAtDepth(rules, command, depth).Some?
    ensures rule in rules && MatchAtDepth([rule], command, depth) == MatchAtDepth(rules, command, depth) == Some(rule.text)
    decreases MAX_DEPTH - depth, 2, 0
  {
    rule := OneRuleMatchesSegments(rules, Segments(command), depth);
  }

  /** A list blocks exactly what its rules block one by one; order and repetition do not matter. */
  lemma BlockedIffSomeRuleBlocks(rules: seq<CommandRule>, command: string)
    ensures MatchingRule(rules, command).Some? <==> exists r :: r in rules && MatchingRule([r], command).Some?
  {
    if MatchingRule(rules, command).Some? {
      var rule := OneRuleMatchesText(rules, command, 0);
      assert MatchingRule([rule], command).Some?;
    }
    forall r | r in rules && MatchingRule([r], command).Some? ensures MatchingRule(rules, command).Some? {
      MoreRulesMatchText([r], rules, command, 0);
    }
  }

  lemma RuleOrderIsIrrelevant(a: seq<CommandRule>, b: seq<CommandRule>, command: string)
    requires forall r :: r in a <==> r in b
    ensures MatchingRule(a, command).Some? <==> MatchingRule(b, command).Some?
  {
    MoreRulesMatchText(a, b, command, 0);
    MoreRulesMatchText(b, a, command, 0);
  }

  /******* Wrappers, sequences and nested scripts *******/

  lemma {:induction false} PassThroughWordsDropped(prefix: seq<string>, words: seq<string>)
    requires forall i :: 0 <= i < |prefix| ==> IsPassThrough(prefix[i])
    ensures CommandWords(prefix + words) == CommandWords(words)
  {
    if prefix == [] {
      assert prefix + words == words;
    } else {
      assert (prefix + words)[1..] == prefix[1..] + words;
      PassThroughWordsDropped(prefix[1..], words);
    }
  }

  lemma {:induction false} OptionsDropped(options: seq<string>, words: seq<string>)
    requires forall i :: 0 <= i < |options| ==> IsWrapperOption(options[i])
    requires words == [] || !IsWrapperOption(words[0])
    ensures DropOptions(options + words) == words
  {
    if options == [] {
      assert options + words == words;
    } else {
      assert (options + words)[1..] == options[1..] + words;
      OptionsDropped(options[1..], words);
    }
  }

  /** Assignments and `command`, `builtin` or `exec` in front of a command hide nothing and add nothing. */
  lemma LeadingWordsAreTransparent(rules: seq<CommandRule>, prefix: seq<string>, argv: seq<string>)
    requires forall i :: 0 <= i < |prefix| ==> IsPassThrough(prefix[i])
    ensures MatchingArgv(rules, prefix + argv) == MatchingArgv(rules, argv)
    ensures MatchingRule(rules, CommandLine(prefix + argv)) == MatchingRule(rules, CommandLine(argv))
  {
    PassThroughWordsDropped(prefix, argv);
    TextAndArgvAgree(rules, prefix + argv);
    TextAndArgvAgree(rules, argv);
  }

  /** `env` or `sudo` with any assignments and words that begin with `-` is transparent for a command that starts with neither. */
  lemma WrapperIsTransparent(rules: seq<CommandRule>, wrapper: string, options: seq<string>, argv: seq<string>)
    requires IsWrapper(wrapper)
    requires forall i :: 0 <= i < |options| ==> IsWrapperOption(options[i])
    requires argv == [] || !IsWrapperOption(argv[0])
    ensures MatchingArgv(rules, [wrapper] + options + argv) == MatchingArgv(rules, argv)
    ensures MatchingRule(rules, CommandLine([wrapper] + options + argv)) == MatchingRule(rules, CommandLine(argv))
  {
    hide MatchWords, MatchAtDepth, CommandLine;
    WrapperCommand(wrapper, options, argv);
    SameCommandSameVerdict(rules, [wrapper] + options + argv, argv, 0);
    TextAndArgvAgree(rules, [wrapper] + options + argv);
    TextAndArgvAgree(rules, argv);
  }

  lemma WrapperCommand(wrapper: string, options: seq<string>, words: seq<string>)
    requires IsWrapper(wrapper)
    requires forall i :: 0 <= i < |options| ==> IsWrapperOption(options[i])
    requires words == [] || !IsWrapperOption(words[0])
    ensures CommandWords([wrapper] + options + words) == CommandWords(words)
  {
    hide *;
    OptionsDropped(options, words);
    WrapperWord(wrapper, options + words, words);
    Reassociate([wrapper], options, words);
  }

  lemma WrapperWord(wrapper: string, rest: seq<string>, words: seq<string>)
    requires IsWrapper(wrapper) && DropOptions(rest) == words
    ensures CommandWords([wrapper] + rest) == CommandWords(words)
  {
    hide *;
    CommandWordsOf(wrapper, rest);
  }

  lemma Reassociate<T>(a: seq<T>, b: seq<T>, c: seq<T>)
    ensures a + b + c == a + (b + c)
  {
  }

  lemma CommandWordsOf(word: string, rest: seq<string>)
    ensures CommandWords([word] + rest)
         == if IsPassThrough(word) then CommandWords(rest)
            else if IsWrapper(word) then CommandWords(DropOptions(rest))
            else [word] + rest
    ensures IsWrapper(word) ==> !IsPassThrough(word)
  {
  }

  lemma SameCommandSameVerdict(rules: seq<CommandRule>, a: seq<string>, b: seq<string>, depth: Depth)
    requires CommandWords(a) == CommandWords(b)
    ensures MatchWords(rules, a, depth) == MatchWords(rules, b, depth)
  {
  }

  /** A word after the options that is no option itself is the program, even when it was meant as an option's value. */
  lemma WordAfterOptionsIsTheProgram(rules: seq<CommandRule>, wrapper: string, options: seq<string>, word: string, argv: seq<string>)
    requires IsWrapper(wrapper)
    requires forall i :: 0 <= i < |options| ==> IsWrapperOption(options[i])
    requires !IsWrapperOption(word) && !IsPassThrough(word) && !IsWrapper(word) && !IsShell(ExecutableBasename(word))
    ensures MatchingArgv(rules, [wrapper] + options + ([word] + argv)) == FirstRule(rules, ExecutableBasename(word), argv)
  {
    WrapperIsTransparent(rules, wrapper, options, [word] + argv);
    CommandWordsOf(word, argv);
    hide FirstRule, ExecutableBasename, CommandWords;
    assert ([word] + argv)[1..] == argv;
  }

  function OrElse(a: Option<string>, b: Option<string>): Option<string> {
    if a.Some? then a else b
  }

  lemma {:induction false} MatchSegmentsConcat(rules: seq<CommandRule>, a: seq<string>, b: seq<string>, depth: Depth)
    ensures MatchSegments(rules, a + b, depth) == OrElse(MatchSegments(rules, a, depth), MatchSegments(rules, b, depth))
    decreases |a|
  {
    if a == [] {
      assert a + b == b;
    } else {
      assert (a + b)[0] == a[0] && (a + b)[1..] == a[1..] + b;
      MatchSegmentsConcat(rules, a[1..], b, depth);
    }
  }

  /** A sequence is judged part by part, the first verdict winning. */
  lemma SequenceIsFirstVerdict(rules: seq<CommandRule>, a: string, separator: char, b: string, depth: Depth)
    requires EndsNeutral(a) && IsSeparator(separator)
    ensures MatchAtDepth(rules, a + [separator] + b, depth)
         == OrElse(MatchAtDepth(rules, a, depth), MatchAtDepth(rules, b, depth))
  {
    SegmentsOfSequence(a, separator, b);
    MatchSegmentsConcat(rules, Segments(a), Segments(b), depth);
  }

  lemma {:induction false} ShallowerWordsMatch(rules: seq<CommandRule>, words: seq<string>, depth: Depth)
    requires depth < MAX_DEPTH
    ensures MatchWords(rules, words, depth + 1).Some? ==> MatchWords(rules, words, depth).Some?
    decreases MAX_DEPTH - depth, 0, 0
  {
    if MatchWords(rules, words, depth + 1).Some? {
      var command := CommandWords(words);
      var direct := FirstRule(rules, ExecutableBasename(command[0]), command[1..]);
      if direct.None? {
        ShallowerTextMatches(rules, NestedScript(command[1..]).value, depth + 1);
      }
    }
  }

  lemma {:induction false} ShallowerSegmentsMatch(rules: seq<CommandRule>, segments: seq<string>, depth: Depth)
    requires depth < MAX_DEPTH
    ensures MatchSegments(rules, segments, depth + 1).Some? ==> MatchSegments(rules, segments, depth).Some?
    decreases MAX_DEPTH - depth, 1, |segments|
  {
    if segments != [] {
      ShallowerWordsMatch(rules, Words(segments[0]), depth);
      ShallowerSegmentsMatch(rules, segments[1..], depth);
    }
  }

  /** What is blocked with less nesting left is blocked with more. */
  lemma {:induction false} ShallowerTextMatches(rules: seq<CommandRule>, command: string, depth: Depth)
    requires depth < MAX_DEPTH
    ensures MatchAtDepth(rules, command, depth + 1).Some? ==> MatchAtDepth(rules, command, depth).Some?
    decreases MAX_DEPTH - depth, 2, 0
  {
    ShallowerSegmentsMatch(rules, Segments(command), depth);
  }

  function ShellTokens(script: string): seq<Token> {
    [Bare("sh"), Bare("-c"), Quoted(script)]
  }

  /** `sh -c '...'` around a script, `layers` times. */
  function Wrapped(layers: nat, script: string): string {
    if layers == 0 then script else Render(ShellTokens(Wrapped(layers - 1, script)))
  }

  lemma ShellBasename()
    ensures ExecutableBasename("sh") == "sh"
  {
    var s := "sh";
    assert s[..1] == ['s'] && ['s'][..0] == "";
    assert AfterLastSlash(['s'][..0]) == "";
    assert AfterLastSlash(['s']) == ['s'];
    assert AfterLastSlash(s) == ['s'] + ['h'];
    assert TrimSlashes(s) == s;
  }

  lemma ShellIsAProgram()
    ensures !IsPassThrough("sh") && !IsWrapper("sh")
  {
    ShellBasename();
    assert |ToAsciiLowercase("sh")| == 2;
    assert !IsEnvironmentAssignment("sh");
  }

  lemma ShellTokensRead(script: string)
    ensures Segments(Render(ShellTokens(script))) == [Render(ShellTokens(script))]
    ensures Words(Render(ShellTokens(script))) == ["sh", "-c", script]
  {
    assert IsBare("sh") && IsBare("-c");
    RenderRoundTrip(ShellTokens(script));
    PlainIsOneSegment(Render(ShellTokens(script)));
  }

  lemma ShellCommand(script: string)
    ensures CommandWords(["sh", "-c", script]) == ["sh", "-c", script]
    ensures NestedScript(["-c", script]) == Some(script)
  {
    ShellIsAProgram();
    assert "-c"[1..] == ['c'];
  }

  lemma ShellWordsVerdict(rules: seq<CommandRule>, words: seq<string>, script: string, depth: Depth)
    requires words == ["sh", "-c", script]
    ensures MatchWords(rules, words, depth)
         == OrElse(FirstRule(rules, "sh", ["-c", script]),
                   if depth < MAX_DEPTH then MatchAtDepth(rules, script, depth + 1) else None)
  {
    ShellCommand(script);
    ShellBasename();
    var arguments := words[1..];
    assert arguments == ["-c", script];
    assert ExecutableBasename(words[0]) == "sh";
    var direct := FirstRule(rules, "sh", arguments);
    if direct.Some? {
      assert MatchWords(rules, words, depth) == direct;
    } else if depth < MAX_DEPTH {
      assert MatchWords(rules, words, depth) == MatchAtDepth(rules, script, depth + 1);
    }
  }

  /** One layer: a rule against `sh` itself, or the script one level deeper. */
  lemma WrappedOnce(rules: seq<CommandRule>, script: string, depth: Depth)
    ensures MatchAtDepth(rules, Render(ShellTokens(script)), depth)
         == OrElse(FirstRule(rules, "sh", ["-c", script]),
                   if depth < MAX_DEPTH then MatchAtDepth(rules, script, depth + 1) else None)
  {
    hide Render, ShellTokens, MatchAtDepth, MatchWords, FirstRule;
    var text := Render(ShellTokens(script));
    ShellTokensRead(script);
    PlainTextMatchesItsWords(rules, text, depth);
    ShellWordsVerdict(rules, Words(text), script, depth);
  }

  /** A command blocked `layers` levels down stays blocked inside that many `sh -c` wrappings. */
  lemma {:induction false} WrappingKeepsVerdict(rules: seq<CommandRule>, layers: nat, script: string, depth: Depth)
    requires depth + layers <= MAX_DEPTH
    requires MatchAtDepth(rules, script, depth + layers).Some?
    ensures MatchAtDepth(rules, Wrapped(layers, script), depth).Some?
    decreases layers
  {
    hide MatchAtDepth, Render, ShellTokens;
    if layers > 0 {
      WrappingKeepsVerdict(rules, layers - 1, script, depth + 1);
      WrappedOnce(rules, Wrapped(layers - 1, script), depth);
    }
  }

  /** In particular a command blocked without following scripts survives up to four wrappings. */
  lemma DirectMatchSurvivesFourWrappings(rules: seq<CommandRule>, layers: nat, script: string)
    requires layers <= MAX_DEPTH
    requires MatchAtDepth(rules, script, MAX_DEPTH).Some?
    ensures MatchingRule(rules, Wrapped(layers, script)).Some?
  {
    hide MatchAtDepth, Wrapped;
    var depth: Depth := layers;
    assert MatchAtDepth(rules, script, depth).Some? by {
      MuchShallowerTextMatches(rules, script, depth, MAX_DEPTH);
    }
    assert 0 + layers == depth;
    WrappingKeepsVerdict(rules, layers, script, 0);
  }

  lemma {:induction false} MuchShallowerTextMatches(rules: seq<CommandRule>, command: string, depth: Depth, deeper: Depth)
    requires depth <= deeper
    requires MatchAtDepth(rules, command, deeper).Some?
    ensures MatchAtDepth(rules, command, depth).Some?
    decreases deeper - depth
  {
    hide MatchAtDepth;
    if depth < deeper {
      ShallowerTextMatches(rules, command, deeper - 1);
      MuchShallowerTextMatches(rules, command, depth, deeper - 1);
    }
  }

  function DeeperVerdict(rules: seq<CommandRule>, script: string, depth: nat): Option<string> {
    if depth <= MAX_DEPTH then MatchAtDepth(rules, script, depth) else None
  }

  /** A rule matches this layer of wrapping itself: it names `sh`, and at most `-c` and the very script. */
  predicate LayerBlocked(rules: seq<CommandRule>, inner: string) {
    FirstRule(rules, "sh", ["-c", inner]).Some?
  }

  /** Some layer that the matcher still reaches is blocked; the layer around `k` others is that much deeper. */
  ghost predicate SomeLayerBlocked(rules: seq<CommandRule>, layers: nat, script: string, depth: nat) {
    exists k: nat :: k < layers && depth + (layers - 1 - k) <= MAX_DEPTH && LayerBlocked(rules, Wrapped(k, script))
  }

  lemma OneLayerLess(rules: seq<CommandRule>, layers: nat, script: string, depth: Depth)
    requires layers > 0
    ensures SomeLayerBlocked(rules, layers, script, depth)
       <==> LayerBlocked(rules, Wrapped(layers - 1, script))
            || (depth < MAX_DEPTH && SomeLayerBlocked(rules, layers - 1, script, depth + 1))
  {
    hide LayerBlocked, Wrapped;
  }

  /**
   For all rules and any number of wrappings: the whole is blocked exactly when a layer within reach is
   blocked, or the script is blocked as many levels deeper, which past the limit it never is.
   */
  lemma {:induction false} WrappedBlockedExactly(rules: seq<CommandRule>, layers: nat, script: string, depth: Depth)
    ensures MatchAtDepth(rules, Wrapped(layers, script), depth).Some?
       <==> SomeLayerBlocked(rules, layers, script, depth) || DeeperVerdict(rules, script, depth + layers).Some?
    decreases layers
  {
    hide MatchAtDepth, Render, ShellTokens, FirstRule;
    if layers > 0 {
      hide SomeLayerBlocked;
      WrappedOnce(rules, Wrapped(layers - 1, script), depth);
      OneLayerLess(rules, layers, script, depth);
      if depth < MAX_DEPTH {
        WrappedBlockedExactly(rules, layers - 1, script, depth + 1);
        assert depth + layers == (depth + 1) + (layers - 1);
      }
    }
  }

  /** While no layer is blocked, wrapping only spends depth: the verdict is the script's, that much deeper. */
  lemma {:induction false} WrappingSpendsDepth(rules: seq<CommandRule>, layers: nat, script: string, depth: Depth)
    ensures SomeLayerBlocked(rules, layers, script, depth)
         || MatchAtDepth(rules, Wrapped(layers, script), depth) == DeeperVerdict(rules, script, depth + layers)
    decreases layers
  {
    hide MatchAtDepth, Render, ShellTokens, FirstRule;
    if layers > 0 {
      hide SomeLayerBlocked;
      WrappedOnce(rules, Wrapped(layers - 1, script), depth);
      OneLayerLess(rules, layers, script, depth);
      if depth < MAX_DEPTH {
        WrappingSpendsDepth(rules, layers - 1, script, depth + 1);
        assert depth + layers == (depth + 1) + (layers - 1);
      }
    }
  }

  /** A directly matched script is blocked under wrappings exactly up to four, or by a layer within reach. */
  lemma DirectMatchUnderWrappings(rules: seq<CommandRule>, layers: nat, script: string)
    requires MatchAtDepth(rules, script, MAX_DEPTH).Some?
    ensures MatchingRule(rules, Wrapped(layers, script)).Some?
       <==> layers <= MAX_DEPTH || SomeLayerBlocked(rules, layers, script, 0)
  {
    hide MatchAtDepth, Wrapped, SomeLayerBlocked;
    WrappedBlockedExactly(rules, layers, script, 0);
    if layers <= MAX_DEPTH {
      MuchShallowerTextMatches(rules, script, layers, MAX_DEPTH);
    }
  }
}
