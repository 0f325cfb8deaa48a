# Verified models of Achbit's core protocols

This project models parts of Achbit (a desktop agent with a Rust host, a Session kernel and Python build
scripts) in Dafny and proves what these parts promise. Each module follows one source file or component:

- **Command denylist** (`Whitespace`, `ShellLexer`, `ShellSegments`, `ShellGrammar`, `ShellQuote`, `CommandDenylist`,
  `CommandVerdict`, `DenylistSettings`).
  The two quote automata of the denylist are loops proved equal to runs of a step function. The lemmas
  show that they stay in step, that the splitter yields the one possible cut of a text, that quoting
  and reading are inverse, and how verdicts depend on rules, wrappers, sequences and nesting. A grammar
  that spells every text, and the forms that every command has, determine lexer and verdict by themselves.
- **Session projection** (`TextLines`, `UnifiedDiff`, `DiffRoundTrip`, `Distinct`, `SessionTimeline`,
  `TimelinePositions`, `ContextMessages`). The diff printer against an independently written strict reader; two validators,
  written as the source's loops over growing sets, proved equivalent to declarative predicates.
- **File transactions** (`Publish`, `PublishRollback`, `PublishLimits`, `PublishSuccess`, `ReplaceUi`, `ConfigSetup`).
  Directories are maps; any operation may raise, chosen by an input; undo may raise as well.
- **Process and request protocols** (`BuildBridge`, `ComputerUse`, `Startup`, `Containers`). State
  machines against an environment of processes, files and clocks; the results hold over all runs.
- **Workspace roots** (`WorkspaceRoots`). Directories get workspace ids, and ids show their bindings.
- **Bounded readers** (`Utf8`, `TitleExcerpt`, `BoundedRead`). UTF-8 as in section 3 of RFC 3629, byte
  cuts, and readers whose result is independent of how a stream is cut into pieces.

`Wrappers` holds what all share. A class models each object or script that changes
state in place; its methods are proved equal to specification functions on a value of its state, and
the lemmas are about those functions. Unknown outcomes (of the system, the clock, other components)
are parameters, so a lemma over all parameters speaks about every failure point.

## Where the code does less than one might read into it

Each of these is a lemma with a failing input, and an exact condition for the property to hold.

- A printed diff cannot be applied when the path holds a line break or reads, up to a tab, as `/dev/null`
  (`DiffRoundTrip.BrokenNameIsRefused`, `AbsentNameMisleads`; exactly: `DiffAppliesExactly`,
  `DiffReversesExactly`). A path with a tab is applied but not read back (`NameReadsExactly`).
- The rollback of `publish` does not restore an archive and an installer that share a target or, when
  both exist, a file name (`PublishLimits.SharedTargetBreaks`, `SharedNameBreaks`; exactly:
  `RollbackExactly`).
- A failed `publish` can lose the archive or the installer it was to replace: when restoring raises and
  no program entry had been moved aside (`PublishLimits.SavedArtifactLost`, `SecondSavedArtifactLost`),
  or when the second backup overwrites the first (`OverwrittenBackupLost`, `SharedNameLost`). Exactly:
  `ArtifactsSurviveExactly`.
- A vanished transaction marker of the build bridge proves nothing when a second request is prepared
  beside the marker of a running build whose worker claims on (`BuildBridge.UnguardedPreparationMisleads`,
  `SharedTransactionMisleads`) or beside one that is being removed (`PreparationDuringRemovalMisleads`,
  `SharedRemovalMisleads`). Every request keeps its marker until it is past it exactly when clients prepare
  only without a marker (`GuardKeepsMarkersExactly`), as one does who waits for each result
  (`WaitingForResultsIsGuarded`); then a vanished marker is proof (`VanishedMarkerMeansQuiescent`).
- More than four `sh -c` wrappings hide a command from the denylist, unless a rule matches a layer within
  reach (`DenylistSettings.FiveWrappingsHideRootRemoval`; exactly: `CommandDenylist.WrappedBlockedExactly`).
- A `sudo` or `env` option with a separate argument hides a command from the denylist, as in
  `sudo -u root rm -rf /` (`DenylistSettings.SudoUserHidesRootRemoval`): the argument is taken for the program,
  and the command is judged as that program's (exactly: `CommandDenylist.WordAfterOptionsIsTheProgram`).
- The two HTTP readers differ on an interrupted read (`BoundedRead.InterruptionMisleads`; exactly:
  `ReadersAgreeExactly`).
- A bounded title read accepts a file whose first malformed byte lies beyond the bound
  (`TitleExcerpt.UnseenErrorIsAccepted`; exactly: `BoundedAgreesExactly` for one file,
  `WholeReadingExactly` for the excerpt).
- The script that replaces the GUI can raise with the new GUI in place (`ReplaceUi.RaisesThoughReplaced`;
  exactly: `RaisesWithNewUiExactly`).
- A desktop helper whose start fails after launching may keep running beside the next one
  (`ComputerUse.FailedStartLeavesASecondHelper`; exactly: `AccountedExactly`).

## Model

| member | source | states |
|---|---|---|
| ShellLexer.ShellCommandSegments | crates/achbit-kernel-daemon/src/command_denylist.rs:109-138 | the splitting loop, with its start and end offsets, returns the segments of the reference run |
| ShellLexer.ShellWords | crates/achbit-kernel-daemon/src/command_denylist.rs:140-185 | the word loop returns the words of the reference run, a trailing lone backslash included |
| ShellLexer.InStepPreserved | crates/achbit-kernel-daemon/src/command_denylist.rs:109-185 | at every character the splitter's flags equal those of a word reader started on the open segment |
| ShellSegments.SplitThenReadIsOnePass | crates/achbit-kernel-daemon/src/command_denylist.rs:75-79 | splitting and then reading each segment equals one pass in which an unquoted separator ends a command |
| ShellSegments.SegmentsCutTheText | crates/achbit-kernel-daemon/src/command_denylist.rs:109-138 | segments interleaved with their separators spell the input, every break is unquoted, no segment can be cut further |
| ShellSegments.CutIsUnique | crates/achbit-kernel-daemon/src/command_denylist.rs:109-138 | any cut with those properties is the one the splitter returns |
| ShellSegments.SegmentsOfSequence | crates/achbit-kernel-daemon/src/command_denylist.rs:109-138 | splitting distributes over a separator after a text that ends outside quotes |
| ShellGrammar.WordsOfLexemes | crates/achbit-kernel-daemon/src/command_denylist.rs:140-185 | the words of a text are the runs between bare white space of its characters, escapes, single- and double-quoted stretches |
| ShellGrammar.SegmentsOfLexemes | crates/achbit-kernel-daemon/src/command_denylist.rs:109-138 | its segments are the runs between a bare `;`, line break, `&` or `|`, as they are spelled |
| ShellGrammar.EveryTextIsSpelled | crates/achbit-kernel-daemon/src/command_denylist.rs:109-185 | every text is spelled by such lexemes, of which at most the last is left open |
| ShellGrammar.LexerIsDetermined | crates/achbit-kernel-daemon/src/command_denylist.rs:109-185 | any splitter and reader with these two laws are the program's, for every text |
| ShellGrammar.FinishedExactly | crates/achbit-kernel-daemon/src/command_denylist.rs:109-138 | a text ends outside quotes and escapes exactly when no lexeme is left open |
| ShellGrammar.DoubleQuotesKeepText | crates/achbit-kernel-daemon/src/command_denylist.rs:120-164 | between double quotes any text without the mark and backslashes is one word and one segment |
| ShellGrammar.BackslashKeepsCharacter | crates/achbit-kernel-daemon/src/command_denylist.rs:116-155 | a backslash outside quotes keeps the next character, whatever it is |
| Whitespace.WhiteSpaceCharacters | crates/achbit-kernel-daemon/src/command_denylist.rs:168 | white space is exactly the 25 characters of the Unicode property |
| ShellQuote.RenderRoundTrip | crates/achbit-kernel-daemon/src/command_denylist.rs:109-185 | printed bare or quoted words form one segment and are read back exactly |
| ShellQuote.QuoteWordExactly | crates/achbit-host-connection/src/ssh.rs:289-291 | a word is put between single quotes, and each single quote in it between two such stretches as `\'` |
| ShellQuote.QuotedArgvRoundTrip | crates/achbit-host-connection/src/ssh.rs:289-291 | every argument vector survives quoting, joining with spaces, splitting and reading |
| ShellQuote.CommandLineInjective | crates/achbit-host-connection/src/ssh.rs:289-291 | no two argument vectors print alike |
| ShellQuote.RemoteCommandKeepsPaths | crates/achbit-host-connection/src/ssh.rs:226-231 | whatever the paths hold, the remote POSIX text is one command: `exec`, the environment if a root is given, the path and `gui-attach` |
| CommandDenylist.BasenameIsLastPart | crates/achbit-kernel-daemon/src/command_denylist.rs:213-218 | the program name is the last non-empty part between slashes of either kind |
| CommandDenylist.ShellProgramIndex | crates/achbit-kernel-daemon/src/command_denylist.rs:187-211 | the loop finds where the recursively defined command words begin, or that there are none |
| CommandDenylist.NormalizesToSystemRoot | crates/achbit-kernel-daemon/src/command_denylist.rs:256-264 | the normalised comparison accepts exactly `/`-like targets, given by their characters |
| CommandDenylist.RmForces | crates/achbit-kernel-daemon/src/command_denylist.rs:231-254 | the flag loop is true exactly when a recursive and a forcing option stand before `--` and some target is the root |
| CommandDenylist.TextAndArgvAgree | crates/achbit-kernel-daemon/src/command_denylist.rs:67-107 | the verdict on a quoted command line is the verdict on its argument vector, for every rule list |
| CommandDenylist.MoreRulesMatchText | crates/achbit-kernel-daemon/src/command_denylist.rs:75-107 | adding, repeating or reordering rules never unblocks a command |
| CommandDenylist.OneRuleMatchesText | crates/achbit-kernel-daemon/src/command_denylist.rs:75-107 | a verdict names a rule of the list that blocks the command alone |
| CommandDenylist.BlockedIffSomeRuleBlocks | crates/achbit-kernel-daemon/src/command_denylist.rs:67-107 | a list blocks exactly what some rule of it blocks |
| CommandDenylist.RuleOrderIsIrrelevant | crates/achbit-kernel-daemon/src/command_denylist.rs:67-107 | lists with the same rules block the same commands |
| CommandDenylist.LeadingWordsAreTransparent | crates/achbit-kernel-daemon/src/command_denylist.rs:187-211 | leading assignments and `command`, `builtin`, `exec` change no verdict |
| CommandDenylist.WrapperIsTransparent | crates/achbit-kernel-daemon/src/command_denylist.rs:187-211 | `env` or `sudo` followed by assignments and words that begin with `-` changes no verdict, on the argument vector or on its text |
| CommandDenylist.WordAfterOptionsIsTheProgram | crates/achbit-kernel-daemon/src/command_denylist.rs:187-211 | the next word, if no wrapper or shell, is the program even when meant as an option's argument: the verdict is the rules' verdict on it and what follows |
| CommandDenylist.SequenceIsFirstVerdict | crates/achbit-kernel-daemon/src/command_denylist.rs:75-79 | a sequence is judged part by part, the first verdict winning |
| CommandDenylist.ShallowerTextMatches | crates/achbit-kernel-daemon/src/command_denylist.rs:75-107 | what is blocked with less nesting left is blocked with more |
| CommandDenylist.WrappingKeepsVerdict | crates/achbit-kernel-daemon/src/command_denylist.rs:81-107 | a command blocked some levels down stays blocked inside that many `sh -c` wrappings |
| CommandDenylist.DirectMatchSurvivesFourWrappings | crates/achbit-kernel-daemon/src/command_denylist.rs:81-107 | a directly matched command stays blocked through up to four wrappings |
| CommandDenylist.WrappedBlockedExactly | crates/achbit-kernel-daemon/src/command_denylist.rs:81-107 | for all rules: a wrapped script is blocked exactly when a layer within reach is, or the script is that many levels deeper |
| CommandDenylist.WrappingSpendsDepth | crates/achbit-kernel-daemon/src/command_denylist.rs:81-107 | while no layer is blocked, the verdict under wrappings is the script's that many levels deeper, and none past the limit |
| CommandDenylist.DirectMatchUnderWrappings | crates/achbit-kernel-daemon/src/command_denylist.rs:81-107 | a directly matched script is blocked under wrappings exactly up to four, or by a layer within reach |
| CommandVerdict.AssignmentExactly | crates/achbit-kernel-daemon/src/command_denylist.rs:220-229 | an assignment is exactly an identifier, an equals sign and any value |
| CommandVerdict.WordKinds | crates/achbit-kernel-daemon/src/command_denylist.rs:187-211 | which words change nothing, run a program, or are options, by their names in any case and their first character |
| CommandVerdict.CommandFollowsPrefixes | crates/achbit-kernel-daemon/src/command_denylist.rs:187-211 | the command is what follows the leading words and the runners with their options |
| CommandVerdict.EveryVectorHasPrefixes | crates/achbit-kernel-daemon/src/command_denylist.rs:187-211 | every argument vector consists of such prefixes and a command |
| CommandVerdict.RootTargetExactly | crates/achbit-kernel-daemon/src/command_denylist.rs:256-264 | a target names the root exactly when it is slashes, or one slash with `*` or `.` and more slashes |
| CommandVerdict.ForcedRemovalExactly | crates/achbit-kernel-daemon/src/command_denylist.rs:231-254 | `rm` removes the root exactly with a recursive and a forcing option before `--` and a target that names the root |
| CommandVerdict.FirstRuleIsDirect | crates/achbit-kernel-daemon/src/command_denylist.rs:85-96 | the direct verdict is the first rule whose program it is and whose further words begin the arguments, or whose root removal it is |
| CommandVerdict.ScriptFollowsFlag | crates/achbit-kernel-daemon/src/command_denylist.rs:97-101 | the script is the argument behind the first one that begins with `-` and contains `c` |
| CommandVerdict.NoFlagNoScript | crates/achbit-kernel-daemon/src/command_denylist.rs:97-101 | without such an argument before the last there is no script |
| CommandVerdict.ShellRunsScript | crates/achbit-kernel-daemon/src/command_denylist.rs:81-107 | a shell behind any prefixes is judged by the first rule on it, or else by its script one level deeper, down to four |
| CommandVerdict.NamedShellRunsScript | crates/achbit-kernel-daemon/src/command_denylist.rs:81-107 | the same for each of the five shells by name, as in `bash -lc` |
| CommandVerdict.OthersAreJudgedDirectly | crates/achbit-kernel-daemon/src/command_denylist.rs:81-107 | every other command is judged by the first rule that applies and by nothing else |
| CommandVerdict.NoProgramNoVerdict | crates/achbit-kernel-daemon/src/command_denylist.rs:81-82 | without a program nothing is blocked |
| CommandVerdict.TextIsJudgedBySegments | crates/achbit-kernel-daemon/src/command_denylist.rs:75-79 | a text has the verdict of its first blocked segment, and none if no segment is blocked |
| DenylistSettings.AcceptedRulesAreRead | crates/achbit-kernel-daemon/src/command_denylist.rs:18-65 | an accepted setting has at most 256 rules, each one segment, with the words read from its text, and a root removal exactly when these are a forced `rm` of the root |
| DenylistSettings.RuleAcceptedExactly | crates/achbit-kernel-daemon/src/command_denylist.rs:38-63 | a rule is accepted exactly when its trimmed text is one nonempty command of at most 16,384 bytes without control characters and with a program; it keeps that text |
| DenylistSettings.EveryCommandIsARule | crates/achbit-kernel-daemon/src/command_denylist.rs:36-64 | every command of the list becomes a rule, in order, or the first that is none gives the error |
| DenylistSettings.SettingAcceptedExactly | crates/achbit-kernel-daemon/src/command_denylist.rs:18-65 | a setting is accepted exactly when absent or a list of at most 256 commands that are all rules |
| DenylistSettings.AcceptedRulesBlockTheirOwnText | crates/achbit-kernel-daemon/src/command_denylist.rs:18-107 | no accepted rule is dead: the list blocks each rule's own text |
| DenylistSettings.AcceptedRulesBlockTheirExtensions | crates/achbit-kernel-daemon/src/command_denylist.rs:18-107 | nor does appending any quoted arguments unblock it |
| DenylistSettings.DefaultIsRootRemoval | crates/achbit-kernel-daemon/src/command_denylist.rs:18-65 | without a setting the list is the one rule against removing the root |
| DenylistSettings.FiveWrappingsHideRootRemoval | crates/achbit-kernel-daemon/src/command_denylist.rs:67-107 | under that rule its command is blocked through four wrappings, and with a fifth it is not |
| DenylistSettings.SudoUserHidesRootRemoval | crates/achbit-kernel-daemon/src/command_denylist.rs:187-211 | under that rule `sudo -u root rm -rf /` is not blocked, as a vector or as text |
| DenylistSettings.RemovalAppend | crates/achbit-kernel-daemon/src/command_denylist.rs:231-254 | further arguments never make a forced root removal harmless |
| UnifiedDiff.AppendLines | crates/achbit-kernel-client/src/conversation.rs:3950-3956 | the line closure appends each marked line, with the note for a missing final line break |
| UnifiedDiff.UnifiedDiff | crates/achbit-kernel-client/src/conversation.rs:3906-3970 | the printing loops produce the specified header, hunk line and four groups of lines |
| UnifiedDiff.GreedyEditIsOptimal | crates/achbit-kernel-client/src/conversation.rs:3919-3929 | prefix first, then suffix: no single replacement keeps more lines |
| UnifiedDiff.HunkShowsTheChange | crates/achbit-kernel-client/src/conversation.rs:3919-3962 | the hunk shows what was removed, then what was added, after the last three common lines and before the next three |
| DiffRoundTrip.SpanPosition | crates/achbit-kernel-client/src/conversation.rs:3930-3949 | an empty range occurs only at the start of a file, so the printed position 0 is right |
| DiffRoundTrip.NameReadsExactly | crates/achbit-kernel-client/src/conversation.rs:3934-3944 | a printed name is read back exactly when it holds no tab |
| DiffRoundTrip.ReadPrintedPatch | crates/achbit-kernel-client/src/conversation.rs:3933-3970 | a strict reader recovers names up to a tab, ranges, counts and every line of a printed diff |
| DiffRoundTrip.PrintedPatchApplies | crates/achbit-kernel-client/src/conversation.rs:3906-3970 | the read patch turns the old file into the new one and, reversed, the new into the old |
| DiffRoundTrip.BrokenNameIsRefused | crates/achbit-kernel-client/src/conversation.rs:3933-3949 | a line break in a printed path makes the reader refuse the diff |
| DiffRoundTrip.AbsentNameMisleads | crates/achbit-kernel-client/src/conversation.rs:3935-3944 | a present file named `/dev/null` reads as an absent one |
| DiffRoundTrip.DiffAppliesExactly | crates/achbit-kernel-client/src/conversation.rs:3906-3970 | for all contents the printed text turns the old file into the new one exactly for printable paths, or when the file is absent on both sides |
| DiffRoundTrip.DiffReversesExactly | crates/achbit-kernel-client/src/conversation.rs:3906-3970 | read in reverse it turns the new file into the old one under exactly the same condition |
| TextLines.SplitThenJoin | crates/achbit-kernel-client/src/conversation.rs:3907-3918 | inclusive splitting gives proper lines that join to the text |
| TextLines.JoinThenSplit | crates/achbit-kernel-client/src/conversation.rs:3907-3918 | splitting recovers any proper lines from their join |
| ContextMessages.InvalidContextItems | crates/achbit-kernel-client/src/conversation.rs:1495-1500 | the scan refuses exactly unnamed, unlabelled or repeated items |
| ContextMessages.InvalidContextMessages | crates/achbit-kernel-client/src/conversation.rs:1420-1493 | the two nested loops refuse exactly the requests that are not well scoped |
| ContextMessages.ResultResolvesToOneCall | crates/achbit-kernel-client/src/conversation.rs:1454-1474 | in a well-scoped request each tool result has exactly one call, in a strictly earlier assistant message |
| ContextMessages.ShapeExactly | crates/achbit-kernel-client/src/conversation.rs:1420-1493 | by role: text alone, an assistant's output with its names, or a single tool result; blocks numbered in order |
| SessionTimeline.Validate | crates/achbit-kernel-client/src/conversation.rs:1183-1294 | the validator accepts exactly when the timeline lists every fact once and nothing else |
| SessionTimeline.UniquePlans | crates/achbit-kernel-client/src/conversation.rs:841-847 | plan revisions are accepted exactly when none repeats |
| SessionTimeline.UniqueActivities | crates/achbit-kernel-client/src/conversation.rs:998-1005 | activities are accepted exactly when their ids are non-empty and none repeats |
| SessionTimeline.InsertActivities | crates/achbit-kernel-client/src/conversation.rs:1252-1266 | a tool group is inserted exactly when each of its activities is new and names a tool-like activity |
| SessionTimeline.CountsDecide | crates/achbit-kernel-client/src/conversation.rs:1272-1291 | for references that exist and do not repeat, equal counts mean a bijection, and conversely |
| SessionTimeline.MessageIdsAreUnique | crates/achbit-kernel-client/src/conversation.rs:1196-1212 | message ids on an accepted timeline are distinct, though never checked directly |
| SessionTimeline.MessageShownOnce | crates/achbit-kernel-client/src/conversation.rs:1196-1293 | every user or assistant message is shown by exactly one timeline item |
| TimelinePositions.ItemFitsExactly | crates/achbit-kernel-client/src/conversation.rs:1183-1270 | an item fits exactly when its fields are filled in and what it names is there and of the right role or kind |
| TimelinePositions.AcceptedExactly | crates/achbit-kernel-client/src/conversation.rs:1183-1294 | what the validator accepts, position by position: every item refers rightly, nothing is shown twice, nothing is missing, no ids are shared |
| Distinct.Pigeonhole | crates/achbit-kernel-client/src/conversation.rs:1272-1291 | distinct references into equally many ids leave no id out and no id double |
| Publish.Publisher.ReplaceEntries | scripts/package-runtime.py:251-258 | both rename loops and their lists equal the specified forward run, up to the failing operation |
| Publish.Publisher.ReplaceArtifacts | scripts/package-runtime.py:259-264 | the artifact loop and its lists equal the specified forward run |
| Publish.Publisher.TakeArtifactsBack | scripts/package-runtime.py:267-270 | the reversed artifact loops equal the specified undo |
| Publish.Publisher.TakeEntriesBack | scripts/package-runtime.py:271-274 | the reversed entry loops equal the specified undo |
| Publish.Publisher.Publish | scripts/package-runtime.py:246-280 | the whole transaction, with handler and final cleanup, equals its specification |
| PublishRollback.ForwardAccounted | scripts/package-runtime.py:251-264 | wherever the forward part stops, the two lists account for every entry |
| PublishRollback.NoProgramEntryIsLost | scripts/package-runtime.py:246-280 | even when the undo raises, every original entry is in the destination or in a retained `previous`; unowned names are untouched |
| PublishRollback.FailedRunIsRolledBack | scripts/package-runtime.py:266-275 | an undo that does not raise restores destination, stage and artifact targets exactly |
| PublishLimits.InstallFindsFreeName | scripts/package-runtime.py:256-258 | every program-entry install finds its name free |
| PublishLimits.PublishedReplacesEntries | scripts/package-runtime.py:251-258 | a published destination is the old one without owned and staged names, plus the whole stage |
| PublishLimits.PublishedPlacesArtifacts | scripts/package-runtime.py:259-264 | a published artifact holds what its source held, and the source is gone |
| PublishSuccess.PublishesExactly | scripts/package-runtime.py:251-264 | independent artifacts: publication succeeds if and only if no existing entry raises when moved aside, no staged one when installed, and every artifact can be placed |
| PublishSuccess.MovesUpToFault | scripts/package-runtime.py:251-255 | existing entries are moved aside in order, up to the first that raises |
| PublishSuccess.InstallsUpToFault | scripts/package-runtime.py:256-258 | staged entries are installed in order, up to the first that raises |
| PublishSuccess.PlacesUpToFault | scripts/package-runtime.py:259-264 | independent artifacts are placed in order, up to the first that cannot be |
| PublishSuccess.UnlinksFromTheEnd | scripts/package-runtime.py:266-268 | the undo unlinks new artifacts last first, up to the one that raises |
| PublishSuccess.RestoresFromTheEnd | scripts/package-runtime.py:269-270 | it restores saved artifacts last first, up to the one that raises |
| PublishSuccess.TakesBackFromTheEnd | scripts/package-runtime.py:271-272 | it takes new entries back last first, up to the one that raises |
| PublishSuccess.PutsBackFromTheEnd | scripts/package-runtime.py:273-274 | it brings originals back last first, up to the one that raises |
| PublishSuccess.PublishedKeepsOtherFiles | scripts/package-runtime.py:259-264 | a publication leaves every file alone that no artifact names |
| PublishSuccess.TemporaryStaysForEntries | scripts/package-runtime.py:276-280 | the temporary directory stays only after a failed run and while it holds an original program entry |
| PublishLimits.SharedTargetBreaks | scripts/package-runtime.py:259-270 | two artifacts with one target: a failing second placement is not rolled back |
| PublishLimits.SharedNameBreaks | scripts/package-runtime.py:259-270 | two existing targets with one file name: a failing second placement is not rolled back |
| PublishLimits.HarmlessClashIsRolledBack | scripts/package-runtime.py:259-280 | one free target for both artifacts and no entry to replace: a failure still changes nothing |
| PublishLimits.RollbackExactly | scripts/package-runtime.py:244-280 | every failure is rolled back if and only if the artifacts can be saved apart or their clash is harmless |
| PublishLimits.ArtifactsSurvive | scripts/package-runtime.py:266-280 | when a program entry exists to be moved, artifact originals survive any failing undo |
| PublishLimits.SavedArtifactLost | scripts/package-runtime.py:269-278 | without one, a failing restore loses the first artifact's original |
| PublishLimits.SecondSavedArtifactLost | scripts/package-runtime.py:269-278 | and likewise the second one's, when only it replaces a file |
| PublishLimits.OverwrittenBackupLost | scripts/package-runtime.py:259-270 | with one target for both, the new archive overwrites the original's backup |
| PublishLimits.SharedNameLost | scripts/package-runtime.py:259-270 | with one file name for two existing targets, the archive's original is lost although no undo operation is made to raise |
| PublishLimits.SameContentSurvives | scripts/package-runtime.py:259-280 | an original that the archive repeats survives even at a shared target, when a program entry exists to be moved |
| PublishLimits.ArtifactsSurviveExactly | scripts/package-runtime.py:244-280 | archive and installer: originals survive every fault schedule if and only if there are none, or an entry exists to be moved and the two can be saved apart or share a target whose content the archive repeats |
| PublishLimits.ArtifactSurvivesExactly | scripts/package-runtime.py:266-280 | a single artifact's original always survives if and only if some program entry exists to be moved |
| ReplaceUi.StagingIsApart | scripts/update-ui.py:17-24 | the path checks keep the staging directory outside source, target and app |
| ReplaceUi.SeparateExactly | scripts/update-ui.py:17-24 | the paths are accepted exactly when neither begins the other |
| ReplaceUi.UiInstallation.HandleRaised | scripts/update-ui.py:35-42 | the handler and the cleanup equal the specified restore |
| ReplaceUi.UiInstallation.ReplaceUi | scripts/update-ui.py:13-49 | the try, except, else and finally parts together equal the specification |
| ReplaceUi.NeverLost | scripts/update-ui.py:26-49 | every exit leaves the new UI, the original UI, or the original kept in staging |
| ReplaceUi.ReturnsExactlyWhenDone | scripts/update-ui.py:26-49 | the script returns exactly when nothing raises, and then the new UI is in place, signed, with no staging left |
| ReplaceUi.RestoredExactlyWhenUndone | scripts/update-ui.py:35-45 | the original is back if and only if a step before the commit raised and the handler's own steps succeeded, or its failing removal took away just what the new UI added |
| ReplaceUi.RaisesWithNewUiExactly | scripts/update-ui.py:35-49 | the script raises with the whole new UI in place exactly when the commit raises, or discarding it after a failed signature raises at once |
| ReplaceUi.RaisesThoughReplaced | scripts/update-ui.py:43-49 | for every installed original, a failing removal of it raises with the new UI in place and the original in staging |
| ReplaceUi.SealFollowsTarget | scripts/update-ui.py:33-41 | after a restore the seal covers the original; before the first move it is untouched |
| ReplaceUi.StagingKeepsTheOriginal | scripts/update-ui.py:38-49 | the original stays in staging exactly when it was moved out and not brought back |
| ReplaceUi.StagingIsRemovedExactly | scripts/update-ui.py:38-49 | no staging is left exactly when it holds no original and removing it does not raise |
| ReplaceUi.SealIsTheLastSigning | scripts/update-ui.py:26-49 | what the signature covers is the outcome of the last signing, or what it was before the first |
| ConfigSetup.ConfigRoot.CleanSettings | crates/achbit-kernel-daemon/src/config_setup.rs:44-52 | removing obsolete keys and entering missing defaults, key by key, gives the specified object |
| ConfigSetup.ConfigRoot.SaveOriginals | crates/achbit-kernel-daemon/src/config_setup.rs:101-119 | the backup loop equals the specified backups, up to the first failure, and reports each change |
| ConfigSetup.ConfigRoot.ReplaceFiles | crates/achbit-kernel-daemon/src/config_setup.rs:124-126 | the replacement loop equals the specified writes, up to the first failure |
| ConfigSetup.ConfigRoot.PrepareLocked | crates/achbit-kernel-daemon/src/config_setup.rs:31-128 | the whole preparation equals its specification |
| ConfigSetup.CleaningMeaning | crates/achbit-kernel-daemon/src/config_setup.rs:35-54 | no obsolete key is left, permission defaults are present, all other keys keep their values, and cleaning again changes nothing |
| ConfigSetup.OriginalsAreSafe | crates/achbit-kernel-daemon/src/config_setup.rs:87-127 | at every failure point an original is unchanged or backed up; a change implies that all backups and the reasons exist |
| ConfigSetup.OtherFilesUntouched | crates/achbit-kernel-daemon/src/config_setup.rs:100-126 | secrets, earlier backups and foreign files are never changed |
| ConfigSetup.SuccessReplacesAll | crates/achbit-kernel-daemon/src/config_setup.rs:84-127 | success with nothing to replace changes nothing; otherwise every planned file holds its new document |
| ConfigSetup.SettingsAfterSuccess | crates/achbit-kernel-daemon/src/config_setup.rs:31-128 | settings with an obsolete permission then parse to an object without any, with every permission default and all other keys kept, and are reported; all others are unchanged and not reported |
| ConfigSetup.ProfilesAfterSuccess | crates/achbit-kernel-daemon/src/config_setup.rs:59-78 | separable profiles that the validator refuses then parse to the default document and are reported; all others are unchanged and not reported |
| ConfigSetup.SucceedsExactly | crates/achbit-kernel-daemon/src/config_setup.rs:31-128 | preparation succeeds if and only if the settings can be read, every replacement is itself accepted and, when there is a conflict, no step fails |
| ConfigSetup.FirstErrorIsReported | crates/achbit-kernel-daemon/src/config_setup.rs:31-98 | the first error of planning or of the backup directory is returned, and nothing has changed |
| ConfigSetup.ApplyReportsItsError | crates/achbit-kernel-daemon/src/config_setup.rs:101-127 | a failure while backing up or replacing has the error of the step that failed |
| ConfigSetup.SuccessIsRecorded | crates/achbit-kernel-daemon/src/config_setup.rs:84-127 | after a replacement the backup holds every original, and the report is recorded beside them |
| ConfigSetup.SecondRunChangesNothing | crates/achbit-kernel-daemon/src/config_setup.rs:31-128 | after a success a second preparation plans and changes nothing |
| ConfigSetup.OriginalsSurviveEveryRun | crates/achbit-kernel-daemon/src/config_setup.rs:87-127 | over any number of runs, failing anywhere, every original stays in place or in some backup |
| BuildBridge.EveryRunFits | scripts/macos-build-bridge.py:153-235 | the invariant on files, lock, workers and child trees holds in every state of every run |
| BuildBridge.AtMostOneChild | scripts/macos-build-bridge.py:153-235 | at most one build child tree is alive, whatever workers come and go |
| BuildBridge.ExecutedOnceByItsWorker | scripts/macos-build-bridge.py:173-220 | a request is executed at most once and only by the worker it names |
| BuildBridge.SpawnNeedsTheLock | scripts/macos-build-bridge.py:153-220 | only the worker that holds the lock spawns a child, and only while no child tree is alive |
| BuildBridge.SpawnedExactly | scripts/macos-build-bridge.py:171-220 | a claimed request is spawned exactly when it is a build for this worker, not cancelled, no build is active and the start succeeds |
| BuildBridge.StopKeptExactly | scripts/macos-build-bridge.py:173-184 | it is kept for the time after the release exactly when it is a stop request for this worker and not cancelled; the worker then leaves |
| BuildBridge.OthersAreFinished | scripts/macos-build-bridge.py:173-220 | every request that is neither spawned nor kept goes straight to its answer |
| BuildBridge.CancelledNeverStarts | scripts/macos-build-bridge.py:175-176 | a request cancelled before it was started is never started, in any continuation |
| BuildBridge.StopWaitsForRelease | scripts/macos-build-bridge.py:233-235 | a kept stop request is taken up only when its worker has released the lock |
| BuildBridge.ActiveBuildIsAnswered | scripts/macos-build-bridge.py:164-168 | an active build can be stopped and answered, and then its tree and its marker are gone |
| BuildBridge.StopIsAnswered | scripts/macos-build-bridge.py:221-235 | a leaving worker can release the lock and answer its stop request |
| BuildBridge.OtherRequestIsAnswered | scripts/macos-build-bridge.py:169-188 | any other pending request can be claimed and answered without a child |
| BuildBridge.CancelledIsAnswered | scripts/macos-build-bridge.py:169-176 | a pending request can be cancelled, and is then answered and never spawned |
| BuildBridge.WorkerCanLeave | scripts/macos-build-bridge.py:163-232 | an idle worker without a build can leave and release the lock |
| BuildBridge.AnsweredAtMostOnce | scripts/macos-build-bridge.py:35-40 | a request gets at most one result, and only after it was claimed |
| BuildBridge.MarkerRemovedByItsOwnFinish | scripts/macos-build-bridge.py:35-40 | when requests are prepared only without a marker, a marker changes or goes only while its own request is finished, after its tree was stopped |
| BuildBridge.VanishedMarkerMeansQuiescent | scripts/macos-build-bridge.py:300-314 | in such runs a marker seen and then gone, or naming another request, means that the request has no child and never will |
| BuildBridge.WaitingForResultsIsGuarded | scripts/macos-build-bridge.py:43-65 | a client that prepares a transaction's next request after the earlier ones have results finds no marker |
| BuildBridge.GuardKeepsMarkersExactly | scripts/macos-build-bridge.py:35-65 | as long as every request has its marker until it is past it, preparing a new one keeps this so if and only if its transaction has no marker |
| BuildBridge.UnguardedPreparationMisleads | scripts/macos-build-bridge.py:35-65 | a second request prepared beside a running build's marker has a continuation in which the marker vanishes under the live child |
| BuildBridge.SharedTransactionMisleads | scripts/macos-build-bridge.py:35-65 | every build request reaches such a state by a guarded run, so any second request for its transaction can mislead |
| BuildBridge.PreparationDuringRemovalMisleads | scripts/macos-build-bridge.py:35-65 | a build prepared while the transaction's marker is being removed has a continuation in which it runs without a marker |
| BuildBridge.SharedRemovalMisleads | scripts/macos-build-bridge.py:35-65 | every request but a stop reaches such a state by a guarded run |
| ComputerUse.ComputerUseHost.StopConnected | crates/achbit-host-connection/src/computer_use.rs:333-349 | stopping empties slot and preview after a proven exit, or records the error |
| ComputerUse.ComputerUseHost.Send | crates/achbit-host-connection/src/computer_use.rs:651-685 | an exchange writes the input as one frame and answers with the reply or its error, or answers with the first error without writing |
| ComputerUse.ComputerUseHost.HandleCall | crates/achbit-host-connection/src/computer_use.rs:504-574 | the call path, over release, replaced package, exited helper, start and exchange, equals its specification |
| ComputerUse.ComputerUseHost.HandleExisting | crates/achbit-host-connection/src/computer_use.rs:605-615 | only an existing helper is used |
| ComputerUse.ComputerUseHost.TryHandleExisting | crates/achbit-host-connection/src/computer_use.rs:578-603 | presentation requests never start a helper, and a busy executor gives no answer |
| ComputerUse.OwnedKept | crates/achbit-host-connection/src/computer_use.rs:333-615 | every operation keeps: a helper ever installed is in the slot or has a proven exit; slot and preview come together |
| ComputerUse.OwnedOverRun | crates/achbit-host-connection/src/computer_use.rs:333-615 | the same over every sequence of operations, failed starts included |
| ComputerUse.SingleExecutor | crates/achbit-host-connection/src/computer_use.rs:333-615 | of the helpers ever installed at most one has no proven exit, and it is the connected one |
| ComputerUse.StartsOnlyIntoAnEmptySlot | crates/achbit-host-connection/src/computer_use.rs:528-571 | a helper is launched only by a performing call and after all installed ones have a proven exit |
| ComputerUse.AccountedExactly | crates/achbit-host-connection/src/computer_use.rs:407-502 | over every run all launched helpers but the connected one have proven exits if and only if no start failed after launching, except for a helper seen to exit |
| ComputerUse.FailedStartLeavesASecondHelper | crates/achbit-host-connection/src/computer_use.rs:407-502 | a start that fails after launching, then a successful one: two helpers without a proven exit |
| ComputerUse.ReleaseStartsNothing | crates/achbit-host-connection/src/computer_use.rs:504-530 | releasing never launches a helper |
| ComputerUse.AtMostOneFrame | crates/achbit-host-connection/src/computer_use.rs:504-685 | an operation writes at most one frame, to the connected helper; nothing is resent |
| ComputerUse.ActionIsSent | crates/achbit-host-connection/src/computer_use.rs:504-685 | a desktop action is written, as it is and once, to the connected helper of the present package or to one just started, and answered by its reply or error; without such a helper nothing is written and the call fails |
| ComputerUse.StartedIsConnected | crates/achbit-host-connection/src/computer_use.rs:566-574 | a helper that has just started is the connected one, of the package it was started from |
| ComputerUse.ActionIsRefused | crates/achbit-host-connection/src/computer_use.rs:528-571 | why an action is not sent, with the error that is returned and what is left |
| ComputerUse.PresentationIsSent | crates/achbit-host-connection/src/computer_use.rs:578-615 | a presentation request goes to the connected helper, unless it is a preview, refused, or the mutex is busy |
| ComputerUse.ReleaseIsSent | crates/achbit-host-connection/src/computer_use.rs:504-527 | a release is sent to a healthy helper, stops a failed one, and is done at once without one |
| ComputerUse.StoppingMeaning | crates/achbit-host-connection/src/computer_use.rs:333-349 | stopping ends with no helper connected and its exit proven, or with the error, the helper staying where it was |
| ComputerUse.NoFrameAfterFailure | crates/achbit-host-connection/src/computer_use.rs:651-685 | after a connection's first failure no frame reaches that helper, in any continuation |
| ComputerUse.FirstErrorIsReturned | crates/achbit-host-connection/src/computer_use.rs:651-685 | until it has exited, every exchange on it returns the first error |
| ComputerUse.FirstFailureIsRecorded | crates/achbit-host-connection/src/computer_use.rs:152-186 | until then an operation records an error on the helper exactly when its exchange or its stop fails, and returns that error |
| Startup.Launcher.Pause | crates/achbit-host-connection/src/startup.rs:21-25 | afterwards one probe interval of 75 ms has passed, or what was left before the deadline |
| Startup.Launcher.Watch | crates/achbit-host-connection/src/startup.rs:70-102 | the process is awaited before every probe; without a ready value the loop ends only after a final event or when the attempt's time is up, with the error of that end, and a retry is open exactly on a leftover transport error; at most eighty probes |
| Startup.Launcher.CleanUp | crates/achbit-host-connection/src/startup.rs:103 | a cleanup without error leaves nothing running, one with an error is recorded as such, and the way stays open exactly for a retry |
| Startup.Launcher.EndAttempt | crates/achbit-host-connection/src/startup.rs:103-110 | after a cleanup it fails with the errors of the record, or leaves the way open for the next attempt |
| Startup.Launcher.Spawn | crates/achbit-host-connection/src/startup.rs:56-66 | a launch is recorded and leaves one process running; a refused one leaves none, and only a pending error keeps the way open |
| Startup.Launcher.StartOwnedReady | crates/achbit-host-connection/src/startup.rs:48-113 | always returns after at most two launch attempts; the record of its calls is true, in order and lawful, each probe within its time; success is the value of the last probe, its process alone left running; it fails only after a final event, a failed cleanup, when time is up or when two attempts have had their time, and reports the first, last and cleanup errors of the record |
| Startup.RetriedErrors | crates/achbit-host-connection/src/startup.rs:27-46 | which transport errors keep the probing going and which launch errors are tried again |
| Startup.RetryFollowsTransientOnly | crates/achbit-host-connection/src/startup.rs:70-111 | a second launch attempt has a transport or pending launch error before it, and no exit, wait failure or other error |
| Startup.SecondLaunchFollowsCleanup | crates/achbit-host-connection/src/startup.rs:54-111 | in a lawful record there are at most two launches, with the first process's cleanup between them |
| Containers.ListingIsReadBack | crates/achbit-kernel-daemon/src/container_tools.rs:153-157 | trimming and cutting printed ids into lines gives the ids back, and emptiness exactly for none |
| Containers.LineBreaksAreDropped | crates/achbit-kernel-daemon/src/container_tools.rs:403 | lines are read back without their breaks, of either kind |
| Containers.MetadataExactly | crates/achbit-kernel-daemon/src/container_tools.rs:142-157 | the output counts exactly when the client ran, ended without error and was not truncated; otherwise the error is its own |
| Containers.ContainerRegistry.CreateContainer | crates/achbit-kernel-daemon/src/container_tools.rs:293-384 | creation registers first and equals its specification at every error exit |
| Containers.ContainerRegistry.ClearName | crates/achbit-kernel-daemon/src/container_tools.rs:392-411 | one name's listing and removals equal the specification, up to the first failure |
| Containers.ContainerRegistry.DisposeAll | crates/achbit-kernel-daemon/src/container_tools.rs:385-424 | the retaining walk equals the specification, in any order of the names |
| Containers.CreateRegisters | crates/achbit-kernel-daemon/src/container_tools.rs:341-384 | however creation ends, a container it left is registered and earlier entries stay |
| Containers.CreationRefused | crates/achbit-kernel-daemon/src/container_tools.rs:300-316 | without a context, a name, folders, or with a comma in a path no client is run and nothing is registered |
| Containers.CreationExactly | crates/achbit-kernel-daemon/src/container_tools.rs:341-384 | otherwise the name is registered, under the printed id if there is one, and the creation ends as started exactly when the start client works |
| Containers.StartedIsOwned | crates/achbit-kernel-daemon/src/container_tools.rs:365-383 | a started container is the one the engine made and is recognised as owned |
| Containers.OwnedExactly | crates/achbit-kernel-daemon/src/container_tools.rs:213-221 | after a creation a container is recognised by the id it was registered under, for its engine, and by no other |
| Containers.DisposeKeepsExactlyTheFailures | crates/achbit-kernel-daemon/src/container_tools.rs:385-424 | disposal keeps exactly the failing names, succeeds exactly when there are none, removes only its own |
| Containers.RemovalsExactly | crates/achbit-kernel-daemon/src/container_tools.rs:402-411 | removal goes on up to the first id whose client fails; exactly those tried and gone are missing |
| Containers.DisposalMessage | crates/achbit-kernel-daemon/src/container_tools.rs:385-424 | a failing disposal reports one error for each name it keeps |
| Containers.JoinedExactly | crates/achbit-kernel-daemon/src/container_tools.rs:422 | the errors are joined with a semicolon between them |
| Containers.RegisteredOverRun | crates/achbit-kernel-daemon/src/container_tools.rs:293-424 | over every run, whatever this object caused to exist and still exists is registered |
| Containers.OwnedUntilGone | crates/achbit-kernel-daemon/src/container_tools.rs:341-424 | a registered entry stays until nothing with its label is left |
| Containers.SuccessfulDisposalLeavesNothing | crates/achbit-kernel-daemon/src/container_tools.rs:385-424 | a run that ends in a successful disposal leaves no container it caused to exist |
| Utf8.EncodedIsValid | crates/achbit-kernel-daemon/src/conversation_api.rs:2238-2239 | validating an encoding returns the text |
| Utf8.ValidIffEncoded | crates/achbit-kernel-daemon/src/conversation_api.rs:2238-2245 | bytes are valid if and only if they encode some text |
| Utf8.ValidatePrefix | crates/achbit-kernel-daemon/src/conversation_api.rs:2234-2245 | cutting any bytes keeps the whole characters that fit, and an error shows only if its bytes are inside |
| Utf8.CutOfValid | crates/achbit-kernel-daemon/src/conversation_api.rs:2240-2243 | a cut of valid bytes is never malformed |
| Utf8.FitIsLongest | crates/achbit-first-party-tools/src/lib.rs:221-230 | the characters that fit are the longest prefix within the bytes |
| Utf8.BoundaryIsBetweenCharacters | crates/achbit-first-party-tools/src/lib.rs:226 | the byte test for a boundary holds exactly between characters |
| Utf8.LimitText | crates/achbit-first-party-tools/src/lib.rs:221-230 | the loop returns the longest whole-character prefix, at most three bytes short of the limit |
| TitleExcerpt.TitleRequestExcerpt | crates/achbit-kernel-daemon/src/conversation_api.rs:2227-2255 | the loop equals the specification and the excerpt has at most 8,000 characters |
| TitleExcerpt.ExcerptIsTheBeginning | crates/achbit-kernel-daemon/src/conversation_api.rs:2227-2255 | from whole files it is the beginning of the message and all the files, each after a line break: all of it, or 7,999 or 8,000 characters |
| TitleExcerpt.PrefixIsValid | crates/achbit-kernel-daemon/src/conversation_api.rs:2241-2243 | the expectation on the validated prefix never fails |
| TitleExcerpt.BoundHoldsEnough | crates/achbit-kernel-daemon/src/conversation_api.rs:2230-2236 | four bytes for each free character hold at least that many characters, or all there are |
| TitleExcerpt.BoundedReadMeaning | crates/achbit-kernel-daemon/src/conversation_api.rs:2234-2247 | what one bounded read yields, for any bytes |
| TitleExcerpt.BoundedAgreesExactly | crates/achbit-kernel-daemon/src/conversation_api.rs:2236-2245 | a bounded read accepts and refuses like a whole one exactly when no error lies beyond the bound |
| TitleExcerpt.WholeReadingExactly | crates/achbit-kernel-daemon/src/conversation_api.rs:2227-2255 | the bounded excerpt equals the one from whole files if and only if no file that bounded reading reaches has an error beyond its bound; otherwise whole reading is refused exactly there |
| TitleExcerpt.UnseenErrorIsAccepted | crates/achbit-kernel-daemon/src/conversation_api.rs:2230-2247 | any message leaving two characters free, with a file broken after eight bytes: accepted bounded, refused whole |
| TitleExcerpt.BoundedReadsLoseNothing | crates/achbit-kernel-daemon/src/conversation_api.rs:2227-2255 | the excerpt equals the one from whole files whenever that exists, and for valid files always |
| BoundedRead.ReadBounded | crates/achbit-first-party-tools/src/documents.rs:260-271 | the result is the delivered bytes up to one past the limit, however the stream was cut |
| BoundedRead.ReadUntil | crates/achbit-host-connection/src/loopback_http.rs:152-167 | the deadline reader returns what the delivered bytes determine |
| BoundedRead.ReadToEnd | crates/achbit-host-connection/src/loopback_http.rs:81-88 | the plain reader, which repeats interrupted reads, returns what the delivered bytes then determine |
| BoundedRead.ReadersAgreeExactly | crates/achbit-host-connection/src/loopback_http.rs:81-167 | the two readers answer alike if and only if no read is interrupted before the limit is passed |
| BoundedRead.InterruptionMisleads | crates/achbit-host-connection/src/loopback_http.rs:81-167 | an interruption between two pieces of a short response: one reader fails, the other returns the whole |
| BoundedRead.CutsDoNotMatter | crates/achbit-host-connection/src/loopback_http.rs:152-167 | bytes cut in any way are delivered the same, whatever follows, an error included |
| BoundedRead.SameBytesSameResponse | crates/achbit-host-connection/src/loopback_http.rs:152-167 | two cuts of the same bytes with the same ending give the same response |
| BoundedRead.StreamDelivers | crates/achbit-host-connection/src/loopback_http.rs:152-167 | what any stream delivers: its bytes, however cut, and its end, an empty read, or the error |
| BoundedRead.ResponseExactly | crates/achbit-host-connection/src/loopback_http.rs:152-167 | a response is accepted exactly when the stream ends by itself with at most 65,536 bytes; too many bytes come before any error |
| BoundedRead.ProtocolTexts | crates/achbit-host-connection/src/loopback_http.rs:92-118 | the bytes compared with are those of the protocol's texts |
| BoundedRead.NoBlankLineNoResponse | crates/achbit-host-connection/src/loopback_http.rs:92-103 | without a blank line there is no response |
| BoundedRead.OtherStatusIsRefused | crates/achbit-host-connection/src/loopback_http.rs:104-116 | any other status is refused with its first line |
| BoundedRead.SendAll | crates/achbit-host-connection/src/loopback_http.rs:140-151 | all of the request is sent exactly when the writes offer enough before one takes nothing, fails or comes too late; what was sent is as much as was taken, and the error is that of the last write |
| BoundedRead.BodyRoundTrip | crates/achbit-host-connection/src/loopback_http.rs:92-118 | a successful response without an earlier blank line yields exactly its body |
| WorkspaceRoots.CanonicalRoots | crates/achbit-kernel-daemon/src/conversation_api.rs:2570-2583 | at most 32 paths; the result lists each canonical path exactly once, in the order of first occurrence, and nothing else |
| WorkspaceRoots.PrepareRoots | crates/achbit-kernel-daemon/src/conversation_api.rs:2791-2819 | every id shows its root, old records stay, a new record is made once for each unknown root; a failing draw is reported |
| WorkspaceRoots.SameRootSameId | crates/achbit-kernel-daemon/src/conversation_api.rs:2798-2817 | two ids are equal if and only if their roots are |
| WorkspaceRoots.BindingsNameTheRoots | crates/achbit-kernel-daemon/src/conversation_api.rs:2821-2840 | for assigned ids the snapshot drops nothing: one binding for each root, in order |
| WorkspaceRoots.BindingsOfEachId | crates/achbit-kernel-daemon/src/conversation_api.rs:2821-2840 | the bindings of a list are those of its ids in order, one with its record's name for a known id and none for an unknown one |
| WorkspaceRoots.FirstRecordIsFound | crates/achbit-kernel-daemon/src/conversation_api.rs:2798-2803 | a record of the catalog is found before one of the working list, and in either the first with the field |

## Left out

- ShellCommandSegments: offsets count characters, not the bytes of their UTF-8 encoding.
- Windows branches of `remote_command` and of process launching: only the POSIX branch is modelled.
- Validate: the field-by-field checks of a projection besides ids, timeline, plans and activities are left out as one-branch facts.
- InvalidContextMessages: contribution kinds and roles are enumerations; parsing them from strings is not modelled.
- Publish: signing checks, the Windows lock test and writing the archive come before the transaction and are left out; an interrupt between a rename and its list append is not a step; renames are POSIX renames that take full effect or raise.
- ReplaceUi: what a raising copy leaves and which files a raising removal took are inputs; the order in which they work through files is not modelled.
- PrepareLocked: validation, parsing, printing and the separation of connections are rules with stated contracts (printing can be parsed back, obsolete permission keys are refused, valid profile documents need no separation, a valid store is a valid document); the root's lease excludes other writers.
- SecondRunChangesNothing: supposes that the second run can read the same files as the first.
- ReadToEnd: that `read_to_end` repeats an interrupted read is the standard library's contract.
- BuildBridge: the worker and client loops are steps of a transition system, since what matters is their interleaving; they are not given as methods. The polling, exit codes and log output of `request_host` are left out. A worker crash, a failed process cleanup and the removal of finished request directories are not steps.
- HandleCall: a poisoned mutex, the versions of the operating system and the helper's own protocol messages are left out; operations are atomic because the mutex is held throughout.
- TryHandleExisting: the preview's own HTTP exchange is an input.
- StartOwnedReady: clock readings, probes, launches and cleanups are inputs; a reading never goes back; the deadline is a number of milliseconds.
- CreateContainer: the create client is over when it returns; a container the engine makes later is not modelled. Generated names are fresh.
- DisposeAll: does not overlap a running creation; the engine's short ids stand for the containers they name.
- Containers' `exec`, `inspect` and `prepare` (mount sorting): command-line and JSON text without a property across calls.
- LimitText: takes the encoded text as a ghost argument, standing for the type `str`.
- TitleRequestExcerpt: opening and reading a file is one input, its bytes or an error.
- BodyRoundTrip: decoding the body as JSON is not part of this model.
- PrepareRoots: the meaning of its result is stated for fresh random ids and for lists in which an id names one record; owner and creation time of a record are left out.
- CanonicalRoots: resolving a path in the file system is an input.
- `deletion_cleanup_ids` and `resolve_filesystem_references`: duplicate checks and limits that would add only easy members.
- HTTP routing, arXiv, GitHub and PDF tools, the GUI, language packs, fonts and sounds: plumbing or finite tables.
