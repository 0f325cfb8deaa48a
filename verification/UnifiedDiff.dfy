/**
 The single-hunk diff of one file change, and a strict reader of the unified format (POSIX.1-2017
 XCU diff, "Diff -u or -U Output Format"). A text is diffed by its lines: the longest common
 prefix, then the longest common suffix of what is left, with three lines of context around the
 rest.
 */
module UnifiedDiff {
  import opened Wrappers
  import opened TextLines

  const ABSENT := "/dev/null"
  const CONTEXT := 3

  /** One line of the hunk body: kept (' '), removed ('-') or added ('+'). */
  datatype Entry = Entry(marker: char, text: string)

  function NoNewlineMark(): (mark: string)
    ensures IsLine(mark) && Ended(mark) && mark[0] == '\\'
  {
    "\\ No newline at end of file\n"
  }

  /******* The edit *******/

  predicate SharePrefix<T(==)>(a: seq<T>, b: seq<T>, n: nat) {
    n <= |a| && n <= |b| && forall i :: 0 <= i < n ==> a[i] == b[i]
  }

  predicate ShareSuffix<T(==)>(a: seq<T>, b: seq<T>, n: nat) {
    n <= |a| && n <= |b| && forall i :: |a| - n <= i < |a| ==> a[i] == b[i - |a| + |b|]
  }

  function CommonPrefix<T(==)>(a: seq<T>, b: seq<T>): (n: nat)
    ensures SharePrefix(a, b, n)
    ensures n < |a| && n < |b| ==> a[n] != b[n]
  {
    if a == [] || b == [] || a[0] != b[0] then 0 else 1 + CommonPrefix(a[1..], b[1..])
  }

  function CommonSuffix<T(==)>(a: seq<T>, b: seq<T>): (n: nat)
    ensures ShareSuffix(a, b, n)
    ensures n < |a| && n < |b| ==> a[|a| - n - 1] != b[|b| - n - 1]
  {
    if a == [] || b == [] || a[|a| - 1] != b[|b| - 1] then 0
    else 1 + CommonSuffix(a[..|a| - 1], b[..|b| - 1])
  }

  function Min(a: nat, b: nat): nat {
    if a < b then a else b
  }

  /** Line ranges of the hunk: `start..oldEnd` of the old file, `start..newEnd` of the new one. */
  datatype Span = Span(prefix: nat, suffix: nat, start: nat, oldEnd: nat, newEnd: nat)

  function HunkSpan(before: seq<string>, after: seq<string>): (h: Span)
    ensures h.start <= h.prefix <= |before| - h.suffix <= h.oldEnd <= |before|
    ensures h.start <= h.prefix <= |after| - h.suffix <= h.newEnd <= |after|
  {
    var prefix := CommonPrefix(before, after);
    var suffix := CommonSuffix(before[prefix..], after[prefix..]);
    Span(prefix, suffix,
         if prefix < CONTEXT then 0 else prefix - CONTEXT,
         Min(|before| - suffix + CONTEXT, |before|),
         Min(|after| - suffix + CONTEXT, |after|))
  }

  function Marked(marker: char, lines: seq<string>): seq<Entry> {
    if lines == [] then [] else [Entry(marker, lines[0])] + Marked(marker, lines[1..])
  }

  function Body(before: seq<string>, after: seq<string>): seq<Entry> {
    var h := HunkSpan(before, after);
    Marked(' ', before[h.start..h.prefix])
    + Marked('-', before[h.prefix..|before| - h.suffix])
    + Marked('+', after[h.prefix..|after| - h.suffix])
    + Marked(' ', before[|before| - h.suffix..h.oldEnd])
  }

  /******* Printing *******/

  function Digit(n: nat): char
    requires n < 10
  {
    (('0' as int) + n) as char
  }

  function Decimal(n: nat): string {
    if n < 10 then [Digit(n)] else Decimal(n / 10) + [Digit(n % 10)]
  }

  function RenderEntry(entry: Entry): string {
    if Ended(entry.text) then [entry.marker] + entry.text
    else [entry.marker] + entry.text + "\n" + NoNewlineMark()
  }

  function RenderBody(entries: seq<Entry>): string {
    if entries == [] then "" else RenderEntry(entries[0]) + RenderBody(entries[1..])
  }

  function FileName(path: string, content: Option<string>): string {
    if content.Some? then path else ABSENT
  }

  function NameLine(sign: string, name: string): string {
    sign + name + "\n"
  }

  function RangeText(start: nat, end: nat): string
    requires start <= end
  {
    Decimal(if end == start then 0 else start + 1) + "," + Decimal(end - start)
  }

  function HunkLine(h: Span): string
    requires h.start <= h.oldEnd && h.start <= h.newEnd
  {
    "@@ -" + RangeText(h.start, h.oldEnd) + " +" + RangeText(h.start, h.newEnd) + " @@\n"
  }

  function Lines(content: Option<string>): seq<string> {
    SplitInclusive(if content.Some? then content.value else "")
  }

  /** A patch as printed: two names, the ranges, and the marked lines. */
  function PatchText(oldName: string, newName: string, h: Span, entries: seq<Entry>): string
    requires h.start <= h.oldEnd && h.start <= h.newEnd
  {
    NameLine("--- ", oldName) + NameLine("+++ ", newName) + HunkLine(h) + RenderBody(entries)
  }

  function DiffText(path: string, before: Option<string>, after: Option<string>): string {
    var oldLines, newLines := Lines(before), Lines(after);
    PatchText(FileName(path, before), FileName(path, after), HunkSpan(oldLines, newLines), Body(oldLines, newLines))
  }

  lemma {:induction false} RenderBodyConcat(a: seq<Entry>, b: seq<Entry>)
    ensures RenderBody(a + b) == RenderBody(a) + RenderBody(b)
  {
    if a == [] {
      assert a + b == b;
    } else {
      assert (a + b)[0] == a[0] && (a + b)[1..] == a[1..] + b;
      RenderBodyConcat(a[1..], b);
    }
  }

  lemma {:induction false} MarkedAppend(marker: char, lines: seq<string>, line: string)
    ensures Marked(marker, lines + [line]) == Marked(marker, lines) + [Entry(marker, line)]
  {
    if lines == [] {
      assert lines + [line] == [line] && [line][1..] == [];
    } else {
      assert (lines + [line])[0] == lines[0] && (lines + [line])[1..] == lines[1..] + [line];
      MarkedAppend(marker, lines[1..], line);
    }
  }

  lemma RenderOneMore(marker: char, lines: seq<string>, i: nat)
    requires i < |lines|
    ensures RenderBody(Marked(marker, lines[..i + 1]))
         == RenderBody(Marked(marker, lines[..i])) + RenderEntry(Entry(marker, lines[i]))
  {
    hide RenderEntry, Marked;
    var last := [Entry(marker, lines[i])];
    assert lines[..i + 1] == lines[..i] + [lines[i]];
    MarkedAppend(marker, lines[..i], lines[i]);
    RenderBodyConcat(Marked(marker, lines[..i]), last);
    assert last[1..] == [];
    assert RenderBody(last) == RenderEntry(last[0]) + "";
  }

  /** Printing one line more extends what is printed so far. */
  lemma PrintOneMore(output: string, marker: char, lines: seq<string>, i: nat, line: string)
    requires i < |lines|
    requires line == (if Ended(lines[i]) then [marker] + lines[i]
                      else [marker] + lines[i] + "\n" + NoNewlineMark())
    ensures output + RenderBody(Marked(marker, lines[..i])) + line == output + RenderBody(Marked(marker, lines[..i + 1]))
  {
    RenderEntryIs(marker, lines[i]);
    RenderOneMore(marker, lines, i);
    hide *;
    var before := RenderBody(Marked(marker, lines[..i]));
    Regroup(output, before, line, "", "");
  }

  /** Appends marked lines to the output, with the note a missing final line break needs. */
  method AppendLines(output: string, marker: char, lines: seq<string>) returns (extended: string)
    ensures extended == output + RenderBody(Marked(marker, lines))
  {
    hide *;
    extended := output;
    RenderNothing(marker, lines[..0]);
    for i := 0 to |lines|
      invariant extended == output + RenderBody(Marked(marker, lines[..i]))
    {
      var line := [marker] + lines[i];
      if !Ended(lines[i]) {
        line := line + "\n" + NoNewlineMark();
      }
      PrintOneMore(output, marker, lines, i, line);
      extended := extended + line;
    }
    assert lines[..|lines|] == lines;
  }

  lemma RenderEntryIs(marker: char, line: string)
    ensures RenderEntry(Entry(marker, line))
         == if Ended(line) then [marker] + line else [marker] + line + "\n" + NoNewlineMark()
  {
  }

  lemma RenderNothing(marker: char, lines: seq<string>)
    requires lines == []
    ensures RenderBody(Marked(marker, lines)) == ""
  {
  }

  lemma RenderFour(a: seq<Entry>, b: seq<Entry>, c: seq<Entry>, d: seq<Entry>)
    ensures RenderBody(a + b + c + d) == RenderBody(a) + RenderBody(b) + RenderBody(c) + RenderBody(d)
  {
    RenderBodyConcat(a, b);
    RenderBodyConcat(a + b, c);
    RenderBodyConcat(a + b + c, d);
  }

  method UnifiedDiff(path: string, before: Option<string>, after: Option<string>) returns (output: string)
    ensures output == DiffText(path, before, after)
  {
    hide RenderBody, HunkLine, NameLine, Marked, Lines, CommonPrefix, CommonSuffix;
    var oldLines, newLines := Lines(before), Lines(after);
    var h := HunkSpan(oldLines, newLines);
    var kept, removed := oldLines[h.start..h.prefix], oldLines[h.prefix..|oldLines| - h.suffix];
    var added, tail := newLines[h.prefix..|newLines| - h.suffix], oldLines[|oldLines| - h.suffix..h.oldEnd];
    var header := NameLine("--- ", FileName(path, before)) + NameLine("+++ ", FileName(path, after)) + HunkLine(h);
    output := AppendLines(header, ' ', kept);
    output := AppendLines(output, '-', removed);
    output := AppendLines(output, '+', added);
    output := AppendLines(output, ' ', tail);
    RenderFour(Marked(' ', kept), Marked('-', removed), Marked('+', added), Marked(' ', tail));
    ghost var a, b := RenderBody(Marked(' ', kept)), RenderBody(Marked('-', removed));
    ghost var c, d := RenderBody(Marked('+', added)), RenderBody(Marked(' ', tail));
    Regroup(header, a, b, c, d);
    Regroup(a, b, c, d, "");
  }

  /******* The edit is the smallest single replacement *******/

  /** Keeping `p` leading and `s` trailing lines and replacing the middle turns `a` into `b`. */
  ghost predicate IsSingleEdit<T>(a: seq<T>, b: seq<T>, p: nat, s: nat) {
    p + s <= |a| && p + s <= |b| && SharePrefix(a, b, p) && ShareSuffix(a, b, s)
  }

  lemma {:induction false} PrefixIsLongest<T>(a: seq<T>, b: seq<T>, p: nat)
    requires SharePrefix(a, b, p)
    ensures p <= CommonPrefix(a, b)
  {
  }

  lemma {:induction false} SuffixIsLongest<T>(a: seq<T>, b: seq<T>, s: nat)
    requires ShareSuffix(a, b, s)
    ensures s <= CommonSuffix(a, b)
  {
  }

  /** A suffix that fits behind the first `k` elements is shared there or nowhere. */
  lemma SuffixBehind<T>(a: seq<T>, b: seq<T>, k: nat, n: nat)
    requires k + n <= |a| && k + n <= |b|
    ensures ShareSuffix(a, b, n) <==> ShareSuffix(a[k..], b[k..], n)
  {
  }

  lemma ShorterSuffix<T>(a: seq<T>, b: seq<T>, s: nat, m: nat)
    requires ShareSuffix(a, b, s) && m <= s
    ensures ShareSuffix(a, b, m)
  {
  }

  lemma GreedyKeepsMost<T>(a: seq<T>, b: seq<T>, p: nat, s: nat)
    requires IsSingleEdit(a, b, p, s)
    ensures var prefix := CommonPrefix(a, b);
      var suffix := CommonSuffix(a[prefix..], b[prefix..]);
      IsSingleEdit(a, b, prefix, suffix) && p + s <= prefix + suffix
  {
    PrefixIsLongest(a, b, p);
    var prefix := CommonPrefix(a, b);
    assert SharePrefix(a, b, prefix) && p <= prefix <= |a| && prefix <= |b|;
    var x, y := a[prefix..], b[prefix..];
    var n := CommonSuffix(x, y);
    assert ShareSuffix(x, y, n) && n <= |x| && n <= |y|;
    hide CommonPrefix, CommonSuffix, SharePrefix, ShareSuffix;
    SuffixBehind(a, b, prefix, n);
    var m := Min(s, Min(|x|, |y|));
    ShorterSuffix(a, b, s, m);
    SuffixBehind(a, b, prefix, m);
    SuffixIsLongest(x, y, m);
  }

  /** Prefix first, then suffix: no single replacement keeps more lines than the printed one. */
  lemma GreedyEditIsOptimal(before: seq<string>, after: seq<string>, p: nat, s: nat)
    requires IsSingleEdit(before, after, p, s)
    ensures var h := HunkSpan(before, after);
      IsSingleEdit(before, after, h.prefix, h.suffix) && p + s <= h.prefix + h.suffix
  {
    hide IsSingleEdit;
    GreedyKeepsMost(before, after, p, s);
  }

  function Last<T>(s: seq<T>, n: nat): seq<T> {
    if |s| <= n then s else s[|s| - n..]
  }

  /** The common ends do not overlap. */
  lemma EditEnds<T>(a: seq<T>, b: seq<T>, p: nat, s: nat)
    requires p == CommonPrefix(a, b) && s == CommonSuffix(a[p..], b[p..])
    ensures IsSingleEdit(a, b, p, s)
  {
    EmptyEdit(a, b);
    GreedyKeepsMost(a, b, 0, 0);
    hide *;
  }

  lemma EmptyEdit<T>(a: seq<T>, b: seq<T>)
    ensures IsSingleEdit(a, b, 0, 0)
  {
  }

  lemma FirstDiffers<T>(a: seq<T>, b: seq<T>, n: nat)
    requires n == CommonPrefix(a, b) && n < |a| && n < |b|
    ensures a[n] != b[n]
  {
    hide CommonPrefix, SharePrefix;
  }

  lemma LastDiffers<T>(a: seq<T>, b: seq<T>, n: nat)
    requires n == CommonSuffix(a, b) && n < |a| && n < |b|
    ensures a[|a| - n - 1] != b[|b| - n - 1]
  {
    hide CommonSuffix, ShareSuffix;
  }

  lemma FromBehind<T>(s: seq<T>, p: nat, n: nat)
    requires p + n < |s|
    ensures |s[p..]| == |s| - p && s[p..][|s| - p - n - 1] == s[|s| - n - 1]
  {
  }

  lemma EqualHeads<T>(a: seq<T>, b: seq<T>, n: nat)
    requires SharePrefix(a, b, n)
    ensures a[..n] == b[..n]
  {
  }

  lemma EqualTails<T>(a: seq<T>, b: seq<T>, n: nat)
    requires ShareSuffix(a, b, n)
    ensures a[|a| - n..] == b[|b| - n..]
  {
  }

  lemma ThreePieces<T>(s: seq<T>, prefix: nat, suffix: nat)
    requires prefix + suffix <= |s|
    ensures s == s[..prefix] + s[prefix..|s| - suffix] + s[|s| - suffix..]
  {
  }

  lemma ContextPieces<T>(s: seq<T>, prefix: nat, suffix: nat, start: nat, end: nat)
    requires prefix + suffix <= |s|
    requires start == (if prefix < 3 then 0 else prefix - 3) && end == Min(|s| - suffix + 3, |s|)
    ensures s[start..prefix] == Last(s[..prefix], 3) && start == prefix - |Last(s[..prefix], 3)|
    ensures s[|s| - suffix..end] == Take(s[|s| - suffix..], 3)
  {
  }

  /** Two sequences with these common ends and these, as long as they can be, in between. */
  ghost predicate IsEdit<T>(a: seq<T>, b: seq<T>, head: seq<T>, removed: seq<T>, added: seq<T>, tail: seq<T>) {
    && a == head + removed + tail && b == head + added + tail
    && (removed != [] && added != [] ==> removed[0] != added[0] && removed[|removed| - 1] != added[|added| - 1])
  }

  lemma EditOf<T>(a: seq<T>, b: seq<T>, p: nat, s: nat)
    requires IsSingleEdit(a, b, p, s)
    requires p + s < |a| && p + s < |b| ==> a[p] != b[p] && a[|a| - s - 1] != b[|b| - s - 1]
    ensures IsEdit(a, b, a[..p], a[p..|a| - s], b[p..|b| - s], a[|a| - s..])
  {
    EqualHeads(a, b, p);
    EqualTails(a, b, s);
    ThreePieces(a, p, s);
    ThreePieces(b, p, s);
    hide SharePrefix, ShareSuffix;
  }

  /** The body has the last three common lines before the change and the first three behind it. */
  ghost predicate ShowsChange(before: seq<string>, after: seq<string>, head: seq<string>, removed: seq<string>,
                              added: seq<string>, tail: seq<string>)
  {
    Body(before, after) == Marked(' ', Last(head, 3)) + Marked('-', removed) + Marked('+', added) + Marked(' ', Take(tail, 3))
    && HunkSpan(before, after).start == |head| - |Last(head, 3)|
  }

  lemma BodyShowsChange(before: seq<string>, after: seq<string>, h: Span)
    requires h == HunkSpan(before, after) && h.prefix + h.suffix <= |before|
    ensures ShowsChange(before, after, before[..h.prefix], before[h.prefix..|before| - h.suffix],
                        after[h.prefix..|after| - h.suffix], before[|before| - h.suffix..])
  {
    hide CommonPrefix, CommonSuffix;
    ContextPieces(before, h.prefix, h.suffix, h.start, h.oldEnd);
    hide Marked, Last, Take;
  }

  lemma SpanIs(before: seq<string>, after: seq<string>)
    ensures var h := HunkSpan(before, after);
      h.prefix == CommonPrefix(before, after) && h.suffix == CommonSuffix(before[h.prefix..], after[h.prefix..])
  {
    hide CommonPrefix, CommonSuffix;
  }

  lemma SingleEditFits<T>(a: seq<T>, b: seq<T>, p: nat, s: nat)
    requires IsSingleEdit(a, b, p, s)
    ensures p + s <= |a| && p + s <= |b|
  {
  }

  /**
   The hunk shows what was removed, then what was added, with the last three common lines before and
   the first three behind; nothing between the common ends is common at either end.
   */
  lemma HunkShowsTheChange(before: seq<string>, after: seq<string>)
    returns (head: seq<string>, removed: seq<string>, added: seq<string>, tail: seq<string>)
    ensures IsEdit(before, after, head, removed, added, tail)
    ensures ShowsChange(before, after, head, removed, added, tail)
  {
    SpanIs(before, after);
    var h := HunkSpan(before, after);
    hide *;
    EditEnds(before, after, h.prefix, h.suffix);
    if h.prefix + h.suffix < |before| && h.prefix + h.suffix < |after| {
      FromBehind(before, h.prefix, h.suffix);
      FromBehind(after, h.prefix, h.suffix);
      FirstDiffers(before, after, h.prefix);
      LastDiffers(before[h.prefix..], after[h.prefix..], h.suffix);
    }
    SingleEditFits(before, after, h.prefix, h.suffix);
    EditOf(before, after, h.prefix, h.suffix);
    BodyShowsChange(before, after, h);
    head, tail := before[..h.prefix], before[|before| - h.suffix..];
    removed, added := before[h.prefix..|before| - h.suffix], after[h.prefix..|after| - h.suffix];
  }

  /******* A strict reader *******/

  datatype Patch = Patch(oldName: string, newName: string, oldStart: nat, oldCount: nat,
                         newStart: nat, newCount: nat, entries: seq<Entry>)

  predicate IsDigit(c: char) {
    '0' <= c <= '9'
  }

  function DigitValue(c: char): nat
    requires IsDigit(c)
  {
    (c as int) - ('0' as int)
  }

  /** Reads the digits in front of `text`, adding to `value`. */
  function ReadDigits(text: string, value: nat): (nat, string)
    decreases |text|
  {
    if text != "" && IsDigit(text[0]) then ReadDigits(text[1..], 10 * value + DigitValue(text[0]))
    else (value, text)
  }

  function ReadNumber(text: string): Option<(nat, string)> {
    if text != "" && IsDigit(text[0]) then Some(ReadDigits(text, 0)) else None
  }

  function ReadLiteral(literal: string, text: string): Option<string> {
    if literal <= text then Some(text[|literal|..]) else None
  }

  /** `start,count` */
  function ReadRange(text: string): Option<(nat, nat, string)> {
    match ReadNumber(text)
    case None => None
    case Some((start, rest)) =>
      match ReadLiteral(",", rest)
      case None => None
      case Some(counted) =>
        match ReadNumber(counted)
        case None => None
        case Some((count, last)) => Some((start, count, last))
  }

  /** `@@ -start,count +start,count @@` and the line break. */
  function ReadHunkLine(line: string): Option<(nat, nat, nat, nat)> {
    match ReadLiteral("@@ -", line)
    case None => None
    case Some(ranges) =>
      match ReadRange(ranges)
      case None => None
      case Some((oldStart, oldCount, rest)) =>
        match ReadLiteral(" +", rest)
        case None => None
        case Some(second) =>
          match ReadRange(second)
          case None => None
          case Some((newStart, newCount, last)) =>
            if last == " @@\n" then Some((oldStart, oldCount, newStart, newCount)) else None
  }

  /** A file name ends at a tab, behind which a time stamp may stand. */
  function BeforeTab(text: string): string
    decreases |text|
  {
    if text == "" || text[0] == '\t' then "" else [text[0]] + BeforeTab(text[1..])
  }

  function ReadName(sign: string, line: string): Option<string> {
    match ReadLiteral(sign, line)
    case None => None
    case Some(name) => if Ended(name) then Some(BeforeTab(name[..|name| - 1])) else None
  }

  predicate IsMarker(c: char) {
    c == ' ' || c == '-' || c == '+'
  }

  function ReadBody(lines: seq<string>): Option<seq<Entry>>
    decreases |lines|
  {
    if lines == [] then Some([])
    else if |lines[0]| < 2 || !IsMarker(lines[0][0]) || !Ended(lines[0]) then None
    else
      var text := lines[0][1..];
      var unended := |lines| > 1 && lines[1] == NoNewlineMark();
      var entry := Entry(lines[0][0], if unended then text[..|text| - 1] else text);
      match ReadBody(lines[if unended then 2 else 1..])
      case None => None
      case Some(rest) => Some([entry] + rest)
  }

  function ReadPatch(text: string): Option<Patch> {
    var lines := SplitInclusive(text);
    if |lines| < 3 then None
    else
      match (ReadName("--- ", lines[0]), ReadName("+++ ", lines[1]), ReadHunkLine(lines[2]), ReadBody(lines[3..]))
      case (Some(oldName), Some(newName), Some((oldStart, oldCount, newStart, newCount)), Some(entries)) =>
        Some(Patch(oldName, newName, oldStart, oldCount, newStart, newCount, entries))
      case _ => None
  }

  /** The lines of one side of the body: everything but the lines marked `except`. */
  function Side(entries: seq<Entry>, except: char): seq<string> {
    if entries == [] then []
    else (if entries[0].marker == except then [] else [entries[0].text]) + Side(entries[1..], except)
  }

  /** An empty range stands after its line number, any other starts at it. */
  function Position(start: nat, count: nat): int {
    if count == 0 then start else start - 1
  }

  /** Replaces the old lines, which must be there, at the place both ranges name. */
  function ApplyPatch(patch: Patch, file: Option<string>): Option<Option<string>> {
    var lines := Lines(file);
    var position := Position(patch.oldStart, patch.oldCount);
    var oldLines, newLines := Side(patch.entries, '+'), Side(patch.entries, '-');
    if || (patch.oldName == ABSENT) != file.None?
       || |oldLines| != patch.oldCount || |newLines| != patch.newCount
       || position < 0 || position + |oldLines| > |lines| || lines[position..position + |oldLines|] != oldLines
       || Position(patch.newStart, patch.newCount) != position
    then None
    else
      var result := Join(lines[..position] + newLines + lines[position + |oldLines|..]);
      if patch.newName != ABSENT then Some(Some(result))
      else if result == "" then Some(None) else None
  }

  /** The same patch read backwards. */
  function Reverse(patch: Patch): Patch {
    Patch(patch.newName, patch.oldName, patch.newStart, patch.newCount, patch.oldStart, patch.oldCount,
          ReverseEntries(patch.entries))
  }

  function ReverseEntries(entries: seq<Entry>): seq<Entry> {
    if entries == [] then [] else [ReverseEntry(entries[0])] + ReverseEntries(entries[1..])
  }

  function ReverseEntry(entry: Entry): Entry {
    if entry.marker == '-' then entry.(marker := '+')
    else if entry.marker == '+' then entry.(marker := '-')
    else entry
  }

  function Forward(text: string, file: Option<string>): Option<Option<string>> {
    match ReadPatch(text) case None => None case Some(patch) => ApplyPatch(patch, file)
  }

  function Backward(text: string, file: Option<string>): Option<Option<string>> {
    match ReadPatch(text) case None => None case Some(patch) => ApplyPatch(Reverse(patch), file)
  }
}
