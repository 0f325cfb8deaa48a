/**
 The strict reader and the printer are inverse: applied to the old file a printed diff gives the
 new one, applied backwards to the new file it gives the old one, for all contents. A path with a
 line break, or one that spells the name of an absent file, is exactly what breaks this.
 */
module DiffRoundTrip {
  import opened Wrappers
  import opened TextLines
  import opened UnifiedDiff

  /******* Numbers and the hunk line *******/

  /** Reading a printed number brings the reader to the number, whatever follows. */
  lemma {:induction false} ReadDecimal(n: nat, rest: string)
    ensures Decimal(n) != "" && IsDigit(Decimal(n)[0])
    ensures ReadDigits(Decimal(n) + rest, 0) == ReadDigits(rest, n)
  {
    if n < 10 {
      assert (Decimal(n) + rest)[1..] == rest;
    } else {
      var last := [Digit(n % 10)] + rest;
      ReadDecimal(n / 10, last);
      assert Decimal(n) + rest == Decimal(n / 10) + last;
      assert last[1..] == rest;
      assert Decimal(n)[0] == Decimal(n / 10)[0];
    }
  }

  lemma ReadPrintedNumber(n: nat, rest: string)
    requires rest == "" || !IsDigit(rest[0])
    ensures ReadNumber(Decimal(n) + rest) == Some((n, rest))
  {
    ReadDecimal(n, rest);
    assert (Decimal(n) + rest)[0] == Decimal(n)[0];
  }

  function PrintedStart(start: nat, end: nat): nat
    requires start <= end
  {
    if end == start then 0 else start + 1
  }

  lemma ReadPrintedRange(start: nat, end: nat, rest: string)
    requires start <= end && (rest == "" || !IsDigit(rest[0]))
    ensures ReadRange(RangeText(start, end) + rest) == Some((PrintedStart(start, end), end - start, rest))
  {
    var first, count := Decimal(PrintedStart(start, end)), Decimal(end - start);
    var counted := count + rest;
    assert RangeText(start, end) + rest == first + ("," + counted);
    hide Decimal, ReadNumber, ReadLiteral;
    ReadPrintedNumber(PrintedStart(start, end), "," + counted);
    ReadPrintedNumber(end - start, rest);
  }

  lemma ReadPrintedHunkLine(h: Span)
    requires h.start <= h.oldEnd && h.start <= h.newEnd
    ensures ReadHunkLine(HunkLine(h))
         == Some((PrintedStart(h.start, h.oldEnd), h.oldEnd - h.start, PrintedStart(h.start, h.newEnd), h.newEnd - h.start))
  {
    var olds, news := RangeText(h.start, h.oldEnd), RangeText(h.start, h.newEnd);
    var last := " @@\n";
    var second := " +" + (news + last);
    Regroup("@@ -", olds, " +", news, last);
    hide RangeText, ReadRange, ReadLiteral;
    ReadPrintedRange(h.start, h.oldEnd, second);
    ReadPrintedRange(h.start, h.newEnd, last);
  }

  predicate OneLine(text: string) {
    forall i :: 0 <= i < |text| ==> text[i] != '\n'
  }

  lemma {:induction false} DecimalIsOneLine(n: nat)
    ensures OneLine(Decimal(n))
  {
    if n >= 10 {
      DecimalIsOneLine(n / 10);
    }
  }

  lemma HunkLineIsLine(h: Span)
    requires h.start <= h.oldEnd && h.start <= h.newEnd
    ensures IsLine(HunkLine(h)) && Ended(HunkLine(h)) && HunkLine(h)[0] == '@'
  {
    DecimalIsOneLine(PrintedStart(h.start, h.oldEnd));
    DecimalIsOneLine(h.oldEnd - h.start);
    DecimalIsOneLine(PrintedStart(h.start, h.newEnd));
    DecimalIsOneLine(h.newEnd - h.start);
    hide Decimal;
    var olds, news := RangeText(h.start, h.oldEnd), RangeText(h.start, h.newEnd);
    assert OneLine(olds) && OneLine(news);
    hide RangeText;
    var text := "@@ -" + olds + " +" + news + " @@";
    assert OneLine(text);
    assert " @@" + "\n" == " @@\n";
    assert HunkLine(h) == text + "\n";
  }

  /******* The body *******/

  ghost predicate GoodEntries(entries: seq<Entry>) {
    forall i :: 0 <= i < |entries| ==> IsMarker(entries[i].marker) && IsLine(entries[i].text)
  }

  function EntryLines(entry: Entry): seq<string> {
    if Ended(entry.text) then [[entry.marker] + entry.text]
    else [[entry.marker] + entry.text + "\n", NoNewlineMark()]
  }

  function BodyLines(entries: seq<Entry>): seq<string> {
    if entries == [] then [] else EntryLines(entries[0]) + BodyLines(entries[1..])
  }

  ghost predicate EndedLines(lines: seq<string>) {
    forall i :: 0 <= i < |lines| ==> IsLine(lines[i]) && Ended(lines[i])
  }

  lemma EntryLinesRender(entry: Entry)
    requires IsMarker(entry.marker) && IsLine(entry.text)
    ensures Join(EntryLines(entry)) == RenderEntry(entry)
    ensures EndedLines(EntryLines(entry))
    ensures EntryLines(entry)[0][0] == entry.marker
  {
    hide NoNewlineMark;
    var lines := EntryLines(entry);
    if Ended(entry.text) {
      assert Join(lines) == lines[0] + "";
    } else {
      assert lines[1..] == [NoNewlineMark()];
      assert Join(lines[1..]) == NoNewlineMark() + "";
    }
  }

  lemma {:induction false} BodyLinesRender(entries: seq<Entry>)
    requires GoodEntries(entries)
    ensures Join(BodyLines(entries)) == RenderBody(entries)
    ensures EndedLines(BodyLines(entries))
  {
    if entries != [] {
      EntryLinesRender(entries[0]);
      BodyLinesRender(entries[1..]);
      JoinConcat(EntryLines(entries[0]), BodyLines(entries[1..]));
    }
  }

  /** What follows a printed entry is never a note about it. */
  lemma BodyStartsWithMarker(entries: seq<Entry>)
    requires GoodEntries(entries) && entries != []
    ensures BodyLines(entries) != [] && BodyLines(entries)[0] != "" && IsMarker(BodyLines(entries)[0][0])
  {
    EntryLinesRender(entries[0]);
    hide IsMarker, IsLine, EntryLines, NoNewlineMark;
    assert EntryLines(entries[0]) != [] && BodyLines(entries)[0] == EntryLines(entries[0])[0];
  }

  lemma {:induction false} ReadPrintedBody(entries: seq<Entry>)
    requires GoodEntries(entries)
    ensures ReadBody(BodyLines(entries)) == Some(entries)
  {
    if entries != [] {
      var rest := BodyLines(entries[1..]);
      ReadPrintedBody(entries[1..]);
      if |entries| > 1 {
        BodyStartsWithMarker(entries[1..]);
      }
      hide IsLine, EntryLines, ReadBody, NoNewlineMark;
      ReadPrintedEntry(entries[0], rest);
      assert entries == [entries[0]] + entries[1..];
    }
  }

  /** One step of the reader, from a line that begins an entry. */
  lemma ReadBodyStep(lines: seq<string>)
    requires lines != [] && |lines[0]| >= 2 && IsMarker(lines[0][0]) && Ended(lines[0])
    ensures
      var text := lines[0][1..];
      var unended := |lines| > 1 && lines[1] == NoNewlineMark();
      var entry := Entry(lines[0][0], if unended then text[..|text| - 1] else text);
      ReadBody(lines) == match ReadBody(lines[if unended then 2 else 1..]) case None => None case Some(rest) => Some([entry] + rest)
  {
    hide NoNewlineMark;
  }

  lemma NoteIsNoEntry()
    ensures NoNewlineMark() != "" && NoNewlineMark()[0] == '\\'
  {
  }

  /** One printed entry is read back when what follows is not a note about it. */
  lemma ReadPrintedEntry(entry: Entry, rest: seq<string>)
    requires IsMarker(entry.marker) && IsLine(entry.text)
    requires rest == [] || (rest[0] != "" ==> rest[0][0] != '\\')
    ensures ReadBody(EntryLines(entry) + rest)
         == match ReadBody(rest) case None => None case Some(later) => Some([entry] + later)
  {
    NoteIsNoEntry();
    hide NoNewlineMark, ReadBody;
    var lines := EntryLines(entry) + rest;
    if Ended(entry.text) {
      MarkedLine(entry.marker, entry.text);
      assert lines == [[entry.marker] + entry.text] + rest;
      ReadBodyStep(lines);
      assert lines[1..] == rest;
    } else {
      MarkedLine(entry.marker, entry.text + "\n");
      assert [entry.marker] + entry.text + "\n" == [entry.marker] + (entry.text + "\n");
      assert lines == [[entry.marker] + (entry.text + "\n"), NoNewlineMark()] + rest;
      ReadBodyStep(lines);
      assert lines[2..] == rest;
      assert (entry.text + "\n")[..|entry.text|] == entry.text;
    }
  }

  lemma MarkedLine(marker: char, text: string)
    requires text != "" && Ended(text)
    ensures ([marker] + text)[0] == marker && ([marker] + text)[1..] == text && Ended([marker] + text)
  {
  }

  /** What the reader accepts as a body starts every line with a marker or a note. */
  lemma {:induction false} ReadBodyMarkers(lines: seq<string>, i: nat)
    requires ReadBody(lines).Some? && i < |lines|
    ensures lines[i] != "" && (IsMarker(lines[i][0]) || lines[i][0] == '\\')
    decreases |lines|
  {
    hide NoNewlineMark;
    if i > 0 {
      var unended := |lines| > 1 && lines[1] == NoNewlineMark();
      if !unended {
        ReadBodyMarkers(lines[1..], i - 1);
      } else if i > 1 {
        ReadBodyMarkers(lines[2..], i - 2);
      }
    }
  }

  lemma {:induction false} MarkedIsGood(marker: char, lines: seq<string>)
    requires IsMarker(marker) && forall i :: 0 <= i < |lines| ==> IsLine(lines[i])
    ensures GoodEntries(Marked(marker, lines))
  {
    hide IsLine, IsMarker;
    if lines != [] {
      MarkedIsGood(marker, lines[1..]);
    }
  }

  lemma GoodConcat(a: seq<Entry>, b: seq<Entry>)
    requires GoodEntries(a) && GoodEntries(b)
    ensures GoodEntries(a + b)
  {
  }

  lemma BodyIsGood(before: seq<string>, after: seq<string>)
    requires IsLines(before) && IsLines(after)
    ensures GoodEntries(Body(before, after))
  {
    hide GoodEntries, Marked, HunkSpan, IsLine;
    var h := HunkSpan(before, after);
    var kept, removed := before[h.start..h.prefix], before[h.prefix..|before| - h.suffix];
    var added, tail := after[h.prefix..|after| - h.suffix], before[|before| - h.suffix..h.oldEnd];
    MarkedIsGood(' ', kept);
    MarkedIsGood('-', removed);
    MarkedIsGood('+', added);
    MarkedIsGood(' ', tail);
    GoodConcat(Marked(' ', kept), Marked('-', removed));
    GoodConcat(Marked(' ', kept) + Marked('-', removed), Marked('+', added));
    GoodConcat(Marked(' ', kept) + Marked('-', removed) + Marked('+', added), Marked(' ', tail));
  }

  /******* Reading a printed diff *******/

  /** What a reader makes of the printed ranges and lines. */
  function PatchRead(oldName: string, newName: string, h: Span, entries: seq<Entry>): Patch
    requires h.start <= h.oldEnd && h.start <= h.newEnd
  {
    Patch(BeforeTab(oldName), BeforeTab(newName),
          PrintedStart(h.start, h.oldEnd), h.oldEnd - h.start,
          PrintedStart(h.start, h.newEnd), h.newEnd - h.start,
          entries)
  }

  function PatchOf(path: string, before: Option<string>, after: Option<string>): Patch {
    var olds, news := Lines(before), Lines(after);
    PatchRead(FileName(path, before), FileName(path, after), HunkSpan(olds, news), Body(olds, news))
  }

  lemma NameLineReads(sign: string, name: string)
    requires |sign| > 0 && OneLine(sign) && OneLine(name)
    ensures IsLine(NameLine(sign, name)) && Ended(NameLine(sign, name))
    ensures ReadName(sign, NameLine(sign, name)) == Some(BeforeTab(name))
  {
    assert NameLine(sign, name) == sign + (name + "\n");
    assert (name + "\n")[..|name|] == name;
  }

  lemma JoinThree(a: string, b: string, c: string, rest: seq<string>)
    ensures Join([a, b, c] + rest) == a + b + c + Join(rest)
  {
    JoinCons(c, rest);
    JoinCons(b, [c] + rest);
    JoinCons(a, [b] + ([c] + rest));
    assert [a, b, c] + rest == [a] + ([b] + ([c] + rest));
  }

  lemma SplitThree(a: string, b: string, c: string, rest: seq<string>)
    requires EndedLines([a, b, c]) && EndedLines(rest)
    ensures SplitInclusive(a + b + c + Join(rest)) == [a, b, c] + rest
  {
    JoinThree(a, b, c, rest);
    JoinThenSplit([a, b, c] + rest);
  }

  lemma LinesAreLines(content: Option<string>)
    ensures IsLines(Lines(content))
    ensures Join(Lines(content)) == if content.Some? then content.value else ""
  {
    SplitThenJoin(if content.Some? then content.value else "");
  }

  lemma SignsAreOneLine()
    ensures OneLine("--- ") && OneLine("+++ ") && OneLine(ABSENT) && BeforeTab(ABSENT) == ABSENT
  {
    hide BeforeTab;
    NameReadsExactly(ABSENT);
  }

  /** A printed name is read back exactly when it holds no tab. */
  lemma {:induction false} NameReadsExactly(name: string)
    ensures BeforeTab(name) == name <==> '\t' !in name
    decreases |name|
  {
    if name != "" && name[0] != '\t' {
      NameReadsExactly(name[1..]);
      assert name == [name[0]] + name[1..];
    }
  }

  lemma ReadPatchLines(text: string, a: string, b: string, c: string, rest: seq<string>, patch: Patch)
    requires SplitInclusive(text) == [a, b, c] + rest
    requires ReadName("--- ", a) == Some(patch.oldName) && ReadName("+++ ", b) == Some(patch.newName)
    requires ReadHunkLine(c) == Some((patch.oldStart, patch.oldCount, patch.newStart, patch.newCount))
    requires ReadBody(rest) == Some(patch.entries)
    ensures ReadPatch(text) == Some(patch)
  {
  }

  lemma PrintedName(sign: string, name: string)
    requires sign == "--- " || sign == "+++ "
    requires OneLine(name)
    ensures EndedLines([NameLine(sign, name)])
    ensures ReadName(sign, NameLine(sign, name)) == Some(BeforeTab(name))
  {
    SignsAreOneLine();
    assert |sign| > 0;
    NameLineReads(sign, name);
  }

  lemma PrintedHunk(h: Span)
    requires h.start <= h.oldEnd && h.start <= h.newEnd
    ensures EndedLines([HunkLine(h)])
  {
    HunkLineIsLine(h);
  }

  lemma EndedThree(a: string, b: string, c: string)
    requires EndedLines([a]) && EndedLines([b]) && EndedLines([c])
    ensures EndedLines([a, b, c])
  {
    assert [a][0] == a && [b][0] == b && [c][0] == c;
  }

  /** The strict reader recovers a printed patch: names, ranges, counts and every marked line. */
  lemma ReadPrintedPatch(oldName: string, newName: string, h: Span, entries: seq<Entry>)
    requires OneLine(oldName) && OneLine(newName) && GoodEntries(entries)
    requires h.start <= h.oldEnd && h.start <= h.newEnd
    ensures ReadPatch(PatchText(oldName, newName, h, entries)) == Some(PatchRead(oldName, newName, h, entries))
  {
    hide BodyLines, RenderBody, Join, SplitInclusive, NameLine, HunkLine, ReadName, ReadHunkLine,
      ReadBody, ReadPatch, EndedLines, OneLine, GoodEntries;
    var rest := BodyLines(entries);
    var a, b := NameLine("--- ", oldName), NameLine("+++ ", newName);
    BodyLinesRender(entries);
    ReadPrintedBody(entries);
    PrintedName("--- ", oldName);
    PrintedName("+++ ", newName);
    PrintedHunk(h);
    ReadPrintedHunkLine(h);
    EndedThree(a, b, HunkLine(h));
    SplitThree(a, b, HunkLine(h), rest);
    ReadPatchLines(PatchText(oldName, newName, h, entries), a, b, HunkLine(h), rest, PatchRead(oldName, newName, h, entries));
  }

  /** The entries of a diff can be printed and read. */
  lemma DiffEntriesAreGood(before: Option<string>, after: Option<string>)
    ensures GoodEntries(Body(Lines(before), Lines(after)))
  {
    LinesAreLines(before);
    LinesAreLines(after);
    hide Lines, Body, GoodEntries, IsLines;
    BodyIsGood(Lines(before), Lines(after));
  }

  /******* Applying a printed diff *******/

  lemma {:induction false} SideConcat(a: seq<Entry>, b: seq<Entry>, except: char)
    ensures Side(a + b, except) == Side(a, except) + Side(b, except)
  {
    if a == [] {
      assert a + b == b;
    } else {
      assert (a + b)[0] == a[0] && (a + b)[1..] == a[1..] + b;
      SideConcat(a[1..], b, except);
    }
  }

  lemma {:induction false} SideMarked(marker: char, lines: seq<string>, except: char)
    ensures Side(Marked(marker, lines), except) == if marker == except then [] else lines
  {
    if lines != [] {
      assert Marked(marker, lines)[1..] == Marked(marker, lines[1..]);
      SideMarked(marker, lines[1..], except);
    }
  }

  lemma SideOfFour(a: seq<Entry>, b: seq<Entry>, c: seq<Entry>, d: seq<Entry>, except: char)
    ensures Side(a + b + c + d, except) == Side(a, except) + Side(b, except) + Side(c, except) + Side(d, except)
  {
    SideConcat(a, b, except);
    SideConcat(a + b, c, except);
    SideConcat(a + b + c, d, except);
  }

  lemma PrefixSlices<T>(a: seq<T>, b: seq<T>, prefix: nat, start: nat)
    requires SharePrefix(a, b, prefix) && start <= prefix
    ensures a[..start] == b[..start] && a[start..prefix] == b[start..prefix]
  {
  }

  lemma SuffixSlices<T>(a: seq<T>, b: seq<T>, suffix: nat, k: nat)
    requires ShareSuffix(a, b, suffix) && k <= suffix
    ensures var m, n := |a| - suffix, |b| - suffix;
      a[m..m + k] == b[n..n + k] && a[m + k..] == b[n + k..]
  {
  }

  lemma SpanShares(before: seq<string>, after: seq<string>)
    ensures var h := HunkSpan(before, after);
      && SharePrefix(before, after, h.prefix) && ShareSuffix(before[h.prefix..], after[h.prefix..], h.suffix)
      && h.newEnd - (|after| - h.suffix) == h.oldEnd - (|before| - h.suffix) <= h.suffix
  {
    hide CommonPrefix, CommonSuffix, SharePrefix, ShareSuffix;
  }

  lemma SharedContext(before: seq<string>, after: seq<string>)
    ensures var h := HunkSpan(before, after);
      && before[..h.start] == after[..h.start]
      && before[h.start..h.prefix] == after[h.start..h.prefix]
      && before[|before| - h.suffix..h.oldEnd] == after[|after| - h.suffix..h.newEnd]
      && before[h.oldEnd..] == after[h.newEnd..]
  {
    hide HunkSpan, SharePrefix, ShareSuffix;
    var h := HunkSpan(before, after);
    var prefix, n := h.prefix, h.suffix;
    SpanShares(before, after);
    SuffixBehind(before, after, prefix, n);
    PrefixSlices(before, after, prefix, h.start);
    SuffixSlices(before, after, n, h.oldEnd - (|before| - n));
  }

  /** Outside the hunk the two files agree, inside it the two sides are their lines. */
  lemma BodySides(before: seq<string>, after: seq<string>)
    ensures var h, entries := HunkSpan(before, after), Body(before, after);
      && Side(entries, '+') == before[h.start..h.oldEnd]
      && Side(entries, '-') == after[h.start..h.newEnd]
      && before[..h.start] == after[..h.start]
      && before[h.oldEnd..] == after[h.newEnd..]
  {
    hide HunkSpan, Marked, Side;
    var h := HunkSpan(before, after);
    SharedContext(before, after);
    var kept, removed := before[h.start..h.prefix], before[h.prefix..|before| - h.suffix];
    var added, tail := after[h.prefix..|after| - h.suffix], before[|before| - h.suffix..h.oldEnd];
    FourSides(kept, removed, added, tail);
  }

  lemma FourSides(kept: seq<string>, removed: seq<string>, added: seq<string>, tail: seq<string>)
    ensures var entries := Marked(' ', kept) + Marked('-', removed) + Marked('+', added) + Marked(' ', tail);
      && Side(entries, '+') == kept + removed + [] + tail
      && Side(entries, '-') == kept + [] + added + tail
  {
    hide Marked, Side;
    SideOfFour(Marked(' ', kept), Marked('-', removed), Marked('+', added), Marked(' ', tail), '+');
    SideOfFour(Marked(' ', kept), Marked('-', removed), Marked('+', added), Marked(' ', tail), '-');
    SideMarked(' ', kept, '+');
    SideMarked(' ', kept, '-');
    SideMarked('-', removed, '+');
    SideMarked('-', removed, '-');
    SideMarked('+', added, '+');
    SideMarked('+', added, '-');
    SideMarked(' ', tail, '+');
    SideMarked(' ', tail, '-');
  }

  lemma {:induction false} ReverseSides(entries: seq<Entry>)
    requires forall i :: 0 <= i < |entries| ==> IsMarker(entries[i].marker)
    ensures Side(ReverseEntries(entries), '+') == Side(entries, '-')
    ensures Side(ReverseEntries(entries), '-') == Side(entries, '+')
  {
    if entries != [] {
      ReverseSides(entries[1..]);
      var reversed := ReverseEntries(entries);
      assert reversed[1..] == ReverseEntries(entries[1..]);
    }
  }

  /** An empty hunk range can only stand at the beginning of the file. */
  lemma SpanPosition(before: seq<string>, after: seq<string>)
    ensures var h := HunkSpan(before, after);
      && Position(PrintedStart(h.start, h.oldEnd), h.oldEnd - h.start) == h.start
      && Position(PrintedStart(h.start, h.newEnd), h.newEnd - h.start) == h.start
  {
  }

  /** The patch replaces `a[start..fromEnd]` by `b[start..toEnd]`, and outside these the two agree. */
  ghost predicate Replaces(patch: Patch, a: seq<string>, b: seq<string>, start: nat, fromEnd: nat, toEnd: nat) {
    && start <= fromEnd <= |a| && start <= toEnd <= |b|
    && Side(patch.entries, '+') == a[start..fromEnd] && patch.oldCount == fromEnd - start
    && Side(patch.entries, '-') == b[start..toEnd] && patch.newCount == toEnd - start
    && Position(patch.oldStart, patch.oldCount) == start == Position(patch.newStart, patch.newCount)
    && a[..start] == b[..start] && a[fromEnd..] == b[toEnd..]
  }

  /** A patch whose sides are the two files' lines turns the one file into the other. */
  lemma PatchApplies(patch: Patch, from: Option<string>, to: Option<string>, start: nat, fromEnd: nat, toEnd: nat)
    requires Replaces(patch, Lines(from), Lines(to), start, fromEnd, toEnd)
    requires (patch.oldName == ABSENT) == from.None? && (patch.newName == ABSENT) == to.None?
    ensures ApplyPatch(patch, from) == Some(to)
  {
    LinesAreLines(to);
    hide Lines, Side, Join, Position;
    var a, b := Lines(from), Lines(to);
    assert a[..start] + b[start..toEnd] + a[fromEnd..] == b;
  }

  /** The printed patch replaces the old lines of the hunk by the new ones. */
  lemma PrintedReplaces(path: string, before: Option<string>, after: Option<string>)
    ensures var a, b, h := Lines(before), Lines(after), HunkSpan(Lines(before), Lines(after));
      Replaces(PatchOf(path, before, after), a, b, h.start, h.oldEnd, h.newEnd)
  {
    hide Lines, Side, Body, HunkSpan, Position, PrintedStart, FileName, BeforeTab;
    BodySides(Lines(before), Lines(after));
    SpanPosition(Lines(before), Lines(after));
  }

  /** Reversed, a patch replaces the other way round. */
  lemma ReverseReplaces(patch: Patch, a: seq<string>, b: seq<string>, start: nat, fromEnd: nat, toEnd: nat)
    requires Replaces(patch, a, b, start, fromEnd, toEnd) && GoodEntries(patch.entries)
    ensures Replaces(Reverse(patch), b, a, start, toEnd, fromEnd)
  {
    ReverseSides(patch.entries);
    hide Side, Position, ReverseEntries;
  }

  lemma PatchNames(path: string, before: Option<string>, after: Option<string>)
    ensures var patch := PatchOf(path, before, after);
      && patch.oldName == Reverse(patch).newName == BeforeTab(FileName(path, before))
      && patch.newName == Reverse(patch).oldName == BeforeTab(FileName(path, after))
      && patch.entries == Body(Lines(before), Lines(after))
  {
  }

  lemma PrintedPatchApplies(path: string, before: Option<string>, after: Option<string>)
    requires (BeforeTab(FileName(path, before)) == ABSENT) == before.None?
    requires (BeforeTab(FileName(path, after)) == ABSENT) == after.None?
    ensures ApplyPatch(PatchOf(path, before, after), before) == Some(after)
    ensures ApplyPatch(Reverse(PatchOf(path, before, after)), after) == Some(before)
  {
    hide *;
    var patch, h := PatchOf(path, before, after), HunkSpan(Lines(before), Lines(after));
    PatchNames(path, before, after);
    PrintedReplaces(path, before, after);
    DiffEntriesAreGood(before, after);
    ReverseReplaces(patch, Lines(before), Lines(after), h.start, h.oldEnd, h.newEnd);
    PatchApplies(patch, before, after, h.start, h.oldEnd, h.newEnd);
    PatchApplies(Reverse(patch), after, before, h.start, h.newEnd, h.oldEnd);
  }

  /** A path is printable when the header can carry it and it does not read as an absent file. */
  predicate PrintablePath(path: string) {
    OneLine(path) && BeforeTab(path) != ABSENT
  }

  /** The text, read as a patch, turns the one file into the other. */
  predicate Applies(text: string, before: Option<string>, after: Option<string>) {
    Forward(text, before) == Some(after)
  }

  /** Read in reverse, it turns the other back into the one. */
  predicate Reverts(text: string, before: Option<string>, after: Option<string>) {
    Backward(text, after) == Some(before)
  }

  /******* The paths that break it *******/

  lemma NameLineSplits(sign: string, name: string)
    requires |sign| > 0
    ensures Ended(NameLine(sign, name))
    ensures |SplitInclusive(NameLine(sign, name))| >= if OneLine(name) then 1 else 2
  {
    var text := NameLine(sign, name);
    SplitThenJoin(text);
    var lines := SplitInclusive(text);
    hide SplitInclusive;
    if |lines| == 1 {
      assert text == lines[0] + "";
      assert IsLine(text);
      forall i | 0 <= i < |name| ensures name[i] != '\n' {
        assert text[|sign| + i] == name[i];
      }
    }
  }

  lemma LateHunkIsRefused(text: string, head: seq<string>, hunk: string, rest: seq<string>)
    requires SplitInclusive(text) == head + ([hunk] + rest)
    requires |head| >= 3 && hunk != "" && hunk[0] == '@'
    ensures ReadPatch(text).None?
  {
    hide SplitInclusive, ReadName, ReadHunkLine, ReadBody;
    var lines := SplitInclusive(text);
    if ReadBody(lines[3..]).Some? {
      assert lines[3..][|head| - 3] == hunk;
      ReadBodyMarkers(lines[3..], |head| - 3);
    }
  }

  lemma LongHeaderIsRefused(a: string, b: string, hunk: string, body: string)
    requires Ended(a) && Ended(b) && IsLine(hunk) && Ended(hunk) && hunk[0] == '@'
    requires |SplitInclusive(a)| + |SplitInclusive(b)| >= 3
    ensures ReadPatch(a + b + hunk + body).None?
  {
    assert hunk != "";
    hide SplitInclusive, ReadPatch, Ended, IsLine;
    Regroup(a, b, hunk, body, "");
    SplitConcat(a, b + (hunk + body));
    SplitConcat(b, hunk + body);
    SplitFirstLine(hunk, body);
    var head := SplitInclusive(a) + SplitInclusive(b);
    assert SplitInclusive(a) + (SplitInclusive(b) + ([hunk] + SplitInclusive(body)))
        == head + ([hunk] + SplitInclusive(body));
    LateHunkIsRefused(a + b + hunk + body, head, hunk, SplitInclusive(body));
  }

  /** A line break in a printed name pushes the hunk line into the body, which the reader refuses. */
  lemma BrokenNameIsRefused(oldName: string, newName: string, h: Span, entries: seq<Entry>)
    requires !OneLine(oldName) || !OneLine(newName)
    requires h.start <= h.oldEnd && h.start <= h.newEnd
    ensures ReadPatch(PatchText(oldName, newName, h, entries)).None?
  {
    NameLineSplits("--- ", oldName);
    NameLineSplits("+++ ", newName);
    hide OneLine, NameLine, HunkLine, RenderBody, ReadPatch, SplitInclusive, Ended, IsLine;
    HunkLineIsLine(h);
    LongHeaderIsRefused(NameLine("--- ", oldName), NameLine("+++ ", newName), HunkLine(h), RenderBody(entries));
  }

  lemma AbsentNameMisleads(patch: Patch, from: Option<string>, to: Option<string>)
    requires patch.oldName == ABSENT && patch.newName == ABSENT
    requires from.Some? || to.Some?
    ensures ApplyPatch(patch, from) != Some(to)
  {
  }

  /**
   For all contents, absent, empty or lacking a final line break: the diff turns the old file into the
   new one exactly for printable paths, or when the file is absent on both sides.
   */
  lemma DiffAppliesExactly(path: string, before: Option<string>, after: Option<string>)
    ensures Applies(DiffText(path, before, after), before, after) <==> PrintablePath(path) || (before.None? && after.None?)
  {
    var a, b := Lines(before), Lines(after);
    var oldName, newName := FileName(path, before), FileName(path, after);
    SignsAreOneLine();
    hide PatchText, ReadPatch, ApplyPatch, BeforeTab, OneLine, Lines, HunkSpan, Body, GoodEntries;
    if OneLine(oldName) && OneLine(newName) {
      DiffEntriesAreGood(before, after);
      ReadPrintedPatch(oldName, newName, HunkSpan(a, b), Body(a, b));
      if PrintablePath(path) || (before.None? && after.None?) {
        PrintedPatchApplies(path, before, after);
      } else {
        AbsentNameMisleads(PatchOf(path, before, after), before, after);
      }
    } else {
      BrokenNameIsRefused(oldName, newName, HunkSpan(a, b), Body(a, b));
    }
  }

  /** Read in reverse it turns the new file into the old one under the same condition. */
  lemma DiffReversesExactly(path: string, before: Option<string>, after: Option<string>)
    ensures Reverts(DiffText(path, before, after), before, after) <==> PrintablePath(path) || (before.None? && after.None?)
  {
    var a, b := Lines(before), Lines(after);
    var oldName, newName := FileName(path, before), FileName(path, after);
    SignsAreOneLine();
    hide PatchText, ReadPatch, ApplyPatch, BeforeTab, OneLine, Lines, HunkSpan, Body, GoodEntries;
    if OneLine(oldName) && OneLine(newName) {
      DiffEntriesAreGood(before, after);
      ReadPrintedPatch(oldName, newName, HunkSpan(a, b), Body(a, b));
      if PrintablePath(path) || (before.None? && after.None?) {
        PrintedPatchApplies(path, before, after);
      } else {
        AbsentNameMisleads(Reverse(PatchOf(path, before, after)), after, before);
      }
    } else {
      BrokenNameIsRefused(oldName, newName, HunkSpan(a, b), Body(a, b));
    }
  }
}
