/**
 What the splitter's segments are: read one by one they are the one-pass reading of the text, and they
 are its only cut at unquoted separators. Also how plain text, which is never cut, passes through.
 */
module ShellSegments {
  import opened ShellLexer

  /** Splitting and then reading each segment is the one-pass reference reading. */
  lemma {:induction false} SplitThenReadIsOnePass(text: string)
    ensures WordLists(Segments(text)) == Commands(text)
  {
    InStepRun(SplitStart, CommandState([], WordStart), text);
    var split := SplitRun(SplitStart, text);
    WordListsAppend(split.segments, [split.current]);
    assert WordLists([split.current]) == [Words(split.current)];
  }

  function Interleave(segments: seq<string>, breaks: string): string
    requires |segments| == |breaks| + 1
  {
    if breaks == "" then segments[0]
    else segments[0] + [breaks[0]] + Interleave(segments[1..], breaks[1..])
  }

  /** A cut: the pieces and separators spell the text, no piece can be cut, and every break is outside quotes. */
  ghost predicate IsCut(text: string, segments: seq<string>, breaks: string) {
    && |segments| == |breaks| + 1
    && Interleave(segments, breaks) == text
    && (forall i :: 0 <= i < |breaks| ==> IsSeparator(breaks[i]) && EndsNeutral(segments[i]))
    && (forall i :: 0 <= i < |segments| ==> Uncut(segments[i]))
  }

  predicate Uncut(segment: string) {
    SplitRun(SplitStart, segment).segments == []
  }

  /** `open` is what the splitter has collected since the last break. */
  ghost predicate Collected(st: SplitState) {
    SplitRun(SplitStart, st.current) == st.(segments := [])
  }

  lemma CutExtends(head: string, c: char, text: string, rest: seq<string>, later: string)
    requires EndsNeutral(head) && Uncut(head) && IsSeparator(c)
    requires IsCut(text, rest, later)
    ensures IsCut(head + [c] + text, [head] + rest, [c] + later)
  {
    var segments, breaks := [head] + rest, [c] + later;
    assert segments[1..] == rest && breaks[1..] == later;
    forall i | 0 <= i < |breaks| ensures IsSeparator(breaks[i]) && EndsNeutral(segments[i]) {
      if i > 0 {
        assert breaks[i] == later[i - 1] && segments[i] == rest[i - 1];
      }
    }
    forall i | 0 <= i < |segments| ensures Uncut(segments[i]) {
      if i > 0 {
        assert segments[i] == rest[i - 1];
      }
    }
  }

  lemma StepCutsOrCollects(st: SplitState, c: char)
    ensures var next := SplitStep(st, c);
      || (next.segments == st.segments && next.current == st.current + [c])
      || (&& next.segments == st.segments + [st.current] && next.current == ""
          && IsSeparator(c) && st.quote.Unquoted? && !st.escaped)
  {
  }

  lemma {:induction false} CutFrom(st: SplitState, text: string) returns (tail: seq<string>, breaks: string)
    requires Collected(st)
    ensures SplitFinish(SplitRun(st, text)) == st.segments + tail
    ensures IsCut(st.current + text, tail, breaks)
    decreases |text|
  {
    if text == "" {
      tail, breaks := [st.current], "";
      assert st.current + text == st.current;
    } else {
      SplitRunOne(SplitStart, st.current, text[0]);
      hide SplitStep, IsCut;
      StepCutsOrCollects(st, text[0]);
      var next := SplitStep(st, text[0]);
      var rest, later := CutFrom(next, text[1..]);
      tail, breaks := CutGlue(st, next, text, rest, later);
    }
  }

  lemma SplitRunTail(st: SplitState, text: string)
    requires text != ""
    ensures SplitRun(st, text) == SplitRun(SplitStep(st, text[0]), text[1..])
  {
  }

  lemma CollectedIsUncut(st: SplitState)
    requires Collected(st)
    ensures Uncut(st.current)
    ensures st.quote.Unquoted? && !st.escaped ==> EndsNeutral(st.current)
  {
  }

  lemma CutGlue(st: SplitState, next: SplitState, text: string, rest: seq<string>, later: string)
    returns (tail: seq<string>, breaks: string)
    requires Collected(st) && text != "" && next == SplitStep(st, text[0])
    requires SplitFinish(SplitRun(next, text[1..])) == next.segments + rest
    requires IsCut(next.current + text[1..], rest, later)
    ensures SplitFinish(SplitRun(st, text)) == st.segments + tail
    ensures IsCut(st.current + text, tail, breaks)
  {
    hide *;
    SplitRunTail(st, text);
    StepCutsOrCollects(st, text[0]);
    CollectedIsUncut(st);
    HeadOfText(st.current, text);
    tail, breaks := PutBreakBack(st, next, text[0], text[1..], rest, later);
  }

  /** The first character either is the next break or belongs to the first piece. */
  lemma PutBreakBack(st: SplitState, next: SplitState, c: char, text: string, rest: seq<string>, later: string)
    returns (tail: seq<string>, breaks: string)
    requires IsCut(next.current + text, rest, later)
    requires
      || (next.segments == st.segments && next.current == st.current + [c])
      || (&& next.segments == st.segments + [st.current] && next.current == ""
          && IsSeparator(c) && Uncut(st.current) && EndsNeutral(st.current))
    ensures next.segments + rest == st.segments + tail
    ensures IsCut(st.current + [c] + text, tail, breaks)
  {
    hide *;
    if next.segments == st.segments {
      tail, breaks := rest, later;
    } else {
      tail, breaks := [st.current] + rest, [c] + later;
      assert next.current + text == text;
      CutExtends(st.current, c, text, rest, later);
      assert st.segments + tail == next.segments + rest;
    }
  }

  lemma HeadOfText(current: string, text: string)
    requires text != ""
    ensures current + text == current + [text[0]] + text[1..]
  {
  }

  /** Segments interleaved with separators rebuild the text, and every cut is as fine as possible. */
  lemma SegmentsCutTheText(text: string) returns (breaks: string)
    ensures IsCut(text, Segments(text), breaks)
  {
    var tail, found := CutFrom(SplitStart, text);
    assert "" + text == text && [] + tail == tail;
    breaks := found;
  }

  /** Splitting distributes over a separator that stands outside quotes. */
  lemma SegmentsOfSequence(a: string, separator: char, b: string)
    requires EndsNeutral(a) && IsSeparator(separator)
    ensures Segments(a + [separator] + b) == Segments(a) + Segments(b)
  {
    var end := SplitRun(SplitStart, a);
    SplitRunOne(SplitStart, a, separator);
    SplitRunConcat(SplitStart, a + [separator], b);
    var closed := end.segments + [end.current];
    SplitRunShift(SplitStart, closed, b);
    assert SplitStart.(segments := closed) == SplitState(closed, "", Unquoted, false);
  }

  /** There is only one cut of a text, and it is what the splitter returns. */
  lemma {:induction false} CutIsUnique(text: string, segments: seq<string>, breaks: string)
    requires IsCut(text, segments, breaks)
    ensures Segments(text) == segments
    decreases |breaks|
  {
    SplitCurrent(SplitStart, segments[0]);
    assert "" + segments[0] == segments[0];
    assert Segments(segments[0]) == [segments[0]];
    if breaks == "" {
      assert segments == [segments[0]];
    } else {
      var rest := Interleave(segments[1..], breaks[1..]);
      CutIsUnique(rest, segments[1..], breaks[1..]);
      SegmentsOfSequence(segments[0], breaks[0], rest);
      assert segments == [segments[0]] + segments[1..];
    }
  }

  /** Without a cut the open segment is the whole text. */
  lemma {:induction false} SplitCurrent(st: SplitState, text: string)
    requires st.segments == []
    requires SplitRun(st, text).segments == []
    ensures SplitRun(st, text).current == st.current + text
    decreases |text|
  {
    if text == "" {
      assert st.current + text == st.current;
    } else {
      var next := SplitStep(st, text[0]);
      if next.segments != [] {
        SplitRunShift(next.(segments := []), next.segments, text[1..]);
        assert false;
      } else {
        SplitCurrent(next, text[1..]);
        assert st.current + text == (st.current + [text[0]]) + text[1..];
      }
    }
  }

  /** A run that never cuts carries any text already collected along unchanged. */
  lemma {:induction false} SplitRunPrefix(st: SplitState, prefix: string, text: string)
    requires st.segments == []
    requires SplitRun(st, text).segments == []
    ensures SplitRun(st.(current := prefix + st.current), text)
         == SplitRun(st, text).(current := prefix + SplitRun(st, text).current)
    decreases |text|
  {
    if text != "" {
      var c := text[0];
      var next := SplitStep(st, c);
      if next.segments != [] {
        SplitRunShift(next.(segments := []), next.segments, text[1..]);
        assert false;
      } else {
        assert prefix + (st.current + [c]) == prefix + st.current + [c];
        assert SplitStep(st.(current := prefix + st.current), c) == next.(current := prefix + next.current);
        SplitRunPrefix(next, prefix, text[1..]);
      }
    }
  }

  /** Plain text: one uncut segment that ends outside quotes. */
  ghost predicate Plain(text: string) {
    SplitRun(SplitStart, text) == SplitStart.(current := text)
  }

  lemma PlainIsOneSegment(text: string)
    requires Plain(text)
    ensures Segments(text) == [text] && EndsNeutral(text)
  {
  }

  lemma PlainConcat(a: string, b: string)
    requires Plain(a) && Plain(b)
    ensures Plain(a + b)
  {
    SplitRunConcat(SplitStart, a, b);
    SplitRunPrefix(SplitStart, a, b);
    assert a + "" == a;
  }
}
