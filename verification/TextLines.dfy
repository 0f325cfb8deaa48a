/** Cutting a text into lines that keep their line break, and putting them together again. */
module TextLines {

  /** One past the first line break, or the end of the text. */
  function LineEnd(text: string): (n: nat)
    requires text != ""
    ensures 0 < n <= |text|
    ensures forall i :: 0 <= i < n - 1 ==> text[i] != '\n'
    ensures n < |text| ==> text[n - 1] == '\n'
  {
    if text[0] == '\n' || |text| == 1 then 1 else 1 + LineEnd(text[1..])
  }

  function SplitInclusive(text: string): seq<string>
    decreases |text|
  {
    if text == "" then [] else [text[..LineEnd(text)]] + SplitInclusive(text[LineEnd(text)..])
  }

  function Join(lines: seq<string>): string {
    if lines == [] then "" else lines[0] + Join(lines[1..])
  }

  predicate Ended(line: string) {
    line != "" && line[|line| - 1] == '\n'
  }

  /** Non-empty, with a line break at most at the end. */
  predicate IsLine(line: string) {
    line != "" && forall i :: 0 <= i < |line| - 1 ==> line[i] != '\n'
  }

  /** A text's lines: only the last may lack its line break. */
  predicate IsLines(lines: seq<string>) {
    && (forall i :: 0 <= i < |lines| ==> IsLine(lines[i]))
    && (forall i :: 0 <= i < |lines| - 1 ==> Ended(lines[i]))
  }

  lemma JoinCons(line: string, lines: seq<string>)
    ensures Join([line] + lines) == line + Join(lines)
  {
  }

  /** A non-empty text is its first line followed by the rest. */
  lemma FirstLineOf(text: string) returns (line: string, rest: string)
    requires text != ""
    ensures text == line + rest && |rest| < |text|
    ensures IsLine(line) && (Ended(line) || rest == "")
    ensures SplitInclusive(text) == [line] + SplitInclusive(rest)
    ensures Ended(text) ==> Ended(line) && (rest == "" || Ended(rest))
  {
    hide Join;
    var n := LineEnd(text);
    line, rest := text[..n], text[n..];
    assert rest != "" ==> rest[|rest| - 1] == text[|text| - 1];
  }

  lemma {:induction false} SplitThenJoin(text: string)
    ensures Join(SplitInclusive(text)) == text
    ensures IsLines(SplitInclusive(text))
    decreases |text|
  {
    if text != "" {
      var line, rest := FirstLineOf(text);
      SplitThenJoin(rest);
      hide SplitInclusive, Join, IsLine, IsLines;
      JoinCons(line, SplitInclusive(rest));
    }
  }

  lemma FirstLineEnd(line: string, rest: string)
    requires IsLine(line) && (Ended(line) || rest == "")
    ensures LineEnd(line + rest) == |line|
  {
    var text := line + rest;
    assert text[|line| - 1] == line[|line| - 1];
    assert forall i :: 0 <= i < |line| - 1 ==> text[i] == line[i];
  }

  lemma SplitFirstLine(line: string, rest: string)
    requires IsLine(line) && (Ended(line) || rest == "")
    ensures SplitInclusive(line + rest) == [line] + SplitInclusive(rest)
  {
    FirstLineEnd(line, rest);
    assert (line + rest)[..|line|] == line && (line + rest)[|line|..] == rest;
  }

  lemma {:induction false} JoinThenSplit(lines: seq<string>)
    requires IsLines(lines)
    ensures SplitInclusive(Join(lines)) == lines
  {
    if lines != [] {
      JoinThenSplit(lines[1..]);
      SplitFirstLine(lines[0], Join(lines[1..]));
    }
  }

  lemma {:induction false} JoinConcat(a: seq<string>, b: seq<string>)
    ensures Join(a + b) == Join(a) + Join(b)
  {
    if a == [] {
      assert a + b == b;
    } else {
      assert (a + b)[0] == a[0] && (a + b)[1..] == a[1..] + b;
      JoinConcat(a[1..], b);
    }
  }

  lemma {:induction false} LastLineOf(lines: seq<string>)
    requires IsLines(lines) && lines != []
    ensures Join(lines) != ""
    ensures Ended(Join(lines)) <==> Ended(lines[|lines| - 1])
  {
    if |lines| == 1 {
      assert Join(lines) == lines[0] + "";
    } else {
      var rest := lines[1..];
      LastLineOf(rest);
      assert rest[|rest| - 1] == lines[|lines| - 1];
      var text := Join(lines);
      assert text[|text| - 1] == Join(rest)[|Join(rest)| - 1];
    }
  }

  /** A text that ends its last line splits independently of what follows. */
  lemma SplitConcat(a: string, b: string)
    requires a == "" || Ended(a)
    ensures SplitInclusive(a + b) == SplitInclusive(a) + SplitInclusive(b)
  {
    hide SplitInclusive, Join;
    SplitThenJoin(a);
    SplitThenJoin(b);
    var head, tail := SplitInclusive(a), SplitInclusive(b);
    if head != [] {
      LastLineOf(head);
    } else {
      assert Join(head) == "" by { JoinOfNothing(); }
    }
    JoinConcat(head, tail);
    JoinThenSplit(head + tail);
  }

  lemma JoinOfNothing()
    ensures Join([]) == ""
  {
  }
}
