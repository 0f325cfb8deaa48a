/** White space as Rust's char and str methods see it. */
module Whitespace {

  /** The Unicode White_Space property, as Rust's char::is_whitespace reports it. */
  predicate IsWhitespace(c: char) {
    var code := c as int;
    || 0x09 <= code <= 0x0D || code == 0x20 || code == 0x85 || code == 0xA0 || code == 0x1680
    || 0x2000 <= code <= 0x200A || code == 0x2028 || code == 0x2029 || code == 0x202F
    || code == 0x205F || code == 0x3000
  }

  /** The 25 characters of the property, one by one. */
  const WHITE_SPACE := "\t\n\U{B}\U{C}\r \U{85}\U{A0}\U{1680}\U{2000}\U{2001}\U{2002}\U{2003}\U{2004}\U{2005}"
    + "\U{2006}\U{2007}\U{2008}\U{2009}\U{200A}\U{2028}\U{2029}\U{202F}\U{205F}\U{3000}"

  lemma WhiteSpaceCharacters(c: char)
    ensures IsWhitespace(c) <==> c in WHITE_SPACE
  {
  }

  function TrimStart(text: string): string
    decreases |text|
  {
    if text != "" && IsWhitespace(text[0]) then TrimStart(text[1..]) else text
  }

  function TrimEnd(text: string): string
    decreases |text|
  {
    if text != "" && IsWhitespace(text[|text| - 1]) then TrimEnd(text[..|text| - 1]) else text
  }

  function Trim(text: string): string {
    TrimEnd(TrimStart(text))
  }

  ghost predicate AllWhite(text: string) {
    forall i :: 0 <= i < |text| ==> IsWhitespace(text[i])
  }

  /** What is left when white space is taken off both ends. */
  ghost predicate IsCore(text: string, core: string) {
    && (core != "" ==> !IsWhitespace(core[0]) && !IsWhitespace(core[|core| - 1]))
    && exists before, after :: text == before + core + after && AllWhite(before) && AllWhite(after)
  }

  lemma {:induction false} TrimEndMeaning(text: string) returns (after: string)
    ensures text == TrimEnd(text) + after && AllWhite(after)
    ensures TrimEnd(text) != "" ==> !IsWhitespace(TrimEnd(text)[|TrimEnd(text)| - 1])
    decreases |text|
  {
    after := "";
    if text != "" && IsWhitespace(text[|text| - 1]) {
      var rest := TrimEndMeaning(text[..|text| - 1]);
      after := rest + [text[|text| - 1]];
      assert text == text[..|text| - 1] + [text[|text| - 1]];
    }
  }

  lemma {:induction false} TrimStartMeaning(text: string) returns (before: string)
    ensures text == before + TrimStart(text) && AllWhite(before)
    ensures TrimStart(text) != "" ==> !IsWhitespace(TrimStart(text)[0])
    decreases |text|
  {
    before := "";
    if text != "" && IsWhitespace(text[0]) {
      var rest := TrimStartMeaning(text[1..]);
      before := [text[0]] + rest;
      assert text == [text[0]] + text[1..];
    }
  }

  lemma TrimIsCore(text: string)
    ensures IsCore(text, Trim(text))
  {
    var before := TrimStartMeaning(text);
    var after := TrimEndMeaning(TrimStart(text));
    assert text == before + Trim(text) + after;
  }

  /** White space around a text that neither begins nor ends with any is all that goes. */
  lemma {:induction false} TrimKeepsCore(core: string, after: string)
    requires core != "" && !IsWhitespace(core[0]) && !IsWhitespace(core[|core| - 1])
    requires forall i :: 0 <= i < |after| ==> IsWhitespace(after[i])
    ensures Trim(core + after) == core
  {
    var text := core + after;
    assert TrimStart(text) == text;
    if after == "" {
      assert text == core;
    } else {
      assert text[..|text| - 1] == core + after[..|after| - 1];
      TrimKeepsCore(core, after[..|after| - 1]);
      assert TrimStart(text[..|text| - 1]) == text[..|text| - 1];
    }
  }
}
