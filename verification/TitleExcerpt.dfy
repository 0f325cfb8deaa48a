/**
 The excerpt from which a conversation title is made: the first message and its pasted files, at most
 8,000 characters. Files are read only up to a byte bound; the lemmas compare this with reading them
 whole. A file is its bytes, or the error of opening or reading it.
 */
module TitleExcerpt {
  import opened Wrappers
  import opened Whitespace
  import opened Utf8

  const MAX_CHARACTERS := 8000
  const HEADING := "First user message (excerpt, at most 8,000 characters):\n"

  type File = Result<seq<Byte>, string>

  datatype Error = ReadFailed(error: string) | Invalid(upTo: nat) | Empty

  /** The characters before a cut; anything else that is not UTF-8 is refused. */
  function ReadText(bytes: seq<Byte>): Result<string, Error> {
    var v := Validate(bytes);
    if v.ending.Malformed? then Failure(Invalid(v.upTo)) else Success(v.text)
  }

  /** What is read when `remaining` characters are free: four bytes for each, or the whole file. */
  function Portion(bytes: seq<Byte>, remaining: nat, whole: bool): seq<Byte> {
    if whole then bytes else Take(bytes, 4 * remaining)
  }

  /** Appends the pasted files while more than one character is free. */
  function Pasted(excerpt: string, files: seq<File>, whole: bool): Result<string, Error>
    requires |excerpt| <= MAX_CHARACTERS
    decreases |files|
  {
    var remaining := MAX_CHARACTERS - |excerpt|;
    if files == [] || remaining <= 1 then Success(excerpt)
    else
      match files[0]
      case Failure(error) => Failure(ReadFailed(error))
      case Success(bytes) =>
        match ReadText(Portion(bytes, remaining, whole))
        case Failure(error) => Failure(error)
        case Success(text) => Pasted(excerpt + "\n" + Take(text, remaining - 1), files[1..], whole)
  }

  function Excerpt(text: string, files: seq<File>, whole: bool): Result<string, Error> {
    match Pasted(Take(text, MAX_CHARACTERS), files, whole)
    case Failure(error) => Failure(error)
    case Success(excerpt) => if Trim(excerpt) == "" then Failure(Empty) else Success(HEADING + excerpt)
  }

  method TitleRequestExcerpt(text: string, files: seq<File>) returns (result: Result<string, Error>)
    ensures result == Excerpt(text, files, false)
    ensures result.Success? ==> HEADING <= result.value && |result.value| <= |HEADING| + MAX_CHARACTERS
  {
    hide Validate, Trim, HEADING, Take;
    var excerpt := Take(text, MAX_CHARACTERS);
    var i := 0;
    while i < |files|
      invariant i <= |files| && |excerpt| <= MAX_CHARACTERS
      invariant Pasted(Take(text, MAX_CHARACTERS), files, false) == Pasted(excerpt, files[i..], false)
    {
      assert files[i..][0] == files[i] && files[i..][1..] == files[i + 1..];
      var remaining := MAX_CHARACTERS - |excerpt|;
      if remaining <= 1 {
        break;
      }
      if files[i].Failure? {
        return Failure(ReadFailed(files[i].error));
      }
      var bytes := Take(files[i].value, remaining * 4);
      var v := Validate(bytes);
      var read: string;
      match v.ending {
        case Whole =>
          read := v.text;
        case CutShort =>
          PrefixIsValid(bytes);
          read := Validate(bytes[..v.upTo]).text;
        case Malformed(_, _) =>
          return Failure(Invalid(v.upTo));
      }
      excerpt := excerpt + "\n" + Take(read, remaining - 1);
      i := i + 1;
    }
    if Trim(excerpt) == "" {
      return Failure(Empty);
    }
    return Success(HEADING + excerpt);
  }

  /** The part before a cut is itself valid, with the same characters. */
  lemma PrefixIsValid(bytes: seq<Byte>)
    ensures var v := Validate(bytes); Validate(bytes[..v.upTo]) == Verdict(v.text, v.upTo, Whole)
  {
    ValidPartIsEncoded(bytes);
    EncodedIsValid(Validate(bytes).text);
  }

  /******* What the excerpt is *******/

  /** The message's beginning and all the files, a line break before each. */
  function Everything(excerpt: string, texts: seq<string>): string
    decreases |texts|
  {
    if texts == [] then excerpt else Everything(excerpt + "\n" + texts[0], texts[1..])
  }

  ghost predicate AreTexts(files: seq<File>, texts: seq<string>) {
    |texts| == |files| && forall i :: 0 <= i < |files| ==> files[i].Success? && ReadText(files[i].value) == Success(texts[i])
  }

  lemma {:induction false} EverythingGrows(excerpt: string, texts: seq<string>)
    ensures excerpt <= Everything(excerpt, texts)
    decreases |texts|
  {
    if texts != [] {
      EverythingGrows(excerpt + "\n" + texts[0], texts[1..]);
    }
  }

  lemma {:induction false} PastedIsPrefix(excerpt: string, files: seq<File>, texts: seq<string>)
    requires |excerpt| <= 8000 && AreTexts(files, texts)
    ensures var pasted, all := Pasted(excerpt, files, true), Everything(excerpt, texts);
      pasted.Success? && excerpt <= pasted.value <= all && |pasted.value| <= 8000
      && (pasted.value == all || |pasted.value| >= 7999)
    decreases |files|
  {
    var remaining := 8000 - |excerpt|;
    EverythingGrows(excerpt, texts);
    if files != [] && remaining > 1 {
      assert ReadText(Portion(files[0].value, remaining, true)) == Success(texts[0]);
      var shown := Take(texts[0], remaining - 1);
      var next, whole := excerpt + "\n" + shown, excerpt + "\n" + texts[0];
      hide ReadText, Take;
      assert next <= whole;
      if |next| < 8000 {
        assert shown == texts[0];
        PastedIsPrefix(next, files[1..], texts[1..]);
      } else {
        EverythingGrows(whole, texts[1..]);
        assert Pasted(next, files[1..], true) == Success(next);
      }
    }
  }

  /**
   From whole files the excerpt is the beginning of the message and all the files, each after a line
   break: all of it, or at least 7,999 and at most 8,000 characters.
   */
  lemma ExcerptIsTheBeginning(text: string, files: seq<File>, texts: seq<string>)
    requires AreTexts(files, texts)
    ensures
      var first := if |text| <= 8000 then text else text[..8000];
      var all := Everything(first, texts);
      match Excerpt(text, files, true)
      case Success(result) =>
        exists excerpt :: result == "First user message (excerpt, at most 8,000 characters):\n" + excerpt
          && excerpt <= all && |excerpt| <= 8000 && (excerpt == all || |excerpt| >= 7999) && Trim(excerpt) != ""
      case Failure(error) => error == Empty && exists excerpt :: excerpt <= all && (excerpt == all || |excerpt| >= 7999) && Trim(excerpt) == ""
  {
    var first := if |text| <= 8000 then text else text[..8000];
    PastedIsPrefix(first, files, texts);
    assert first == Take(text, 8000);
    hide Pasted, Everything, Trim;
  }

  /******* The byte bound loses nothing *******/

  lemma {:induction false} LengthOfPrefix(text: string, k: nat)
    requires k <= |text|
    ensures Length(text[..k]) <= 4 * k
  {
    EncodedLength(text[..k]);
  }

  /** Four bytes a character hold at least that many characters, or all there are. */
  lemma BoundHoldsEnough(text: string, remaining: nat)
    ensures Fit(text, 4 * remaining) >= remaining || Fit(text, 4 * remaining) == |text|
  {
    var m := if remaining <= |text| then remaining else |text|;
    FitIsLongest(text, 4 * remaining);
    LengthOfPrefix(text, m);
  }

  /** The error lies inside the bound. */
  predicate ErrorSeen(bytes: seq<Byte>, remaining: nat) {
    var v := Validate(bytes);
    v.ending.Malformed? ==> v.upTo + v.ending.seen <= 4 * remaining
  }

  /** What one bounded read yields, for any bytes at all. */
  lemma BoundedReadMeaning(bytes: seq<Byte>, remaining: nat)
    requires remaining > 1
    ensures
      var v := Validate(bytes);
      var bounded := ReadText(Portion(bytes, remaining, false));
      && (bounded.Failure? <==> v.ending.Malformed? && ErrorSeen(bytes, remaining))
      && (bounded.Failure? ==> bounded == ReadText(bytes))
      && (bounded.Success? ==> Take(bounded.value, remaining - 1) == Take(v.text, remaining - 1))
  {
    hide Validate, Fit, Length;
    var n := 4 * remaining;
    var v := Validate(bytes);
    if |bytes| > n {
      assert Portion(bytes, remaining, false) == bytes[..n];
      ValidatePrefix(bytes, n);
      BoundHoldsEnough(v.text, remaining);
      FitOfValidPart(bytes, n);
      assert v.text[..|v.text|] == v.text;
    }
  }

  /** Past the valid part every valid character fits. */
  lemma FitOfValidPart(bytes: seq<Byte>, n: nat)
    ensures var v := Validate(bytes); v.upTo <= n ==> Fit(v.text, n) == |v.text| && v.upTo == Length(v.text)
  {
  }

  /** One file: the bounded read agrees with the whole one exactly when no error lies beyond the bound. */
  lemma BoundedAgreesExactly(bytes: seq<Byte>, remaining: nat)
    requires remaining > 1
    ensures
      var bounded, whole := ReadText(Portion(bytes, remaining, false)), ReadText(Portion(bytes, remaining, true));
      (bounded.Failure? <==> whole.Failure?) <==> ErrorSeen(bytes, remaining)
  {
    BoundedReadMeaning(bytes, remaining);
  }

  /** Every file that can be read is valid UTF-8, or ends inside its last character. */
  ghost predicate NoneMalformed(files: seq<File>) {
    forall i :: 0 <= i < |files| && files[i].Success? ==> !Validate(files[i].value).ending.Malformed?
  }

  /**
   Where the first error beyond its bound stands, among the files that bounded reading reaches; None if
   there is none.
   */
  function UnseenError(excerpt: string, files: seq<File>): Option<nat>
    requires |excerpt| <= MAX_CHARACTERS
    decreases |files|
  {
    var remaining := MAX_CHARACTERS - |excerpt|;
    if files == [] || remaining <= 1 || files[0].Failure? then None
    else
      var bytes := files[0].value;
      if !ErrorSeen(bytes, remaining) then Some(Validate(bytes).upTo)
      else
        match ReadText(Portion(bytes, remaining, false))
        case Failure(_) => None
        case Success(text) => UnseenError(excerpt + "\n" + Take(text, remaining - 1), files[1..])
  }

  lemma {:induction false} PastedExactly(excerpt: string, files: seq<File>)
    requires |excerpt| <= MAX_CHARACTERS
    ensures Pasted(excerpt, files, true)
         == match UnseenError(excerpt, files)
            case None => Pasted(excerpt, files, false)
            case Some(upTo) => Failure(Invalid(upTo))
    decreases |files|
  {
    hide Validate, Take;
    var remaining := MAX_CHARACTERS - |excerpt|;
    if files != [] && remaining > 1 && files[0].Success? {
      var bytes := files[0].value;
      BoundedReadMeaning(bytes, remaining);
      var bounded := ReadText(Portion(bytes, remaining, false));
      assert Portion(bytes, remaining, true) == bytes;
      if !Validate(bytes).ending.Malformed? {
        assert ReadText(bytes) == Success(Validate(bytes).text);
        hide Portion, ReadText, ErrorSeen;
        PastedExactly(excerpt + "\n" + Take(bounded.value, remaining - 1), files[1..]);
      }
    }
  }

  /** A file with an error beyond its bound fills the excerpt: no later file is reached. */
  lemma UnseenErrorFills(bytes: seq<Byte>, remaining: nat)
    requires remaining > 1 && !ErrorSeen(bytes, remaining)
    ensures
      var bounded := ReadText(Portion(bytes, remaining, false));
      bounded.Success? && |Take(bounded.value, remaining - 1)| == remaining - 1
  {
    hide Validate, Encode, Length;
    BoundedReadMeaning(bytes, remaining);
    ValidPartIsEncoded(bytes);
    EncodedLength(Validate(bytes).text);
    assert |Encode(Validate(bytes).text)| == Validate(bytes).upTo;
  }

  lemma {:induction false} UnseenErrorSucceeds(excerpt: string, files: seq<File>)
    requires |excerpt| <= MAX_CHARACTERS && UnseenError(excerpt, files).Some?
    ensures Pasted(excerpt, files, false).Success?
    decreases |files|
  {
    hide Take;
    var remaining := MAX_CHARACTERS - |excerpt|;
    var bytes := files[0].value;
    var bounded := ReadText(Portion(bytes, remaining, false));
    if !ErrorSeen(bytes, remaining) {
      UnseenErrorFills(bytes, remaining);
      hide ErrorSeen, ReadText, Portion, UnseenError;
      var full := excerpt + "\n" + Take(bounded.value, remaining - 1);
      assert Pasted(full, files[1..], false) == Success(full);
    } else {
      hide ErrorSeen, ReadText, Portion;
      UnseenErrorSucceeds(excerpt + "\n" + Take(bounded.value, remaining - 1), files[1..]);
    }
  }

  /**
   Reading whole files gives what the bounded reads give if and only if no file that these reach has an
   error beyond its bound; otherwise the whole reading is refused exactly there.
   */
  lemma WholeReadingExactly(text: string, files: seq<File>)
    ensures
      var bounded, whole := Excerpt(text, files, false), Excerpt(text, files, true);
      var unseen := UnseenError(Take(text, MAX_CHARACTERS), files);
      && (whole == bounded <==> unseen.None?)
      && (unseen.Some? ==> whole == Failure(Invalid(unseen.value)))
      && (whole.Success? <==> bounded.Success? && unseen.None?)
  {
    hide Pasted, UnseenError, Take, Trim, HEADING;
    PastedExactly(Take(text, MAX_CHARACTERS), files);
    if UnseenError(Take(text, MAX_CHARACTERS), files).Some? {
      UnseenErrorSucceeds(Take(text, MAX_CHARACTERS), files);
    }
  }

  lemma {:induction false} NoneMalformedNoneUnseen(excerpt: string, files: seq<File>)
    requires |excerpt| <= MAX_CHARACTERS && NoneMalformed(files)
    ensures UnseenError(excerpt, files).None?
    decreases |files|
  {
    hide Validate, Take;
    var remaining := MAX_CHARACTERS - |excerpt|;
    if files != [] && remaining > 1 && files[0].Success? {
      var bounded := ReadText(Portion(files[0].value, remaining, false));
      if bounded.Success? {
        NoneMalformedNoneUnseen(excerpt + "\n" + Take(bounded.value, remaining - 1), files[1..]);
      }
    }
  }

  /**
   Whenever whole files give an excerpt, and for files of valid UTF-8 also when they give an error,
   bounding the reads changes nothing.
   */
  lemma BoundedReadsLoseNothing(text: string, files: seq<File>)
    requires Excerpt(text, files, true).Success? || NoneMalformed(files)
    ensures Excerpt(text, files, false) == Excerpt(text, files, true)
  {
    hide Excerpt, UnseenError, Take, NoneMalformed;
    WholeReadingExactly(text, files);
    if NoneMalformed(files) {
      NoneMalformedNoneUnseen(Take(text, MAX_CHARACTERS), files);
    }
  }

  /******* An error beyond the bound *******/

  const LETTER: Byte := 97

  function Letters(n: nat): string {
    seq(n, i => 'a')
  }

  /** So many letters, and then a byte that no character contains. */
  function BrokenFile(n: nat): seq<Byte> {
    seq(n, i => LETTER) + [0xFF]
  }

  lemma LetterFirst(rest: seq<Byte>)
    ensures var v := Validate(rest);
      Validate([LETTER] + rest) == Verdict("a" + v.text, 1 + v.upTo, v.ending)
  {
    var bytes := [LETTER] + rest;
    assert bytes[0] == LETTER && bytes[1..] == rest;
    assert ScanOne(bytes) == Char('a', 1);
  }

  lemma NothingOrNoCharacter()
    ensures Validate([]) == Verdict("", 0, Whole) && Validate([0xFF]) == Verdict("", 0, Malformed(1, 1))
  {
  }

  lemma {:induction false} BrokenFileVerdict(n: nat)
    ensures Validate(BrokenFile(n)) == Verdict(Letters(n), n, Malformed(1, 1))
    ensures Validate(BrokenFile(n)[..n]) == Verdict(Letters(n), n, Whole)
  {
    hide Validate;
    if n == 0 {
      NothingOrNoCharacter();
      assert BrokenFile(0) == [0xFF];
    } else {
      assert BrokenFile(n) == [LETTER] + BrokenFile(n - 1);
      assert BrokenFile(n)[..n] == [LETTER] + BrokenFile(n - 1)[..n - 1];
      assert "a" + Letters(n - 1) == Letters(n);
      BrokenFileVerdict(n - 1);
      LetterFirst(BrokenFile(n - 1));
      LetterFirst(BrokenFile(n - 1)[..n - 1]);
    }
  }

  lemma OneFilePasted(text: string, bytes: seq<Byte>, whole: bool)
    requires |text| == MAX_CHARACTERS - 2
    ensures Pasted(text, [Success(bytes)], whole)
         == match ReadText(Portion(bytes, 2, whole))
            case Failure(error) => Failure(error)
            case Success(read) => Success(text + "\n" + Take(read, 1))
  {
    hide ReadText, Portion;
    var files: seq<File> := [Success(bytes)];
    assert files[1..] == [];
    var read := ReadText(Portion(bytes, 2, whole));
    if read.Success? {
      var full := text + "\n" + Take(read.value, 1);
      assert Pasted(full, [], whole) == Success(full);
    }
  }

  lemma ExcerptOfPasted(text: string, files: seq<File>, whole: bool)
    requires |text| <= MAX_CHARACTERS
    ensures match Pasted(text, files, whole)
            case Failure(error) => Excerpt(text, files, whole) == Failure(error)
            case Success(excerpt) =>
              excerpt != "" && !IsWhitespace(excerpt[0]) && !IsWhitespace(excerpt[|excerpt| - 1]) ==>
                Excerpt(text, files, whole).Success?
  {
    hide Pasted, HEADING, Trim, IsWhitespace;
    assert Take(text, MAX_CHARACTERS) == text;
    match Pasted(text, files, whole) {
      case Failure(_) =>
      case Success(excerpt) =>
        if excerpt != "" && !IsWhitespace(excerpt[0]) && !IsWhitespace(excerpt[|excerpt| - 1]) {
          assert excerpt + "" == excerpt;
          TrimKeepsCore(excerpt, "");
        }
    }
  }

  lemma BrokenFileRead()
    ensures ReadText(Portion(BrokenFile(8), 2, false)) == Success(Letters(8)) && Take(Letters(8), 1) == "a"
    ensures ReadText(Portion(BrokenFile(8), 2, true)) == Failure(Invalid(8))
  {
    BrokenFileVerdict(8);
    hide Validate;
  }

  lemma Framed(text: string)
    requires |text| == MAX_CHARACTERS - 2 && !IsWhitespace(text[0])
    ensures var excerpt := text + "\n" + "a";
      excerpt != "" && !IsWhitespace(excerpt[0]) && !IsWhitespace(excerpt[|excerpt| - 1])
  {
    var excerpt := text + "\n" + "a";
    assert excerpt[0] == text[0] && excerpt[|excerpt| - 1] == 'a';
  }

  lemma BrokenFilePasted(text: string)
    requires |text| == MAX_CHARACTERS - 2
    ensures Pasted(text, [Success(BrokenFile(8))], false) == Success(text + "\n" + "a")
    ensures Pasted(text, [Success(BrokenFile(8))], true) == Failure(Invalid(8))
  {
    hide Pasted, ReadText, Portion, BrokenFile, Letters, Take;
    BrokenFileRead();
    OneFilePasted(text, BrokenFile(8), false);
    OneFilePasted(text, BrokenFile(8), true);
  }

  /** Any message that leaves two characters free, with a file whose error follows its eight bytes: accepted, though not UTF-8. */
  lemma UnseenErrorIsAccepted(text: string)
    requires |text| == MAX_CHARACTERS - 2 && !IsWhitespace(text[0])
    ensures Excerpt(text, [Success(BrokenFile(8))], false).Success?
    ensures Excerpt(text, [Success(BrokenFile(8))], true) == Failure(Invalid(8))
  {
    hide Excerpt, Pasted, BrokenFile, IsWhitespace;
    Framed(text);
    BrokenFilePasted(text);
    ExcerptOfPasted(text, [Success(BrokenFile(8))], false);
    ExcerptOfPasted(text, [Success(BrokenFile(8))], true);
  }
}
