/**
 UTF-8 (section 3 of RFC 3629): the encoder, the validator as Rust's std::str::from_utf8 reports, and
 what cutting an encoded text at any byte leaves.
 */
module Utf8 {

  type Byte = b: int | 0 <= b < 256

  /******* Encoding *******/

  function Width(c: char): (w: nat)
    ensures 1 <= w <= 4
  {
    var code := c as int;
    if code < 0x80 then 1 else if code < 0x800 then 2 else if code < 0x10000 then 3 else 4
  }

  function EncodeChar(c: char): (bytes: seq<Byte>)
    ensures |bytes| == Width(c)
  {
    var code := c as int;
    if code < 0x80 then [code]
    else if code < 0x800 then [0xC0 + code / 64, 0x80 + code % 64]
    else if code < 0x10000 then [0xE0 + code / 4096, 0x80 + code / 64 % 64, 0x80 + code % 64]
    else [0xF0 + code / 262144, 0x80 + code / 4096 % 64, 0x80 + code / 64 % 64, 0x80 + code % 64]
  }

  function Encode(text: string): seq<Byte>
    decreases |text|
  {
    if text == "" then [] else EncodeChar(text[0]) + Encode(text[1..])
  }

  function Length(text: string): nat
    decreases |text|
  {
    if text == "" then 0 else Width(text[0]) + Length(text[1..])
  }

  lemma {:induction false} EncodedLength(text: string)
    ensures |Encode(text)| == Length(text) <= 4 * |text|
    decreases |text|
  {
    if text != "" {
      EncodedLength(text[1..]);
    }
  }

  /******* Validating *******/

  predicate IsContinuation(b: Byte) {
    0x80 <= b < 0xC0
  }

  /** The payload of a byte above its marker. */
  function Bits(b: Byte, marker: int): int {
    b as int - marker
  }

  /** The ranges of the second byte that exclude overlong forms, surrogates and codes above 10FFFF. */
  predicate SecondFits(first: Byte, second: Byte) {
    IsContinuation(second)
    && (first == 0xE0 ==> second >= 0xA0) && (first == 0xED ==> second < 0xA0)
    && (first == 0xF0 ==> second >= 0x90) && (first == 0xF4 ==> second < 0x90)
  }

  /**
   The first character of some bytes; Cut when they end inside a character; Bad with the length to
   skip and the number of bytes that show the error.
   */
  datatype Scan = Char(c: char, width: nat) | Cut | Bad(length: nat, seen: nat)

  function ScanOne(bytes: seq<Byte>): (scan: Scan)
    requires bytes != []
    ensures scan.Char? ==> 1 <= scan.width <= |bytes| && scan.width == Width(scan.c)
    ensures scan.Bad? ==> 1 <= scan.seen <= |bytes| && scan.seen <= 4
  {
    var first := bytes[0];
    if first < 0x80 then Char(first as char, 1)
    else if 0xC2 <= first < 0xE0 then
      if |bytes| < 2 then Cut
      else if !IsContinuation(bytes[1]) then Bad(1, 2)
      else Char((Bits(first, 0xC0) * 64 + Bits(bytes[1], 0x80)) as char, 2)
    else if 0xE0 <= first < 0xF0 then
      if |bytes| < 2 then Cut
      else if !SecondFits(first, bytes[1]) then Bad(1, 2)
      else if |bytes| < 3 then Cut
      else if !IsContinuation(bytes[2]) then Bad(2, 3)
      else Char((Bits(first, 0xE0) * 4096 + Bits(bytes[1], 0x80) * 64 + Bits(bytes[2], 0x80)) as char, 3)
    else if 0xF0 <= first < 0xF5 then
      if |bytes| < 2 then Cut
      else if !SecondFits(first, bytes[1]) then Bad(1, 2)
      else if |bytes| < 3 then Cut
      else if !IsContinuation(bytes[2]) then Bad(2, 3)
      else if |bytes| < 4 then Cut
      else if !IsContinuation(bytes[3]) then Bad(3, 4)
      else
        Char((Bits(first, 0xF0) * 262144 + Bits(bytes[1], 0x80) * 4096 + Bits(bytes[2], 0x80) * 64 + Bits(bytes[3], 0x80)) as char, 4)
    else Bad(1, 1)
  }

  datatype Ending = Whole | CutShort | Malformed(length: nat, seen: nat)

  /** The valid characters up to the first problem, how many bytes they take, and how it ends. */
  datatype Verdict = Verdict(text: string, upTo: nat, ending: Ending)

  function Validate(bytes: seq<Byte>): (v: Verdict)
    ensures v.upTo <= |bytes|
    ensures v.ending.Malformed? ==> 1 <= v.ending.seen <= 4 && v.upTo + v.ending.seen <= |bytes|
    decreases |bytes|
  {
    if bytes == [] then Verdict("", 0, Whole)
    else
      match ScanOne(bytes)
      case Cut => Verdict("", 0, CutShort)
      case Bad(length, seen) => Verdict("", 0, Malformed(length, seen))
      case Char(c, width) =>
        var rest := Validate(bytes[width..]);
        Verdict([c] + rest.text, width + rest.upTo, rest.ending)
  }

  /******* One character *******/

  /** The validator reads back what the encoder writes, whatever follows. */
  lemma ScanEncoded(c: char, rest: seq<Byte>)
    ensures ScanOne(EncodeChar(c) + rest) == Char(c, Width(c))
  {
    var code := c as int;
    Parts(code);
    var bytes := EncodeChar(c) + rest;
    if code < 0x80 {
      assert bytes[0] == code;
    } else if code < 0x800 {
      assert bytes[0] == 0xC0 + code / 64 && bytes[1] == 0x80 + code % 64;
    } else if code < 0x10000 {
      assert bytes[0] == 0xE0 + code / 4096 && bytes[1] == 0x80 + code / 64 % 64 && bytes[2] == 0x80 + code % 64;
    } else {
      assert bytes[0] == 0xF0 + code / 262144 && bytes[1] == 0x80 + code / 4096 % 64;
      assert bytes[2] == 0x80 + code / 64 % 64 && bytes[3] == 0x80 + code % 64;
    }
  }

  lemma Parts(code: int)
    requires 0 <= code
    ensures code == code / 64 * 64 + code % 64
    ensures code / 64 == code / 4096 * 64 + code / 64 % 64
    ensures code / 4096 == code / 262144 * 64 + code / 4096 % 64
  {
  }

  lemma ThreeDigits(x: int, y: int, z: int)
    requires 0 <= x && 0 <= y < 64 && 0 <= z < 64
    ensures
      var code := x * 4096 + y * 64 + z;
      code / 4096 == x && code / 64 == x * 64 + y && code / 64 % 64 == y && code % 64 == z
  {
  }

  lemma FourDigits(w: int, x: int, y: int, z: int)
    requires 0 <= w && 0 <= x < 64 && 0 <= y < 64 && 0 <= z < 64
    ensures
      var code := w * 262144 + x * 4096 + y * 64 + z;
      code / 262144 == w && code / 4096 % 64 == x && code / 64 % 64 == y && code % 64 == z
  {
    ThreeDigits(w * 64 + x, y, z);
    assert w * 262144 + x * 4096 + y * 64 + z == (w * 64 + x) * 4096 + y * 64 + z;
  }

  /** Only the shortest form is accepted: the bytes read are the encoding of the character. */
  lemma ScannedIsEncoded(bytes: seq<Byte>)
    requires bytes != [] && ScanOne(bytes).Char?
    ensures EncodeChar(ScanOne(bytes).c) == bytes[..ScanOne(bytes).width]
  {
    var scan := ScanOne(bytes);
    if scan.width == 2 {
    } else if scan.width == 3 {
      ThreeDigits(Bits(bytes[0], 0xE0), Bits(bytes[1], 0x80), Bits(bytes[2], 0x80));
    } else if scan.width == 4 {
      FourDigits(Bits(bytes[0], 0xF0), Bits(bytes[1], 0x80), Bits(bytes[2], 0x80), Bits(bytes[3], 0x80));
    }
  }

  /** Cutting before the deciding byte makes any answer a cut. */
  lemma ScanPrefix(bytes: seq<Byte>, n: nat)
    requires 0 < n <= |bytes|
    ensures ScanOne(bytes[..n])
         == match ScanOne(bytes)
            case Char(c, width) => if n >= width then Char(c, width) else Cut
            case Cut => Cut
            case Bad(length, seen) => if n >= seen then Bad(length, seen) else Cut
  {
  }

  /******* Whole texts *******/

  /** Decoding inverts encoding. */
  lemma {:induction false} EncodedIsValid(text: string)
    ensures Validate(Encode(text)) == Verdict(text, |Encode(text)|, Whole)
    decreases |text|
  {
    if text != "" {
      var head, rest := EncodeChar(text[0]), Encode(text[1..]);
      ScanEncoded(text[0], rest);
      assert (head + rest)[|head|..] == rest;
      EncodedIsValid(text[1..]);
      assert [text[0]] + text[1..] == text;
    }
  }

  /** The valid part is the encoding of the characters read, and is itself valid. */
  lemma {:induction false} ValidPartIsEncoded(bytes: seq<Byte>)
    ensures var v := Validate(bytes); Encode(v.text) == bytes[..v.upTo]
    ensures Validate(bytes).ending.Whole? ==> Validate(bytes).upTo == |bytes|
    decreases |bytes|
  {
    hide ScanOne, EncodeChar, Width;
    if bytes != [] && ScanOne(bytes).Char? {
      var scan := ScanOne(bytes);
      ScannedIsEncoded(bytes);
      var rest := Validate(bytes[scan.width..]);
      ValidPartIsEncoded(bytes[scan.width..]);
      assert ([scan.c] + rest.text)[1..] == rest.text;
      assert bytes[..scan.width] + bytes[scan.width..][..rest.upTo] == bytes[..scan.width + rest.upTo];
    }
  }

  /** Bytes are valid if and only if some text encodes to them. */
  lemma ValidIffEncoded(bytes: seq<Byte>)
    ensures Validate(bytes).ending.Whole? <==> exists text :: Encode(text) == bytes
  {
    if Validate(bytes).ending.Whole? {
      ValidPartIsEncoded(bytes);
      assert bytes[..|bytes|] == bytes;
    }
    forall text | Encode(text) == bytes ensures Validate(bytes).ending.Whole? {
      EncodedIsValid(text);
    }
  }

  /******* Cutting at a byte *******/

  /** How many whole characters fit into n bytes. */
  function Fit(text: string, n: nat): (k: nat)
    ensures k <= |text|
    decreases |text|
  {
    if text == "" || Width(text[0]) > n then 0 else 1 + Fit(text[1..], n - Width(text[0]))
  }

  /** They fit, and one more does not. */
  lemma {:induction false} FitIsLongest(text: string, n: nat)
    ensures
      var k := Fit(text, n);
      Length(text[..k]) <= n && forall j :: k < j <= |text| ==> Length(text[..j]) > n
    decreases |text|
  {
    if text != "" {
      var c := text[0];
      forall j | 1 <= j <= |text| ensures Length(text[..j]) == Width(c) + Length(text[1..][..j - 1]) {
        assert text[..j][1..] == text[1..][..j - 1];
      }
      if Width(c) <= n {
        var k := Fit(text[1..], n - Width(c));
        FitIsLongest(text[1..], n - Width(c));
        forall j | k + 1 < j <= |text| ensures Length(text[..j]) > n {
          assert Length(text[1..][..j - 1]) > n - Width(c);
        }
      }
    }
  }

  /** n bytes hold at least a quarter of n characters, and waste at most three. */
  lemma {:induction false} FitBounds(text: string, n: nat)
    ensures 4 * Fit(text, n) >= n - 3 || Fit(text, n) == |text|
    ensures Length(text[..Fit(text, n)]) + 3 >= n || Fit(text, n) == |text|
    decreases |text|
  {
    if text != "" && Width(text[0]) <= n {
      FitBounds(text[1..], n - Width(text[0]));
      var k := Fit(text, n);
      assert text[..k][1..] == text[1..][..k - 1];
    }
  }

  /** `p` is what the first n bytes give, when all of them give `v`. */
  predicate IsCutOf(p: Verdict, v: Verdict, n: nat) {
    var k := Fit(v.text, n);
    && p.text == v.text[..k] && p.upTo == Length(v.text[..k])
    && p.ending == if p.upTo == n then Whole
                   else if v.ending.Malformed? && n >= v.upTo + v.ending.seen then v.ending
                   else CutShort
  }

  function Prepend(c: char, v: Verdict): Verdict {
    Verdict([c] + v.text, Width(c) + v.upTo, v.ending)
  }

  lemma CutPrepends(c: char, p: Verdict, v: Verdict, n: nat)
    requires IsCutOf(p, v, n)
    ensures IsCutOf(Prepend(c, p), Prepend(c, v), Width(c) + n)
  {
  }

  lemma PrefixBeforeFirst(bytes: seq<Byte>, n: nat)
    requires n <= |bytes| && (n == 0 || !ScanOne(bytes).Char? || n < ScanOne(bytes).width)
    ensures IsCutOf(Validate(bytes[..n]), Validate(bytes), n)
  {
    hide ScanOne, Width;
    if n > 0 {
      ScanPrefix(bytes, n);
    }
  }

  /**
   Cutting any bytes keeps the whole characters that fit; the end is seen as malformed only if the
   bytes that show the error are still there, as whole only if the cut falls between characters.
   */
  lemma {:induction false} ValidatePrefix(bytes: seq<Byte>, n: nat)
    requires n <= |bytes|
    ensures IsCutOf(Validate(bytes[..n]), Validate(bytes), n)
    decreases |bytes|
  {
    hide ScanOne, Width, IsCutOf;
    if n == 0 || !ScanOne(bytes).Char? || n < ScanOne(bytes).width {
      PrefixBeforeFirst(bytes, n);
    } else {
      var scan := ScanOne(bytes);
      ScanPrefix(bytes, n);
      ValidatePrefix(bytes[scan.width..], n - scan.width);
      assert bytes[..n][scan.width..] == bytes[scan.width..][..n - scan.width];
      CutPrepends(scan.c, Validate(bytes[..n][scan.width..]), Validate(bytes[scan.width..]), n - scan.width);
    }
  }

  /** A cut of valid bytes is never malformed and keeps exactly the whole characters that fit. */
  lemma CutOfValid(text: string, n: nat)
    requires n <= |Encode(text)|
    ensures
      var v := Validate(Encode(text)[..n]);
      v.text == text[..Fit(text, n)] && !v.ending.Malformed? && (v.ending.Whole? <==> v.upTo == n)
  {
    EncodedIsValid(text);
    ValidatePrefix(Encode(text), n);
  }

  /******* Cutting at a character boundary *******/

  /** str::is_char_boundary. */
  predicate IsBoundary(bytes: seq<Byte>, n: nat) {
    n == 0 || n == |bytes| || (n < |bytes| && !IsContinuation(bytes[n]))
  }

  lemma {:induction false} BoundaryIsBetweenCharacters(text: string, n: nat)
    requires n <= |Encode(text)|
    ensures IsBoundary(Encode(text), n) <==> Length(text[..Fit(text, n)]) == n
    decreases |text|
  {
    if text != "" {
      var c, rest := text[0], Encode(text[1..]);
      if n >= Width(c) {
        hide Width, EncodeChar;
        var m, k := n - Width(c), Fit(text[1..], n - Width(c));
        BoundaryIsBetweenCharacters(text[1..], m);
        assert text[..k + 1][1..] == text[1..][..k];
        assert n < |Encode(text)| ==> Encode(text)[n] == rest[m];
      }
    }
  }

  /** Unless n falls between characters, one byte less holds the same characters. */
  lemma {:induction false} FitOneLess(text: string, n: nat)
    requires n > 0 && Length(text[..Fit(text, n)]) != n
    ensures Fit(text, n - 1) == Fit(text, n)
    decreases |text|
  {
    if text != "" && Width(text[0]) <= n {
      var k := Fit(text[1..], n - Width(text[0]));
      assert text[..k + 1][1..] == text[1..][..k];
      assert Length(text[1..][..k]) != n - Width(text[0]);
      hide Width;
      if n > Width(text[0]) {
        FitOneLess(text[1..], n - Width(text[0]));
      } else {
        FitIsLongest(text[1..], 0);
      }
    }
  }

  lemma {:induction false} EncodePrefix(text: string, k: nat)
    requires k <= |text|
    ensures Length(text[..k]) <= |Encode(text)| && Encode(text)[..Length(text[..k])] == Encode(text[..k])
    decreases |text|
  {
    if k > 0 {
      hide Width, EncodeChar;
      EncodePrefix(text[1..], k - 1);
      assert text[..k][1..] == text[1..][..k - 1];
    }
  }

  /******* Limiting a text *******/

  /**
   The whole text, or its longest whole-character prefix within the limit; a cut drops fewer than
   four bytes of room.
   */
  method LimitText(value: seq<Byte>, maxBytes: nat, ghost text: string) returns (kept: seq<Byte>, truncated: bool)
    requires value == Encode(text)
    ensures truncated <==> |value| > maxBytes
    ensures kept <= value
    ensures kept == Encode(if truncated then text[..Fit(text, maxBytes)] else text)
    ensures truncated ==> maxBytes - 3 <= |kept| <= maxBytes
    ensures truncated ==> forall j :: |kept| < j <= maxBytes ==> !IsBoundary(value, j)
  {
    if |value| <= maxBytes {
      return value, false;
    }
    var end: nat := maxBytes;
    while !IsBoundary(value, end)
      invariant end <= maxBytes && Fit(text, end) == Fit(text, maxBytes)
      invariant forall j :: end < j <= maxBytes ==> !IsBoundary(value, j)
      decreases end
    {
      BoundaryIsBetweenCharacters(text, end);
      FitOneLess(text, end);
      end := end - 1;
    }
    BoundaryIsBetweenCharacters(text, end);
    EncodePrefix(text, Fit(text, end));
    EncodedLength(text);
    FitBounds(text, maxBytes);
    assert text[..|text|] == text;
    return value[..end], true;
  }
}
