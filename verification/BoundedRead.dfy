/**
 Readers that take a stream piece by piece under a byte limit. What they return depends only on the
 bytes delivered, never on how these were cut into pieces, and the two HTTP readers agree but for an
 interrupted read. The outcome of every read and write is an input; a missed deadline is one of the
 ways a stream breaks.
 */
module BoundedRead {
  import opened Wrappers
  import opened Utf8

  type Bytes = seq<Byte>

  /** One read: some bytes (none at the end of the stream) or an error. */
  datatype Piece = Piece(bytes: Bytes) | Broken(error: Fault)

  /** Why a read failed; an interrupted one may be tried again. */
  datatype Fault = Interrupted | Fault(message: string)

  /** All that a stream delivers, and the error that ends it, if any. */
  datatype Delivery = Delivery(bytes: Bytes, error: Option<Fault>)

  function Delivered(stream: seq<Piece>): Delivery
    decreases |stream|
  {
    if stream == [] || stream[0] == Piece([]) then Delivery([], None)
    else
      match stream[0]
      case Broken(error) => Delivery([], Some(error))
      case Piece(bytes) =>
        var rest := Delivered(stream[1..]);
        Delivery(bytes + rest.bytes, rest.error)
  }

  function ReadPiece(stream: seq<Piece>, i: nat): Piece {
    if i < |stream| then stream[i] else Piece([])
  }

  /** Reading on from position i after some bytes. */
  function Onward(before: Bytes, stream: seq<Piece>, i: nat): Delivery {
    var rest := Delivered(if i <= |stream| then stream[i..] else []);
    Delivery(before + rest.bytes, rest.error)
  }

  lemma OnePiece(before: Bytes, stream: seq<Piece>, i: nat)
    requires i <= |stream|
    ensures
      match ReadPiece(stream, i)
      case Broken(error) => Onward(before, stream, i) == Delivery(before, Some(error))
      case Piece(bytes) =>
        if bytes == [] then Onward(before, stream, i) == Delivery(before, None)
        else i < |stream| && Onward(before, stream, i) == Onward(before + bytes, stream, i + 1)
  {
  }

  /******* Draining a renderer's output *******/

  /**
   Reads to the end and keeps at most one byte more than the limit: enough to tell whether the limit
   was exceeded, whatever the pieces were.
   */
  method ReadBounded(stream: seq<Piece>, limit: nat) returns (result: Result<Bytes, Fault>)
    ensures
      var all := Delivered(stream);
      result == if all.error.Some? then Failure(all.error.value) else Success(Take(all.bytes, limit + 1))
    ensures result.Success? ==> (|result.value| > limit <==> |Delivered(stream).bytes| > limit)
  {
    hide Delivered, Onward, ReadPiece;
    var retained: Bytes := [];
    ghost var seen: Bytes := [];
    var i := 0;
    OnwardFromStart(stream);
    while true
      invariant i <= |stream| && retained == Take(seen, limit + 1)
      invariant Onward(seen, stream, i) == Delivered(stream)
      decreases |stream| - i
    {
      OnePiece(seen, stream, i);
      var piece := ReadPiece(stream, i);
      if piece.Broken? {
        return Failure(piece.error);
      }
      if piece.bytes == [] {
        return Success(retained);
      }
      var remaining := if limit + 1 >= |retained| then limit + 1 - |retained| else 0;
      retained := retained + piece.bytes[..if |piece.bytes| <= remaining then |piece.bytes| else remaining];
      seen := seen + piece.bytes;
      i := i + 1;
    }
  }

  lemma OnwardFromStart(stream: seq<Piece>)
    ensures Onward([], stream, 0) == Delivered(stream)
  {
  }

  /******* The two HTTP readers *******/

  const MAX_RESPONSE := 64 * 1024

  datatype HttpError = TooLong | ReadError(error: Fault) | NoHeaderEnd | NotOk(statusLine: Bytes)

  /** What a reader makes of what it was delivered. */
  function Response(all: Delivery): Result<Bytes, HttpError> {
    if |all.bytes| > MAX_RESPONSE then Failure(TooLong)
    else if all.error.Some? then Failure(ReadError(all.error.value))
    else Success(all.bytes)
  }

  lemma DeliveryGrows(before: Bytes, stream: seq<Piece>, i: nat)
    ensures |before| <= |Onward(before, stream, i).bytes|
  {
  }

  /** Read by read under a deadline, refusing as soon as the limit is passed. */
  method ReadUntil(stream: seq<Piece>) returns (result: Result<Bytes, HttpError>)
    ensures result == Response(Delivered(stream))
  {
    hide Delivered, Onward, ReadPiece;
    var response: Bytes := [];
    var i := 0;
    OnwardFromStart(stream);
    while true
      invariant i <= |stream| && |response| <= MAX_RESPONSE
      invariant Onward(response, stream, i) == Delivered(stream)
      decreases |stream| - i
    {
      OnePiece(response, stream, i);
      var piece := ReadPiece(stream, i);
      if piece.Broken? {
        return Failure(ReadError(piece.error));
      }
      if piece.bytes == [] {
        return Success(response);
      }
      response := response + piece.bytes;
      i := i + 1;
      DeliveryGrows(response, stream, i);
      if |response| > MAX_RESPONSE {
        return Failure(TooLong);
      }
    }
  }

  /** The stream of a reader that tries an interrupted read again. */
  function Retried(stream: seq<Piece>): seq<Piece> {
    if stream == [] then []
    else if stream[0] == Broken(Interrupted) then Retried(stream[1..])
    else [stream[0]] + Retried(stream[1..])
  }

  /** Reading on from position i after some bytes, with retries. */
  function OnwardRetried(before: Bytes, stream: seq<Piece>, i: nat): Delivery {
    Onward(before, Retried(if i <= |stream| then stream[i..] else []), 0)
  }

  lemma OneRetriedPiece(before: Bytes, stream: seq<Piece>, i: nat)
    requires i <= |stream|
    ensures
      match ReadPiece(stream, i)
      case Broken(error) =>
        if error.Interrupted? then i < |stream| && OnwardRetried(before, stream, i) == OnwardRetried(before, stream, i + 1)
        else OnwardRetried(before, stream, i) == Delivery(before, Some(error))
      case Piece(bytes) =>
        if bytes == [] then OnwardRetried(before, stream, i) == Delivery(before, None)
        else i < |stream| && OnwardRetried(before, stream, i) == OnwardRetried(before + bytes, stream, i + 1)
  {
    if i < |stream| {
      assert stream[i..][1..] == stream[i + 1..];
      OnePiece(before, Retried(stream[i..]), 0);
      if stream[i] != Broken(Interrupted) {
        assert Retried(stream[i..])[1..] == Retried(stream[i + 1..]);
      }
    }
  }

  lemma OnwardRetriedFromStart(stream: seq<Piece>)
    ensures OnwardRetried([], stream, 0) == Delivered(Retried(stream))
  {
    assert stream[0..] == stream;
    OnwardFromStart(Retried(stream));
  }

  /** Read to the end, or to one byte past the limit, and then judged; interrupted reads are repeated. */
  method ReadToEnd(stream: seq<Piece>) returns (result: Result<Bytes, HttpError>)
    ensures result == Response(Delivered(Retried(stream)))
  {
    hide Delivered, Onward, OnwardRetried, Retried, ReadPiece;
    var response: Bytes := [];
    ghost var seen: Bytes := [];
    var i := 0;
    OnwardRetriedFromStart(stream);
    while |response| < MAX_RESPONSE + 1
      invariant i <= |stream| && response == Take(seen, MAX_RESPONSE + 1)
      invariant OnwardRetried(seen, stream, i) == Delivered(Retried(stream))
      decreases |stream| - i
    {
      OneRetriedPiece(seen, stream, i);
      var piece := ReadPiece(stream, i);
      if piece == Broken(Interrupted) {
        i := i + 1;
        continue;
      }
      if piece.Broken? {
        return Failure(ReadError(piece.error));
      }
      if piece.bytes == [] {
        return Success(response);
      }
      var room := MAX_RESPONSE + 1 - |response|;
      response := response + piece.bytes[..if |piece.bytes| <= room then |piece.bytes| else room];
      seen := seen + piece.bytes;
      i := i + 1;
    }
    RetriedGrows(seen, stream, i);
    return Failure(TooLong);
  }

  lemma RetriedGrows(before: Bytes, stream: seq<Piece>, i: nat)
    ensures |before| <= |OnwardRetried(before, stream, i).bytes|
  {
    DeliveryGrows(before, Retried(if i <= |stream| then stream[i..] else []), 0);
  }

  /** Retrying only continues a delivery, and only past an interruption. */
  lemma {:induction false} RetryingContinues(stream: seq<Piece>)
    ensures var all, retried := Delivered(stream), Delivered(Retried(stream));
      && all.bytes <= retried.bytes && retried.error != Some(Interrupted)
      && (all.error != Some(Interrupted) ==> retried == all)
    decreases |stream|
  {
    if stream != [] {
      RetryingContinues(stream[1..]);
      if stream[0] != Broken(Interrupted) {
        assert Retried(stream)[0] == stream[0] && Retried(stream)[1..] == Retried(stream[1..]);
      }
    }
  }

  /** The two readers answer alike exactly when no read is interrupted before the limit is passed. */
  lemma ReadersAgreeExactly(stream: seq<Piece>)
    ensures Response(Delivered(stream)) == Response(Delivered(Retried(stream)))
       <==> !(Delivered(stream).error == Some(Interrupted) && |Delivered(stream).bytes| <= MAX_RESPONSE)
  {
    RetryingContinues(stream);
    hide Delivered, Retried;
  }

  /** Otherwise the deadline reader fails where the other goes on, here to the whole response. */
  lemma InterruptionMisleads(bytes: Bytes, rest: Bytes)
    requires bytes != [] && rest != [] && |bytes| + |rest| <= MAX_RESPONSE
    ensures var stream := [Piece(bytes), Broken(Interrupted), Piece(rest)];
      && Response(Delivered(stream)) == Failure(ReadError(Interrupted))
      && Response(Delivered(Retried(stream))) == Success(bytes + rest)
  {
    var stream := [Piece(bytes), Broken(Interrupted), Piece(rest)];
    assert stream[1..] == [Broken(Interrupted), Piece(rest)] && stream[1..][1..] == [Piece(rest)];
    var two := [Piece(bytes), Piece(rest)];
    assert Retried([Piece(rest)]) == [Piece(rest)] + Retried([]) && Retried(stream) == two;
    assert two[1..] == [Piece(rest)] && [Piece(rest)][1..] == [];
    assert Delivered([Piece(rest)]) == Delivery(rest + [], None) && rest + [] == rest;
    assert Delivered(two) == Delivery(bytes + rest, None);
  }

  /** However some bytes are cut into pieces, they are delivered the same, and what follows ends the stream alike. */
  lemma {:induction false} CutsDoNotMatter(pieces: seq<Bytes>, bytes: Bytes, rest: seq<Piece>)
    requires (forall i :: 0 <= i < |pieces| ==> pieces[i] != []) && Flat(pieces) == bytes
    ensures Delivered(Streamed(pieces) + rest) == Delivery(bytes + Delivered(rest).bytes, Delivered(rest).error)
    decreases |pieces|
  {
    var stream := Streamed(pieces) + rest;
    if pieces == [] {
      assert stream == rest;
    } else {
      assert stream[1..] == Streamed(pieces[1..]) + rest;
      CutsDoNotMatter(pieces[1..], Flat(pieces[1..]), rest);
    }
  }

  /** Two cuts of the same bytes, ending the same way, in order or with an error, give the same response. */
  lemma SameBytesSameResponse(a: seq<Bytes>, b: seq<Bytes>, rest: seq<Piece>)
    requires Flat(a) == Flat(b)
    requires (forall i :: 0 <= i < |a| ==> a[i] != []) && (forall i :: 0 <= i < |b| ==> b[i] != [])
    ensures Delivered(Streamed(a) + rest) == Delivered(Streamed(b) + rest)
    ensures Response(Delivered(Streamed(a) + rest)) == Response(Delivered(Streamed(b) + rest))
  {
    CutsDoNotMatter(a, Flat(a), rest);
    CutsDoNotMatter(b, Flat(b), rest);
  }

  function Flat(pieces: seq<Bytes>): Bytes {
    if pieces == [] then [] else pieces[0] + Flat(pieces[1..])
  }

  function Streamed(pieces: seq<Bytes>): seq<Piece> {
    seq(|pieces|, i requires 0 <= i < |pieces| => Piece(pieces[i]))
  }

  /** What a stream delivers, in full: some bytes, however cut, and then its end, an empty read, or an error. */
  lemma StreamDelivers(pieces: seq<Bytes>, error: Fault, later: seq<Piece>)
    requires forall i :: 0 <= i < |pieces| ==> pieces[i] != []
    ensures Delivered(Streamed(pieces)) == Delivery(Flat(pieces), None)
    ensures Delivered(Streamed(pieces) + [Piece([])] + later) == Delivery(Flat(pieces), None)
    ensures Delivered(Streamed(pieces) + [Broken(error)] + later) == Delivery(Flat(pieces), Some(error))
  {
    var stream := Streamed(pieces);
    CutsDoNotMatter(pieces, Flat(pieces), []);
    CutsDoNotMatter(pieces, Flat(pieces), [Piece([])] + later);
    CutsDoNotMatter(pieces, Flat(pieces), [Broken(error)] + later);
    assert stream + [] == stream && Flat(pieces) + [] == Flat(pieces);
    assert stream + [Piece([])] + later == stream + ([Piece([])] + later);
    assert stream + [Broken(error)] + later == stream + ([Broken(error)] + later);
  }

  /** So a response is accepted exactly when the stream ends by itself with at most 65,536 bytes; too many bytes come before any error. */
  lemma ResponseExactly(pieces: seq<Bytes>, error: Fault, later: seq<Piece>)
    requires forall i :: 0 <= i < |pieces| ==> pieces[i] != []
    ensures Response(Delivered(Streamed(pieces)))
         == if |Flat(pieces)| <= 65536 then Success(Flat(pieces)) else Failure(TooLong)
    ensures Response(Delivered(Streamed(pieces) + [Broken(error)] + later))
         == Failure(if |Flat(pieces)| <= 65536 then ReadError(error) else TooLong)
  {
    StreamDelivers(pieces, error, later);
  }

  /******* Sending the request *******/

  /** These writes all took something. */
  ghost predicate Took(writes: seq<Result<nat, string>>, n: nat) {
    n <= |writes| && forall i :: 0 <= i < n ==> writes[i].Success? && writes[i].value > 0
  }

  /** How much the first n writes offered to take. */
  function Offered(writes: seq<Result<nat, string>>, n: nat): nat
    requires n <= |writes|
  {
    if n == 0 then 0 else Offered(writes, n - 1) + if writes[n - 1].Success? then writes[n - 1].value else 0
  }

  /**
   Writes what is left until nothing is; each write takes some of it or fails. All of the request is sent
   exactly when the writes offer enough before one takes nothing, fails, or comes too late; otherwise
   what was sent is as much as was taken, and the error is that of the write that ended it.
   */
  method SendAll(request: Bytes, writes: seq<Result<nat, string>>) returns (sent: Bytes, error: Option<string>, ghost n: nat)
    ensures Took(writes, n) && sent == Take(request, Offered(writes, n))
    ensures error.None? <==> Offered(writes, n) >= |request|
    ensures error.Some? ==>
      error.value == if n == |writes| then "Host startup deadline expired"
                     else if writes[n].Failure? then writes[n].error else "Host request write returned zero"
    ensures error.Some? ==> n == |writes| || writes[n].Failure? || writes[n].value == 0
  {
    sent := [];
    var bytes := request;
    n := 0;
    var i := 0;
    while bytes != []
      invariant n == i <= |writes| && Took(writes, n)
      invariant sent == Take(request, Offered(writes, n)) && bytes == request[|sent|..]
      decreases |bytes|
    {
      if i == |writes| {
        return sent, Some("Host startup deadline expired"), n;
      }
      if writes[i].Failure? {
        return sent, Some(writes[i].error), n;
      }
      var count := if writes[i].value <= |bytes| then writes[i].value else |bytes|;
      if count == 0 {
        return sent, Some("Host request write returned zero"), n;
      }
      sent, bytes := sent + bytes[..count], bytes[count..];
      i := i + 1;
      n := n + 1;
    }
    return sent, None, n;
  }

  /******* Decoding a response *******/

  const CRLF: Bytes := [13, 10]
  const HEADER_END: Bytes := [13, 10, 13, 10]
  const OK_STATUS: Bytes := [72, 84, 84, 80, 47, 49, 46, 49, 32, 50, 48, 48, 32]

  predicate At(bytes: Bytes, pattern: Bytes, i: nat) {
    i + |pattern| <= |bytes| && bytes[i..i + |pattern|] == pattern
  }

  /** The first place where the pattern stands. */
  function Find(bytes: Bytes, pattern: Bytes, start: nat): (found: Option<nat>)
    ensures found.Some? ==>
      At(bytes, pattern, found.value) && found.value >= start
      && forall i :: start <= i < found.value ==> !At(bytes, pattern, i)
    ensures found.None? ==> forall i :: start <= i ==> !At(bytes, pattern, i)
    decreases if start <= |bytes| then |bytes| - start + 1 else 0
  {
    if start + |pattern| > |bytes| then None
    else if At(bytes, pattern, start) then Some(start)
    else Find(bytes, pattern, start + 1)
  }

  /** The body of a successful response. */
  function DecodeResponse(response: Bytes): Result<Bytes, HttpError> {
    match Find(response, HEADER_END, 0)
    case None => Failure(NoHeaderEnd)
    case Some(end) =>
      if !At(response, OK_STATUS, 0) then
        var line := Find(response, CRLF, 0);
        Failure(NotOk(response[..if line.Some? then line.value else end]))
      else Success(response[end + 4..])
  }

  lemma AsciiBytes(text: string, bytes: Bytes)
    requires |text| == |bytes| && forall i :: 0 <= i < |text| ==> (text[i] as int) < 0x80 && bytes[i] as int == text[i] as int
    ensures Encode(text) == bytes
  {
    AsciiEncodes(text);
    hide Encode;
  }

  /** The bytes are those of the protocol's texts. */
  lemma ProtocolTexts()
    ensures Encode("HTTP/1.1 200 ") == OK_STATUS && Encode("\r\n\r\n") == HEADER_END && Encode("\r\n") == CRLF
  {
    hide Encode;
    AsciiBytes("HTTP/1.1 200 ", OK_STATUS);
    AsciiBytes("\r\n\r\n", HEADER_END);
    AsciiBytes("\r\n", CRLF);
  }

  lemma {:induction false} AsciiEncodes(text: string)
    requires forall i :: 0 <= i < |text| ==> (text[i] as int) < 0x80
    ensures |Encode(text)| == |text| && forall i :: 0 <= i < |text| ==> Encode(text)[i] as int == text[i] as int
  {
    if text != "" {
      AsciiEncodes(text[1..]);
    }
  }

  /** Without a blank line there is no response. */
  lemma NoBlankLineNoResponse(response: Bytes)
    requires forall i: nat :: !At(response, HEADER_END, i)
    ensures DecodeResponse(response) == Failure(NoHeaderEnd)
  {
  }

  /** Any other status is refused with its first line, whatever follows. */
  lemma OtherStatusIsRefused(line: Bytes, rest: Bytes)
    requires !(OK_STATUS <= line + CRLF + rest)
    requires forall i: nat :: i < |line| ==> !At(line + CRLF + rest, CRLF, i)
    requires exists i: nat :: At(line + CRLF + rest, HEADER_END, i)
    ensures DecodeResponse(line + CRLF + rest) == Failure(NotOk(line))
  {
    var response := line + CRLF + rest;
    assert At(response, CRLF, |line|);
    assert Find(response, CRLF, 0) == Some(|line|);
    assert response[..|line|] == line;
    assert At(response, OK_STATUS, 0) ==> OK_STATUS <= response;
  }

  /** A head without an earlier blank line: exactly the body comes back, whatever it contains. */
  lemma BodyRoundTrip(head: Bytes, body: Bytes)
    requires forall i: nat :: i < |head| ==> !At(head + HEADER_END, HEADER_END, i)
    requires OK_STATUS <= head
    ensures DecodeResponse(head + HEADER_END + body) == Success(body)
  {
    var response := head + HEADER_END + body;
    assert response == (head + HEADER_END) + body;
    assert At(response, HEADER_END, |head|);
    forall i: nat | i < |head| ensures !At(response, HEADER_END, i) {
      assert !At(head + HEADER_END, HEADER_END, i);
      assert response[i..i + 4] == (head + HEADER_END)[i..i + 4];
    }
    assert response[|head| + 4..] == body;
    assert response[..|OK_STATUS|] == head[..|OK_STATUS|] == OK_STATUS;
  }
}
