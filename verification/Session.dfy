/** One connection (`session`): its buffers, its callbacks, and the bytes of a response. */
module Session {
  import opened Wrappers
  import opened Sequences
  import opened RequestParser
  import opened RequestRoundTrip
  import opened ResponseBuilder
  import opened EntityStoreValidation

  // ---------- Responses as bytes ----------

  /** The status line, the headers, a blank line and the body. */
  function Serialized(r: ResponseData): string {
    PrintLines(["HTTP/1.1 " + r.statusCode] + r.headers, r.body)
  }

  function Lines(lines: seq<string>): string {
    if lines == [] then "" else Lines(lines[..|lines| - 1]) + (lines[|lines| - 1] + "\r\n")
  }

  lemma {:induction false} PrintAfterLines(lines: seq<string>, body: string)
    ensures PrintLines(lines, body) == Lines(lines) + ("\r\n" + body)
    decreases |lines|
  {
    if lines == [] {
      assert Lines(lines) + ("\r\n" + body) == "\r\n" + body;
    } else {
      LinesCons(lines[0], lines[1..]);
      assert lines == [lines[0]] + lines[1..];
      PrintAfterLines(lines[1..], body);
      FourParts(lines[0], "\r\n", Lines(lines[1..]), "\r\n" + body);
    }
  }

  lemma {:induction false} FourParts(a: string, b: string, c: string, d: string)
    ensures a + (b + (c + d)) == a + b + c + d
  {
  }

  lemma {:induction false} LinesCons(line: string, lines: seq<string>)
    ensures Lines([line] + lines) == line + "\r\n" + Lines(lines)
    decreases |lines|
  {
    var all := [line] + lines;
    if lines == [] {
      assert all == [line] && all[..0] == [];
      assert "" + (line + "\r\n") == line + "\r\n" + "";
    } else {
      var init, last := lines[..|lines| - 1], lines[|lines| - 1];
      assert all[..|all| - 1] == [line] + init;
      LinesCons(line, init);
      Associate(line + "\r\n", Lines(init), last + "\r\n");
    }
  }

  method SerializeResponse(responseObj: Option<ResponseData>) returns (bytes: string)
    ensures responseObj.Some? ==> bytes == Serialized(responseObj.value)
    ensures responseObj.None? ==>
              bytes == Serialized(
                         FormatResponse("500 Internal Server Error", "text/plain", "500 Internal Server Error"))
    decreases responseObj.None?
  {
    if responseObj.None? {
      bytes := SerializeResponse(Some(InternalServerError("500 Internal Server Error")));
      return;
    }
    var r := responseObj.value;
    ghost var first := ["HTTP/1.1 " + r.statusCode];
    bytes := "HTTP/1.1 " + r.statusCode + "\r\n";
    assert bytes == Lines(first + r.headers[..0]) by {
      assert first + r.headers[..0] == first && first[..0] == [];
    }
    for i := 0 to |r.headers|
      invariant bytes == Lines(first + r.headers[..i])
    {
      var all := first + r.headers[..i + 1];
      assert all[..|all| - 1] == first + r.headers[..i];
      bytes := bytes + (r.headers[i] + "\r\n");
    }
    assert r.headers[..|r.headers|] == r.headers;
    PrintAfterLines(first + r.headers, r.body);
    bytes := bytes + ("\r\n" + r.body);
  }

  lemma {:induction false} LinesReadBack(first: string, headers: seq<string>, body: string)
    requires IsLine(first) && AreFieldLines(headers)
    ensures var bytes := PrintLines([first] + headers, body);
            && HasBody(bytes, body) && StripReturn(Line(bytes)) == first
            && ReadHeaders(AfterLine(bytes)) == HeadersOf(headers)
            && |bytes| - FindTerminator(bytes).value - 4 == |body|
  {
    assert ([first] + headers)[1..] == headers;
    FindPrinted(first, headers, body);
    LinePrinted(first, PrintLines(headers, body));
    ReadPrintedLines(headers, body);
    var bytes := PrintLines([first] + headers, body);
    assert |bytes[FindTerminator(bytes).value + 4..]| == |body|;
  }

  /** A client that looks for the blank line and splits lines reads every built response back: the status, and
      as the body exactly the number of bytes that Content-Length tells; and the headers as they were built,
      if the content type has no blanks at its ends. */
  lemma {:induction false} ResponseReadBack(statusCode: string, contentType: string, body: string)
    requires IsLine(statusCode) && IsLine(contentType)
    ensures var r := FormatResponse(statusCode, contentType, body);
            var bytes := Serialized(r);
            && HasBody(bytes, body)
            && StripReturn(Line(bytes)) == "HTTP/1.1 " + statusCode
            && ReadHeaders(AfterLine(bytes)) == HeadersOf(r.headers)
            && (IsTrimmed(contentType) ==>
                  ReadHeaders(AfterLine(bytes)) ==
                  ["Content-Type: " + contentType, "Content-Length: " + Decimal(|body|), "Connection: close"])
            && "Content-Length: " + Decimal(|bytes| - FindTerminator(bytes).value - 4) in r.headers
  {
    var r := FormatResponse(statusCode, contentType, body);
    BuiltLines(statusCode, contentType, body);
    LinesReadBack("HTTP/1.1 " + statusCode, r.headers, body);
    if IsTrimmed(contentType) {
      BuiltHeadersReadBack(statusCode, contentType, body);
    }
    assert r.headers[1] == "Content-Length: " + Decimal(|body|);
  }

  lemma {:induction false} BuiltLines(statusCode: string, contentType: string, body: string)
    requires IsLine(statusCode) && IsLine(contentType)
    ensures IsLine("HTTP/1.1 " + statusCode) && AreFieldLines(FormatResponse(statusCode, contentType, body).headers)
  {
    assert IsLine("HTTP/1.1 ");
    assert IsLine("Content-Length: ") && IsLine("Content-Type: ") && IsLine("Connection: close");
  }

  lemma {:induction false} BuiltHeadersReadBack(statusCode: string, contentType: string, body: string)
    requires IsLine(contentType) && IsTrimmed(contentType)
    ensures var headers := FormatResponse(statusCode, contentType, body).headers; HeadersOf(headers) == headers
  {
    ContentTypeIsNormal(contentType);
    ContentLengthIsNormal(|body|);
    ConnectionIsNormal();
    ThreeHeaders("Content-Type: " + contentType, "Content-Length: " + Decimal(|body|), "Connection: close");
  }

  lemma {:induction false} ThreeHeaders(a: string, b: string, c: string)
    requires IsNormalHeader(a) && IsNormalHeader(b) && IsNormalHeader(c)
    ensures HeadersOf([a, b, c]) == [a, b, c]
  {
    var headers := [a, b, c];
    forall i | 0 <= i < |headers| ensures IsNormalHeader(headers[i]) {
      assert headers[i] == a || headers[i] == b || headers[i] == c;
    }
    HeadersOfNormal(headers);
  }

  lemma {:induction false} ContentTypeIsNormal(contentType: string)
    requires IsLine(contentType) && IsTrimmed(contentType)
    ensures IsNormalHeader("Content-Type: " + contentType)
  {
    NormalHeader("Content-Type", contentType);
    assert "Content-Type" + ": " == "Content-Type: ";
  }

  lemma {:induction false} ContentLengthIsNormal(n: nat)
    ensures IsNormalHeader("Content-Length: " + Decimal(n))
  {
    var value := Decimal(n);
    assert IsTrimmed(value) && IsLine(value) by {
      assert IsDigit(value[0]) && IsDigit(value[|value| - 1]);
    }
    NormalHeader("Content-Length", value);
    assert "Content-Length" + ": " == "Content-Length: ";
  }

  lemma {:induction false} ConnectionIsNormal()
    ensures IsNormalHeader("Connection: close")
  {
    NormalHeader("Connection", "close");
    assert "Connection" + ": " + "close" == "Connection: close";
  }

  // ---------- The callbacks ----------

  /** What a session keeps: the array that reads fill, all bytes so far, and the response being written. */
  datatype Buffers = Buffers(data: string, requestBuffer: string, response: string)

  /** The one operation that a callback leaves outstanding, if it does not delete the session. */
  datatype Next = ReadNext | WriteNext(bytes: string) | Gone

  const MAX_LENGTH := 1024

  /** The response to a request that `handled` is the handler's response to. */
  function ResponseTo(q: RequestData, handled: ResponseData): ResponseData {
    if q.isValid then handled else BadRequest("400 Bad Request")
  }

  function Appended(b: Buffers, n: nat): Buffers
    requires n <= |b.data|
  {
    b.(requestBuffer := b.requestBuffer + b.data[..n])
  }

  /** The buffers after `handle_read` of `n` bytes, and what is outstanding then. */
  function AfterRead(b: Buffers, error: bool, n: nat, handle: RequestData -> ResponseData): (Buffers, Next)
    requires n <= |b.data|
  {
    var b' := Appended(b, n);
    var q := Parsed(b'.requestBuffer);
    var bytes := Serialized(ResponseTo(q, handle(q)));
    if error then (b, Gone)
    else if IsComplete(b'.requestBuffer) then (b'.(response := bytes), WriteNext(bytes))
    else (b', ReadNext)
  }

  /** What is outstanding after `handle_write`. */
  function AfterWrite(error: bool): Next {
    if error then Gone else ReadNext
  }

  class Connection {
    var data: string
    var requestBuffer: string
    var response: string

    constructor ()
      ensures Value() == Buffers("", "", "")
    {
      data, requestBuffer, response := "", "", "";
    }

    function Value(): Buffers
      reads this
    {
      Buffers(data, requestBuffer, response)
    }

    /** `handle` is what the dispatcher's handlers answer at this moment. */
    method HandleRead(error: bool, n: nat, handle: RequestData -> ResponseData) returns (next: Next)
      requires n <= |data| <= MAX_LENGTH
      modifies this
      ensures (Value(), next) == AfterRead(old(Value()), error, n, handle)
      ensures error ==> next == Gone && Value() == old(Value())
      ensures !error ==>
                var all := old(requestBuffer) + old(data)[..n];
                && requestBuffer == all && data == old(data)
                && (if !IsComplete(all) then next == ReadNext && response == old(response)
                    else if Parsed(all).isValid then next == WriteNext(Serialized(handle(Parsed(all))))
                    else next == WriteNext(Serialized(
                                   FormatResponse("400 Bad Request", "text/plain", "400 Bad Request"))))
                && (next.WriteNext? ==> response == next.bytes)
    {
      if error {
        return Gone;
      }
      requestBuffer := requestBuffer + data[..n];
      var request := new Request();
      var isComplete := Parse(requestBuffer, request);
      if !isComplete {
        return ReadNext;
      }
      var answer := if request.isValid then handle(request.Data()) else BadRequest("400 Bad Request");
      response := SerializeResponse(Some(answer));
      return WriteNext(response);
    }

    method HandleWrite(error: bool) returns (next: Next)
      ensures next == AfterWrite(error) && (next == Gone <==> error) && (next == ReadNext <==> !error)
    {
      if error {
        return Gone;
      }
      return ReadNext;
    }
  }
}
