/** The HTTP request parser (`RequestParser`), which is run again on the whole buffer after each read. */
module RequestParser {
  import opened Wrappers
  import opened Sequences

  /** The contents of a `request`; the field `verb` is its `method`. */
  datatype RequestData = RequestData(
    isValid: bool, raw: string, verb: string, url: string, version: string, headers: seq<string>, body: string)

  const FRESH := RequestData(false, "", "", "", "", [], "")

  // ---------- The library calls the parser makes ----------

  predicate StartsWithLineEnd(s: string) {
    |s| >= 2 && s[0] == '\r' && s[1] == '\n'
  }

  predicate StartsWithTerminator(s: string) {
    |s| >= 4 && s[0] == '\r' && s[1] == '\n' && s[2] == '\r' && s[3] == '\n'
  }

  function Shift(r: Option<nat>, n: nat): Option<nat> {
    match r
    case None => None
    case Some(i) => Some(n + i)
  }

  /** `std::string::find` of a blank line, `"\r\n\r\n"`. */
  function FindTerminator(s: string): (r: Option<nat>)
    ensures r.Some? ==> r.value + 4 <= |s|
  {
    if |s| < 4 then None
    else if StartsWithTerminator(s) then Some(0)
    else Shift(FindTerminator(s[1..]), 1)
  }

  function LineEnd(s: string): nat {
    IndexOf(s, '\n')
  }

  /** The line that `std::getline` extracts from what is left of a stream, and what it leaves. */
  function Line(s: string): string {
    s[..LineEnd(s)]
  }

  function AfterLine(s: string): (t: string)
    ensures s != "" ==> |t| < |s|
  {
    if LineEnd(s) < |s| then s[LineEnd(s) + 1..] else ""
  }

  /** `std::isspace` in the C locale. */
  predicate IsSpace(c: char) {
    c == ' ' || c == '\t' || c == '\n' || c == '\U{0B}' || c == '\U{0C}' || c == '\r'
  }

  function SkipSpaces(s: string): string {
    if s != "" && IsSpace(s[0]) then SkipSpaces(s[1..]) else s
  }

  function WordLength(s: string): (n: nat)
    ensures n <= |s| && (n < |s| ==> IsSpace(s[n])) && forall i | 0 <= i < n :: !IsSpace(s[i])
  {
    if s == "" || IsSpace(s[0]) then 0 else 1 + WordLength(s[1..])
  }

  /** The word that `>>` extracts, empty when it fails, and what it leaves. */
  function NextWord(s: string): (string, string) {
    var t := SkipSpaces(s);
    (t[..WordLength(t)], t[WordLength(t)..])
  }

  // ---------- What the parser computes ----------

  predicate IsAllowedMethod(m: string) {
    m == "GET" || m == "POST" || m == "PUT" || m == "DELETE"
  }

  /** The method and the URL of a request line; nothing if it is not valid. What follows the version is ignored. */
  function RequestLine(line: string): Option<(string, string)> {
    var (verb, rest1) := NextWord(line);
    var (url, rest2) := NextWord(rest1);
    var (version, _) := NextWord(rest2);
    if version == "" || !IsAllowedMethod(verb) || url == "" || url[0] != '/' || version != "HTTP/1.1" then None
    else Some((verb, url))
  }

  predicate IsBlank(c: char) {
    c == ' ' || c == '\t'
  }

  function TrimFront(s: string): string {
    if s != "" && IsBlank(s[0]) then TrimFront(s[1..]) else s
  }

  function TrimBack(s: string): string {
    if s != "" && IsBlank(s[|s| - 1]) then TrimBack(s[..|s| - 1]) else s
  }

  function Trim(s: string): string {
    TrimBack(TrimFront(s))
  }

  /** The header that a line gives: one, or none when it has no colon. */
  function HeaderOf(line: string): seq<string> {
    var i := IndexOf(line, ':');
    if i == |line| then [] else [line[..i] + ": " + Trim(line[i + 1..])]
  }

  function StripReturn(line: string): string {
    if line != "" && line[|line| - 1] == '\r' then line[..|line| - 1] else line
  }

  /** The headers that the loop collects from what is left of the stream. */
  function ReadHeaders(s: string): seq<string>
    decreases |s|
  {
    if EndsHeaders(s) then [] else HeaderOf(StripReturn(Line(s))) + ReadHeaders(AfterLine(s))
  }

  /** The header loop stops at the end of the stream and at the first empty line. */
  predicate EndsHeaders(s: string) {
    s == "" || Line(s) == "\r" || StripReturn(Line(s)) == ""
  }

  /** What the parser leaves in the request `r` for a buffer whose body starts at `bodyStart`. */
  function Filled(buffer: string, bodyStart: nat, r: RequestData): RequestData {
    match RequestLine(StripReturn(Line(buffer)))
    case None => r.(isValid := false, raw := buffer)
    case Some((verb, url)) =>
      RequestData(true, buffer, verb, url, "1.1", r.headers + ReadHeaders(AfterLine(buffer)),
                  if bodyStart < |buffer| then buffer[bodyStart..] else r.body)
  }

  /** `RequestParser::Parse` on a buffer and a request: whether the request is complete, and the request. */
  function ParseInto(buffer: string, r: RequestData): (bool, RequestData) {
    match FindTerminator(buffer)
    case None => (false, r)
    case Some(end) => (true, Filled(buffer, end + 4, r))
  }

  predicate IsComplete(buffer: string) {
    FindTerminator(buffer).Some?
  }

  /** As `handle_read` calls it, with a new request. */
  function Parsed(buffer: string): RequestData {
    ParseInto(buffer, FRESH).1
  }

  // ---------- The parser ----------

  class Request {
    var isValid: bool
    var raw: string
    var verb: string
    var url: string
    var version: string
    var headers: seq<string>
    var body: string

    constructor ()
      ensures Data() == FRESH
    {
      isValid, raw, verb, url, version, headers, body := false, "", "", "", "", [], "";
    }

    function Data(): RequestData
      reads this
    {
      RequestData(isValid, raw, verb, url, version, headers, body)
    }
  }

  method ParseRequestLine(line: string, request: Request) returns (ok: bool)
    modifies request
    ensures ok == RequestLine(line).Some?
    ensures request.Data() ==
            match RequestLine(line)
            case None => old(request.Data()).(isValid := false)
            case Some((verb, url)) => old(request.Data()).(verb := verb, url := url, version := "1.1")
  {
    var (verb, rest1) := NextWord(line);
    var (url, rest2) := NextWord(rest1);
    var (version, _) := NextWord(rest2);
    if version == "" {
      request.isValid := false;
      return false;
    }
    if !IsAllowedMethod(verb) {
      request.isValid := false;
      return false;
    }
    if url == "" || url[0] != '/' {
      request.isValid := false;
      return false;
    }
    if version != "HTTP/1.1" {
      request.isValid := false;
      return false;
    }
    request.verb := verb;
    request.url := url;
    request.version := "1.1";
    return true;
  }

  method ParseHeaderLine(line: string, request: Request) returns (ok: bool)
    modifies request`headers
    ensures ok == (':' in line)
    ensures request.headers == old(request.headers) + HeaderOf(line)
  {
    var colon := IndexOf(line, ':');
    if colon == |line| {
      return false;
    }
    var name, value := line[..colon], line[colon + 1..];
    while value != "" && (value[0] == ' ' || value[0] == '\t')
      invariant TrimFront(value) == TrimFront(line[colon + 1..])
      decreases |value|
    {
      value := value[1..];
    }
    while value != "" && (value[|value| - 1] == ' ' || value[|value| - 1] == '\t')
      invariant TrimBack(value) == Trim(line[colon + 1..])
      decreases |value|
    {
      value := value[..|value| - 1];
    }
    request.headers := request.headers + [name + ": " + value];
    return true;
  }

  /** The header loop of `Parse`. */
  method ReadHeaderLines(text: string, request: Request)
    modifies request`headers
    ensures request.headers == old(request.headers) + ReadHeaders(text)
  {
    var stream := text;
    ghost var got: seq<string> := [];
    while stream != ""
      invariant request.headers == old(request.headers) + got
      invariant got + ReadHeaders(stream) == ReadHeaders(text)
      decreases |stream|
    {
      var line := Line(stream);
      if line == "\r" {
        break;
      }
      line := StripReturn(line);
      if line == "" {
        break;
      }
      var _ := ParseHeaderLine(line, request);
      Associate(old(request.headers), got, HeaderOf(line));
      Associate(got, HeaderOf(line), ReadHeaders(AfterLine(stream)));
      got := got + HeaderOf(line);
      stream := AfterLine(stream);
    }
    assert EndsHeaders(stream) && got + [] == got;
  }

  /** The part of `Parse` behind the search for the blank line. */
  method Fill(buffer: string, bodyStart: nat, request: Request)
    requires buffer != ""
    modifies request
    ensures request.Data() == Filled(buffer, bodyStart, old(request.Data()))
  {
    request.isValid := true;
    request.raw := buffer;
    // The buffer is not empty, so that the first getline cannot fail.
    var line := StripReturn(Line(buffer));
    var ok := ParseRequestLine(line, request);
    if !ok {
      return;
    }
    ReadHeaderLines(AfterLine(buffer), request);
    if bodyStart < |buffer| {
      request.body := buffer[bodyStart..];
    }
  }

  /** `RequestParser::Parse` */
  method Parse(buffer: string, request: Request) returns (complete: bool)
    modifies request
    ensures (complete, request.Data()) == ParseInto(buffer, old(request.Data()))
  {
    var headerEnd := FindTerminator(buffer);
    if headerEnd == None {
      return false;
    }
    Fill(buffer, headerEnd.value + 4, request);
    return true;
  }
}
