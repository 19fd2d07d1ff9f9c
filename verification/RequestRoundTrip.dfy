/** Printing a request as section 2.1 of RFC 9112 lays it out and parsing the text undo each other. */
module RequestRoundTrip {
  import opened Wrappers
  import opened Sequences
  import opened RequestParser

  // ---------- Printing ----------

  const VERSION := "HTTP/1.1"

  function PrintRequestLine(verb: string, url: string): string {
    verb + ([' '] + (url + ([' '] + VERSION)))
  }

  /** Lines, a blank line and a body. */
  function PrintLines(lines: seq<string>, body: string): string {
    if lines == [] then "\r\n" + body else lines[0] + ("\r\n" + PrintLines(lines[1..], body))
  }

  function PrintRequest(verb: string, url: string, lines: seq<string>, body: string): string {
    PrintLines([PrintRequestLine(verb, url)] + lines, body)
  }

  predicate IsUrl(url: string) {
    url != "" && url[0] == '/' && forall i | 0 <= i < |url| :: !IsSpace(url[i])
  }

  predicate IsLine(line: string) {
    forall i | 0 <= i < |line| :: line[i] != '\n'
  }

  ghost predicate AreFieldLines(lines: seq<string>) {
    forall i | 0 <= i < |lines| :: IsLine(lines[i]) && lines[i] != ""
  }

  function HeadersOf(lines: seq<string>): seq<string> {
    if lines == [] then [] else HeaderOf(lines[0]) + HeadersOf(lines[1..])
  }

  // ---------- Reading lines back ----------

  lemma {:induction false} LinePrinted(l: string, tail: string)
    requires IsLine(l)
    ensures Line(l + ("\r\n" + tail)) == l + "\r" && StripReturn(l + "\r") == l
    ensures AfterLine(l + ("\r\n" + tail)) == tail
  {
    var s := l + ("\r\n" + tail);
    assert s[|l| + 1] == '\n';
    assert forall i | 0 <= i < |l| :: s[i] == l[i];
    assert LineEnd(s) == |l| + 1;
    assert s[..|l| + 1] == l + "\r";
    assert s[|l| + 2..] == tail;
  }

  lemma {:induction false} ReadPrintedLines(lines: seq<string>, body: string)
    requires AreFieldLines(lines)
    ensures ReadHeaders(PrintLines(lines, body)) == HeadersOf(lines)
    decreases |lines|
  {
    if lines == [] {
      LinePrinted("", body);
      assert "\r\n" + body == "" + ("\r\n" + body);
      assert "" + "\r" == "\r";
    } else {
      LinePrinted(lines[0], PrintLines(lines[1..], body));
      assert |lines[0] + "\r"| > 1;
      ReadPrintedLines(lines[1..], body);
    }
  }

  // ---------- Where the first blank line of a printed request is ----------

  lemma {:induction false} FindBehindLine(l: string, t: string)
    requires IsLine(l)
    ensures FindTerminator(l + ("\r\n" + t)) ==
            if StartsWithLineEnd(t) then Some(|l|) else Shift(FindTerminator(t), |l| + 2)
    decreases |l|
  {
    var s := l + ("\r\n" + t);
    if l == "" {
      assert s[0] == '\r' && s[1] == '\n' && s[1..][1..] == t;
    } else {
      assert s[1..] == l[1..] + ("\r\n" + t);
      assert s[1] == if |l| > 1 then l[1] else '\r';
      FindBehindLine(l[1..], t);
    }
  }

  lemma {:induction false} FieldLineIsNotBlank(l: string, tail: string)
    requires IsLine(l) && l != ""
    ensures !StartsWithLineEnd(l + ("\r\n" + tail))
  {
    assert (l + ("\r\n" + tail))[1] == if |l| > 1 then l[1] else '\r';
  }

  ghost predicate HasBody(text: string, body: string) {
    FindTerminator(text).Some? && text[FindTerminator(text).value + 4..] == body
  }

  lemma {:induction false} FindPrinted(first: string, lines: seq<string>, body: string)
    requires IsLine(first) && AreFieldLines(lines)
    ensures HasBody(first + ("\r\n" + PrintLines(lines, body)), body)
    decreases |lines|
  {
    var t := PrintLines(lines, body);
    FindBehindLine(first, t);
    if lines != [] {
      FieldLineIsNotBlank(lines[0], PrintLines(lines[1..], body));
      FindPrinted(lines[0], lines[1..], body);
      BodyOfTail(first, t, FindTerminator(t).value + 4);
    }
  }

  lemma {:induction false} BodyOfTail(first: string, t: string, k: nat)
    requires k <= |t|
    ensures (first + ("\r\n" + t))[|first| + 2 + k..] == t[k..]
  {
  }

  // ---------- The request line ----------

  predicate IsWord(w: string) {
    w != "" && forall i | 0 <= i < |w| :: !IsSpace(w[i])
  }

  lemma {:induction false} NextWordIs(w: string, rest: string)
    requires IsWord(w)
    requires rest == "" || IsSpace(rest[0])
    ensures NextWord(w + rest) == (w, rest)
  {
    var t := w + rest;
    assert forall i | 0 <= i < |w| :: t[i] == w[i];
    assert rest != "" ==> t[|w|] == rest[0];
    assert SkipSpaces(t) == t && WordLength(t) == |w|;
    assert t[..|w|] == w && t[|w|..] == rest;
  }

  lemma {:induction false} NextWordBehindSpace(c: char, s: string)
    requires IsSpace(c)
    ensures NextWord([c] + s) == NextWord(s)
  {
    assert ([c] + s)[1..] == s;
  }

  lemma {:induction false} RequestLinePrinted(verb: string, url: string)
    requires IsAllowedMethod(verb) && IsUrl(url)
    ensures RequestLine(PrintRequestLine(verb, url)) == Some((verb, url))
  {
    var rest2 := [' '] + VERSION;
    var rest1 := [' '] + (url + rest2);
    assert NextWord(verb + rest1) == (verb, rest1) by {
      NextWordIs(verb, rest1);
    }
    assert NextWord(rest1) == (url, rest2) by {
      NextWordIs(url, rest2);
      NextWordBehindSpace(' ', url + rest2);
    }
    assert NextWord(rest2) == (VERSION, "") by {
      NextWordIs(VERSION, "");
      assert VERSION + "" == VERSION;
      NextWordBehindSpace(' ', VERSION);
    }
  }

  lemma {:induction false} RequestLineIsLine(verb: string, url: string)
    requires IsAllowedMethod(verb) && IsUrl(url)
    ensures IsLine(PrintRequestLine(verb, url))
  {
    assert forall i | 0 <= i < |url| :: !IsSpace(url[i]) && url[i] != '\n';
    assert IsLine(verb) && IsLine(VERSION);
  }

  // ---------- Header fields ----------

  /** Optional whitespace, as section 5.6.3 of RFC 9110 has it: spaces and tabs. */
  predicate IsBlanks(s: string) {
    forall i | 0 <= i < |s| :: s[i] in " \t"
  }

  predicate IsTrimmed(s: string) {
    s != "" ==> s[0] !in " \t" && s[|s| - 1] !in " \t"
  }

  lemma {:induction false} TrimFrontOf(pre: string, s: string)
    requires IsBlanks(pre) && (s == "" || !IsBlank(s[0]))
    ensures TrimFront(pre + s) == s
    decreases |pre|
  {
    if pre == "" {
      assert pre + s == s;
    } else {
      assert (pre + s)[1..] == pre[1..] + s;
      TrimFrontOf(pre[1..], s);
    }
  }

  lemma {:induction false} TrimBackOf(s: string, post: string)
    requires IsBlanks(post) && (s == "" || !IsBlank(s[|s| - 1]))
    ensures TrimBack(s + post) == s
    decreases |post|
  {
    if post == "" {
      assert s + post == s;
    } else {
      assert (s + post)[..|s + post| - 1] == s + post[..|post| - 1];
      TrimBackOf(s, post[..|post| - 1]);
    }
  }

  /** Blanks around a trimmed text are what trimming takes away. */
  lemma {:induction false} TrimOf(pre: string, s: string, post: string)
    requires IsBlanks(pre) && IsTrimmed(s) && IsBlanks(post)
    ensures Trim(pre + (s + post)) == s
  {
    if s == "" {
      assert pre + (s + post) == (pre + post) + "";
      TrimFrontOf(pre + post, "");
    } else {
      TrimFrontOf(pre, s + post);
      TrimBackOf(s, post);
    }
  }

  /** A field line with optional whitespace around its value, as in section 5.1 of RFC 9112, gives one
      header, in which that whitespace is one space. */
  lemma {:induction false} HeaderOfFieldLine(name: string, pre: string, value: string, post: string)
    requires ':' !in name && IsBlanks(pre) && IsTrimmed(value) && IsBlanks(post)
    ensures HeaderOf(name + (":" + (pre + (value + post)))) == [name + ": " + value]
  {
    var line := name + (":" + (pre + (value + post)));
    assert line[|name|] == ':';
    assert forall j | 0 <= j < |name| :: line[j] == name[j] && name[j] in name;
    assert IndexOf(line, ':') == |name|;
    assert line[..|name|] == name && line[|name| + 1..] == pre + (value + post);
    TrimOf(pre, value, post);
  }

  // ---------- Round trips ----------

  lemma {:induction false} FilledIs(text: string, n: nat, verb: string, url: string, r: RequestData)
    requires n <= |text| && RequestLine(StripReturn(Line(text))) == Some((verb, url))
    requires r.headers == [] && r.body == ""
    ensures Filled(text, n, r) == RequestData(true, text, verb, url, "1.1", ReadHeaders(AfterLine(text)), text[n..])
  {
    assert r.headers + ReadHeaders(AfterLine(text)) == ReadHeaders(AfterLine(text));
    assert n == |text| ==> text[n..] == "";
  }

  lemma {:induction false} ParseIs(text: string, verb: string, url: string, body: string, r: RequestData)
    requires HasBody(text, body) && RequestLine(StripReturn(Line(text))) == Some((verb, url))
    requires r.headers == [] && r.body == ""
    ensures ParseInto(text, r) == (true, RequestData(true, text, verb, url, "1.1", ReadHeaders(AfterLine(text)), body))
  {
    FilledIs(text, FindTerminator(text).value + 4, verb, url, r);
  }

  lemma {:induction false} ParsePrinted(first: string, verb: string, url: string, lines: seq<string>, body: string,
                                        r: RequestData)
    requires IsLine(first) && RequestLine(first) == Some((verb, url)) && AreFieldLines(lines)
    requires r.headers == [] && r.body == ""
    ensures var text := first + ("\r\n" + PrintLines(lines, body));
            ParseInto(text, r) == (true, RequestData(true, text, verb, url, "1.1", HeadersOf(lines), body))
  {
    var tail := PrintLines(lines, body);
    LinePrinted(first, tail);
    ReadPrintedLines(lines, body);
    FindPrinted(first, lines, body);
    ParseIs(first + ("\r\n" + tail), verb, url, body, r);
  }

  /** A printed request is parsed back into a request without headers and body: method, URL, the headers of
      its field lines and the body, whatever bytes the body has. */
  lemma {:induction false} PrintThenParse(verb: string, url: string, lines: seq<string>, body: string, r: RequestData)
    requires IsAllowedMethod(verb) && IsUrl(url) && AreFieldLines(lines)
    requires r.headers == [] && r.body == ""
    ensures var text := PrintRequest(verb, url, lines, body);
            ParseInto(text, r) == (true, RequestData(true, text, verb, url, "1.1", HeadersOf(lines), body))
  {
    var first := PrintRequestLine(verb, url);
    RequestLineIsLine(verb, url);
    RequestLinePrinted(verb, url);
    ParsePrinted(first, verb, url, lines, body, r);
    assert ([first] + lines)[1..] == lines;
  }

  // ---------- Requests with fields ----------

  /** A field, with the optional whitespace that a sender may put around its value. */
  datatype Field = Field(name: string, pre: string, value: string, post: string)

  predicate IsField(f: Field) {
    && ':' !in f.name && IsLine(f.name) && IsTrimmed(f.value) && IsLine(f.value)
    && IsBlanks(f.pre) && IsBlanks(f.post)
  }

  function FieldLine(f: Field): string {
    f.name + (":" + (f.pre + (f.value + f.post)))
  }

  function FieldLines(fields: seq<Field>): seq<string> {
    if fields == [] then [] else [FieldLine(fields[0])] + FieldLines(fields[1..])
  }

  /** A field as the parser keeps it: name and value, whatever whitespace there was. */
  function NameAndValue(f: Field): string {
    f.name + ": " + f.value
  }

  function NamesAndValues(fields: seq<Field>): seq<string> {
    if fields == [] then [] else [NameAndValue(fields[0])] + NamesAndValues(fields[1..])
  }

  lemma {:induction false} HeadersOfFields(fields: seq<Field>)
    requires forall i | 0 <= i < |fields| :: IsField(fields[i])
    ensures HeadersOf(FieldLines(fields)) == NamesAndValues(fields)
    ensures AreFieldLines(FieldLines(fields))
    decreases |fields|
  {
    if fields != [] {
      HeaderOfField(fields[0]);
      FieldLineIsLine(fields[0]);
      HeadersOfFields(fields[1..]);
      assert FieldLines(fields)[1..] == FieldLines(fields[1..]);
    }
  }

  lemma {:induction false} HeaderOfField(f: Field)
    requires IsField(f)
    ensures HeaderOf(FieldLine(f)) == [NameAndValue(f)]
  {
    HeaderOfFieldLine(f.name, f.pre, f.value, f.post);
  }

  lemma {:induction false} FieldLineIsLine(f: Field)
    requires IsField(f)
    ensures IsLine(FieldLine(f)) && FieldLine(f) != ""
  {
    assert forall i | 0 <= i < |f.pre| :: IsBlank(f.pre[i]);
    assert forall i | 0 <= i < |f.post| :: IsBlank(f.post[i]);
    assert FieldLine(f)[|f.name|] == ':';
  }

  /** A printed request is parsed back with its method, its URL, the name and value of each of its fields, in
      order, and its body. */
  lemma {:induction false} PrintFieldsThenParse(verb: string, url: string, fields: seq<Field>, body: string)
    requires IsAllowedMethod(verb) && IsUrl(url) && forall i | 0 <= i < |fields| :: IsField(fields[i])
    ensures var text := PrintRequest(verb, url, FieldLines(fields), body);
            IsComplete(text) && Parsed(text) == RequestData(true, text, verb, url, "1.1", NamesAndValues(fields), body)
  {
    HeadersOfFields(fields);
    PrintThenParse(verb, url, FieldLines(fields), body, FRESH);
  }

  // ---------- Parsing normalises ----------

  lemma {:induction false} TrimFrontIsSuffix(s: string) returns (n: nat)
    ensures n <= |s| && TrimFront(s) == s[n..] && (n < |s| ==> !IsBlank(s[n]))
    decreases |s|
  {
    n := 0;
    if s != "" && IsBlank(s[0]) {
      n := TrimFrontIsSuffix(s[1..]);
      n := n + 1;
    }
  }

  lemma {:induction false} TrimBackIsPrefix(s: string) returns (n: nat)
    ensures n <= |s| && TrimBack(s) == s[..n] && (n > 0 ==> !IsBlank(s[n - 1]))
    decreases |s|
  {
    n := |s|;
    if s != "" && IsBlank(s[|s| - 1]) {
      n := TrimBackIsPrefix(s[..|s| - 1]);
    }
  }

  lemma {:induction false} TrimIsTrimmed(s: string)
    requires IsLine(s)
    ensures IsTrimmed(Trim(s)) && IsLine(Trim(s))
  {
    var n := TrimFrontIsSuffix(s);
    var k := TrimBackIsPrefix(s[n..]);
  }

  /** A header the parser stores is a field line, and is its own header. */
  predicate IsNormalHeader(h: string) {
    IsLine(h) && h != "" && HeaderOf(h) == [h]
  }

  lemma {:induction false} NormalHeader(name: string, value: string)
    requires ':' !in name && IsLine(name) && IsTrimmed(value) && IsLine(value)
    ensures IsNormalHeader(name + ": " + value)
  {
    HeaderOfFieldLine(name, " ", value, "");
    NormalLayout(name, value);
    assert (name + ": " + value)[|name|] == ':';
  }

  lemma {:induction false} NormalLayout(name: string, value: string)
    ensures name + (":" + (" " + (value + ""))) == name + ": " + value
  {
  }

  lemma {:induction false} HeaderOfIsNormal(line: string)
    requires IsLine(line)
    ensures forall i | 0 <= i < |HeaderOf(line)| :: IsNormalHeader(HeaderOf(line)[i])
  {
    var colon := IndexOf(line, ':');
    if colon < |line| {
      var name, rest := line[..colon], line[colon + 1..];
      TrimIsTrimmed(rest);
      NormalHeader(name, Trim(rest));
    }
  }

  lemma {:induction false} ReadHeadersAreNormal(s: string)
    ensures forall i | 0 <= i < |ReadHeaders(s)| :: IsNormalHeader(ReadHeaders(s)[i])
    decreases |s|
  {
    if !EndsHeaders(s) {
      HeaderOfIsNormal(StripReturn(Line(s)));
      ReadHeadersAreNormal(AfterLine(s));
    }
  }

  lemma {:induction false} HeadersOfNormal(hs: seq<string>)
    requires forall i | 0 <= i < |hs| :: IsNormalHeader(hs[i])
    ensures HeadersOf(hs) == hs
    decreases |hs|
  {
    if hs != [] {
      HeadersOfNormal(hs[1..]);
    }
  }

  lemma {:induction false} NextWordHasNoSpace(s: string)
    ensures var (w, _) := NextWord(s); forall i | 0 <= i < |w| :: !IsSpace(w[i])
  {
  }

  lemma {:induction false} RequestLineIsLegal(line: string)
    ensures RequestLine(line).Some? ==> IsAllowedMethod(RequestLine(line).value.0) && IsUrl(RequestLine(line).value.1)
  {
    NextWordHasNoSpace(NextWord(line).1);
  }

  /** Parsing normalises: whatever buffer gave a valid request, printing that request and parsing the text
      gives the same request again. */
  lemma {:induction false} ParsingNormalises(buffer: string)
    requires IsComplete(buffer) && Parsed(buffer).isValid
    ensures var r := Parsed(buffer);
            var text := PrintRequest(r.verb, r.url, r.headers, r.body);
            IsComplete(text) && Parsed(text) == r.(raw := text)
  {
    var r := Parsed(buffer);
    RequestLineIsLegal(StripReturn(Line(buffer)));
    ReadHeadersAreNormal(AfterLine(buffer));
    assert r.headers == ReadHeaders(AfterLine(buffer));
    HeadersOfNormal(r.headers);
    PrintThenParse(r.verb, r.url, r.headers, r.body, FRESH);
  }
}
