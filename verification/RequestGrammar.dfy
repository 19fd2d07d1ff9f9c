/** Requests spelled out character by character: which buffers are complete, which request lines are accepted,
    and what each line of the head contributes, for every buffer and not only for printed ones. */
module RequestGrammar {
  import opened Wrappers
  import opened Sequences
  import opened RequestParser
  import opened RequestRoundTrip
  import opened RequestStability

  // ---------- The blank line ----------

  predicate BlankLineAt(buffer: string, i: nat) {
    i + 4 <= |buffer| && buffer[i] == '\r' && buffer[i + 1] == '\n' && buffer[i + 2] == '\r' && buffer[i + 3] == '\n'
  }

  predicate NoneBefore(buffer: string, i: nat) {
    forall j | 0 <= j < i :: !BlankLineAt(buffer, j)
  }

  lemma {:induction false} NoneBeforeShift(buffer: string, i: nat)
    requires buffer != [] && i > 0 && !BlankLineAt(buffer, 0)
    ensures NoneBefore(buffer, i) <==> NoneBefore(buffer[1..], i - 1)
  {
    if NoneBefore(buffer, i) {
      forall j | 0 <= j < i - 1 ensures !BlankLineAt(buffer[1..], j) {
        assert !BlankLineAt(buffer, j + 1);
      }
    }
    if NoneBefore(buffer[1..], i - 1) {
      forall j | 0 <= j < i ensures !BlankLineAt(buffer, j) {
        assert j > 0 ==> !BlankLineAt(buffer[1..], j - 1);
      }
    }
  }

  /** The search stops at the first blank line, if there is one. */
  lemma {:induction false} FindTerminatorExactly(buffer: string, i: nat)
    ensures FindTerminator(buffer) == Some(i) <==> BlankLineAt(buffer, i) && NoneBefore(buffer, i)
    decreases |buffer|
  {
    if |buffer| >= 4 && !StartsWithTerminator(buffer) && i > 0 {
      FindTerminatorExactly(buffer[1..], i - 1);
      NoneBeforeShift(buffer, i);
      assert BlankLineAt(buffer, i) <==> BlankLineAt(buffer[1..], i - 1);
    } else if |buffer| >= 4 && StartsWithTerminator(buffer) {
      assert BlankLineAt(buffer, 0);
    }
  }

  // ---------- Lines ----------

  /** A line end is a line feed, with or without a carriage return in front of it. */
  datatype TextLine = TextLine(text: string, withReturn: bool)

  predicate IsTextLine(l: TextLine) {
    '\n' !in l.text && (!l.withReturn && l.text != "" ==> l.text[|l.text| - 1] != '\r')
  }

  function EndOf(l: TextLine): string {
    if l.withReturn then "\r\n" else "\n"
  }

  lemma {:induction false} LineRead(l: TextLine, rest: string)
    requires IsTextLine(l)
    ensures var s := l.text + (EndOf(l) + rest);
            s != "" && StripReturn(Line(s)) == l.text && AfterLine(s) == rest
            && Line(s) == if l.withReturn then l.text + "\r" else l.text
  {
    var s := l.text + (EndOf(l) + rest);
    if l.withReturn {
      LinePrinted(l.text, rest);
    } else {
      assert s[|l.text|] == '\n';
      assert forall i | 0 <= i < |l.text| :: s[i] == l.text[i] && l.text[i] in l.text;
      assert LineEnd(s) == |l.text|;
      assert s[..|l.text|] == l.text && s[|l.text| + 1..] == rest;
    }
  }

  /** Every buffer with a line feed starts with a line. */
  lemma {:induction false} FirstLine(buffer: string) returns (l: TextLine, rest: string)
    requires '\n' in buffer
    ensures IsTextLine(l) && buffer == l.text + (EndOf(l) + rest)
  {
    var n := LineEnd(buffer);
    assert n < |buffer| && buffer[n] == '\n' && '\n' !in buffer[..n];
    rest := buffer[n + 1..];
    if n > 0 && buffer[n - 1] == '\r' {
      l := TextLine(buffer[..n - 1], true);
      assert buffer == buffer[..n - 1] + ("\r\n" + rest);
    } else {
      l := TextLine(buffer[..n], false);
    }
  }

  // ---------- The request line ----------

  predicate AreSpaces(s: string) {
    forall i | 0 <= i < |s| :: s[i] in " \t\n\U{0B}\U{0C}\r"
  }

  predicate IsWordOf(w: string) {
    w != "" && forall i | 0 <= i < |w| :: w[i] !in " \t\n\U{0B}\U{0C}\r"
  }

  /** The three words of a request line, the spaces in front of each, and what follows, which is ignored. */
  datatype Spelling = Spelling(sp0: string, verb: string, sp1: string, url: string, sp2: string, tail: string)

  function SpelledLine(x: Spelling): string {
    x.sp0 + (x.verb + (x.sp1 + (x.url + (x.sp2 + ("HTTP/1.1" + x.tail)))))
  }

  predicate IsSpelling(x: Spelling) {
    && AreSpaces(x.sp0) && AreSpaces(x.sp1) && AreSpaces(x.sp2) && x.sp1 != "" && x.sp2 != ""
    && (x.verb == "GET" || x.verb == "POST" || x.verb == "PUT" || x.verb == "DELETE")
    && IsWordOf(x.url) && x.url[0] == '/'
    && (x.tail == "" || AreSpaces(x.tail[..1]))
  }

  lemma {:induction false} SkipSpelledSpaces(sp: string, s: string)
    requires AreSpaces(sp)
    ensures SkipSpaces(sp + s) == SkipSpaces(s)
    decreases |sp|
  {
    if sp == "" {
      assert sp + s == s;
    } else {
      assert (sp + s)[1..] == sp[1..] + s;
      SkipSpelledSpaces(sp[1..], s);
    }
  }

  lemma {:induction false} NextWordSpelled(sp: string, w: string, rest: string)
    requires AreSpaces(sp) && IsWordOf(w) && (rest == "" || AreSpaces(rest[..1]))
    ensures NextWord(sp + (w + rest)) == (w, rest)
  {
    SkipSpelledSpaces(sp, w + rest);
    NextWordIs(w, rest);
    assert SkipSpaces(w + rest) == w + rest by {
      assert (w + rest)[0] == w[0];
    }
  }

  lemma {:induction false} SpacesSkipped(s: string) returns (sp: string)
    ensures AreSpaces(sp) && s == sp + SkipSpaces(s)
    decreases |s|
  {
    sp := "";
    if s != "" && IsSpace(s[0]) {
      var more := SpacesSkipped(s[1..]);
      sp := [s[0]] + more;
      assert s == [s[0]] + s[1..];
    }
  }

  lemma {:induction false} SpaceIs(c: char)
    ensures IsSpace(c) <==> c in " \t\n\U{0B}\U{0C}\r"
  {
  }

  lemma {:induction false} WordSplits(t: string)
    requires t != "" && !IsSpace(t[0])
    ensures var n := WordLength(t);
            IsWordOf(t[..n]) && t == t[..n] + t[n..] && (t[n..] == "" || AreSpaces(t[n..][..1]))
  {
    var n := WordLength(t);
    var w := t[..n];
    assert n > 0;
    forall i | 0 <= i < n ensures w[i] !in " \t\n\U{0B}\U{0C}\r" {
      SpaceIs(t[i]);
    }
    if n < |t| {
      SpaceIs(t[n]);
      assert t[n..][..1] == [t[n]];
    }
  }

  lemma {:induction false} SkippedStart(s: string)
    ensures SkipSpaces(s) != "" ==> !IsSpace(SkipSpaces(s)[0])
  {
    if s != "" && IsSpace(s[0]) {
      SkippedStart(s[1..]);
    }
  }

  lemma {:induction false} NextWordSplits(s: string) returns (sp: string)
    requires NextWord(s).0 != ""
    ensures var (w, rest) := NextWord(s);
            && AreSpaces(sp) && IsWordOf(w) && s == sp + (w + rest)
            && (rest == "" || AreSpaces(rest[..1]))
            && (s != "" && AreSpaces(s[..1]) ==> sp != "")
  {
    sp := SpacesSkipped(s);
    var t := SkipSpaces(s);
    SkippedStart(s);
    WordSplits(t);
    assert s != "" && AreSpaces(s[..1]) ==> s[..1][0] in " \t\n\U{0B}\U{0C}\r" && IsSpace(s[0]);
  }

  lemma {:induction false} VersionSpelled(sp2: string, tail: string)
    requires AreSpaces(sp2) && (tail == "" || AreSpaces(tail[..1]))
    ensures NextWord(sp2 + ("HTTP/1.1" + tail)) == ("HTTP/1.1", tail)
  {
    assert IsWordOf("HTTP/1.1");
    NextWordSpelled(sp2, "HTTP/1.1", tail);
  }

  lemma {:induction false} StartsWithSpace(sp: string, rest: string)
    requires AreSpaces(sp) && sp != ""
    ensures AreSpaces((sp + rest)[..1])
  {
    assert (sp + rest)[0] == sp[0];
  }

  lemma {:induction false} SpelledIsRead(x: Spelling)
    requires IsSpelling(x)
    ensures RequestLine(SpelledLine(x)) == Some((x.verb, x.url))
  {
    var rest2 := x.sp2 + ("HTTP/1.1" + x.tail);
    var rest1 := x.sp1 + (x.url + rest2);
    StartsWithSpace(x.sp1, x.url + rest2);
    StartsWithSpace(x.sp2, "HTTP/1.1" + x.tail);
    assert IsWordOf(x.verb);
    NextWordSpelled(x.sp0, x.verb, rest1);
    NextWordSpelled(x.sp1, x.url, rest2);
    VersionSpelled(x.sp2, x.tail);
  }

  lemma {:induction false} ReadIsSpelled(line: string) returns (x: Spelling)
    requires RequestLine(line).Some?
    ensures IsSpelling(x) && line == SpelledLine(x)
  {
    var (verb, rest1) := NextWord(line);
    var (url, rest2) := NextWord(rest1);
    var (version, tail) := NextWord(rest2);
    var sp0 := NextWordSplits(line);
    var sp1 := NextWordSplits(rest1);
    var sp2 := NextWordSplits(rest2);
    x := Spelling(sp0, verb, sp1, url, sp2, tail);
  }

  /** A request line is accepted exactly if it is a method of the four, a URL that starts with a slash and the
      version, each behind spaces; the method and the URL returned are those. */
  lemma {:induction false} RequestLineExactly(line: string)
    ensures RequestLine(line).Some? <==> exists x :: IsSpelling(x) && line == SpelledLine(x)
    ensures forall x :: IsSpelling(x) && line == SpelledLine(x) ==> RequestLine(line) == Some((x.verb, x.url))
  {
    forall x | IsSpelling(x) && line == SpelledLine(x) ensures RequestLine(line) == Some((x.verb, x.url)) {
      SpelledIsRead(x);
    }
    if RequestLine(line).Some? {
      var x := ReadIsSpelled(line);
    }
  }

  /** A complete buffer is a valid request exactly if its first line is so spelled; otherwise nothing of it is
      kept but the raw text. */
  lemma {:induction false} ValidExactly(first: TextLine, rest: string, buffer: string)
    requires IsTextLine(first) && buffer == first.text + (EndOf(first) + rest) && IsComplete(buffer)
    ensures Parsed(buffer).isValid <==> exists x :: IsSpelling(x) && first.text == SpelledLine(x)
    ensures forall x :: IsSpelling(x) && first.text == SpelledLine(x) ==>
              Parsed(buffer).verb == x.verb && Parsed(buffer).url == x.url
    ensures !Parsed(buffer).isValid ==> Parsed(buffer) == RequestData(false, buffer, "", "", "", [], "")
    ensures Parsed(buffer).isValid ==> Parsed(buffer).headers == ReadHeaders(rest)
  {
    LineRead(first, rest);
    RequestLineExactly(first.text);
  }

  // ---------- Field lines ----------

  /** A line with a colon is a field, in one way up to blanks; one without is ignored. */
  lemma {:induction false} FieldOfLine(line: string) returns (f: Field)
    requires IsLine(line)
    ensures ':' !in line ==> HeaderOf(line) == []
    ensures ':' in line ==> IsField(f) && line == FieldLine(f) && HeaderOf(line) == [NameAndValue(f)]
  {
    f := Field("", "", "", "");
    var n := IndexOf(line, ':');
    if n < |line| {
      var rest := line[n + 1..];
      var pre, value, post := TrimSplits(rest);
      f := Field(line[..n], pre, value, post);
      assert line == line[..n] + (":" + rest);
      HeaderOfField(f);
    }
  }

  lemma {:induction false} TrimSplits(s: string) returns (pre: string, value: string, post: string)
    requires IsLine(s)
    ensures s == pre + (value + post) && IsBlanks(pre) && IsBlanks(post) && IsTrimmed(value) && IsLine(value)
  {
    var front := TrimFront(s);
    var n := TrimFrontIsSuffix(s);
    var k := TrimBackIsPrefix(front);
    FrontBlanks(s);
    BackBlanks(front);
    pre, value, post := s[..n], front[..k], front[k..];
    assert s == pre + front && front == value + post;
    TrimIsTrimmed(s);
  }

  lemma {:induction false} FrontBlanks(s: string)
    ensures |TrimFront(s)| <= |s| && IsBlanks(s[..|s| - |TrimFront(s)|])
    decreases |s|
  {
    if s != "" && IsBlank(s[0]) {
      FrontBlanks(s[1..]);
      var n := |s| - |TrimFront(s)|;
      assert s[..n] == [s[0]] + s[1..][..n - 1];
    }
  }

  lemma {:induction false} BackBlanks(s: string)
    ensures |TrimBack(s)| <= |s| && IsBlanks(s[|TrimBack(s)|..])
    decreases |s|
  {
    if s != "" && IsBlank(s[|s| - 1]) {
      BackBlanks(s[..|s| - 1]);
      var n := |TrimBack(s)|;
      assert s[n..] == s[..|s| - 1][n..] + [s[|s| - 1]];
    }
  }

  function LinesText(ls: seq<TextLine>): string {
    if ls == [] then "" else ls[0].text + (EndOf(ls[0]) + LinesText(ls[1..]))
  }

  function Texts(ls: seq<TextLine>): seq<string> {
    if ls == [] then [] else [ls[0].text] + Texts(ls[1..])
  }

  /** The headers are those of the lines up to the first empty one, whichever line ends are used. */
  lemma {:induction false} HeadersOfLines(ls: seq<TextLine>, blank: TextLine, rest: string)
    requires forall i | 0 <= i < |ls| :: IsTextLine(ls[i]) && ls[i].text != ""
    requires blank.text == ""
    ensures ReadHeaders(LinesText(ls) + (EndOf(blank) + rest)) == HeadersOf(Texts(ls))
    decreases |ls|
  {
    var tail := EndOf(blank) + rest;
    if ls == [] {
      LineRead(blank, rest);
      assert LinesText(ls) + tail == tail == blank.text + (EndOf(blank) + rest);
      assert "" + "\r" == "\r";
    } else {
      var l, more := ls[0], LinesText(ls[1..]);
      Associate(l.text, EndOf(l) + more, tail);
      Associate(EndOf(l), more, tail);
      LineRead(l, more + tail);
      HeadersOfLines(ls[1..], blank, rest);
      assert Texts(ls)[1..] == Texts(ls[1..]);
      assert |l.text + "\r"| > 1;
    }
  }
}
