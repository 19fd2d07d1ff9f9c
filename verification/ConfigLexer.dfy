/** The tokenizer of the config language (`NginxConfigParser::ParseToken`), as a machine over an
    input stream with one character of push-back, and as a grammar of tokens. */
module ConfigLexer {
  import opened Sequences

  datatype TokenType =
    Start | Normal | StartBlock | EndBlock | Comment | StatementEnd | Eof | Error | QuotedString

  datatype ScanState = InitialWhitespace | SingleQuote | DoubleQuote | InComment | InNormal

  /** What one call of the tokenizer yields: a kind, the text gathered, and the input left over. */
  datatype Lexed = Lexed(kind: TokenType, text: string, rest: string)

  // What `istream::get` yields at the end of input, once narrowed to `char`.
  const END_OF_INPUT: char := '\U{FF}'

  predicate IsTokenDelimiter(c: char) {
    c == ' ' || c == '\t' || c == '\n' || c == ';' || c == '{' || c == '}'
  }

  predicate IsWhitespace(c: char) {
    c == ' ' || c == '\t' || c == '\n' || c == '\r'
  }

  /** The part of `std::istream` that the tokenizer uses. */
  class InputStream {
    const content: string
    var pos: nat
    var good: bool

    constructor (text: string)
      ensures Valid() && good && Remaining() == text
    {
      content := text;
      pos, good := 0, true;
    }

    ghost predicate Valid()
      reads this
    {
      pos <= |content|
    }

    /** The characters that are still to be read; none once the stream has failed. */
    ghost function Remaining(): string
      requires Valid()
      reads this
    {
      if good then content[pos..] else ""
    }

    method Get() returns (c: char)
      requires Valid()
      modifies this
      ensures Valid()
      ensures old(Remaining()) == "" ==> !good && c == END_OF_INPUT
      ensures old(Remaining()) != "" ==>
                && good && pos == old(pos) + 1
                && c == old(Remaining())[0] && Remaining() == old(Remaining())[1..]
    {
      if good && pos < |content| {
        c := content[pos];
        pos := pos + 1;
      } else {
        c := END_OF_INPUT;
        good := false;
      }
    }

    method Unget()
      requires Valid() && good && pos > 0
      modifies this
      ensures Valid() && good && pos == old(pos) - 1
      ensures Remaining() == [content[pos]] + old(Remaining())
    {
      pos := pos - 1;
    }
  }

  // ---------- The machine, one function per state ----------

  predicate InQuote(st: ScanState) {
    st.SingleQuote? || st.DoubleQuote?
  }

  function QuoteChar(st: ScanState): char
    requires InQuote(st)
  {
    if st.SingleQuote? then '\'' else '"'
  }

  function ScanComment(text: string, s: string): Lexed
    decreases |s|
  {
    if s == "" then Lexed(Eof, text, "")
    else if s[0] == '\n' || s[0] == '\r' then Lexed(Comment, text, s[1..])
    else ScanComment(text + [s[0]], s[1..])
  }

  function ScanWord(text: string, s: string): Lexed
    decreases |s|
  {
    if s == "" then Lexed(Eof, text, "")
    else if IsTokenDelimiter(s[0]) then Lexed(Normal, text, s)
    else ScanWord(text + [s[0]], s[1..])
  }

  function ScanQuoted(q: char, text: string, s: string): Lexed
    decreases |s|
  {
    if s == "" then Lexed(Error, text, "")
    else if s[0] == '\\' then
      if |s| == 1 then Lexed(Error, text + [s[0], END_OF_INPUT], "")
      else ScanQuoted(q, text + [s[0], s[1]], s[2..])
    else if s[0] != q then ScanQuoted(q, text + [s[0]], s[1..])
    else if |s| == 1 then Lexed(Error, text + [q], "")
    else if IsTokenDelimiter(s[1]) then Lexed(Normal, text + [q], s[1..])
    else Lexed(Error, text + [q], s[2..])
  }

  /** The token that starts with `c`, which is not whitespace, and goes on in `tail`. */
  function LexFrom(c: char, tail: string): Lexed {
    if c == '{' then Lexed(StartBlock, [c], tail)
    else if c == '}' then Lexed(EndBlock, [c], tail)
    else if c == ';' then Lexed(StatementEnd, [c], tail)
    else if c == '#' then ScanComment([c], tail)
    else if c == '"' || c == '\'' then ScanQuoted(c, [c], tail)
    else ScanWord([c], tail)
  }

  function Lex(s: string): Lexed
    decreases |s|
  {
    if s == "" then Lexed(Eof, "", "")
    else if IsWhitespace(s[0]) then Lex(s[1..])
    else LexFrom(s[0], s[1..])
  }

  /** The outcome of the loop in state `st`, with `text` gathered and `s` still to be read. */
  function Scan(st: ScanState, text: string, s: string): Lexed {
    match st
    case InitialWhitespace => Lex(s)
    case InComment => ScanComment(text, s)
    case InNormal => ScanWord(text, s)
    case _ => ScanQuoted(QuoteChar(st), text, s)
  }

  /** The case of a quoted string, which `ParseToken` has for each kind of quote, behind the character `c`. */
  method ReadQuoted(input: InputStream, q: char, c: char, text: string)
    returns (done: bool, kind: TokenType, value: string)
    requires input.Valid() && input.good && (q == '"' || q == '\'')
    modifies input
    ensures input.Valid() && (input.good ==> |input.Remaining()| <= |old(input.Remaining())|)
    ensures ScanQuoted(q, text, [c] + old(input.Remaining())) ==
            if done then Lexed(kind, value, input.Remaining()) else ScanQuoted(q, value, input.Remaining())
  {
    ghost var s := [c] + input.Remaining();
    assert s[1..] == input.Remaining();
    done, kind := false, Error;
    if c == '\\' {
      var next := input.Get();
      assert |s| > 1 ==> s[2..] == s[1..][1..];
      value := text + [c, next];
      return;
    }
    value := text + [c];
    if c == q {
      done := true;
      var next := input.Get();
      assert |s| > 1 ==> s[2..] == s[1..][1..];
      if IsTokenDelimiter(next) {
        input.Unget();
        kind := Normal;
      }
    }
  }

  /** `ParseToken`, called as `Parse` calls it: with an empty value. */
  method ParseToken(input: InputStream) returns (kind: TokenType, value: string)
    requires input.Valid()
    modifies input
    ensures input.Valid()
    ensures Lexed(kind, value, input.Remaining()) == Lex(old(input.Remaining()))
  {
    value := "";
    var state := InitialWhitespace;
    ghost var goal := Lex(input.Remaining());
    while input.good
      invariant input.Valid()
      invariant state == InitialWhitespace ==> value == ""
      invariant Scan(state, value, input.Remaining()) == goal
      decreases input.good, |input.Remaining()|
    {
      ghost var before := input.Remaining();
      var c := input.Get();
      if !input.good {
        break;
      }
      match state
      case InitialWhitespace =>
        if IsWhitespace(c) {
          continue;
        }
        if c == '{' {
          return StartBlock, [c];
        } else if c == '}' {
          return EndBlock, [c];
        } else if c == '#' {
          value, state := [c], InComment;
        } else if c == '"' {
          value, state := [c], DoubleQuote;
        } else if c == '\'' {
          value, state := [c], SingleQuote;
        } else if c == ';' {
          return StatementEnd, [c];
        } else {
          assert value + [c] == [c];
          value, state := value + [c], InNormal;
        }
      case InComment =>
        if c == '\n' || c == '\r' {
          return Comment, value;
        }
        value := value + [c];
      case InNormal =>
        if IsTokenDelimiter(c) {
          input.Unget();
          return Normal, value;
        }
        value := value + [c];
      case _ =>
        assert before == [c] + input.Remaining();
        var done, kind', value' := ReadQuoted(input, QuoteChar(state), c, value);
        value := value';
        if done {
          return kind', value;
        }
    }
    return if InQuote(state) then Error else Eof, value;
  }

  // ---------- The language of tokens ----------

  predicate AllWhitespace(s: string) {
    forall i | 0 <= i < |s| :: IsWhitespace(s[i])
  }

  predicate StartsWord(c: char) {
    !IsWhitespace(c) && c !in "{};#\"'"
  }

  predicate IsBareWord(t: string) {
    t != "" && StartsWord(t[0]) && forall i | 0 <= i < |t| :: !IsTokenDelimiter(t[i])
  }

  /** `s` is the inside of a string quoted by `q`, followed by the one unescaped `q` that closes it. */
  predicate ClosesQuote(q: char, s: string) {
    if s == "" then false
    else if s[0] == '\\' then |s| > 1 && ClosesQuote(q, s[2..])
    else if s[0] == q then |s| == 1
    else ClosesQuote(q, s[1..])
  }

  predicate IsQuoted(t: string) {
    t != "" && (t[0] == '"' || t[0] == '\'') && ClosesQuote(t[0], t[1..])
  }

  predicate IsLegalToken(t: string) {
    IsBareWord(t) || IsQuoted(t)
  }

  predicate StartsWithDelimiter(s: string) {
    s != "" && IsTokenDelimiter(s[0])
  }

  /** Whitespace in front of a token is skipped. */
  lemma {:induction false} LexSkipsLayout(ws: string, s: string)
    requires AllWhitespace(ws)
    ensures Lex(ws + s) == Lex(s)
  {
    if ws == "" {
      assert ws + s == s;
    } else {
      assert (ws + s)[1..] == ws[1..] + s;
      LexSkipsLayout(ws[1..], s);
    }
  }

  function SkipLayout(s: string): (body: string)
    ensures |body| <= |s| && body == s[|s| - |body|..] && AllWhitespace(s[..|s| - |body|])
    ensures body != "" ==> !IsWhitespace(body[0])
  {
    if s != "" && IsWhitespace(s[0]) then
      var body := SkipLayout(s[1..]);
      assert s[..|s| - |body|] == [s[0]] + s[1..][..|s| - 1 - |body|];
      body
    else s
  }

  lemma {:induction false} LexFromBody(s: string)
    ensures Lex(s) == Lex(SkipLayout(s))
  {
    var body := SkipLayout(s);
    LexSkipsLayout(s[..|s| - |body|], body);
    assert s == s[..|s| - |body|] + body;
  }

  // -- bare words

  lemma {:induction false} ScanWordCollects(text: string, w: string, s: string)
    requires forall i | 0 <= i < |w| :: !IsTokenDelimiter(w[i])
    requires s == "" || IsTokenDelimiter(s[0])
    ensures ScanWord(text, w + s) ==
            if s == "" then Lexed(Eof, text + w, "") else Lexed(Normal, text + w, s)
    decreases |w|
  {
    if w == "" {
      assert w + s == s && text + w == text;
    } else {
      assert (w + s)[1..] == w[1..] + s;
      assert text + [w[0]] + w[1..] == text + w;
      ScanWordCollects(text + [w[0]], w[1..], s);
    }
  }

  /** The longest prefix of `s` without a delimiter. */
  function WordPrefix(s: string): (w: string)
    ensures |w| <= |s| && w == s[..|w|]
    ensures forall i | 0 <= i < |w| :: !IsTokenDelimiter(w[i])
    ensures |w| < |s| ==> IsTokenDelimiter(s[|w|])
  {
    if s == "" || IsTokenDelimiter(s[0]) then "" else [s[0]] + WordPrefix(s[1..])
  }

  lemma {:induction false} LexFromWord(body: string)
    requires body != "" && StartsWord(body[0])
    ensures var w := WordPrefix(body);
            && IsBareWord(w)
            && LexFrom(body[0], body[1..]) ==
               if |w| == |body| then Lexed(Eof, body, "") else Lexed(Normal, w, body[|w|..])
  {
    var w := WordPrefix(body);
    ScanWordCollects([body[0]], w[1..], body[|w|..]);
    assert body[1..] == w[1..] + body[|w|..];
    assert [body[0]] + w[1..] == w;
  }

  // -- quoted strings

  lemma {:induction false} ScanQuotedCompletes(q: char, text: string, t: string, s: string)
    requires q != '\\' && ClosesQuote(q, t) && StartsWithDelimiter(s)
    ensures ScanQuoted(q, text, t + s) == Lexed(Normal, text + t, s)
    decreases |t|
  {
    if t[0] == '\\' {
      assert (t + s)[2..] == t[2..] + s;
      assert text + [t[0], t[1]] + t[2..] == text + t;
      ScanQuotedCompletes(q, text + [t[0], t[1]], t[2..], s);
    } else if t[0] != q {
      assert (t + s)[1..] == t[1..] + s;
      assert text + [t[0]] + t[1..] == text + t;
      ScanQuotedCompletes(q, text + [t[0]], t[1..], s);
    } else {
      assert t == [q] && (t + s)[1..] == s;
    }
  }

  /** A failed scan has gathered all that was left, at the end of input with the byte that stands for it
      if a backslash came last, or all up to the one character that should have been a delimiter. */
  ghost predicate FailsAs(text: string, s: string, r: Lexed) {
    || (r.rest == "" && (r.text == text + s || r.text == text + s + [END_OF_INPUT]))
    || (|r.rest| < |s| && r.text == text + s[..|s| - |r.rest| - 1] && r.rest == s[|s| - |r.rest|..]
        && !IsTokenDelimiter(s[|s| - |r.rest| - 1]))
  }

  lemma {:induction false} FailsBehind(text: string, front: string, s: string, r: Lexed)
    requires FailsAs(text + front, s, r)
    ensures FailsAs(text, front + s, r)
  {
    var all := front + s;
    Associate(text, front, s);
    if |r.rest| < |s| {
      assert all[..|all| - |r.rest| - 1] == front + s[..|s| - |r.rest| - 1];
      Associate(text, front, s[..|s| - |r.rest| - 1]);
    }
  }

  lemma {:induction false} ScanQuotedFails(q: char, text: string, s: string)
    requires ScanQuoted(q, text, s).kind == Error
    ensures FailsAs(text, s, ScanQuoted(q, text, s))
    decreases |s|
  {
    var r := ScanQuoted(q, text, s);
    if s != "" && s[0] == '\\' && |s| > 1 {
      ScanQuotedFails(q, text + [s[0], s[1]], s[2..]);
      FailsBehind(text, [s[0], s[1]], s[2..], r);
      assert s == [s[0], s[1]] + s[2..];
    } else if s != "" && s[0] != '\\' && s[0] != q {
      ScanQuotedFails(q, text + [s[0]], s[1..]);
      FailsBehind(text, [s[0]], s[1..], r);
      assert s == [s[0]] + s[1..];
    } else {
      ScanQuotedStops(q, text, s);
    }
  }

  /** The scan fails without reading on. */
  lemma {:induction false} ScanQuotedStops(q: char, text: string, s: string)
    requires ScanQuoted(q, text, s).kind == Error
    requires s == "" || s == "\\" || (s[0] == q && q != '\\')
    ensures FailsAs(text, s, ScanQuoted(q, text, s))
  {
    if s == "" {
      assert text + s == text;
    } else if s == "\\" {
      assert text + [s[0], END_OF_INPUT] == text + s + [END_OF_INPUT];
    } else if |s| == 1 {
      assert [q] == s;
    } else {
      assert s[..1] == [q];
    }
  }

  lemma {:induction false} ScanQuotedEnds(q: char, text: string, s: string)
    ensures var r := ScanQuoted(q, text, s); (r.kind == Normal || r.kind == Error) && |r.rest| <= |s|
    decreases |s|
  {
    if s == "" || (s[0] == '\\' && |s| == 1) {
    } else if s[0] == '\\' {
      ScanQuotedEnds(q, text + [s[0], s[1]], s[2..]);
    } else if s[0] != q {
      ScanQuotedEnds(q, text + [s[0]], s[1..]);
    }
  }

  /** A quoted scan that ends in a word has gathered the part `t` that it read, up to the closing quote. */
  lemma {:induction false} ScanQuotedSound(q: char, text: string, s: string) returns (t: string)
    requires q != '\\' && ScanQuoted(q, text, s).kind == Normal
    ensures var r := ScanQuoted(q, text, s);
            s == t + r.rest && r.text == text + t && ClosesQuote(q, t) && StartsWithDelimiter(r.rest)
    decreases |s|
  {
    if s[0] == '\\' {
      var u := ScanQuotedSound(q, text + [s[0], s[1]], s[2..]);
      t := [s[0], s[1]] + u;
      Associate(text, [s[0], s[1]], u);
      Associate([s[0], s[1]], u, ScanQuoted(q, text, s).rest);
      assert t[2..] == u && s == [s[0], s[1]] + s[2..];
    } else if s[0] != q {
      var u := ScanQuotedSound(q, text + [s[0]], s[1..]);
      t := [s[0]] + u;
      Associate(text, [s[0]], u);
      Associate([s[0]], u, ScanQuoted(q, text, s).rest);
      assert t[1..] == u && s == [s[0]] + s[1..];
    } else {
      t := [q];
      assert s == [q] + s[1..];
    }
  }

  // -- comments

  predicate IsLineEnd(c: char) {
    c == '\n' || c == '\r'
  }

  predicate HasLineEnd(s: string) {
    exists i | 0 <= i < |s| :: IsLineEnd(s[i])
  }

  ghost predicate CommentAs(text: string, s: string, r: Lexed) {
    && |r.rest| < |s|
    && IsLineEnd(s[|s| - |r.rest| - 1])
    && r.text == text + s[..|s| - |r.rest| - 1] && r.rest == s[|s| - |r.rest|..]
  }

  lemma {:induction false} ScanCommentSplits(text: string, s: string)
    ensures var r := ScanComment(text, s);
            if HasLineEnd(s) then r.kind == Comment && CommentAs(text, s, r)
            else r.kind == Eof && r.text == text + s && r.rest == ""
    decreases |s|
  {
    if s != "" && !IsLineEnd(s[0]) {
      ScanCommentSplits(text + [s[0]], s[1..]);
      var r := ScanComment(text, s);
      assert HasLineEnd(s) == HasLineEnd(s[1..]) by {
        assert forall i | 1 <= i < |s| :: s[i] == s[1..][i - 1];
      }
      if HasLineEnd(s) {
        assert s[..|s| - |r.rest| - 1] == [s[0]] + s[1..][..|s| - |r.rest| - 2];
      } else {
        assert text + [s[0]] + s[1..] == text + s;
      }
    } else if s != "" {
      assert text == text + s[..0];
    } else {
      assert text == text + s;
    }
  }

  // ---------- What the tokenizer guarantees ----------

  ghost predicate SplitsAs(s: string, ws: string, t: string, rest: string) {
    s == ws + t + rest && AllWhitespace(ws) && IsLegalToken(t) && StartsWithDelimiter(rest)
  }

  ghost predicate ClosedAt(body: string, n: nat) {
    n <= |body| && IsQuoted(body[..n]) && StartsWithDelimiter(body[n..])
  }

  ghost predicate HasClosedQuote(body: string) {
    exists n :: ClosedAt(body, n)
  }

  lemma {:induction false} LexLegalToken(ws: string, t: string, rest: string)
    requires AllWhitespace(ws) && IsLegalToken(t) && StartsWithDelimiter(rest)
    ensures Lex(ws + t + rest) == Lexed(Normal, t, rest)
  {
    assert ws + t + rest == ws + (t + rest);
    LexSkipsLayout(ws, t + rest);
    assert (t + rest)[0] == t[0] && (t + rest)[1..] == t[1..] + rest && [t[0]] + t[1..] == t;
    if IsBareWord(t) {
      ScanWordCollects([t[0]], t[1..], rest);
    } else {
      ScanQuotedCompletes(t[0], [t[0]], t[1..], rest);
    }
  }

  ghost predicate SliceOf(body: string, r: Lexed) {
    match r.kind
    case Normal => body == r.text + r.rest && IsLegalToken(r.text) && StartsWithDelimiter(r.rest)
    case Comment => CommentAs("", body, r)
    case StartBlock => r.text == "{" && body == "{" + r.rest
    case EndBlock => r.text == "}" && body == "}" + r.rest
    case StatementEnd => r.text == ";" && body == ";" + r.rest
    case Error => FailsAs("", body, r)
    case Eof => r.text == body && r.rest == ""
    case _ => false
  }

  lemma {:induction false} QuoteFails(body: string)
    requires body != "" && ScanQuoted(body[0], [body[0]], body[1..]).kind == Error
    ensures FailsAs("", body, ScanQuoted(body[0], [body[0]], body[1..]))
  {
    ScanQuotedFails(body[0], [body[0]], body[1..]);
    assert "" + [body[0]] == [body[0]];
    FailsBehind("", [body[0]], body[1..], ScanQuoted(body[0], [body[0]], body[1..]));
    assert [body[0]] + body[1..] == body;
  }

  lemma {:induction false} LexFromQuote(body: string)
    requires body != "" && (body[0] == '"' || body[0] == '\'')
    ensures SliceOf(body, LexFrom(body[0], body[1..]))
  {
    var r := ScanQuoted(body[0], [body[0]], body[1..]);
    ScanQuotedEnds(body[0], [body[0]], body[1..]);
    if r.kind == Normal {
      var t := ScanQuotedSound(body[0], [body[0]], body[1..]);
      assert r.text == [body[0]] + t && r.text[1..] == t;
      assert IsQuoted(r.text);
      assert body == [body[0]] + (t + r.rest) == r.text + r.rest;
    } else {
      QuoteFails(body);
    }
  }

  lemma {:induction false} LexFromHash(body: string)
    requires body != "" && body[0] == '#'
    ensures SliceOf(body, LexFrom(body[0], body[1..]))
    ensures LexFrom(body[0], body[1..]).kind == if HasLineEnd(body[1..]) then Comment else Eof
  {
    var r := ScanComment([body[0]], body[1..]);
    ScanCommentSplits([body[0]], body[1..]);
    if HasLineEnd(body[1..]) {
      assert body[..|body| - |r.rest| - 1] == [body[0]] + body[1..][..|body| - |r.rest| - 2];
      assert "" + r.text == r.text;
    } else {
      assert [body[0]] + body[1..] == body;
    }
  }

  lemma {:induction false} LexFromIsSlice(body: string)
    requires body != "" && !IsWhitespace(body[0])
    ensures SliceOf(body, LexFrom(body[0], body[1..]))
    ensures var r := LexFrom(body[0], body[1..]);
            if r.kind == Eof then r.rest == "" else |r.rest| < |body|
  {
    if StartsWord(body[0]) {
      LexFromWord(body);
    } else if body[0] == '"' || body[0] == '\'' {
      LexFromQuote(body);
    } else if body[0] == '#' {
      LexFromHash(body);
    } else {
      assert body == [body[0]] + body[1..];
    }
  }

  /** Nothing but layout is lost: after the layout that is skipped comes exactly the returned text, then
      the rest; a comment also loses the character that ended its line. */
  lemma {:induction false} LexIsSlice(s: string)
    ensures SkipLayout(s) != "" ==> SliceOf(SkipLayout(s), Lex(s))
    ensures SkipLayout(s) == "" ==> Lex(s).kind == Eof
  {
    LexFromBody(s);
    if SkipLayout(s) != "" {
      LexFromIsSlice(SkipLayout(s));
    }
  }

  predicate IsLexed(kind: TokenType) {
    kind in {Normal, StartBlock, EndBlock, StatementEnd, Comment, Eof, Error}
  }

  /** Progress: any call that does not report the end of input shortens what is left to read. */
  lemma {:induction false} LexProgress(s: string)
    ensures if Lex(s).kind == Eof then Lex(s).rest == "" else |Lex(s).rest| < |s|
    ensures IsLexed(Lex(s).kind)
  {
    if s != "" && IsWhitespace(s[0]) {
      LexProgress(s[1..]);
    } else if s != "" {
      LexFromIsSlice(s);
    }
  }

  /** A word is returned exactly when the input is layout, a legal token and a delimiter, and then it
      is that token and the delimiter is pushed back. */
  lemma {:induction false} LexNormalExactly(s: string)
    ensures Lex(s).kind == Normal <==> exists ws, t, rest :: SplitsAs(s, ws, t, rest)
    ensures forall ws, t, rest :: SplitsAs(s, ws, t, rest) ==> Lex(s) == Lexed(Normal, t, rest)
  {
    forall ws, t, rest | SplitsAs(s, ws, t, rest)
      ensures Lex(s) == Lexed(Normal, t, rest)
    {
      LexLegalToken(ws, t, rest);
    }
    var r, body := Lex(s), SkipLayout(s);
    if r.kind == Normal {
      LexIsSlice(s);
      var ws := s[..|s| - |body|];
      assert ws + r.text + r.rest == ws + (r.text + r.rest);
      assert SplitsAs(s, ws, r.text, r.rest);
    }
  }

  lemma {:induction false} LexWordOutcome(body: string)
    requires body != "" && StartsWord(body[0])
    ensures Lex(body).kind == if |WordPrefix(body)| == |body| then Eof else Normal
  {
    LexFromWord(body);
  }

  lemma {:induction false} LexHashOutcome(body: string)
    requires body != "" && body[0] == '#'
    ensures Lex(body).kind == if HasLineEnd(body[1..]) then Comment else Eof
  {
    LexFromHash(body);
  }

  lemma {:induction false} LexQuoteOutcome(body: string)
    requires body != "" && (body[0] == '"' || body[0] == '\'')
    ensures Lex(body).kind == if HasClosedQuote(body) then Normal else Error
  {
    var r := Lex(body);
    LexFromQuote(body);
    ScanQuotedEnds(body[0], [body[0]], body[1..]);
    if r.kind == Normal {
      var t := ScanQuotedSound(body[0], [body[0]], body[1..]);
      assert body[..|r.text|] == r.text && body[|r.text|..] == r.rest;
      assert r.text[0] == body[0];
      assert ClosedAt(body, |r.text|);
    }
    if n: nat :| ClosedAt(body, n) {
      LexLegalToken("", body[..n], body[n..]);
      assert "" + body[..n] + body[n..] == body;
    }
  }

  /** Inputs that are read as the end: nothing, a bare word that no delimiter follows, an open comment. */
  predicate LooksLikeEnd(body: string) {
    || body == ""
    || (StartsWord(body[0]) && |WordPrefix(body)| == |body|)
    || (body[0] == '#' && !HasLineEnd(body[1..]))
  }

  ghost predicate HasOpenQuote(body: string) {
    body != "" && (body[0] == '"' || body[0] == '\'') && !HasClosedQuote(body)
  }

  /** The other outcomes. End of input is reported also for an unfinished comment and for a bare word
      that no delimiter follows, which is dropped; the only lexical error is a quoted string that is
      not closed, or not closed in front of a delimiter. */
  lemma {:induction false} LexOtherwiseExactly(s: string)
    ensures Lex(s).kind == Eof <==> LooksLikeEnd(SkipLayout(s))
    ensures Lex(s).kind == Error <==> HasOpenQuote(SkipLayout(s))
  {
    LexFromBody(s);
    LexBodyOutcome(SkipLayout(s));
  }

  lemma {:induction false} LexBodyOutcome(body: string)
    requires body != "" ==> !IsWhitespace(body[0])
    ensures Lex(body).kind == Eof <==> LooksLikeEnd(body)
    ensures Lex(body).kind == Error <==> HasOpenQuote(body)
  {
    if body == "" {
    } else if body[0] == '#' {
      LexHashOutcome(body);
    } else if body[0] == '"' || body[0] == '\'' {
      LexQuoteOutcome(body);
    } else if StartsWord(body[0]) {
      LexWordOutcome(body);
    }
  }
}
