/** Config files as text: reading a text through the tokenizer and the machine, printing a tree
    (`NginxConfig::ToString`), and how the two undo each other. */
module ConfigText {
  import opened ConfigLexer
  import opened ConfigGrammar
  import opened Sequences
  import opened Wrappers

  // ---------- Reading ----------

  /** The tokens of a text without its comments; not clean when the tokenizer stopped at an error. The
      last component is what the tokenizer found, behind the layout, at the call that ended the list. */
  datatype TokenList = TokenList(tokens: seq<Token>, clean: bool, final: string)

  function Then(ts: seq<Token>, more: TokenList): TokenList {
    more.(tokens := ts + more.tokens)
  }

  function Tokenize(s: string): TokenList
    decreases |s|, 1
  {
    var r := Lex(s);
    if r.kind == Eof || r.kind == Error then TokenList([], r.kind == Eof, SkipLayout(s))
    else
      LexProgress(s);
      TokenizeFrom(r)
  }

  /** The list that starts with the token `r`, a comment being none. */
  function TokenizeFrom(r: Lexed): TokenList
    decreases |r.rest|, 2
  {
    var more := Tokenize(r.rest);
    match r.kind
    case Normal => Then([Word(r.text)], more)
    case StatementEnd => Then([Semicolon], more)
    case StartBlock => Then([Open], more)
    case EndBlock => Then([Close], more)
    case _ => more
  }

  /** Where the parser's loop ends on a text, and whether that is an acceptance. */
  function Outcome(m: Machine, l: TokenList): (Machine, bool) {
    var (m', ok) := Run(m, l.tokens);
    (m', ok && l.clean && AtEnd(m'))
  }

  function ParseText(s: string): Option<Block> {
    var (m, accepted) := Outcome(INITIAL, Tokenize(s));
    if accepted then Some(m.top.closed) else None
  }

  /** A text is accepted exactly when it has no lexical error and its tokens spell a config. */
  lemma {:induction false} ParseTextExactly(s: string, b: Block)
    ensures ParseText(s) == Some(b) <==> Tokenize(s).clean && IsConfig(b, Tokenize(s).tokens)
  {
    MachineDecidesGrammar(Tokenize(s).tokens);
    assert Builds(Tokenize(s).tokens, b) <==> IsConfig(b, Tokenize(s).tokens);
  }

  // ---------- Printing ----------

  function Indent(depth: int): (s: string)
    decreases depth
    ensures AllWhitespace(s)
    ensures |s| == (if depth < 0 then 0 else 2 * depth) && forall i | 0 <= i < |s| :: s[i] == ' '
  {
    if depth <= 0 then "" else Indent(depth - 1) + "  "
  }

  function Join(ws: seq<string>): string {
    if ws == [] then ""
    else Join(ws[..|ws| - 1]) + (if |ws| == 1 then "" else " ") + ws[|ws| - 1]
  }

  function PrintStatement(s: Statement, depth: int): string
    decreases s, 1
  {
    match s
    case Simple(ws) => Indent(depth) + Join(ws) + ";" + "\n"
    case WithBlock(ws, b) => Indent(depth) + Join(ws) + " {\n" + Print(b, depth + 1) + Indent(depth) + "}" + "\n"
  }

  function Print(b: Block, depth: int): string
    decreases b, 0
  {
    if b == [] then "" else Print(b[..|b| - 1], depth) + PrintStatement(b[|b| - 1], depth)
  }

  // ---------- The trees that survive printing ----------

  ghost predicate HasLegalTokens(s: Statement)
    decreases s, 1
  {
    (forall i | 0 <= i < |s.tokens| :: IsLegalToken(s.tokens[i])) && (s.WithBlock? ==> AllLegal(s.block))
  }

  ghost predicate AllLegal(b: Block)
    decreases b, 0
  {
    forall i | 0 <= i < |b| :: HasLegalTokens(b[i])
  }

  /** No block is empty, no statement is without words, and every word is one the tokenizer can return. */
  ghost predicate Printable(b: Block) {
    b != [] && WellFormedBlock(b) && AllLegal(b)
  }

  // ---------- Tokenizing what was printed ----------

  lemma {:induction false} SkipLayoutSkips(ws: string, s: string)
    requires AllWhitespace(ws)
    ensures SkipLayout(ws + s) == SkipLayout(s)
    decreases |ws|
  {
    if ws == "" {
      assert ws + s == s;
    } else {
      assert (ws + s)[1..] == ws[1..] + s;
      SkipLayoutSkips(ws[1..], s);
    }
  }

  lemma {:induction false} TokenizeSkips(ws: string, s: string)
    requires AllWhitespace(ws)
    ensures Tokenize(ws + s) == Tokenize(s)
  {
    LexSkipsLayout(ws, s);
    SkipLayoutSkips(ws, s);
  }

  lemma {:induction false} TokenizeLegalToken(ws: string, t: string, rest: string)
    requires AllWhitespace(ws) && IsLegalToken(t) && StartsWithDelimiter(rest)
    ensures Tokenize(ws + t + rest) == Then([Word(t)], Tokenize(rest))
  {
    LexLegalToken(ws, t, rest);
  }

  lemma {:induction false} TokenizeWordBefore(t: string, rest: string)
    requires IsLegalToken(t) && StartsWithDelimiter(rest)
    ensures Tokenize(t + rest) == Then([Word(t)], Tokenize(rest))
  {
    TokenizeLegalToken("", t, rest);
    assert "" + t == t;
  }

  function PunctuationType(c: char): TokenType {
    if c == ';' then StatementEnd else if c == '{' then StartBlock else EndBlock
  }

  lemma {:induction false} LexPunctuation(c: char, rest: string)
    requires c == ';' || c == '{' || c == '}'
    ensures Lex([c] + rest) == Lexed(PunctuationType(c), [c], rest)
  {
    assert ([c] + rest)[0] == c && ([c] + rest)[1..] == rest;
  }

  lemma {:induction false} TokenizePunctuation(c: char, rest: string)
    requires c == ';' || c == '{' || c == '}'
    ensures Tokenize([c] + rest) ==
            Then([if c == ';' then Semicolon else if c == '{' then Open else Close], Tokenize(rest))
  {
    LexPunctuation(c, rest);
  }

  lemma {:induction false} ThenThen(a: seq<Token>, b: seq<Token>, l: TokenList)
    ensures Then(a, Then(b, l)) == Then(a + b, l)
  {
    Associate(a, b, l.tokens);
  }

  lemma {:induction false} TokenizeJoin(ws: seq<string>, rest: string)
    requires forall i | 0 <= i < |ws| :: IsLegalToken(ws[i])
    requires StartsWithDelimiter(rest)
    ensures Tokenize(Join(ws) + rest) == Then(Words(ws), Tokenize(rest))
    decreases |ws|
  {
    if ws == [] {
      assert Join(ws) + rest == rest;
    } else {
      var init, w := ws[..|ws| - 1], ws[|ws| - 1];
      var gap := if |ws| == 1 then "" else " ";
      Associate(Join(init), gap, w);
      Associate(Join(init), gap + w, rest);
      TokenizeLegalToken(gap, w, rest);
      assert Words(ws) == Words(init) + [Word(w)];
      if |ws| == 1 {
        assert Join(init) + (gap + w + rest) == gap + w + rest;
      } else {
        TokenizeJoin(init, gap + w + rest);
        ThenThen(Words(init), [Word(w)], Tokenize(rest));
      }
    }
  }

  lemma {:induction false} TokenizeSimple(s: Statement, depth: int, rest: string)
    requires s.Simple? && HasLegalTokens(s)
    ensures Tokenize(PrintStatement(s, depth) + rest) == Then(FlattenStatement(s), Tokenize(rest))
  {
    var tail := ";" + ("\n" + rest);
    assert PrintStatement(s, depth) + rest == Indent(depth) + (Join(s.tokens) + tail);
    TokenizeSkips(Indent(depth), Join(s.tokens) + tail);
    TokenizeJoin(s.tokens, tail);
    TokenizePunctuation(';', "\n" + rest);
    TokenizeSkips("\n", rest);
    ThenThen(Words(s.tokens), [Semicolon], Tokenize(rest));
  }

  function ClosingText(pad: string, rest: string): string {
    pad + ("}" + ("\n" + rest))
  }

  function BlockText(inner: string, closing: string): string {
    " " + ("{" + ("\n" + (inner + closing)))
  }

  lemma {:induction false} PrintedWithBlock(s: Statement, depth: int, rest: string)
    requires s.WithBlock?
    ensures PrintStatement(s, depth) + rest ==
            Indent(depth) + (Join(s.tokens) + BlockText(Print(s.block, depth + 1), ClosingText(Indent(depth), rest)))
  {
    var pad, words, inner := Indent(depth), Join(s.tokens), Print(s.block, depth + 1);
    var closing := ClosingText(pad, rest);
    assert closing == pad + "}" + "\n" + rest;
    assert BlockText(inner, closing) == " {\n" + inner + closing;
    calc {
      pad + words + " {\n" + inner + pad + "}" + "\n" + rest;
      { Associate(pad + words + " {\n" + inner, pad, "}");
        Associate(pad + words + " {\n" + inner, pad + "}", "\n");
        Associate(pad + words + " {\n" + inner, pad + "}" + "\n", rest); }
      pad + words + " {\n" + inner + closing;
      { Associate(pad + words, " {\n", inner); Associate(pad + words, " {\n" + inner, closing); }
      pad + words + BlockText(inner, closing);
      { Associate(pad, words, BlockText(inner, closing)); }
      pad + (words + BlockText(inner, closing));
    }
  }

  lemma {:induction false} TokenizeBlockText(b: Block, depth: int, closing: string)
    requires AllLegal(b)
    ensures Tokenize(BlockText(Print(b, depth), closing)) == Then([Open], Then(Flatten(b), Tokenize(closing)))
    decreases b, 1
  {
    var body := Print(b, depth) + closing;
    TokenizeSkips(" ", "{" + ("\n" + body));
    TokenizePunctuation('{', "\n" + body);
    TokenizeSkips("\n", body);
    TokenizePrint(b, depth, closing);
  }

  lemma {:induction false} TokenizeClosingText(depth: int, rest: string)
    ensures Tokenize(ClosingText(Indent(depth), rest)) == Then([Close], Tokenize(rest))
  {
    TokenizeSkips(Indent(depth), "}" + ("\n" + rest));
    TokenizePunctuation('}', "\n" + rest);
    TokenizeSkips("\n", rest);
  }

  lemma {:induction false} TokenizeWithBlock(s: Statement, depth: int, rest: string)
    requires s.WithBlock? && HasLegalTokens(s)
    ensures Tokenize(PrintStatement(s, depth) + rest) == Then(FlattenStatement(s), Tokenize(rest))
    decreases s, 1
  {
    var closing := ClosingText(Indent(depth), rest);
    var tail := BlockText(Print(s.block, depth + 1), closing);
    PrintedWithBlock(s, depth, rest);
    TokenizeSkips(Indent(depth), Join(s.tokens) + tail);
    TokenizeJoin(s.tokens, tail);
    TokenizeBlockText(s.block, depth + 1, closing);
    TokenizeClosingText(depth, rest);
    var l := Tokenize(rest);
    ThenThen(Words(s.tokens), [Open], Then(Flatten(s.block), Then([Close], l)));
    ThenThen(Words(s.tokens) + [Open], Flatten(s.block), Then([Close], l));
    ThenThen(Words(s.tokens) + [Open] + Flatten(s.block), [Close], l);
  }

  lemma {:induction false} TokenizePrint(b: Block, depth: int, rest: string)
    requires AllLegal(b)
    ensures Tokenize(Print(b, depth) + rest) == Then(Flatten(b), Tokenize(rest))
    decreases b, 0
  {
    if b == [] {
      assert Print(b, depth) + rest == rest;
    } else {
      var init, s := b[..|b| - 1], b[|b| - 1];
      Associate(Print(init, depth), PrintStatement(s, depth), rest);
      TokenizePrint(init, depth, PrintStatement(s, depth) + rest);
      if s.Simple? {
        TokenizeSimple(s, depth, rest);
      } else {
        TokenizeWithBlock(s, depth, rest);
      }
      ThenThen(Flatten(init), FlattenStatement(s), Tokenize(rest));
    }
  }

  // ---------- What the tokenizer returns is legal ----------

  ghost predicate LegalWords(ts: seq<Token>) {
    forall i | 0 <= i < |ts| :: ts[i].Word? ==> IsLegalToken(ts[i].text)
  }

  lemma {:induction false} LexedWordIsLegal(s: string)
    ensures Lex(s).kind == Normal ==> IsLegalToken(Lex(s).text)
  {
    LexIsSlice(s);
  }

  lemma {:induction false} LegalThen(t: Token, l: TokenList)
    requires LegalWords(l.tokens) && (t.Word? ==> IsLegalToken(t.text))
    ensures LegalWords(Then([t], l).tokens)
  {
    forall i | 0 <= i <= |l.tokens| && ([t] + l.tokens)[i].Word? ensures IsLegalToken(([t] + l.tokens)[i].text) {
      assert i > 0 ==> ([t] + l.tokens)[i] == l.tokens[i - 1];
    }
  }

  lemma {:induction false} LegalFrom(r: Lexed)
    requires LegalWords(Tokenize(r.rest).tokens) && (r.kind == Normal ==> IsLegalToken(r.text))
    ensures LegalWords(TokenizeFrom(r).tokens)
  {
    var more := Tokenize(r.rest);
    match r.kind
    case Normal => LegalThen(Word(r.text), more);
    case StatementEnd => LegalThen(Semicolon, more);
    case StartBlock => LegalThen(Open, more);
    case EndBlock => LegalThen(Close, more);
    case _ =>
  }

  lemma {:induction false} TokenizeLegal(s: string)
    ensures LegalWords(Tokenize(s).tokens)
    decreases |s|
  {
    LexProgress(s);
    var r := Lex(s);
    if r.kind != Eof && r.kind != Error {
      TokenizeLegal(r.rest);
      LexedWordIsLegal(s);
      LegalFrom(r);
    }
  }

  lemma {:induction false} LegalStatement(s: Statement)
    requires LegalWords(FlattenStatement(s))
    ensures HasLegalTokens(s)
    decreases s, 1
  {
    var ts := FlattenStatement(s);
    forall i | 0 <= i < |s.tokens| ensures IsLegalToken(s.tokens[i]) {
      assert ts[i] == Word(s.tokens[i]);
    }
    if s.WithBlock? {
      var n := |s.tokens| + 1;
      assert forall i | 0 <= i < |Flatten(s.block)| :: ts[n + i] == Flatten(s.block)[i];
      LegalBlock(s.block);
    }
  }

  lemma {:induction false} LegalBlock(b: Block)
    requires LegalWords(Flatten(b))
    ensures AllLegal(b)
    decreases b, 0
  {
    if b != [] {
      var init, s := b[..|b| - 1], b[|b| - 1];
      assert forall i | 0 <= i < |Flatten(init)| :: Flatten(b)[i] == Flatten(init)[i];
      assert forall i | 0 <= i < |FlattenStatement(s)| :: Flatten(b)[|Flatten(init)| + i] == FlattenStatement(s)[i];
      LegalBlock(init);
      LegalStatement(s);
      assert forall i | 0 <= i < |init| :: b[i] == init[i];
    }
  }

  // ---------- Parsing and printing undo each other ----------

  /** Every tree that an accepted text yields can be printed. */
  lemma {:induction false} ParsedIsPrintable(s: string)
    ensures ParseText(s).Some? ==> Printable(ParseText(s).value)
  {
    if ParseText(s).Some? {
      ParseTextExactly(s, ParseText(s).value);
      TokenizeLegal(s);
      LegalBlock(ParseText(s).value);
    }
  }

  lemma {:induction false} TokenizePrinted(b: Block, depth: int)
    requires AllLegal(b)
    ensures Tokenize(Print(b, depth)) == TokenList(Flatten(b), true, "")
  {
    TokenizePrint(b, depth, "");
    NothingBehind(Print(b, depth), Flatten(b));
    assert Tokenize("") == TokenList([], true, "");
  }

  lemma {:induction false} NothingBehind(text: string, ts: seq<Token>)
    ensures text + "" == text && ts + [] == ts
  {
  }

  lemma {:induction false} PrintedParses(b: Block, depth: int)
    requires Printable(b)
    ensures ParseText(Print(b, depth)) == Some(b)
  {
    TokenizePrinted(b, depth);
    ParseTextExactly(Print(b, depth), b);
  }

  /** Printing a tree at any depth and parsing the text gives the tree back exactly when it is printable. */
  lemma {:induction false} PrintThenParse(b: Block, depth: int)
    ensures ParseText(Print(b, depth)) == Some(b) <==> Printable(b)
  {
    if Printable(b) {
      PrintedParses(b, depth);
    }
    ParsedIsPrintable(Print(b, depth));
  }

  /** Parsing normalises: whatever text was accepted, the printed tree parses to the same tree, and a
      second print is the first one. */
  lemma {:induction false} ParsingNormalises(s: string, depth: int)
    requires ParseText(s).Some?
    ensures var printed := Print(ParseText(s).value, depth);
            && ParseText(printed) == ParseText(s)
            && Print(ParseText(printed).value, depth) == printed
  {
    ParsedIsPrintable(s);
    PrintThenParse(ParseText(s).value, depth);
  }

  // ---------- The word that a file may lose ----------

  /** The text stops inside a bare word. */
  predicate EndsInWord(s: string) {
    var l := Tokenize(s);
    l.clean && l.final != "" && StartsWord(l.final[0])
  }

  lemma {:induction false} LexWordAppend(body: string, more: string)
    requires body != "" && !IsWhitespace(body[0]) && Lex(body).kind == Normal
    ensures Lex(body + more) == Lex(body).(rest := Lex(body).rest + more)
  {
    var r := Lex(body);
    LexIsSlice(body);
    Associate(r.text, r.rest, more);
    LexLegalToken("", r.text, r.rest + more);
    assert "" + r.text == r.text;
  }

  lemma {:induction false} LexBodyAppend(body: string, more: string)
    requires body != "" && !IsWhitespace(body[0]) && Lex(body).kind !in {Eof, Error}
    ensures Lex(body + more) == Lex(body).(rest := Lex(body).rest + more)
  {
    assert (body + more)[0] == body[0] && (body + more)[1..] == body[1..] + more;
    if Lex(body).kind == Normal {
      LexWordAppend(body, more);
    } else if body[0] == '#' {
      ScanCommentSplits([body[0]], body[1..]);
      ScanCommentAppend([body[0]], body[1..], more);
    } else if body[0] == '"' || body[0] == '\'' {
      LexQuoteOutcome(body);
    } else if StartsWord(body[0]) {
      LexFromWord(body);
    }
  }

  lemma {:induction false} LexAppend(s: string, more: string)
    ensures var r := Lex(s);
            r.kind !in {Eof, Error} ==> Lex(s + more) == r.(rest := r.rest + more)
    decreases |s|
  {
    if s != "" && IsWhitespace(s[0]) {
      assert (s + more)[1..] == s[1..] + more;
      LexAppend(s[1..], more);
    } else if s != "" {
      if Lex(s).kind !in {Eof, Error} { LexBodyAppend(s, more); }
    }
  }

  lemma {:induction false} ScanCommentAppend(text: string, s: string, more: string)
    requires ScanComment(text, s).kind == Comment
    ensures ScanComment(text, s + more) == ScanComment(text, s).(rest := ScanComment(text, s).rest + more)
    decreases |s|
  {
    assert (s + more)[1..] == s[1..] + more;
    if s[0] != '\n' && s[0] != '\r' {
      ScanCommentAppend(text + [s[0]], s[1..], more);
    }
  }

  function WithLastWord(l: TokenList, endsInWord: bool): TokenList {
    TokenList(l.tokens + (if endsInWord then [Word(l.final)] else []), l.clean, "")
  }

  lemma {:induction false} ThenWithLastWord(ts: seq<Token>, l: TokenList, endsInWord: bool)
    ensures Then(ts, WithLastWord(l, endsInWord)) == WithLastWord(Then(ts, l), endsInWord)
  {
    Associate(ts, l.tokens, if endsInWord then [Word(l.final)] else []);
  }

  lemma {:induction false} TokenizeFromAppend(r: Lexed, rest: string, endsInWord: bool)
    requires Tokenize(rest) == WithLastWord(Tokenize(r.rest), endsInWord)
    ensures TokenizeFrom(r.(rest := rest)) == WithLastWord(TokenizeFrom(r), endsInWord)
  {
    var l := Tokenize(r.rest);
    match r.kind
    case Normal => ThenWithLastWord([Word(r.text)], l, endsInWord);
    case StatementEnd => ThenWithLastWord([Semicolon], l, endsInWord);
    case StartBlock => ThenWithLastWord([Open], l, endsInWord);
    case EndBlock => ThenWithLastWord([Close], l, endsInWord);
    case _ =>
  }

  lemma {:induction false} TokenizeNewline(s: string)
    requires Tokenize(s).clean
    ensures Tokenize(s + "\n") == WithLastWord(Tokenize(s), EndsInWord(s))
    decreases |s|
  {
    var r := Lex(s);
    if r.kind == Eof {
      TokenizeLastLine(s);
    } else {
      LexProgress(s);
      TokenizeNewline(r.rest);
      LexAppend(s, "\n");
      TokenizeFromAppend(r, r.rest + "\n", EndsInWord(r.rest));
    }
  }

  lemma {:induction false} TokenizeLayout(ws: string)
    requires AllWhitespace(ws)
    ensures Tokenize(ws) == TokenList([], true, "")
  {
    TokenizeSkips(ws, "");
    assert ws + "" == ws;
  }

  lemma {:induction false} LexLastComment(body: string)
    requires Lex(body).kind == Eof && body != "" && body[0] == '#'
    ensures Lex(body + "\n") == Lexed(Comment, body, "")
  {
    LexOtherwiseExactly(body);
    CommentToLineEnd([body[0]], body[1..]);
    assert (body + "\n")[0] == '#' && (body + "\n")[1..] == body[1..] + "\n";
    assert [body[0]] + body[1..] == body;
  }

  lemma {:induction false} TokenizeLastComment(body: string)
    requires Lex(body).kind == Eof && body != "" && body[0] == '#'
    ensures Tokenize(body + "\n") == TokenList([], true, "")
  {
    LexLastComment(body);
    assert Tokenize("") == TokenList([], true, "");
  }

  lemma {:induction false} TokenizeLastWord(body: string, ws: string)
    requires Lex(body).kind == Eof && body != "" && StartsWord(body[0])
    requires AllWhitespace(ws) && StartsWithDelimiter(ws)
    ensures Tokenize(body + ws) == TokenList([Word(body)], true, "")
  {
    assert IsBareWord(body) by { LexFromWord(body); }
    TokenizeWordBefore(body, ws);
    TokenizeLayout(ws);
  }

  lemma {:induction false} TokenizeLastLine(s: string)
    requires Lex(s).kind == Eof
    ensures Tokenize(s + "\n") == WithLastWord(Tokenize(s), EndsInWord(s))
    decreases |s|
  {
    if s == "" {
      assert s + "\n" == "\n";
      TokenizeLayout("\n");
    } else if IsWhitespace(s[0]) {
      assert s == [s[0]] + s[1..];
      Associate([s[0]], s[1..], "\n");
      TokenizeSkips([s[0]], s[1..] + "\n");
      TokenizeSkips([s[0]], s[1..]);
      TokenizeLastLine(s[1..]);
    } else if StartsWord(s[0]) {
      TokenizeLastWord(s, "\n");
    } else {
      LexOtherwiseExactly(s);
      TokenizeLastComment(s);
    }
  }

  lemma {:induction false} CommentToLineEnd(text: string, s: string)
    requires !HasLineEnd(s)
    ensures ScanComment(text, s + "\n") == Lexed(Comment, text + s, "")
    decreases |s|
  {
    if s != "" {
      assert !IsLineEnd(s[0]);
      assert (s + "\n")[1..] == s[1..] + "\n";
      assert forall i | 0 <= i < |s| - 1 :: s[1..][i] == s[i + 1];
      CommentToLineEnd(text + [s[0]], s[1..]);
      assert text + [s[0]] + s[1..] == text + s;
    } else {
      assert (s + "\n")[1..] == "" && text + s == text;
    }
  }

  /** An accepted text means the same with a newline at its end exactly when it does not stop inside a
      bare word; one that does is accepted without that word, and rejected once the newline is there. */
  lemma {:induction false} LostWordExactly(s: string)
    requires ParseText(s).Some?
    ensures ParseText(s + "\n") == ParseText(s) <==> !EndsInWord(s)
    ensures EndsInWord(s) ==> ParseText(s + "\n") == None
  {
    TokenizeNewline(s);
    var ts := Tokenize(s).tokens;
    if EndsInWord(s) {
      RunSnoc(INITIAL, ts, Word(Tokenize(s).final));
    } else {
      assert ts + [] == ts;
    }
  }

  /** All tokens of a text, the bare word that it may stop in among them. */
  function AllTokens(s: string): seq<Token> {
    WithLastWord(Tokenize(s), EndsInWord(s)).tokens
  }

  /** What a config file should be: no lexical error, and all its tokens together spell a config. */
  ghost predicate ValidFile(s: string) {
    Tokenize(s).clean && exists b :: IsConfig(b, AllTokens(s))
  }

  lemma {:induction false} FlattenEndsInNoWord(b: Block)
    requires b != []
    ensures Flatten(b) != [] && !Flatten(b)[|Flatten(b)| - 1].Word?
  {
    var last := FlattenStatement(b[|b| - 1]);
    assert Flatten(b)[|Flatten(b)| - 1] == last[|last| - 1];
  }

  lemma {:induction false} ConfigEndsInNoWord(b: Block, ts: seq<Token>, w: string)
    ensures !IsConfig(b, ts + [Word(w)])
  {
    if b != [] {
      FlattenEndsInNoWord(b);
      assert (ts + [Word(w)])[|ts|].Word?;
    }
  }

  lemma {:induction false} AcceptedExactly(s: string)
    ensures ParseText(s).Some? <==> Tokenize(s).clean && exists b :: IsConfig(b, Tokenize(s).tokens)
  {
    if ParseText(s).Some? {
      ParseTextExactly(s, ParseText(s).value);
    }
    if b :| Tokenize(s).clean && IsConfig(b, Tokenize(s).tokens) {
      ParseTextExactly(s, b);
    }
  }

  /** Acceptance and validity agree on every text but those that stop inside a bare word behind what is a
      config already: these are accepted and not valid. */
  lemma {:induction false} AcceptedIffValidExactly(s: string)
    ensures (ParseText(s).Some? <==> ValidFile(s)) <==>
            !(EndsInWord(s) && exists b :: IsConfig(b, Tokenize(s).tokens))
    ensures !EndsInWord(s) ==> (ParseText(s).Some? <==> ValidFile(s))
    ensures EndsInWord(s) ==> !ValidFile(s)
  {
    var ts := Tokenize(s).tokens;
    AcceptedExactly(s);
    if EndsInWord(s) {
      forall b ensures !IsConfig(b, AllTokens(s)) {
        ConfigEndsInNoWord(b, ts, Tokenize(s).final);
      }
    } else {
      assert AllTokens(s) == ts;
    }
  }

  /** A valid file is one that is accepted with a newline at its end, and has no lexical error without it. */
  lemma {:induction false} ValidIffAcceptedWithNewline(s: string)
    ensures ValidFile(s) <==> Tokenize(s).clean && ParseText(s + "\n").Some?
  {
    if Tokenize(s).clean {
      TokenizeNewline(s);
      assert Tokenize(s + "\n").tokens == AllTokens(s) && Tokenize(s + "\n").clean;
      AcceptedExactly(s + "\n");
    }
  }

  /** So a bare word right behind any printed config is lost: the config it follows is what is read. */
  lemma {:induction false} TrailingWordIsLost(b: Block, depth: int, w: string)
    requires Printable(b) && IsBareWord(w)
    ensures EndsInWord(Print(b, depth) + w) && ParseText(Print(b, depth) + w) == Some(b)
  {
    assert |WordPrefix(w)| == |w|;
    LexFromWord(w);
    assert Tokenize(w) == TokenList([], true, w);
    TokenizePrint(b, depth, w);
    assert Flatten(b) + [] == Flatten(b);
    ParseTextExactly(Print(b, depth) + w, b);
  }
}
