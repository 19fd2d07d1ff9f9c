/** Config files as people write them, spelled out character by character: which characters end a word, which
    are layout, what quotes may contain; and that the parser reads a config back from any layout. */
module ConfigLayout {
  import opened ConfigLexer
  import opened ConfigGrammar
  import opened ConfigText
  import opened Sequences
  import opened Wrappers

  // ---------- Words ----------

  /** A piece of a quoted string: a character, or a backslash and any character behind it. */
  datatype Unit = Plain(c: char) | Escaped(c: char)

  predicate FitsIn(q: char, units: seq<Unit>) {
    forall i | 0 <= i < |units| :: units[i].Plain? ==> units[i].c != q && units[i].c != '\\'
  }

  function UnitText(u: Unit): string {
    match u
    case Plain(c) => [c]
    case Escaped(c) => ['\\', c]
  }

  function Inside(units: seq<Unit>): string {
    if units == [] then "" else UnitText(units[0]) + Inside(units[1..])
  }

  function Quoted(q: char, units: seq<Unit>): string {
    [q] + (Inside(units) + [q])
  }

  predicate IsQuote(q: char) {
    q in "\"'"
  }

  /** A word without quotes does not start like another token and has no blank, semicolon or brace in it; a
      carriage return or a hash inside it belongs to it. */
  predicate IsPlainWord(w: string) {
    && w != "" && w[0] !in " \t\n\r;{}#\"'"
    && forall i | 0 <= i < |w| :: w[i] !in " \t\n;{}"
  }

  lemma {:induction false} ClosesInside(q: char, units: seq<Unit>)
    requires IsQuote(q) && FitsIn(q, units)
    ensures ClosesQuote(q, Inside(units) + [q])
    decreases |units|
  {
    if units != [] {
      var rest := Inside(units[1..]) + [q];
      Associate(UnitText(units[0]), Inside(units[1..]), [q]);
      ClosesInside(q, units[1..]);
      var s := UnitText(units[0]) + rest;
      if units[0].Plain? {
        assert s[1..] == rest;
      } else {
        assert s[2..] == rest;
      }
    }
  }

  lemma {:induction false} InsideOf(q: char, s: string) returns (units: seq<Unit>)
    requires IsQuote(q) && ClosesQuote(q, s)
    ensures FitsIn(q, units) && s == Inside(units) + [q]
    decreases |s|
  {
    if s[0] == '\\' {
      var more := InsideOf(q, s[2..]);
      units := [Escaped(s[1])] + more;
      Associate(['\\', s[1]], Inside(more), [q]);
      assert s == ['\\', s[1]] + s[2..];
    } else if s[0] == q {
      units := [];
    } else {
      var more := InsideOf(q, s[1..]);
      units := [Plain(s[0])] + more;
      Associate([s[0]], Inside(more), [q]);
      assert s == [s[0]] + s[1..];
    }
  }

  lemma {:induction false} QuotedIsLegal(q: char, units: seq<Unit>)
    requires IsQuote(q) && FitsIn(q, units)
    ensures IsLegalToken(Quoted(q, units))
  {
    ClosesInside(q, units);
    assert Quoted(q, units)[1..] == Inside(units) + [q];
  }

  /** The words that the tokenizer can return are exactly the plain ones and the quoted ones. */
  lemma {:induction false} LegalTokensSpelled(t: string)
    ensures IsLegalToken(t) <==>
            IsPlainWord(t) || exists q, units :: IsQuote(q) && FitsIn(q, units) && t == Quoted(q, units)
  {
    if q, units :| IsQuote(q) && FitsIn(q, units) && t == Quoted(q, units) {
      QuotedIsLegal(q, units);
    }
    if IsQuoted(t) {
      var units := InsideOf(t[0], t[1..]);
      assert t == Quoted(t[0], units);
    }
  }

  // ---------- Layout ----------

  /** A blank, or a comment with the character that ends its line. */
  datatype Layout = Blank(c: char) | Remark(text: string, end: char)

  predicate IsLayout(gap: seq<Layout>) {
    forall i | 0 <= i < |gap| ::
      match gap[i]
      case Blank(c) => c in " \t\n\r"
      case Remark(text, end) => end in "\n\r" && '\n' !in text && '\r' !in text
  }

  function PieceText(p: Layout): string {
    match p
    case Blank(c) => [c]
    case Remark(text, end) => "#" + (text + [end])
  }

  function GapText(gap: seq<Layout>): string {
    if gap == [] then "" else PieceText(gap[0]) + GapText(gap[1..])
  }

  lemma {:induction false} ScanRemark(gathered: string, text: string, end: char, rest: string)
    requires end in "\n\r" && '\n' !in text && '\r' !in text
    ensures ScanComment(gathered, text + ([end] + rest)) == Lexed(Comment, gathered + text, rest)
    decreases |text|
  {
    var s := text + ([end] + rest);
    if text == "" {
      assert s[0] == end && s[1..] == rest && gathered + text == gathered;
    } else {
      assert s[0] == text[0] && text[0] in text && s[1..] == text[1..] + ([end] + rest);
      ScanRemark(gathered + [text[0]], text[1..], end, rest);
      assert gathered + [text[0]] + text[1..] == gathered + text;
    }
  }

  lemma {:induction false} TokenizeRemark(text: string, end: char, rest: string)
    requires end in "\n\r" && '\n' !in text && '\r' !in text
    ensures Tokenize("#" + (text + ([end] + rest))) == Tokenize(rest)
  {
    var tail := text + ([end] + rest);
    assert ("#" + tail)[0] == '#' && ("#" + tail)[1..] == tail;
    ScanRemark("#", text, end, rest);
    assert Lex("#" + tail) == Lexed(Comment, "#" + text, rest);
  }

  lemma {:induction false} TokenizePiece(p: Layout, rest: string)
    requires IsLayout([p])
    ensures Tokenize(PieceText(p) + rest) == Tokenize(rest)
  {
    assert p == [p][0];
    match p
    case Blank(c) => TokenizeSkips([c], rest);
    case Remark(text, end) =>
      TokenizeRemark(text, end, rest);
      Associate("#", text + [end], rest);
      Associate(text, [end], rest);
  }

  lemma {:induction false} TokenizeGap(gap: seq<Layout>, rest: string)
    requires IsLayout(gap)
    ensures Tokenize(GapText(gap) + rest) == Tokenize(rest)
    decreases |gap|
  {
    if gap == [] {
      assert GapText(gap) + rest == rest;
    } else {
      assert IsLayout([gap[0]]);
      Associate(PieceText(gap[0]), GapText(gap[1..]), rest);
      TokenizePiece(gap[0], GapText(gap[1..]) + rest);
      TokenizeGap(gap[1..], rest);
    }
  }

  // ---------- Tokens with layout behind each ----------

  datatype Lexeme = Lexeme(token: Token, gap: seq<Layout>)

  function TokenText(t: Token): string {
    match t
    case Word(w) => w
    case Semicolon => ";"
    case Open => "{"
    case Close => "}"
  }

  function TokensOf(ls: seq<Lexeme>): seq<Token> {
    if ls == [] then [] else [ls[0].token] + TokensOf(ls[1..])
  }

  function LexemesText(ls: seq<Lexeme>): string {
    if ls == [] then "" else TokenText(ls[0].token) + (GapText(ls[0].gap) + LexemesText(ls[1..]))
  }

  /** A word has a blank behind it, which is not a carriage return, or a semicolon or a brace. */
  predicate IsSeparated(ls: seq<Lexeme>, i: nat)
    requires i < |ls|
  {
    ls[i].token.Word? ==>
      if ls[i].gap == [] then i + 1 < |ls| && !ls[i + 1].token.Word?
      else ls[i].gap[0].Blank? && ls[i].gap[0].c in " \t\n"
  }

  predicate FitsAt(ls: seq<Lexeme>, i: nat)
    requires i < |ls|
  {
    IsSeparated(ls, i) && IsLayout(ls[i].gap) && (ls[i].token.Word? ==> IsLegalToken(ls[i].token.text))
  }

  ghost predicate AreLexemes(ls: seq<Lexeme>) {
    forall i | 0 <= i < |ls| :: FitsAt(ls, i)
  }

  lemma {:induction false} DelimiterBehindWord(ls: seq<Lexeme>)
    requires ls != [] && ls[0].token.Word? && IsSeparated(ls, 0)
    ensures StartsWithDelimiter(GapText(ls[0].gap) + LexemesText(ls[1..]))
  {
    if ls[0].gap == [] {
      assert ls[1..][0] == ls[1];
      assert GapText(ls[0].gap) + LexemesText(ls[1..]) == LexemesText(ls[1..]);
      assert TokenText(ls[1].token) in [";", "{", "}"];
    }
  }

  lemma {:induction false} TokenizeLexemes(ls: seq<Lexeme>)
    requires AreLexemes(ls)
    ensures Tokenize(LexemesText(ls)) == TokenList(TokensOf(ls), true, "")
    decreases |ls|
  {
    if ls != [] {
      var t, rest := ls[0].token, GapText(ls[0].gap) + LexemesText(ls[1..]);
      assert FitsAt(ls, 0);
      forall i | 0 <= i < |ls[1..]| ensures FitsAt(ls[1..], i) {
        assert FitsAt(ls, i + 1);
      }
      TokenizeLexemes(ls[1..]);
      TokenizeGap(ls[0].gap, LexemesText(ls[1..]));
      match t
      case Word(w) =>
        DelimiterBehindWord(ls);
        TokenizeWordBefore(w, rest);
      case Semicolon => TokenizePunctuation(';', rest);
      case Open => TokenizePunctuation('{', rest);
      case Close => TokenizePunctuation('}', rest);
    }
  }

  /** However it is laid out, with blanks and comments wherever they may stand, a token list is read as the
      tree that it spells, and rejected if it spells none. */
  lemma {:induction false} AnyLayoutIsRead(front: seq<Layout>, ls: seq<Lexeme>, b: Block)
    requires IsLayout(front) && AreLexemes(ls)
    ensures ParseText(GapText(front) + LexemesText(ls)) == Some(b) <==> IsConfig(b, TokensOf(ls))
  {
    TokenizeGap(front, LexemesText(ls));
    TokenizeLexemes(ls);
    ParseTextExactly(GapText(front) + LexemesText(ls), b);
  }

  // ---------- The most compact layout ----------

  /** One space between two words, and nothing else between tokens. */
  function Compact(ts: seq<Token>): string {
    if ts == [] then ""
    else TokenText(ts[0]) + ((if |ts| > 1 && ts[0].Word? && ts[1].Word? then " " else "") + Compact(ts[1..]))
  }

  function CompactLexemes(ts: seq<Token>): seq<Lexeme> {
    if ts == [] then []
    else
      [Lexeme(ts[0], if |ts| > 1 && ts[0].Word? && ts[1].Word? then [Blank(' ')] else [])] + CompactLexemes(ts[1..])
  }

  lemma {:induction false} CompactIsLaidOut(ts: seq<Token>)
    ensures LexemesText(CompactLexemes(ts)) == Compact(ts) && TokensOf(CompactLexemes(ts)) == ts
    ensures |CompactLexemes(ts)| == |ts| && forall i | 0 <= i < |ts| :: CompactLexemes(ts)[i].token == ts[i]
    decreases |ts|
  {
    if ts != [] {
      CompactIsLaidOut(ts[1..]);
      assert GapText([Blank(' ')]) == " ";
      assert CompactLexemes(ts)[1..] == CompactLexemes(ts[1..]);
    }
  }

  lemma {:induction false} CompactTail(ts: seq<Token>, i: nat)
    requires 0 < i < |ts| == |CompactLexemes(ts)|
    ensures i - 1 < |CompactLexemes(ts[1..])| == |ts[1..]|
    ensures CompactLexemes(ts)[i] == CompactLexemes(ts[1..])[i - 1]
  {
    CompactIsLaidOut(ts[1..]);
  }

  lemma {:induction false} CompactGap(ts: seq<Token>, i: nat)
    requires i < |ts| == |CompactLexemes(ts)|
    ensures CompactLexemes(ts)[i].gap ==
            if i + 1 < |ts| && ts[i].Word? && ts[i + 1].Word? then [Blank(' ')] else []
    decreases i
  {
    if i > 0 {
      CompactTail(ts, i);
      CompactGap(ts[1..], i - 1);
    }
  }

  lemma {:induction false} CompactLexemeFits(ts: seq<Token>, i: nat)
    requires LegalWords(ts) && i < |ts| && !ts[|ts| - 1].Word?
    requires |CompactLexemes(ts)| == |ts| && CompactLexemes(ts)[i].token == ts[i]
    requires i + 1 < |ts| ==> CompactLexemes(ts)[i + 1].token == ts[i + 1]
    ensures FitsAt(CompactLexemes(ts), i)
  {
    CompactGap(ts, i);
  }

  lemma {:induction false} CompactLexemesAre(ts: seq<Token>)
    requires LegalWords(ts) && ts != [] && !ts[|ts| - 1].Word?
    ensures AreLexemes(CompactLexemes(ts))
  {
    CompactIsLaidOut(ts);
    forall i | 0 <= i < |ts| ensures FitsAt(CompactLexemes(ts), i) {
      CompactLexemeFits(ts, i);
    }
  }

  lemma {:induction false} FlattenIsLegal(b: Block)
    requires AllLegal(b)
    ensures LegalWords(Flatten(b))
    decreases b, 0
  {
    if b != [] {
      var init, s := b[..|b| - 1], b[|b| - 1];
      FlattenIsLegal(init);
      FlattenStatementIsLegal(s);
    }
  }

  lemma {:induction false} FlattenStatementIsLegal(s: Statement)
    requires HasLegalTokens(s)
    ensures LegalWords(FlattenStatement(s))
    decreases s, 1
  {
    if s.WithBlock? {
      FlattenIsLegal(s.block);
    }
  }

  /** A tree is also read back from its most compact form, in which braces stand right behind words, exactly if
      it is printable. */
  lemma {:induction false} CompactThenParse(b: Block)
    ensures ParseText(Compact(Flatten(b))) == Some(b) <==> Printable(b)
  {
    ParsedIsPrintable(Compact(Flatten(b)));
    if Printable(b) {
      CompactIsRead(b);
    }
  }

  lemma {:induction false} CompactIsRead(b: Block)
    requires Printable(b)
    ensures ParseText(Compact(Flatten(b))) == Some(b)
  {
    var ts := Flatten(b);
    FlattenIsLegal(b);
    FlattenEndsInNoWord(b);
    CompactIsLaidOut(ts);
    CompactLexemesAre(ts);
    AnyLayoutIsRead([], CompactLexemes(ts), b);
    assert GapText([]) + Compact(ts) == Compact(ts);
  }

  lemma {:induction false} OneWordConfig(word: string)
    ensures IsConfig([Simple([word])], [Word(word), Semicolon])
  {
    var s, b := Simple([word]), [Simple([word])];
    FlattenSnoc([], s);
    assert [] + [s] == b && WellFormedStatement(s);
    assert FlattenStatement(s) == [Word(word), Semicolon];
    assert [] + FlattenStatement(s) == FlattenStatement(s);
  }

  lemma {:induction false} OneWordLexemes(word: string, ls: seq<Lexeme>)
    requires IsLegalToken(word) && ls == [Lexeme(Word(word), []), Lexeme(Semicolon, [])]
    ensures AreLexemes(ls) && TokensOf(ls) == [Word(word), Semicolon] && LexemesText(ls) == word + ";"
  {
    assert FitsAt(ls, 0) && FitsAt(ls, 1);
    assert ls[1..][0] == ls[1] && ls[1..][1..] == [];
    assert TokensOf(ls[1..]) == [Semicolon] + TokensOf([]) == [Semicolon];
    assert TokensOf(ls) == [Word(word)] + TokensOf(ls[1..]);
    assert LexemesText(ls[1..]) == ";";
    assert LexemesText(ls) == word + (GapText([]) + LexemesText(ls[1..]));
    assert GapText([]) + LexemesText(ls[1..]) == LexemesText(ls[1..]);
  }

  lemma {:induction false} ReturnIsPlain(w: string)
    requires IsPlainWord(w)
    ensures IsLegalToken(w + "\r")
  {
    var word := w + "\r";
    assert forall i | 0 <= i < |word| :: word[i] == if i < |w| then w[i] else '\r';
    LegalTokensSpelled(word);
  }

  lemma {:induction false} OneBlank(c: char)
    ensures GapText([Blank(c)]) == [c]
  {
  }

  /** A carriage return is layout in front of a word, and belongs to the word behind it. */
  lemma {:induction false} ReturnBelongsToWord(w: string)
    requires IsPlainWord(w)
    ensures ParseText("\r" + (w + "\r" + ";")) == Some([Simple([w + "\r"])])
  {
    var word := w + "\r";
    var ls := [Lexeme(Word(word), []), Lexeme(Semicolon, [])];
    ReturnIsPlain(w);
    OneWordConfig(word);
    OneWordLexemes(word, ls);
    OneBlank('\r');
    AnyLayoutIsRead([Blank('\r')], ls, [Simple([word])]);
  }

  // ---------- Trees and their tokens ----------

  /** The words of a statement are its tokens in order; what follows ends it, or is its block in braces. */
  lemma {:induction false} StatementTokens(s: Statement)
    ensures var ts, n := FlattenStatement(s), |s.tokens|;
            && |ts| > n && (forall i | 0 <= i < n :: ts[i] == Word(s.tokens[i]))
            && ts[n..] == if s.Simple? then [Semicolon] else [Open] + Flatten(s.block) + [Close]
  {
    if s.WithBlock? {
      Associate(Words(s.tokens) + [Open], Flatten(s.block), [Close]);
      Associate(Words(s.tokens), [Open], Flatten(s.block) + [Close]);
      Associate([Open], Flatten(s.block), [Close]);
      assert FlattenStatement(s)[|s.tokens|..] == [Open] + Flatten(s.block) + [Close];
    }
  }

  // ---------- The lines that the printer writes ----------

  datatype PrintedLine = PrintedLine(depth: nat, text: string)

  function Spaced(ws: seq<string>): string {
    if ws == [] then "" else if |ws| == 1 then ws[0] else ws[0] + (" " + Spaced(ws[1..]))
  }

  function Outline(b: Block, depth: nat): seq<PrintedLine>
    decreases b, 0
  {
    if b == [] then [] else Outline(b[..|b| - 1], depth) + OutlineOf(b[|b| - 1], depth)
  }

  /** A statement is one line; its block stands between its line and one with a brace, a level deeper. */
  function OutlineOf(s: Statement, depth: nat): seq<PrintedLine>
    decreases s, 1
  {
    match s
    case Simple(ws) => [PrintedLine(depth, Spaced(ws) + ";")]
    case WithBlock(ws, b) =>
      [PrintedLine(depth, Spaced(ws) + " {")] + Outline(b, depth + 1) + [PrintedLine(depth, "}")]
  }

  /** Two spaces for each level, and a line feed behind each line. */
  function LineText(l: PrintedLine): string {
    seq(2 * l.depth, _ => ' ') + l.text + "\n"
  }

  function OutlineText(ls: seq<PrintedLine>): string {
    if ls == [] then "" else OutlineText(ls[..|ls| - 1]) + LineText(ls[|ls| - 1])
  }

  lemma {:induction false} SpacedSnoc(ws: seq<string>, w: string)
    requires ws != []
    ensures Spaced(ws + [w]) == Spaced(ws) + " " + w
    decreases |ws|
  {
    assert (ws + [w])[1..] == ws[1..] + [w];
    if |ws| > 1 {
      SpacedSnoc(ws[1..], w);
      Associate(ws[0], " ", Spaced(ws[1..]));
      FourParts(ws[0], " ", Spaced(ws[1..]), " ", w);
    } else {
      assert ws + [w] == [ws[0], w] && ws[0] + (" " + w) == ws[0] + " " + w;
    }
  }

  lemma {:induction false} FourParts(a: string, b: string, c: string, d: string, e: string)
    ensures a + (b + (c + d + e)) == a + (b + c) + d + e
  {
  }

  lemma {:induction false} JoinIsSpaced(ws: seq<string>)
    ensures Join(ws) == Spaced(ws)
    decreases |ws|
  {
    if |ws| > 1 {
      var init, w := ws[..|ws| - 1], ws[|ws| - 1];
      JoinIsSpaced(init);
      SpacedSnoc(init, w);
      assert ws == init + [w];
    } else if |ws| == 1 {
      assert ws[..0] == [] && "" + "" + ws[0] == ws[0];
    }
  }

  lemma {:induction false} OutlineTextAppend(a: seq<PrintedLine>, b: seq<PrintedLine>)
    ensures OutlineText(a + b) == OutlineText(a) + OutlineText(b)
    decreases |b|
  {
    if b == [] {
      assert a + b == a && OutlineText(a) + "" == OutlineText(a);
    } else {
      var init, l := b[..|b| - 1], b[|b| - 1];
      assert (a + b)[..|a + b| - 1] == a + init;
      OutlineTextAppend(a, init);
      Associate(OutlineText(a), OutlineText(init), LineText(l));
    }
  }

  lemma {:induction false} OneLine(l: PrintedLine)
    ensures OutlineText([l]) == LineText(l)
  {
    assert [l][..0] == [] && "" + LineText(l) == LineText(l);
  }

  lemma {:induction false} IndentIs(depth: nat)
    ensures Indent(depth) == seq(2 * depth, _ => ' ')
  {
  }

  /** `ToString` writes these lines. */
  lemma {:induction false} PrintIsOutline(b: Block, depth: nat)
    ensures Print(b, depth) == OutlineText(Outline(b, depth))
    decreases b, 0
  {
    if b != [] {
      var init, s := b[..|b| - 1], b[|b| - 1];
      PrintIsOutline(init, depth);
      StatementIsOutline(s, depth);
      OutlineTextAppend(Outline(init, depth), OutlineOf(s, depth));
    }
  }

  lemma {:induction false} StatementIsOutline(s: Statement, depth: nat)
    ensures PrintStatement(s, depth) == OutlineText(OutlineOf(s, depth))
    decreases s, 1
  {
    JoinIsSpaced(s.tokens);
    IndentIs(depth);
    match s
    case Simple(ws) =>
      OneLine(PrintedLine(depth, Spaced(ws) + ";"));
      Associate(Indent(depth), Spaced(ws), ";");
    case WithBlock(ws, b) =>
      var first, last := PrintedLine(depth, Spaced(ws) + " {"), PrintedLine(depth, "}");
      PrintIsOutline(b, depth + 1);
      OneLine(first);
      OneLine(last);
      OutlineTextAppend([first], Outline(b, depth + 1));
      OutlineTextAppend([first] + Outline(b, depth + 1), [last]);
      BlockLines(Indent(depth), Spaced(ws), Print(b, depth + 1));
  }

  lemma {:induction false} BlockLines(pad: string, words: string, inner: string)
    ensures pad + words + " {\n" + inner + pad + "}" + "\n" == pad + (words + " {") + "\n" + inner + (pad + "}" + "\n")
  {
    assert " {" + "\n" == " {\n";
    Associate(pad, words, " {");
    Associate(pad + words, " {", "\n");
    Associate(pad + words + " {\n" + inner, pad, "}");
    Associate(pad + words + " {\n" + inner, pad + "}", "\n");
  }
}
