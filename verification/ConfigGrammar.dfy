/** The grammar of config files, and the pushdown machine that `NginxConfigParser::Parse` runs:
    the machine decides the grammar and builds the one tree that a token list spells. */
module ConfigGrammar {
  import opened ConfigLexer
  import opened Sequences

  datatype Token = Word(text: string) | Semicolon | Open | Close

  /** A statement is a list of words, closed by a semicolon or followed by a block. */
  datatype Statement = Simple(tokens: seq<string>) | WithBlock(tokens: seq<string>, block: seq<Statement>)

  type Block = seq<Statement>

  // ---------- The grammar: config ::= stmt+, stmt ::= word+ (";" | "{" stmt+ "}") ----------

  ghost predicate WellFormedStatement(s: Statement)
    decreases s, 1
  {
    s.tokens != [] && (s.WithBlock? ==> s.block != [] && WellFormedBlock(s.block))
  }

  ghost predicate WellFormedBlock(b: Block)
    decreases b, 0
  {
    forall i | 0 <= i < |b| :: WellFormedStatement(b[i])
  }

  function Words(ws: seq<string>): (ts: seq<Token>)
    ensures |ts| == |ws|
  {
    seq(|ws|, i requires 0 <= i < |ws| => Word(ws[i]))
  }

  /** The tokens that spell a statement. */
  function FlattenStatement(s: Statement): seq<Token>
    decreases s, 1
  {
    match s
    case Simple(ws) => Words(ws) + [Semicolon]
    case WithBlock(ws, b) => Words(ws) + [Open] + Flatten(b) + [Close]
  }

  function Flatten(b: Block): seq<Token>
    decreases b, 0
  {
    if b == [] then [] else Flatten(b[..|b| - 1]) + FlattenStatement(b[|b| - 1])
  }

  ghost predicate IsConfig(b: Block, ts: seq<Token>) {
    b != [] && WellFormedBlock(b) && Flatten(b) == ts
  }

  lemma {:induction false} FlattenSnoc(b: Block, s: Statement)
    ensures Flatten(b + [s]) == Flatten(b) + FlattenStatement(s)
  {
    assert (b + [s])[..|b|] == b;
  }

  // ---------- The machine ----------

  /** A block under construction: its finished statements, then the words of the statement that is still
      open, if there is one. */
  datatype Frame = Frame(closed: Block, words: seq<string>)

  /** The stack of blocks under construction, the innermost one apart from those below it, and the type
      of the last token. */
  datatype Machine = Machine(below: seq<Frame>, top: Frame, last: TokenType) {

    /** A block is open only inside an open statement; the innermost one has an open statement exactly
        after a word. */
    ghost predicate Valid() {
      && last in {Start, Normal, StartBlock, EndBlock, StatementEnd}
      && (forall i | 0 <= i < |below| :: below[i].words != [] && WellFormedBlock(below[i].closed))
      && (last == Normal <==> top.words != [])
      && WellFormedBlock(top.closed)
      && (last in {EndBlock, StatementEnd} ==> top.closed != [])
      && (last == Start ==> below == [])
    }
  }

  const INITIAL := Machine([], Frame([], []), Start)

  predicate IsValidTokenPredecessor(last: TokenType) {
    last == Normal || last == QuotedString
  }

  predicate CanFollowWithToken(last: TokenType) {
    last in {Start, StatementEnd, StartBlock, EndBlock, Normal, QuotedString}
  }

  predicate Accepts(m: Machine, t: Token) {
    match t
    case Word(_) => CanFollowWithToken(m.last)
    case Semicolon => IsValidTokenPredecessor(m.last)
    case Open => IsValidTokenPredecessor(m.last)
    case Close => (m.last == StatementEnd || m.last == EndBlock) && m.below != []
  }

  function Finish(f: Frame, s: Statement): Frame {
    Frame(f.closed + [s], [])
  }

  /** One iteration of the parser's loop on a token it takes. */
  function Step(m: Machine, t: Token): Machine
    requires Accepts(m, t)
  {
    match t
    case Word(w) => m.(top := Frame(m.top.closed, if m.last != Normal then [w] else m.top.words + [w]), last := Normal)
    case Semicolon => m.(top := Finish(m.top, Simple(m.top.words)), last := StatementEnd)
    case Open => Machine(m.below + [m.top], Frame([], []), StartBlock)
    case Close =>
      var outer := m.below[|m.below| - 1];
      Machine(m.below[..|m.below| - 1], Finish(outer, WithBlock(outer.words, m.top.closed)), EndBlock)
  }

  lemma {:induction false} StepKeepsValid(m: Machine, t: Token)
    requires m.Valid() && Accepts(m, t)
    ensures Step(m, t).Valid()
  {
    match t
    case Semicolon => assert WellFormedStatement(Simple(m.top.words));
    case Close =>
      var outer := m.below[|m.below| - 1];
      assert WellFormedStatement(WithBlock(outer.words, m.top.closed));
    case _ =>
  }

  /** Where the machine gets to on a token list, and whether it took all of it. */
  function Run(m: Machine, ts: seq<Token>): (Machine, bool)
    decreases |ts|
  {
    if ts == [] then (m, true)
    else if !Accepts(m, ts[0]) then (m, false)
    else Run(Step(m, ts[0]), ts[1..])
  }

  predicate AtEnd(m: Machine) {
    (m.last == StatementEnd || m.last == EndBlock) && m.below == []
  }

  // ---------- What the machine has read so far ----------

  function FlattenFrame(f: Frame): seq<Token> {
    Flatten(f.closed) + Words(f.words)
  }

  function FlattenBelow(fs: seq<Frame>): seq<Token> {
    if fs == [] then []
    else FlattenBelow(fs[..|fs| - 1]) + (FlattenFrame(fs[|fs| - 1]) + [Open])
  }

  /** The tokens that the partial tree spells. */
  function Consumed(m: Machine): seq<Token> {
    FlattenBelow(m.below) + FlattenFrame(m.top)
  }

  lemma {:induction false} FinishSimple(f: Frame)
    ensures FlattenFrame(Finish(f, Simple(f.words))) == FlattenFrame(f) + [Semicolon]
  {
    FlattenSnoc(f.closed, Simple(f.words));
    Associate(Flatten(f.closed), Words(f.words), [Semicolon]);
  }

  lemma {:induction false} FinishWithBlock(f: Frame, b: Block)
    ensures FlattenFrame(Finish(f, WithBlock(f.words, b))) == FlattenFrame(f) + [Open] + (Flatten(b) + [Close])
  {
    var head, ws, inner := Flatten(f.closed), Words(f.words), Flatten(b);
    FlattenSnoc(f.closed, WithBlock(f.words, b));
    calc {
      head + (ws + [Open] + inner + [Close]);
      { Associate(ws + [Open], inner, [Close]); }
      head + ((ws + [Open]) + (inner + [Close]));
      { Associate(head, ws + [Open], inner + [Close]); }
      (head + (ws + [Open])) + (inner + [Close]);
      { Associate(head, ws, [Open]); }
      head + ws + [Open] + (inner + [Close]);
    }
  }

  /** The machine reads each token it takes into the tree, and nothing else. */
  lemma {:induction false} StepConsumes(m: Machine, t: Token)
    requires m.Valid() && Accepts(m, t)
    ensures Consumed(Step(m, t)) == Consumed(m) + [t]
  {
    var pre, m' := FlattenBelow(m.below), Step(m, t);
    match t
    case Word(w) =>
      assert Words(m'.top.words) == Words(m.top.words) + [t];
      Associate(Flatten(m.top.closed), Words(m.top.words), [t]);
      Associate(pre, FlattenFrame(m.top), [t]);
    case Semicolon =>
      FinishSimple(m.top);
      Associate(pre, FlattenFrame(m.top), [t]);
    case Open =>
      assert m'.below[..|m.below|] == m.below;
      Associate(pre, FlattenFrame(m.top), [t]);
      assert FlattenFrame(m'.top) == [];
    case Close =>
      var outer := m.below[|m.below| - 1];
      FinishWithBlock(outer, m.top.closed);
      assert FlattenFrame(m.top) == Flatten(m.top.closed);
      Associate(FlattenBelow(m'.below), FlattenFrame(outer) + [Open], FlattenFrame(m.top) + [t]);
      Associate(pre, FlattenFrame(m.top), [t]);
  }

  lemma {:induction false} TakeOneMore(taken: seq<Token>, ts: seq<Token>, k: nat)
    requires k < |ts|
    ensures taken + [ts[0]] + ts[1..][..k] == taken + ts[..k + 1]
  {
  }

  /** Wherever the machine stops, its partial tree spells exactly the tokens it took: all of them, or
      those in front of the first one that it rejects. */
  lemma {:induction false} RunConsumes(m: Machine, ts: seq<Token>) returns (n: nat)
    requires m.Valid()
    ensures n <= |ts|
    ensures Run(m, ts).0.Valid() && Consumed(Run(m, ts).0) == Consumed(m) + ts[..n]
    ensures if Run(m, ts).1 then n == |ts| else n < |ts| && !Accepts(Run(m, ts).0, ts[n])
    decreases |ts|
  {
    if ts == [] || !Accepts(m, ts[0]) {
      n := 0;
      assert Consumed(m) == Consumed(m) + ts[..0];
    } else {
      StepKeepsValid(m, ts[0]);
      StepConsumes(m, ts[0]);
      var k := RunConsumes(Step(m, ts[0]), ts[1..]);
      n := k + 1;
      TakeOneMore(Consumed(m), ts, k);
    }
  }

  // ---------- The machine takes every config ----------

  function LastOf(s: Statement): TokenType {
    if s.Simple? then StatementEnd else EndBlock
  }

  function After(m: Machine, b: Block): Machine {
    if b == [] then m else Machine(m.below, Frame(m.top.closed + b, []), LastOf(b[|b| - 1]))
  }

  lemma {:induction false} RunWords(m: Machine, ws: seq<string>, rest: seq<Token>)
    requires m.Valid() && m.last == Normal
    ensures Run(m, Words(ws) + rest) == Run(m.(top := Frame(m.top.closed, m.top.words + ws)), rest)
    decreases |ws|
  {
    if ws == [] {
      assert Words(ws) + rest == rest && m.top.words + ws == m.top.words;
    } else {
      assert (Words(ws) + rest)[1..] == Words(ws[1..]) + rest;
      RunWords(Step(m, Word(ws[0])), ws[1..], rest);
      Associate(m.top.words, [ws[0]], ws[1..]);
      assert [ws[0]] + ws[1..] == ws;
    }
  }

  lemma {:induction false} RunFirstWords(m: Machine, ws: seq<string>, rest: seq<Token>)
    requires m.Valid() && m.last != Normal && ws != []
    ensures Run(m, Words(ws) + rest) == Run(m.(top := Frame(m.top.closed, ws), last := Normal), rest)
  {
    assert (Words(ws) + rest)[1..] == Words(ws[1..]) + rest;
    RunWords(Step(m, Word(ws[0])), ws[1..], rest);
    assert [ws[0]] + ws[1..] == ws;
  }

  lemma {:induction false} RunSimple(m: Machine, s: Statement, rest: seq<Token>)
    requires m.Valid() && m.last != Normal && WellFormedStatement(s) && s.Simple?
    ensures Run(m, FlattenStatement(s) + rest) == Run(After(m, [s]), rest)
  {
    Associate(Words(s.tokens), [Semicolon], rest);
    RunFirstWords(m, s.tokens, [Semicolon] + rest);
    assert ([Semicolon] + rest)[1..] == rest;
  }

  lemma {:induction false} RunWithBlock(m: Machine, s: Statement, rest: seq<Token>)
    requires m.Valid() && m.last != Normal && WellFormedStatement(s) && s.WithBlock?
    ensures Run(m, FlattenStatement(s) + rest) == Run(After(m, [s]), rest)
    decreases s, 1
  {
    var ws, inner := Words(s.tokens), Flatten(s.block);
    Associate(ws + [Open] + inner, [Close], rest);
    Associate(ws + [Open], inner, [Close] + rest);
    Associate(ws, [Open], inner + ([Close] + rest));
    RunFirstWords(m, s.tokens, [Open] + (inner + ([Close] + rest)));
    assert ([Open] + (inner + ([Close] + rest)))[1..] == inner + ([Close] + rest);
    var m1 := m.(top := Frame(m.top.closed, s.tokens), last := Normal);
    StepKeepsValid(m1, Open);
    RunBlock(Step(m1, Open), s.block, [Close] + rest);
    assert [] + s.block == s.block;
    assert ([Close] + rest)[1..] == rest;
    assert (m.below + [m1.top])[..|m.below|] == m.below;
  }

  lemma {:induction false} RunBlock(m: Machine, b: Block, rest: seq<Token>)
    requires m.Valid() && m.last != Normal && WellFormedBlock(b)
    ensures Run(m, Flatten(b) + rest) == Run(After(m, b), rest)
    decreases b, 0
  {
    if b == [] {
      assert Flatten(b) + rest == rest;
    } else {
      var init, s := b[..|b| - 1], b[|b| - 1];
      Associate(Flatten(init), FlattenStatement(s), rest);
      RunBlock(m, init, FlattenStatement(s) + rest);
      assert m.top.closed + init + [s] == m.top.closed + b;
      assert init == [] ==> m.top.closed + [s] == m.top.closed + b;
      if s.Simple? {
        RunSimple(After(m, init), s, rest);
      } else {
        RunWithBlock(After(m, init), s, rest);
      }
    }
  }

  // ---------- The machine decides the grammar ----------

  /** Whether the machine ends as it must, and in which tree. */
  ghost predicate Builds(ts: seq<Token>, b: Block) {
    var (m, ok) := Run(INITIAL, ts);
    ok && AtEnd(m) && m.top.closed == b
  }

  lemma {:induction false} BuildsOnlyConfigs(ts: seq<Token>, b: Block)
    requires Builds(ts, b)
    ensures IsConfig(b, ts)
  {
    var n := RunConsumes(INITIAL, ts);
    assert ts[..n] == ts;
    assert Consumed(INITIAL) == [];
    assert Words([]) == [] && Consumed(Run(INITIAL, ts).0) == Flatten(b);
  }

  lemma {:induction false} BuildsEveryConfig(b: Block, ts: seq<Token>)
    requires IsConfig(b, ts)
    ensures Builds(ts, b)
  {
    RunBlock(INITIAL, b, []);
    assert Flatten(b) + [] == ts;
    assert [] + b == b;
  }

  /** The loop accepts a token list exactly when it spells a config, and builds the only one it spells. */
  lemma {:induction false} MachineDecidesGrammar(ts: seq<Token>)
    ensures forall b :: Builds(ts, b) <==> IsConfig(b, ts)
    ensures forall b, b' :: IsConfig(b, ts) && IsConfig(b', ts) ==> b == b'
    ensures (Run(INITIAL, ts).1 && AtEnd(Run(INITIAL, ts).0)) <==> exists b :: IsConfig(b, ts)
  {
    forall b ensures Builds(ts, b) <==> IsConfig(b, ts) {
      if Builds(ts, b) { BuildsOnlyConfigs(ts, b); }
      if IsConfig(b, ts) { BuildsEveryConfig(b, ts); }
    }
    assert Run(INITIAL, ts).1 && AtEnd(Run(INITIAL, ts).0) ==> Builds(ts, Run(INITIAL, ts).0.top.closed);
  }

  // ---------- The same without a grammar: which tokens may stand side by side ----------

  lemma {:induction false} RunSnoc(m: Machine, ts: seq<Token>, t: Token)
    ensures var (m', ok) := Run(m, ts);
            Run(m, ts + [t]) == if ok && Accepts(m', t) then (Step(m', t), true) else (m', false)
    decreases |ts|
  {
    if ts != [] {
      assert (ts + [t])[1..] == ts[1..] + [t];
      if Accepts(m, ts[0]) {
        RunSnoc(Step(m, ts[0]), ts[1..], t);
      }
    } else {
      assert ts + [t] == [t];
    }
  }

  /** How many blocks are open behind the tokens. */
  function Depth(ts: seq<Token>): int {
    if ts == [] then 0
    else Depth(ts[..|ts| - 1]) + match ts[|ts| - 1] { case Open => 1 case Close => -1 case _ => 0 }
  }

  predicate MayFollow(before: Token, t: Token) {
    match t
    case Word(_) => true
    case Semicolon => before.Word?
    case Open => before.Word?
    case Close => before == Semicolon || before == Close
  }

  predicate MayStand(ts: seq<Token>, i: nat)
    requires i < |ts|
  {
    && (if i == 0 then ts[i].Word? else MayFollow(ts[i - 1], ts[i]))
    && Depth(ts[..i + 1]) >= 0
  }

  predicate EndsWell(ts: seq<Token>) {
    ts != [] && (ts[|ts| - 1] == Semicolon || ts[|ts| - 1] == Close) && Depth(ts) == 0
  }

  function KindOf(t: Token): TokenType {
    match t
    case Word(_) => Normal
    case Semicolon => StatementEnd
    case Open => StartBlock
    case Close => EndBlock
  }

  lemma {:induction false} AcceptsLocally(m: Machine, ts: seq<Token>)
    requires ts != []
    requires var init := ts[..|ts| - 1];
             |m.below| == Depth(init) && m.last == if init == [] then Start else KindOf(init[|init| - 1])
    ensures Accepts(m, ts[|ts| - 1]) <==> MayStand(ts, |ts| - 1)
  {
    assert ts[..|ts|] == ts;
  }

  lemma {:induction false} RunLocally(ts: seq<Token>)
    ensures Run(INITIAL, ts).1 <==> forall i | 0 <= i < |ts| :: MayStand(ts, i)
    ensures var (m, ok) := Run(INITIAL, ts);
            ok ==> |m.below| == Depth(ts) && m.last == if ts == [] then Start else KindOf(ts[|ts| - 1])
    decreases |ts|
  {
    if ts != [] {
      var n := |ts| - 1;
      var init, t := ts[..n], ts[n];
      RunLocally(init);
      RunSnoc(INITIAL, init, t);
      assert ts == init + [t] && ts[..n + 1] == ts;
      forall i | 0 <= i < n ensures MayStand(ts, i) <==> MayStand(init, i) {
        assert ts[..i + 1] == init[..i + 1];
      }
      if Run(INITIAL, init).1 {
        AcceptsLocally(Run(INITIAL, init).0, ts);
      }
    }
  }

  /** A token list spells a config exactly if its first token is a word, its last one ends a statement, each
      token may follow the one before it, no brace closes what is not open, and all that was opened is closed. */
  lemma {:induction false} ConfigsLocally(ts: seq<Token>)
    ensures (exists b :: IsConfig(b, ts)) <==> EndsWell(ts) && forall i | 0 <= i < |ts| :: MayStand(ts, i)
  {
    MachineDecidesGrammar(ts);
    RunLocally(ts);
  }
}
