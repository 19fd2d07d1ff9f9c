/** The config parser and printer on mutable trees: `NginxConfigParser::Parse` builds a tree of
    `NginxConfig` and `NginxConfigStatement` objects through a stack of references into that tree. */
module ConfigParser {
  import opened ConfigLexer
  import opened ConfigGrammar
  import opened ConfigText
  import opened Sequences
  import opened Wrappers

  /** The indentation loop, which `ToString` has twice. */
  method AppendIndent(head: string, depth: int) returns (text: string)
    ensures text == head + Indent(depth)
  {
    text := head;
    var i := 0;
    while i < depth
      invariant 0 <= i && (i <= depth || i == 0)
      invariant text == head + Indent(i)
    {
      Associate(head, Indent(i), "  ");
      text := text + "  ";
      i := i + 1;
    }
  }

  /** The loop that writes the words of a statement with one space between them. */
  method AppendWords(head: string, tokens: seq<string>) returns (text: string)
    ensures text == head + Join(tokens)
  {
    text := head;
    for i := 0 to |tokens|
      invariant text == head + Join(tokens[..i])
    {
      assert tokens[..i + 1][..i] == tokens[..i];
      Associate(head, Join(tokens[..i]), " ");
      if i != 0 {
        text := text + " ";
      }
      Associate(head, Join(tokens[..i]), tokens[i]);
      Associate(head, Join(tokens[..i]) + " ", tokens[i]);
      assert i == 0 ==> Join(tokens[..i]) + "" + tokens[i] == Join(tokens[..i]) + tokens[i];
      text := text + tokens[i];
    }
    assert tokens[..|tokens|] == tokens;
  }

  class NginxConfigStatement {
    var tokens: seq<string>
    var child: NginxConfig?

    constructor ()
      ensures tokens == [] && child == null
    {
      tokens, child := [], null;
    }

    /** `NginxConfigStatement::ToString` */
    method ToString(depth: int, ghost s: Statement, ghost tree: set<object>) returns (text: string)
      requires StatementIs(this, s, tree)
      ensures text == PrintStatement(s, depth)
      decreases s, 1
    {
      text := AppendIndent("", depth);
      text := AppendWords(text, tokens);
      if child != null {
        text := text + " {\n";
        var inner := child.ToString(depth + 1, s.block, tree);
        text := text + inner;
        text := AppendIndent(text, depth);
        text := text + "}";
      } else {
        text := text + ";";
      }
      text := text + "\n";
      assert "" + Indent(depth) == Indent(depth);
    }
  }

  class NginxConfig {
    var statements: seq<NginxConfigStatement>

    constructor ()
      ensures statements == []
    {
      statements := [];
    }

    /** `NginxConfig::ToString` */
    method ToString(depth: int, ghost b: Block, ghost tree: set<object>) returns (text: string)
      requires StatementsAre(statements, b, tree)
      ensures text == Print(b, depth)
      decreases b, 0
    {
      text := "";
      for i := 0 to |statements|
        invariant text == Print(b[..i], depth)
      {
        assert b[..i + 1][..i] == b[..i];
        var line := statements[i].ToString(depth, b[i], tree);
        text := text + line;
      }
      assert b[..|b|] == b;
    }
  }

  /** The object `s` and all below it spell `v`, and belong to `tree`. */
  ghost predicate StatementIs(s: NginxConfigStatement, v: Statement, tree: set<object>)
    reads tree
    decreases v, 1
  {
    && s in tree
    && s.tokens == v.tokens
    && match v
       case Simple(_) => s.child == null
       case WithBlock(_, b) => s.child != null && s.child in tree && StatementsAre(s.child.statements, b, tree)
  }

  ghost predicate StatementsAre(ss: seq<NginxConfigStatement>, b: Block, tree: set<object>)
    reads tree
    decreases b, 0
  {
    |ss| == |b| && forall i | 0 <= i < |b| :: StatementIs(ss[i], b[i], tree)
  }

  lemma {:induction false} StatementIsIn(s: NginxConfigStatement, v: Statement, tree: set<object>, more: set<object>)
    requires StatementIs(s, v, tree) && tree <= more
    ensures StatementIs(s, v, more)
    decreases v, 1
  {
    if v.WithBlock? {
      StatementsAreIn(s.child.statements, v.block, tree, more);
    }
  }

  lemma {:induction false} StatementsAreIn(ss: seq<NginxConfigStatement>, b: Block,
                                           tree: set<object>, more: set<object>)
    requires StatementsAre(ss, b, tree) && tree <= more
    ensures StatementsAre(ss, b, more)
    decreases b, 0
  {
    forall i | 0 <= i < |b| ensures StatementIs(ss[i], b[i], more) {
      StatementIsIn(ss[i], b[i], tree, more);
    }
  }

  // ---------- The stack of references ----------

  /** The block `c` holds, behind the statements `base`, a frame's finished statements and then, if the
      frame has one, its open statement; that statement's block is `child`. */
  ghost predicate FrameIs(c: NginxConfig, base: seq<NginxConfigStatement>, f: Frame, child: NginxConfig?,
                          mine: set<object>, tree: set<object>)
    reads mine, tree
  {
    var n := |base| + |f.closed|;
    && c in mine && c !in tree
    && |c.statements| == n + (if f.words == [] then 0 else 1)
    && c.statements[..|base|] == base
    && StatementsAre(c.statements[|base|..n], f.closed, tree)
    && (f.words != [] ==>
          && c.statements[n] in mine && c.statements[n] !in tree
          && c.statements[n].tokens == f.words && c.statements[n].child == child)
  }

  function BaseOf(base: seq<NginxConfigStatement>, i: nat): seq<NginxConfigStatement> {
    if i == 0 then base else []
  }

  /** The stack is the chain from the root through the blocks of the last statements, and what hangs from
      it is the partial tree of the machine. Of the objects `mine` that the parser may change, those in
      `tree` are finished. */
  ghost predicate Chain(stack: seq<NginxConfig>, base: seq<NginxConfigStatement>, m: Machine,
                        mine: set<object>, tree: set<object>)
    reads mine, tree
  {
    && |stack| == |m.below| + 1
    && tree <= mine
    && (forall s | s in base :: s !in mine)
    && (forall i, j | 0 <= i < j < |stack| :: stack[i] != stack[j])
    && (forall i | 0 <= i < |stack| - 1 :: FrameIs(stack[i], BaseOf(base, i), m.below[i], stack[i + 1], mine, tree))
    && FrameIs(stack[|m.below|], BaseOf(base, |m.below|), m.top, null, mine, tree)
  }

  /** After a word, the innermost block has a last statement: the one that the words since the last end of
      statement belong to, without a block, so that giving it one discards nothing. */
  lemma {:induction false} LastStatementIsOpen(stack: seq<NginxConfig>, base: seq<NginxConfigStatement>, m: Machine,
                            mine: set<object>, tree: set<object>)
    requires Chain(stack, base, m, mine, tree) && m.Valid() && m.last == Normal
    ensures stack != []
    ensures var ss := stack[|stack| - 1].statements;
            ss != [] && ss[|ss| - 1].child == null && ss[|ss| - 1].tokens == m.top.words
  {
    assert FrameIs(stack[|m.below|], BaseOf(base, |m.below|), m.top, null, mine, tree);
  }

  lemma {:induction false} StatementsAreAppend(ss: seq<NginxConfigStatement>, b: Block,
                                               s: NginxConfigStatement, v: Statement, tree: set<object>)
    requires StatementsAre(ss, b, tree) && StatementIs(s, v, tree)
    ensures StatementsAre(ss + [s], b + [v], tree)
  {
  }

  /** A word that does not follow another starts a statement of the innermost block. */
  method TakeFirstWord(configStack: seq<NginxConfig>, token: string,
                       ghost base: seq<NginxConfigStatement>, ghost m: Machine,
                       ghost mine: set<object>, ghost tree: set<object>)
    returns (ghost mine': set<object>)
    requires Chain(configStack, base, m, mine, tree) && m.Valid()
    requires m.last != Normal
    modifies mine
    ensures mine <= mine' && fresh(mine' - mine)
    ensures Chain(configStack, base, Step(m, Word(token)), mine', tree)
  {
    var top := configStack[|configStack| - 1];
    ghost var b := BaseOf(base, |m.below|);
    assert FrameIs(top, b, m.top, null, mine, tree);
    var statement := new NginxConfigStatement();
    top.statements := top.statements + [statement];
    statement.tokens := statement.tokens + [token];
    mine' := mine + {statement};
    forall i | 0 <= i < |configStack| - 1
      ensures FrameIs(configStack[i], BaseOf(base, i), m.below[i], configStack[i + 1], mine', tree)
    {
      assert old(FrameIs(configStack[i], BaseOf(base, i), m.below[i], configStack[i + 1], mine, tree));
    }
    assert top.statements[..|top.statements| - 1] == old(top.statements);
    assert top.statements[|b|..|top.statements| - 1] == old(top.statements)[|b|..];
    assert FrameIs(top, b, Step(m, Word(token)).top, null, mine', tree);
  }

  /** A word that follows a word goes to the last statement of the innermost block, which exists. */
  method TakeNextWord(configStack: seq<NginxConfig>, token: string,
                      ghost base: seq<NginxConfigStatement>, ghost m: Machine,
                      ghost mine: set<object>, ghost tree: set<object>)
    requires Chain(configStack, base, m, mine, tree) && m.Valid()
    requires m.last == Normal
    modifies mine
    ensures Chain(configStack, base, Step(m, Word(token)), mine, tree)
  {
    var top := configStack[|configStack| - 1];
    assert FrameIs(top, BaseOf(base, |m.below|), m.top, null, mine, tree);
    var s := top.statements[|top.statements| - 1];
    s.tokens := s.tokens + [token];
    forall i | 0 <= i < |configStack| - 1
      ensures FrameIs(configStack[i], BaseOf(base, i), m.below[i], configStack[i + 1], mine, tree)
    {
      assert old(FrameIs(configStack[i], BaseOf(base, i), m.below[i], configStack[i + 1], mine, tree));
    }
  }

  /** A brace gives the last statement of the innermost block a block of its own; it had none. */
  method TakeOpen(configStack: seq<NginxConfig>,
                  ghost base: seq<NginxConfigStatement>, ghost m: Machine,
                  ghost mine: set<object>, ghost tree: set<object>)
    returns (newConfig: NginxConfig)
    requires Chain(configStack, base, m, mine, tree) && m.Valid()
    requires Accepts(m, Open)
    modifies mine
    ensures fresh(newConfig)
    ensures Chain(configStack + [newConfig], base, Step(m, Open), mine + {newConfig}, tree)
  {
    var top := configStack[|configStack| - 1];
    ghost var b := BaseOf(base, |m.below|);
    assert FrameIs(top, b, m.top, null, mine, tree);
    var s := top.statements[|top.statements| - 1];
    assert s.child == null;
    newConfig := new NginxConfig();
    s.child := newConfig;
    ghost var mine' := mine + {newConfig};
    forall i | 0 <= i < |configStack| - 1
      ensures FrameIs(configStack[i], BaseOf(base, i), m.below[i], configStack[i + 1], mine', tree)
    {
      assert old(FrameIs(configStack[i], BaseOf(base, i), m.below[i], configStack[i + 1], mine, tree));
    }
    ChainOpened(configStack, newConfig, base, m, mine', tree);
  }

  lemma {:induction false} ChainOpened(stack: seq<NginxConfig>, newConfig: NginxConfig,
                                       base: seq<NginxConfigStatement>, m: Machine,
                                       mine: set<object>, tree: set<object>)
    requires |stack| == |m.below| + 1 && tree <= mine && Accepts(m, Open)
    requires forall s | s in base :: s !in mine
    requires forall i, j | 0 <= i < j < |stack| :: stack[i] != stack[j]
    requires newConfig !in stack && newConfig in mine && newConfig !in tree && newConfig.statements == []
    requires forall i | 0 <= i < |stack| - 1 :: FrameIs(stack[i], BaseOf(base, i), m.below[i], stack[i + 1], mine, tree)
    requires FrameIs(stack[|m.below|], BaseOf(base, |m.below|), m.top, newConfig, mine, tree)
    ensures Chain(stack + [newConfig], base, Step(m, Open), mine, tree)
  {
    assert newConfig.statements[..0] == [];
  }

  /** When the open statement of a frame and its block are finished, so is the frame's statement. */
  lemma {:induction false} FinishStatement(c: NginxConfig, base: seq<NginxConfigStatement>, f: Frame,
                                           child: NginxConfig?, v: Statement,
                                           mine: set<object>, tree: set<object>, tree': set<object>)
    requires FrameIs(c, base, f, child, mine, tree) && f.words != []
    requires tree <= tree' && c !in tree'
    requires StatementIs(c.statements[|base| + |f.closed|], v, tree')
    ensures FrameIs(c, base, Finish(f, v), null, mine, tree')
  {
    var n := |base| + |f.closed|;
    StatementsAreIn(c.statements[|base|..n], f.closed, tree, tree');
    StatementsAreAppend(c.statements[|base|..n], f.closed, c.statements[n], v, tree');
    assert c.statements[|base|..n] + [c.statements[n]] == c.statements[|base|..n + 1];
  }

  /** A frame does not depend on what else is finished. */
  lemma {:induction false} GrowFrame(c: NginxConfig, base: seq<NginxConfigStatement>, f: Frame, child: NginxConfig,
                  mine: set<object>, tree: set<object>, tree': set<object>)
    requires FrameIs(c, base, f, child, mine, tree) && f.words != []
    requires tree <= tree' && c !in tree' && c.statements[|base| + |f.closed|] !in tree'
    ensures FrameIs(c, base, f, child, mine, tree')
  {
    StatementsAreIn(c.statements[|base|..|base| + |f.closed|], f.closed, tree, tree');
  }

  /** A semicolon changes no object; the open statement is finished. */
  lemma {:induction false} TakeSemicolon(stack: seq<NginxConfig>, base: seq<NginxConfigStatement>, m: Machine,
                      mine: set<object>, tree: set<object>) returns (tree': set<object>)
    requires Chain(stack, base, m, mine, tree) && m.Valid()
    requires Accepts(m, Semicolon)
    ensures tree <= tree' <= mine
    ensures Chain(stack, base, Step(m, Semicolon), mine, tree')
  {
    var n := |m.below|;
    var s := stack[n].statements[|BaseOf(base, n)| + |m.top.closed|];
    tree' := tree + {s};
    FinishStatement(stack[n], BaseOf(base, n), m.top, null, Simple(m.top.words), mine, tree, tree');
    forall i | 0 <= i < n
      ensures FrameIs(stack[i], BaseOf(base, i), m.below[i], stack[i + 1], mine, tree')
    {
      GrowFrame(stack[i], BaseOf(base, i), m.below[i], stack[i + 1], mine, tree, tree');
    }
  }

  /** A closing brace changes no object either; popping the stack leaves the block where the statement
      below has it, and both are finished. */
  lemma {:induction false} TakeClose(stack: seq<NginxConfig>, base: seq<NginxConfigStatement>, m: Machine,
                  mine: set<object>, tree: set<object>) returns (tree': set<object>)
    requires Chain(stack, base, m, mine, tree) && m.Valid()
    requires Accepts(m, Close)
    ensures tree <= tree' <= mine
    ensures Chain(stack[..|stack| - 1], base, Step(m, Close), mine, tree')
  {
    var n := |m.below|;
    var c, outer := stack[n], m.below[n - 1];
    var s := stack[n - 1].statements[|BaseOf(base, n - 1)| + |outer.closed|];
    assert FrameIs(stack[n - 1], BaseOf(base, n - 1), outer, c, mine, tree);
    tree' := tree + {s, c};
    StatementsAreIn(c.statements, m.top.closed, tree, tree') by {
      assert c.statements[0..|m.top.closed|] == c.statements;
    }
    FinishStatement(stack[n - 1], BaseOf(base, n - 1), outer, c, WithBlock(outer.words, m.top.closed),
                    mine, tree, tree');
    forall i | 0 <= i < n - 1
      ensures FrameIs(stack[i], BaseOf(base, i), m.below[i], stack[i + 1], mine, tree')
    {
      assert FrameIs(stack[i], BaseOf(base, i), m.below[i], stack[i + 1], mine, tree);
      GrowFrame(stack[i], BaseOf(base, i), m.below[i], stack[i + 1], mine, tree, tree');
    }
  }

  function TokenOf(kind: TokenType, text: string): Token {
    if kind == Normal then Word(text)
    else if kind == StatementEnd then Semicolon
    else if kind == StartBlock then Open
    else Close
  }

  /** One iteration of the loop of `Parse`, from the machine's point of view. */
  lemma {:induction false} OutcomeStep(m: Machine, s: string)
    ensures var r := Lex(s);
            var t := TokenOf(r.kind, r.text);
            Outcome(m, Tokenize(s)) ==
            if r.kind == Error then (m, false)
            else if r.kind == Eof then (m, AtEnd(m))
            else if r.kind == Comment then Outcome(m, Tokenize(r.rest))
            else if Accepts(m, t) then Outcome(Step(m, t), Tokenize(r.rest))
            else (m, false)
  {
    var r := Lex(s);
    LexProgress(s);
    if r.kind !in {Error, Eof, Comment} {
      var t := TokenOf(r.kind, r.text);
      assert Tokenize(s) == Then([t], Tokenize(r.rest));
      assert ([t] + Tokenize(r.rest).tokens)[1..] == Tokenize(r.rest).tokens;
    }
  }

  /** The part of the loop of `Parse` that takes one token which is not a comment, an error or the end. */
  method TakeToken(configStack: seq<NginxConfig>, last: TokenType, kind: TokenType, token: string,
                   ghost base: seq<NginxConfigStatement>, ghost m: Machine,
                   ghost mine: set<object>, ghost tree: set<object>)
    returns (taken: bool, configStack': seq<NginxConfig>, ghost mine': set<object>, ghost tree': set<object>)
    requires configStack != [] && Chain(configStack, base, m, mine, tree) && m.Valid() && m.last == last
    requires kind in {Normal, StatementEnd, StartBlock, EndBlock}
    modifies mine
    ensures taken == Accepts(m, TokenOf(kind, token))
    ensures configStack' != [] && configStack'[0] == configStack[0] && fresh(mine' - mine)
    ensures Chain(configStack', base, if taken then Step(m, TokenOf(kind, token)) else m, mine', tree')
  {
    taken, configStack', mine', tree' := false, configStack, mine, tree;
    if kind == Normal {
      if CanFollowWithToken(last) {
        if last != Normal {
          mine' := TakeFirstWord(configStack, token, base, m, mine, tree);
        } else {
          TakeNextWord(configStack, token, base, m, mine, tree);
        }
        taken := true;
      }
    } else if kind == StatementEnd {
      if IsValidTokenPredecessor(last) {
        tree' := TakeSemicolon(configStack, base, m, mine, tree);
        taken := true;
      }
    } else if kind == StartBlock {
      if IsValidTokenPredecessor(last) {
        var newConfig := TakeOpen(configStack, base, m, mine, tree);
        configStack', mine' := configStack + [newConfig], mine + {newConfig};
        taken := true;
      }
    } else {
      if (last == StatementEnd || last == EndBlock) && |configStack| != 1 {
        tree' := TakeClose(configStack, base, m, mine, tree);
        configStack' := configStack[..|configStack| - 1];
        taken := true;
      }
    }
  }

  /** When the machine is at its end, the config holds what it held, and behind that the finished block. */
  lemma {:induction false} ChainAtEnd(stack: seq<NginxConfig>, base: seq<NginxConfigStatement>, m: Machine,
                   mine: set<object>, tree: set<object>)
    requires Chain(stack, base, m, mine, tree) && m.Valid() && AtEnd(m)
    ensures Holds(stack[0], base, m.top.closed, tree)
  {
    var ss := stack[0].statements;
    assert ss[|base|..] == ss[|base|..|base| + |m.top.closed|];
  }

  /** Behind the statements `base`, the config holds objects that spell the block. */
  ghost predicate Holds(config: NginxConfig, base: seq<NginxConfigStatement>, b: Block, tree: set<object>)
    reads config, tree
  {
    && |base| <= |config.statements| && config.statements[..|base|] == base
    && StatementsAre(config.statements[|base|..], b, tree)
  }

  datatype Verdict = GoOn | Accept | Reject

  /** One iteration of the loop of `Parse`. */
  method ReadToken(input: InputStream, configStack: seq<NginxConfig>, last: TokenType,
                   ghost base: seq<NginxConfigStatement>, ghost m: Machine,
                   ghost mine: set<object>, ghost tree: set<object>)
    returns (verdict: Verdict, configStack': seq<NginxConfig>, last': TokenType,
             ghost m': Machine, ghost mine': set<object>, ghost tree': set<object>)
    requires input.Valid() && input !in mine && configStack != []
    requires Chain(configStack, base, m, mine, tree) && m.Valid() && m.last == last
    modifies input, mine
    ensures input.Valid() && fresh(mine' - mine)
    ensures configStack' != [] && configStack'[0] == configStack[0]
    ensures Chain(configStack', base, m', mine', tree') && m'.Valid() && m'.last == last'
    ensures match verdict
            case GoOn =>
              && |input.Remaining()| < |old(input.Remaining())|
              && Outcome(m, Tokenize(old(input.Remaining()))) == Outcome(m', Tokenize(input.Remaining()))
            case Accept => Outcome(m, Tokenize(old(input.Remaining()))) == (m', true) && AtEnd(m')
            case Reject => Outcome(m, Tokenize(old(input.Remaining()))) == (m', false)
  {
    ghost var before := input.Remaining();
    OutcomeStep(m, before);
    LexProgress(before);
    verdict, configStack', last', m', mine', tree' := Reject, configStack, last, m, mine, tree;
    var kind, token := ParseToken(input);
    assert Chain(configStack, base, m, mine, tree);
    if kind == Error {
      return;
    }
    if kind == Comment {
      verdict := GoOn;
      return;
    }
    if kind == Eof {
      if (last == StatementEnd || last == EndBlock) && |configStack| == 1 {
        verdict := Accept;
      }
      return;
    }
    var taken;
    taken, configStack', mine', tree' := TakeToken(configStack, last, kind, token, base, m, mine, tree);
    if taken {
      StepKeepsValid(m, TokenOf(kind, token));
      verdict, last', m' := GoOn, kind, Step(m, TokenOf(kind, token));
    }
    assert Chain(configStack', base, m', mine', tree');
  }

  /** `NginxConfigParser::Parse`. The new statements go behind those the config had. When the text is
      rejected, what is left in the config is the partial tree of the tokens in front of the one that is
      not taken. */
  method Parse(input: InputStream, config: NginxConfig)
    returns (ok: bool, ghost m: Machine, ghost stack: seq<NginxConfig>,
             ghost mine: set<object>, ghost tree: set<object>)
    requires input.Valid()
    modifies input, config
    ensures (m, ok) == Outcome(INITIAL, Tokenize(old(input.Remaining())))
    ensures ParseText(old(input.Remaining())) == if ok then Some(m.top.closed) else None
    ensures stack != [] && stack[0] == config && fresh(mine - {config})
    ensures Chain(stack, old(config.statements), m, mine, tree)
    ensures ok ==> Holds(config, old(config.statements), m.top.closed, tree)
  {
    ghost var goal := Outcome(INITIAL, Tokenize(input.Remaining()));
    ghost var base := config.statements;
    m, mine, tree := INITIAL, {config}, {};
    var configStack := [config];
    var last := Start;
    var verdict := GoOn;
    InitialChain(config, base);
    while verdict == GoOn
      invariant input.Valid() && input !in mine && fresh(mine - {config})
      invariant m.Valid() && m.last == last
      invariant configStack != [] && configStack[0] == config && Chain(configStack, base, m, mine, tree)
      invariant verdict == GoOn ==> Outcome(m, Tokenize(input.Remaining())) == goal
      invariant verdict != GoOn ==> goal == (m, verdict == Accept)
      invariant verdict == Accept ==> AtEnd(m)
      decreases verdict == GoOn, |input.Remaining()|
    {
      verdict, configStack, last, m, mine, tree := ReadToken(input, configStack, last, base, m, mine, tree);
    }
    ok, stack := verdict == Accept, configStack;
    if ok {
      ChainAtEnd(stack, base, m, mine, tree);
    }
  }

  lemma {:induction false} InitialChain(config: NginxConfig, base: seq<NginxConfigStatement>)
    requires config.statements == base
    ensures Chain([config], base, INITIAL, {config}, {})
  {
    assert base[|base|..] == [];
  }
}
