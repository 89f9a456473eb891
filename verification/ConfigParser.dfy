/** The parser and the printer on the heap: a tree of objects that the parser grows in place through a stack of
    pointers into it. */
module ConfigParser {
  import opened Wrappers
  import opened Streams
  import opened ConfigLexer
  import opened ConfigTree
  import opened ConfigGrammar

  class NginxConfigStatement {
    var tokens_: seq<string>
    var child_block_: NginxConfig?
    ghost var value: Statement

    constructor ()
      ensures tokens_ == [] && child_block_ == null
    {
      tokens_, child_block_ := [], null;
      value := Statement([], None);
    }
  }

  class NginxConfig {
    var statements_: seq<NginxConfigStatement>
    ghost var value: Config

    constructor ()
      ensures statements_ == []
    {
      statements_ := [];
      value := Config([]);
    }
  }

  // ----- Finished nodes -----

  /** The value of a finished statement is made of its tokens and the value of its child block. */
  ghost predicate StatementOk(s: NginxConfigStatement, blocks: set<NginxConfig>)
    reads s, blocks
  {
    if s.child_block_ == null then s.value == Statement(s.tokens_, None)
    else s.child_block_ in blocks && s.value == Statement(s.tokens_, Some(s.child_block_.value))
  }

  /** The first statements of the block are finished and have these values. */
  ghost predicate StartsWith(c: NginxConfig, ss: seq<Statement>, statements: set<NginxConfigStatement>)
    reads c, statements
  {
    |ss| <= |c.statements_| && forall i :: 0 <= i < |ss| ==> c.statements_[i] in statements && c.statements_[i].value == ss[i]
  }

  ghost predicate BlockOk(c: NginxConfig, statements: set<NginxConfigStatement>)
    reads c, statements
  {
    |c.statements_| == |c.value.statements| && StartsWith(c, c.value.statements, statements)
  }

  /** The values of these nodes are those of the trees they are the roots of. (A value is finite and contains the
      values of the children, so there is no way for such a node to be inside itself.) */
  ghost predicate Finished(blocks: set<NginxConfig>, statements: set<NginxConfigStatement>)
    reads blocks, statements
  {
    && (forall c {:trigger BlockOk(c, statements)} :: c in blocks ==> BlockOk(c, statements))
    && (forall s {:trigger StatementOk(s, blocks)} :: s in statements ==> StatementOk(s, blocks))
  }

  // ----- Printing -----

  method Indentation(depth: int) returns (s: string)
    ensures s == Indent(depth)
  {
    s := "";
    var i := 0;
    while i < depth
      invariant (if 0 <= depth then 0 <= i <= depth else i == 0) && s == Indent(i)
    {
      s := s + "  ";
      i := i + 1;
    }
  }

  method ConfigToString(c: NginxConfig, depth: int, ghost blocks: set<NginxConfig>, ghost statements: set<NginxConfigStatement>)
    returns (out: string)
    requires Finished(blocks, statements) && c in blocks
    ensures out == Print(c.value, depth)
    decreases c.value, 0
  {
    out := "";
    ghost var ss := c.value.statements;
    assert BlockOk(c, statements);
    for i := 0 to |c.statements_|
      invariant out == PrintAll(ss[..i], depth)
    {
      assert ss[..i+1][..i] == ss[..i];
      var s := StatementToString(c.statements_[i], depth, blocks, statements);
      out := out + s;
    }
    assert ss[..|ss|] == ss;
  }

  method StatementToString(s: NginxConfigStatement, depth: int, ghost blocks: set<NginxConfig>, ghost statements: set<NginxConfigStatement>)
    returns (out: string)
    requires Finished(blocks, statements) && s in statements
    ensures out == PrintStatement(s.value, depth)
    decreases s.value, 1
  {
    assert StatementOk(s, blocks);
    out := Indentation(depth);
    ghost var start := out;
    for i := 0 to |s.tokens_|
      invariant out == start + Join(s.tokens_[..i])
    {
      assert s.tokens_[..i+1][..i] == s.tokens_[..i];
      if i != 0 { out := out + " "; }
      out := out + s.tokens_[i];
    }
    assert s.tokens_[..|s.tokens_|] == s.tokens_;
    if s.child_block_ != null {
      var body := ConfigToString(s.child_block_, depth + 1, blocks, statements);
      var close := Indentation(depth);
      out := out + " {\n" + body + close + "}";
    } else {
      out := out + ";";
    }
    out := out + "\n";
  }

  // ----- Parsing -----

  /** The block consists of finished statements with these values and one more, which is still being read. */
  ghost predicate OpenBlock(c: NginxConfig, done: seq<Statement>, s: NginxConfigStatement, tokens: seq<string>,
                            child: NginxConfig?, statements: set<NginxConfigStatement>)
    reads c, s, statements
  {
    && StartsWith(c, done, statements) && |c.statements_| == |done| + 1 && c.statements_[|done|] == s
    && s !in statements && s.tokens_ == tokens && s.child_block_ == child
  }

  /** Blocks around `inner`: `open` are the statements whose child blocks are being read. */
  ghost predicate OuterBlocks(stack: seq<NginxConfig>, open: seq<NginxConfigStatement>, outer: Stack,
                              inner: NginxConfig, statements: set<NginxConfigStatement>)
    reads stack, open, statements
    decreases outer
  {
    && |stack| == |open| == Depth(outer)
    && (outer.Push? ==>
          var n := |stack| - 1;
          && OpenBlock(stack[n], outer.frame.done, open[n], outer.frame.tokens, inner, statements)
          && OuterBlocks(stack[..n], open[..n], outer.below, stack[n], statements))
  }

  ghost predicate Distinct<T>(xs: seq<T>) {
    forall i, j :: 0 <= i < j < |xs| ==> xs[i] != xs[j]
  }

  /** The objects on the parser's stack hold what the stack machine holds. `stack` is never empty, and it is one
      longer than the number of open braces. */
  ghost predicate Holds(p: Parser, stack: seq<NginxConfig>, open: seq<NginxConfigStatement>,
                        blocks: set<NginxConfig>, statements: set<NginxConfigStatement>)
    reads stack, open, blocks, statements
  {
    var n := Depth(p.outer);
    && |stack| == n + 1 && |open| == (if InStatement(p) then n + 1 else n)
    && (if InStatement(p) then OpenBlock(stack[n], p.done, open[n], p.tokens, null, statements)
        else StartsWith(stack[n], p.done, statements) && |stack[n].statements_| == |p.done|)
    && OuterBlocks(stack[..n], open[..n], p.outer, stack[n], statements)
    && Distinct(stack) && Distinct(open)
    && (forall c :: c in stack ==> c !in blocks) && (forall s :: s in open ==> s !in statements)
    && Finished(blocks, statements)
  }

  lemma {:induction false} OuterBlocksGrow(stack: seq<NginxConfig>, open: seq<NginxConfigStatement>, outer: Stack, inner: NginxConfig,
                        statements: set<NginxConfigStatement>, more: set<NginxConfigStatement>)
    requires OuterBlocks(stack, open, outer, inner, statements)
    requires statements <= more && forall s :: s in open ==> s !in more
    ensures OuterBlocks(stack, open, outer, inner, more)
    decreases outer
  {
    if outer.Push? {
      var n := |stack| - 1;
      OuterBlocksGrow(stack[..n], open[..n], outer.below, stack[n], statements, more);
    }
  }

  lemma FinishedGrow(blocks: set<NginxConfig>, statements: set<NginxConfigStatement>,
                     bs: set<NginxConfig>, ss: set<NginxConfigStatement>)
    requires Finished(blocks, statements)
    requires forall c :: c in bs ==> BlockOk(c, statements + ss)
    requires forall s :: s in ss ==> StatementOk(s, blocks + bs)
    ensures Finished(blocks + bs, statements + ss)
  {
    forall c | c in blocks
      ensures BlockOk(c, statements + ss)
    {
      assert BlockOk(c, statements);
    }
    forall s | s in statements
      ensures StatementOk(s, blocks + bs)
    {
      assert StatementOk(s, blocks);
    }
  }

  method FirstWord(stack: seq<NginxConfig>, token: string, ghost p: Parser, ghost open: seq<NginxConfigStatement>,
                   ghost blocks: set<NginxConfig>, ghost statements: set<NginxConfigStatement>)
    returns (ghost open': seq<NginxConfigStatement>)
    requires Holds(p, stack, open, blocks, statements) && Valid(p) && !InStatement(p)
    modifies stack[|stack|-1]
    ensures Holds(Advance(p, Word(token)).value, stack, open', blocks, statements)
    ensures |open'| == |open| + 1 && open'[..|open|] == open && fresh(open'[|open|])
  {
    var top := stack[|stack|-1];
    var s := new NginxConfigStatement();
    s.tokens_ := s.tokens_ + [token];
    top.statements_ := top.statements_ + [s];
    open' := open + [s];
    assert open'[..|open|] == open[..|open|] == open;
  }

  method NextWord(stack: seq<NginxConfig>, token: string, ghost p: Parser, ghost open: seq<NginxConfigStatement>,
                  ghost blocks: set<NginxConfig>, ghost statements: set<NginxConfigStatement>)
    requires Holds(p, stack, open, blocks, statements) && InStatement(p)
    modifies open[|open|-1]
    ensures Holds(Advance(p, Word(token)).value, stack, open, blocks, statements)
  {
    var top := stack[|stack|-1];
    var s := top.statements_[|top.statements_|-1];
    s.tokens_ := s.tokens_ + [token];
  }

  method EndStatement(stack: seq<NginxConfig>, ghost p: Parser, ghost open: seq<NginxConfigStatement>,
                      ghost blocks: set<NginxConfig>, ghost statements: set<NginxConfigStatement>)
    returns (ghost statements': set<NginxConfigStatement>)
    requires Holds(p, stack, open, blocks, statements) && InStatement(p)
    modifies open[|open|-1]
    ensures Holds(Advance(p, Semicolon).value, stack, open[..|open|-1], blocks, statements')
  {
    var n := |stack| - 1;
    ghost var s := open[n];
    s.value := Statement(s.tokens_, None);
    statements' := statements + {s};
    OuterBlocksGrow(stack[..n], open[..n], p.outer, stack[n], statements, statements');
    assert open[..n][..n] == open[..n];
    FinishedGrow(blocks, statements, {}, {s});
  }

  method OpenChild(stack: seq<NginxConfig>, ghost p: Parser, ghost open: seq<NginxConfigStatement>,
                   ghost blocks: set<NginxConfig>, ghost statements: set<NginxConfigStatement>)
    returns (stack': seq<NginxConfig>)
    requires Holds(p, stack, open, blocks, statements) && InStatement(p)
    modifies open[|open|-1]
    ensures Holds(Advance(p, OpenBrace).value, stack', open, blocks, statements)
    ensures |stack'| == |stack| + 1 && stack'[..|stack|] == stack && fresh(stack'[|stack|])
  {
    var new_config := new NginxConfig();
    var top := stack[|stack|-1];
    var s := top.statements_[|top.statements_|-1];
    s.child_block_ := new_config;
    stack' := stack + [new_config];
    assert stack'[..|stack|] == stack && open[..|open|] == open;
  }

  method CloseChild(stack: seq<NginxConfig>, ghost p: Parser, ghost open: seq<NginxConfigStatement>,
                    ghost blocks: set<NginxConfig>, ghost statements: set<NginxConfigStatement>)
    returns (stack': seq<NginxConfig>, ghost blocks': set<NginxConfig>, ghost statements': set<NginxConfigStatement>)
    requires Holds(p, stack, open, blocks, statements) && Advance(p, CloseBrace).Some?
    modifies open[|open|-1], stack[|stack|-1]
    ensures Holds(Advance(p, CloseBrace).value, stack', open[..|open|-1], blocks', statements')
    ensures stack' == stack[..|stack|-1]
  {
    var n := |stack| - 1;
    ghost var c, s := stack[n], open[n-1];
    assert stack[..n][n-1] == stack[n-1] && stack[..n][..n-1] == stack[..n-1] && open[..n][..n-1] == open[..n-1];
    assert OuterBlocks(stack[..n-1], open[..n-1], p.outer.below, stack[n-1], statements);
    c.value := Config(p.done);
    s.value := Statement(s.tokens_, Some(c.value));
    blocks', statements' := blocks + {c}, statements + {s};
    stack' := stack[..n];
    OuterBlocksGrow(stack[..n-1], open[..n-1], p.outer.below, stack[n-1], statements, statements');
    FinishedGrow(blocks, statements, {c}, {s});
    assert stack'[..n-1] == stack[..n-1] && open[..n-1][..n-1] == open[..n-1];
  }

  /** The parser's variables agree with the stack machine in state `p`. */
  ghost predicate InSync(p: Parser, stack: seq<NginxConfig>, last_token_type: TokenType, bracket_parity: int,
                         open: seq<NginxConfigStatement>, blocks: set<NginxConfig>, statements: set<NginxConfigStatement>)
    reads stack, open, blocks, statements
  {
    && Valid(p) && Holds(p, stack, open, blocks, statements)
    && last_token_type == p.last && bracket_parity == Depth(p.outer)
  }

  /** The part of the parser's loop that deals with a token other than a comment, an error or the end of the text:
      it grows the tree, or reports a syntax error. */
  method HandleToken(config_stack: seq<NginxConfig>, token_type: TokenType, token: string, last_token_type: TokenType,
                     bracket_parity: int, ghost p: Parser, ghost open: seq<NginxConfigStatement>,
                     ghost blocks: set<NginxConfig>, ghost statements: set<NginxConfigStatement>)
    returns (ok: bool, stack': seq<NginxConfig>, parity': int, ghost open': seq<NginxConfigStatement>,
             ghost blocks': set<NginxConfig>, ghost statements': set<NginxConfigStatement>)
    requires InSync(p, config_stack, last_token_type, bracket_parity, open, blocks, statements)
    requires IsLexeme(token_type) && (token_type.NORMAL? ==> IsWord(token))
    modifies set c | c in config_stack, set s | s in open
    ensures var q := Advance(p, LexemeOf(token_type, token));
            ok == q.Some? && (ok ==> InSync(q.value, stack', token_type, parity', open', blocks', statements'))
    ensures ok ==> stack' != [] && config_stack != [] && stack'[0] == config_stack[0]
    ensures ok ==> forall c :: c in stack' ==> c in config_stack || fresh(c)
    ensures ok ==> forall s :: s in open' ==> s in open || fresh(s)
  {
    AdvanceKeepsValid(p, LexemeOf(token_type, token));
    hide OuterBlocks, OpenBlock, StartsWith, Finished, AllWellFormed, StackWellFormed, AreWords;
    ok, stack', parity' := true, config_stack, bracket_parity;
    open', blocks', statements' := open, blocks, statements;
    if token_type == NORMAL {
      if last_token_type != NORMAL {
        open' := FirstWord(config_stack, token, p, open, blocks, statements);
      } else {
        NextWord(config_stack, token, p, open, blocks, statements);
      }
    } else if token_type == STATEMENT_END {
      if last_token_type != NORMAL { ok := false; return; }
      statements' := EndStatement(config_stack, p, open, blocks, statements);
      open' := open[..|open|-1];
    } else if token_type == START_BLOCK {
      if last_token_type != NORMAL { ok := false; return; }
      parity' := bracket_parity + 1;
      stack' := OpenChild(config_stack, p, open, blocks, statements);
    } else {
      if (last_token_type != STATEMENT_END && last_token_type != END_BLOCK && last_token_type != START_BLOCK)
         || bracket_parity <= 0 { ok := false; return; }
      parity' := bracket_parity - 1;
      stack', blocks', statements' := CloseChild(config_stack, p, open, blocks, statements);
      open' := open[..|open|-1];
    }
  }

  /** At the end of the text: the tree is complete if no statement and no block is open. */
  method HandleEnd(config_stack: seq<NginxConfig>, last_token_type: TokenType, bracket_parity: int, ghost p: Parser,
                   ghost open: seq<NginxConfigStatement>, ghost blocks: set<NginxConfig>, ghost statements: set<NginxConfigStatement>)
    returns (ok: bool, ghost blocks': set<NginxConfig>)
    requires InSync(p, config_stack, last_token_type, bracket_parity, open, blocks, statements)
    modifies set c | c in config_stack
    ensures ok == Accepting(p)
    ensures ok ==> Finished(blocks', statements) && config_stack[0] in blocks' && config_stack[0].value == Config(p.done)
  {
    ok := (last_token_type == STATEMENT_END || last_token_type == END_BLOCK) && bracket_parity == 0;
    blocks' := blocks;
    if ok {
      ghost var root := config_stack[0];
      root.value := Config(p.done);
      FinishedGrow(blocks, statements, {root}, {});
      assert statements + {} == statements;
      blocks' := blocks + {root};
    }
  }

  /** The parser. It accepts exactly the valid texts, and the tree it has grown in `config` has the value that the
      text stands for. */
  method Parse(input: InputStream, config: NginxConfig)
    returns (ok: bool, ghost blocks: set<NginxConfig>, ghost statements: set<NginxConfigStatement>)
    requires input.Valid() && config.statements_ == []
    modifies input, config
    ensures ok == ConfigGrammar.Parse(old(input.Rest())).Some?
    ensures ok ==> Finished(blocks, statements) && config in blocks
                   && ConfigGrammar.Parse(old(input.Rest())) == Some(config.value)
  {
    ghost var text := input.Rest();
    var config_stack, last_token_type, bracket_parity := [config], START, 0;
    ghost var p, open: seq<NginxConfigStatement> := ConfigGrammar.INITIAL, [];
    blocks, statements := {}, {};
    assert InSync(p, config_stack, last_token_type, bracket_parity, open, blocks, statements);
    assert ParseFrom(p, input.Rest()) == ConfigGrammar.Parse(text);
    hide *;
    while true
      invariant input.Valid() && ParseFrom(p, input.Rest()) == ConfigGrammar.Parse(text)
      invariant InSync(p, config_stack, last_token_type, bracket_parity, open, blocks, statements)
      invariant config_stack != [] && config_stack[0] == config
      invariant forall c :: c in config_stack ==> c == config || fresh(c)
      invariant forall s :: s in open ==> fresh(s)
      decreases |input.Rest()|
    {
      ParseOneToken(p, input.Rest());
      var token_type, token := ParseToken(input, "");
      if token_type == ERROR { break; }
      if token_type == COMMENT { continue; }
      if token_type == EOF {
        ok, blocks := HandleEnd(config_stack, last_token_type, bracket_parity, p, open, blocks, statements);
        return;
      }
      ok, config_stack, bracket_parity, open, blocks, statements :=
        HandleToken(config_stack, token_type, token, last_token_type, bracket_parity, p, open, blocks, statements);
      if !ok { break; }
      p := Advance(p, LexemeOf(token_type, token)).value;
      last_token_type := token_type;
    }
    ok := false;
  }
}
