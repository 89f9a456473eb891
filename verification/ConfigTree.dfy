/** Configuration trees as values: the printer, the parser's stack machine, and how the two undo each other. */
module ConfigTree {
  import opened Wrappers
  import opened ConfigLexer
  import Utils

  datatype Config = Config(statements: seq<Statement>)

  datatype Statement = Statement(tokens: seq<string>, child: Option<Config>)

  // ----- Printing -----

  function Indent(depth: int): string
    decreases if depth < 0 then 0 else depth
  {
    if depth <= 0 then "" else Indent(depth - 1) + "  "
  }

  function Join(tokens: seq<string>): string {
    if tokens == [] then ""
    else if |tokens| == 1 then tokens[0]
    else Join(tokens[..|tokens|-1]) + " " + tokens[|tokens|-1]
  }

  function Print(c: Config, depth: int): string {
    PrintAll(c.statements, depth)
  }

  function PrintAll(ss: seq<Statement>, depth: int): string {
    if ss == [] then "" else PrintAll(ss[..|ss|-1], depth) + PrintStatement(ss[|ss|-1], depth)
  }

  function PrintStatement(s: Statement, depth: int): string {
    Indent(depth) + Join(s.tokens)
    + (match s.child
       case None => ";"
       case Some(c) => " {\n" + Print(c, depth + 1) + Indent(depth) + "}")
    + "\n"
  }

  /** Two spaces for each level. */
  lemma {:induction false} IndentIsSpaces(depth: int)
    ensures |Indent(depth)| == (if depth < 0 then 0 else 2 * depth)
    ensures forall i :: 0 <= i < |Indent(depth)| ==> Indent(depth)[i] == ' '
    decreases if depth < 0 then 0 else depth
  {
    if depth > 0 { IndentIsSpaces(depth - 1); }
  }

  /** The tokens of a statement are separated by single spaces. */
  lemma {:induction false} JoinsWithSpaces(tokens: seq<string>)
    ensures Join(tokens) == Utils.Join(tokens, ' ')
    decreases |tokens|
  {
    if 2 <= |tokens| {
      var n := |tokens| - 1;
      JoinsWithSpaces(tokens[..n]);
      LastJoined(tokens[..n], tokens[n]);
      assert tokens == tokens[..n] + [tokens[n]];
    }
  }

  lemma {:induction false} LastJoined(tokens: seq<string>, last: string)
    requires tokens != []
    ensures Utils.Join(tokens + [last], ' ') == Utils.Join(tokens, ' ') + " " + last
  {
    if 2 <= |tokens| {
      assert (tokens + [last])[1..] == tokens[1..] + [last];
      LastJoined(tokens[1..], last);
    }
  }

  /** The lines of a statement at an indent of two spaces for each level; its block stands between braces, one level
      deeper, statement after statement. */
  lemma PrintedStatement(s: Statement, depth: nat, sp: string)
    requires |sp| == 2 * depth && forall i :: 0 <= i < |sp| ==> sp[i] == ' '
    ensures var tokens := Utils.Join(s.tokens, ' ');
            PrintStatement(s, depth) ==
            if s.child.None? then sp + tokens + ";\n"
            else sp + tokens + " {\n" + Print(s.child.value, depth + 1) + sp + "}\n"
  {
    IndentIsSpaces(depth);
    assert sp == Indent(depth);
    JoinsWithSpaces(s.tokens);
    hide Indent, Join, Print, Utils.Join;
    var tokens := Utils.Join(s.tokens, ' ');
    if s.child.Some? { BlockText(sp, tokens, Print(s.child.value, depth + 1)); } else { StatementText(sp, tokens); }
  }

  lemma StatementText(sp: string, tokens: string)
    ensures sp + tokens + ";" + "\n" == sp + tokens + ";\n"
  {
  }

  lemma BlockText(sp: string, tokens: string, block: string)
    ensures sp + tokens + (" {\n" + block + sp + "}") + "\n" == sp + tokens + " {\n" + block + sp + "}\n"
  {
    var front := sp + tokens;
    assert front + (" {\n" + block + sp + "}") == front + " {\n" + block + sp + "}";
    assert front + " {\n" + block + sp + "}" + "\n" == front + " {\n" + block + sp + "}\n";
  }

  lemma {:induction false} PrintedTogether(a: seq<Statement>, b: seq<Statement>, depth: int)
    ensures Print(Config(a + b), depth) == Print(Config(a), depth) + Print(Config(b), depth)
    decreases |b|
  {
    hide PrintStatement;
    if b == [] {
      assert a + b == a;
    } else {
      var n := |b| - 1;
      assert (a + b)[..|a| + n] == a + b[..n] && (a + b)[|a| + n] == b[n];
      PrintedTogether(a, b[..n], depth);
    }
  }

  // ----- The lexemes a tree stands for -----

  function Words(tokens: seq<string>): seq<Lexeme> {
    seq(|tokens|, i requires 0 <= i < |tokens| => Word(tokens[i]))
  }

  function Flatten(c: Config): seq<Lexeme> {
    FlattenAll(c.statements)
  }

  function FlattenAll(ss: seq<Statement>): seq<Lexeme> {
    if ss == [] then [] else FlattenAll(ss[..|ss|-1]) + FlattenStatement(ss[|ss|-1])
  }

  function FlattenStatement(s: Statement): seq<Lexeme> {
    Words(s.tokens)
    + (match s.child
       case None => [Semicolon]
       case Some(c) => [OpenBrace] + Flatten(c) + [CloseBrace])
  }

  /** Every statement has a token, and every token is one word of the lexer. */
  predicate WellFormed(c: Config) {
    AllWellFormed(c.statements)
  }

  predicate AllWellFormed(ss: seq<Statement>) {
    ss == [] || (AllWellFormed(ss[..|ss|-1]) && StatementWellFormed(ss[|ss|-1]))
  }

  predicate StatementWellFormed(s: Statement) {
    s.tokens != [] && (forall w :: w in s.tokens ==> IsWord(w)) && (s.child.Some? ==> WellFormed(s.child.value))
  }

  // ----- Reading printed text back as lexemes -----

  lemma {:induction false} LexSpaces(ws: string, rest: string)
    requires forall c :: c in ws ==> IsSpace(c)
    ensures Lexemes(ws + rest) == Lexemes(rest)
  {
    if ws == "" {
      assert ws + rest == rest;
    } else {
      assert (ws + rest)[1..] == ws[1..] + rest;
      assert ws[0] in ws;
      LexSpaces(ws[1..], rest);
    }
  }

  lemma {:induction false} IndentIsSpace(depth: int)
    ensures forall c :: c in Indent(depth) ==> IsSpace(c)
    decreases if depth < 0 then 0 else depth
  {
    if depth > 0 { IndentIsSpace(depth - 1); }
  }

  lemma LexOneWord(w: string, rest: string)
    requires IsWord(w) && rest != "" && EndsWord(rest[0])
    ensures Lexemes(w + rest) == Ahead([Word(w)], Lexemes(rest))
  {
    LexWord(w, rest);
  }

  lemma AheadTwice(xs: seq<Lexeme>, ys: seq<Lexeme>, r: Scan)
    ensures Ahead(xs, Ahead(ys, r)) == Ahead(xs + ys, r)
  {
  }

  lemma {:induction false} LexTokens(tokens: seq<string>, rest: string)
    requires tokens != [] && (forall w :: w in tokens ==> IsWord(w)) && rest != "" && EndsWord(rest[0])
    ensures Lexemes(Join(tokens) + rest) == Ahead(Words(tokens), Lexemes(rest))
  {
    hide Lexemes, Ahead;
    var w := tokens[|tokens|-1];
    LexOneWord(w, rest);
    if |tokens| == 1 {
      assert Words(tokens) == [Word(w)];
    } else {
      var front := tokens[..|tokens|-1];
      LexTokens(front, " " + (w + rest));
      LexSpaces(" ", w + rest);
      assert Join(tokens) + rest == Join(front) + (" " + (w + rest));
      assert Words(tokens) == Words(front) + [Word(w)];
      AheadTwice(Words(front), [Word(w)], Lexemes(rest));
    }
  }

  lemma LexLineEnd(c: char, rest: string)
    requires c in {';', '{', '}'}
    ensures Lexemes([c] + "\n" + rest) ==
            Ahead([if c == ';' then Semicolon else if c == '{' then OpenBrace else CloseBrace], Lexemes(rest))
  {
    LexSpaces("\n", rest);
    assert ([c] + "\n" + rest)[1..] == "\n" + rest;
  }

  lemma LexPunctuation(rest: string)
    ensures Lexemes(";\n" + rest) == Ahead([Semicolon], Lexemes(rest))
    ensures Lexemes(" {\n" + rest) == Ahead([OpenBrace], Lexemes(rest))
    ensures Lexemes("}\n" + rest) == Ahead([CloseBrace], Lexemes(rest))
  {
    hide Lexemes, Ahead;
    LexLineEnd(';', rest);
    LexLineEnd('{', rest);
    LexLineEnd('}', rest);
    LexSpaces(" ", "{\n" + rest);
    assert " {\n" + rest == " " + ("{\n" + rest);
    assert [';'] + "\n" == ";\n" && ['{'] + "\n" == "{\n" && ['}'] + "\n" == "}\n";
  }

  lemma {:induction false} LexPrintedStatement(s: Statement, depth: int, rest: string)
    requires StatementWellFormed(s)
    ensures Lexemes(PrintStatement(s, depth) + rest) == Ahead(FlattenStatement(s), Lexemes(rest))
    decreases s, 1
  {
    hide Lexemes, Ahead;
    IndentIsSpace(depth);
    LexPunctuation(rest);
    match s.child
    case None =>
      assert PrintStatement(s, depth) + rest == Indent(depth) + (Join(s.tokens) + (";\n" + rest));
      LexSpaces(Indent(depth), Join(s.tokens) + (";\n" + rest));
      LexTokens(s.tokens, ";\n" + rest);
      AheadTwice(Words(s.tokens), [Semicolon], Lexemes(rest));
    case Some(c) =>
      var tail := Indent(depth) + ("}\n" + rest);
      var body := Print(c, depth + 1) + tail;
      assert PrintStatement(s, depth) + rest == Indent(depth) + (Join(s.tokens) + (" {\n" + body));
      LexSpaces(Indent(depth), Join(s.tokens) + (" {\n" + body));
      LexTokens(s.tokens, " {\n" + body);
      LexPunctuation(body);
      LexPrinted(c.statements, depth + 1, tail);
      LexSpaces(Indent(depth), "}\n" + rest);
      var r := Lexemes(rest);
      AheadTwice(Flatten(c), [CloseBrace], r);
      AheadTwice([OpenBrace], Flatten(c) + [CloseBrace], r);
      AheadTwice(Words(s.tokens), [OpenBrace] + (Flatten(c) + [CloseBrace]), r);
      assert [OpenBrace] + (Flatten(c) + [CloseBrace]) == [OpenBrace] + Flatten(c) + [CloseBrace];
  }

  /** The printed text of a well-formed tree, at any indent depth, has exactly the lexemes of the tree. */
  lemma {:induction false} LexPrinted(ss: seq<Statement>, depth: int, rest: string)
    requires AllWellFormed(ss)
    ensures Lexemes(PrintAll(ss, depth) + rest) == Ahead(FlattenAll(ss), Lexemes(rest))
    decreases ss, 0
  {
    if ss == [] {
      assert PrintAll(ss, depth) + rest == rest;
      assert [] + Lexemes(rest).lexemes == Lexemes(rest).lexemes;
    } else {
      var front, s := ss[..|ss|-1], ss[|ss|-1];
      assert PrintAll(ss, depth) + rest == PrintAll(front, depth) + (PrintStatement(s, depth) + rest);
      LexPrinted(front, depth, PrintStatement(s, depth) + rest);
      LexPrintedStatement(s, depth, rest);
      AheadTwice(FlattenAll(front), FlattenStatement(s), Lexemes(rest));
    }
  }
}
