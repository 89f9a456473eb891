/** The parser as a stack machine over lexemes: it accepts exactly the lexeme sequences of well-formed trees, and
    builds that tree. */
module ConfigGrammar {
  import opened Wrappers
  import opened ConfigLexer
  import opened ConfigTree

  /** A block whose last statement has been read up to its open brace. */
  datatype Frame = Frame(done: seq<Statement>, tokens: seq<string>)

  /** The blocks that are still open, innermost first. */
  datatype Stack = Bottom | Push(frame: Frame, below: Stack)

  /** The open blocks around the current one, the complete statements of the current one, the tokens of the statement
      being read, and the type of the last token. */
  datatype Parser = Parser(outer: Stack, done: seq<Statement>, tokens: seq<string>, last: TokenType)

  const INITIAL := Parser(Bottom, [], [], START)

  predicate InStatement(p: Parser) {
    p.last.NORMAL?
  }

  predicate AreWords(tokens: seq<string>) {
    forall w :: w in tokens ==> IsWord(w)
  }

  predicate StackWellFormed(s: Stack) {
    s.Push? ==>
      s.frame.tokens != [] && AreWords(s.frame.tokens) && AllWellFormed(s.frame.done) && StackWellFormed(s.below)
  }

  /** What every step of the parser keeps. */
  predicate Valid(p: Parser) {
    && p.last in {START, NORMAL, START_BLOCK, END_BLOCK, STATEMENT_END}
    && StackWellFormed(p.outer) && AllWellFormed(p.done) && AreWords(p.tokens)
    && (InStatement(p) <==> p.tokens != [])
    && (p.last.START? ==> p.outer.Bottom? && p.done == [])
    && (p.last.START_BLOCK? ==> p.outer.Push? && p.done == [])
    && (p.last.STATEMENT_END? || p.last.END_BLOCK? ==> p.done != [])
  }

  /** The number of open braces. */
  function Depth(s: Stack): nat {
    if s.Bottom? then 0 else 1 + Depth(s.below)
  }

  /** What the parser does with a lexeme; `None` is a syntax error. */
  function Advance(p: Parser, x: Lexeme): Option<Parser> {
    match x
    case Word(w) => Some(p.(tokens := p.tokens + [w], last := NORMAL))
    case Semicolon =>
      if InStatement(p) then Some(Parser(p.outer, p.done + [Statement(p.tokens, None)], [], STATEMENT_END)) else None
    case OpenBrace =>
      if InStatement(p) then Some(Parser(Push(Frame(p.done, p.tokens), p.outer), [], [], START_BLOCK)) else None
    case CloseBrace =>
      if (p.last.STATEMENT_END? || p.last.END_BLOCK? || p.last.START_BLOCK?) && p.outer.Push? then
        var f := p.outer.frame;
        Some(Parser(p.outer.below, f.done + [Statement(f.tokens, Some(Config(p.done)))], [], END_BLOCK))
      else None
  }

  /** Every word among the lexemes is a word of the lexer. */
  predicate Lexical(xs: seq<Lexeme>) {
    forall x :: x in xs && x.Word? ==> IsWord(x.text)
  }

  lemma AppendWellFormed(ss: seq<Statement>, s: Statement)
    ensures AllWellFormed(ss + [s]) <==> AllWellFormed(ss) && StatementWellFormed(s)
  {
  }

  lemma AdvanceKeepsValid(p: Parser, x: Lexeme)
    requires Valid(p) && (x.Word? ==> IsWord(x.text))
    ensures Advance(p, x).Some? ==> Valid(Advance(p, x).value)
  {
    if x.Semicolon? { AppendWellFormed(p.done, Statement(p.tokens, None)); }
    if x.CloseBrace? && p.outer.Push? {
      AppendWellFormed(p.outer.frame.done, Statement(p.outer.frame.tokens, Some(Config(p.done))));
    }
  }

  function Feed(p: Parser, xs: seq<Lexeme>): Option<Parser>
    decreases |xs|
  {
    if xs == [] then Some(p)
    else
      match Advance(p, xs[0])
      case None => None
      case Some(q) => Feed(q, xs[1..])
  }

  predicate Accepting(p: Parser) {
    (p.last.STATEMENT_END? || p.last.END_BLOCK?) && p.outer.Bottom?
  }

  /** What becomes of the rest of the text when the parser is in state `p`: a tree, or a syntax error. */
  function ParseFrom(p: Parser, text: string): Option<Config> {
    var Scan(xs, complete) := Lexemes(text);
    if !complete then None
    else
      match Feed(p, xs)
      case None => None
      case Some(q) => if Accepting(q) then Some(Config(q.done)) else None
  }

  /** The tree of a text, if the text is a valid configuration. */
  function Parse(text: string): Option<Config> {
    ParseFrom(INITIAL, text)
  }

  /** The lexeme of a token. */
  function LexemeOf(kind: TokenType, value: string): Lexeme {
    if kind.NORMAL? then Word(value) else if kind.STATEMENT_END? then Semicolon
    else if kind.START_BLOCK? then OpenBrace else CloseBrace
  }

  predicate IsLexeme(kind: TokenType) {
    kind.NORMAL? || kind.STATEMENT_END? || kind.START_BLOCK? || kind.END_BLOCK?
  }

  /** What the token `t` decides for the parser in state `p`. */
  function Decide(p: Parser, t: Lexed): Option<Config> {
    match t.kind
    case EOF => if Accepting(p) then Some(Config(p.done)) else None
    case COMMENT => ParseFrom(p, t.rest)
    case _ =>
      if !IsLexeme(t.kind) then None
      else
        match Advance(p, LexemeOf(t.kind, t.value))
        case None => None
        case Some(q) => ParseFrom(q, t.rest)
  }

  lemma ParseOneToken(p: Parser, text: string)
    ensures var t := Lex(ConfigLexer.INITIAL_WHITESPACE, "", text);
            && ParseFrom(p, text) == Decide(p, t)
            && (IsLexeme(t.kind) || t.kind.COMMENT? || t.kind.EOF? || t.kind.ERROR?)
            && (IsLexeme(t.kind) || t.kind.COMMENT? ==> |t.rest| < |text|)
            && (t.kind.NORMAL? ==> IsWord(t.value))
  {
    var t := Lex(ConfigLexer.INITIAL_WHITESPACE, "", text);
    LexGivesWords(ConfigLexer.INITIAL_WHITESPACE, "", text);
    if IsLexeme(t.kind) {
      var x := LexemeOf(t.kind, t.value);
      assert Lexemes(text).lexemes == [x] + Lexemes(t.rest).lexemes;
      assert Lexemes(text).lexemes[1..] == Lexemes(t.rest).lexemes;
    }
  }

  // ----- The parser loses no lexeme and invents none -----

  function FlattenStack(s: Stack): seq<Lexeme> {
    if s.Bottom? then []
    else FlattenStack(s.below) + FlattenAll(s.frame.done) + Words(s.frame.tokens) + [OpenBrace]
  }

  /** The lexemes that the parser has put away. */
  function Held(p: Parser): seq<Lexeme> {
    FlattenStack(p.outer) + FlattenAll(p.done) + Words(p.tokens)
  }

  lemma FlattenLast(ss: seq<Statement>, s: Statement)
    ensures FlattenAll(ss + [s]) == FlattenAll(ss) + FlattenStatement(s)
  {
  }

  lemma FlattenClosed(ss: seq<Statement>, tokens: seq<string>, child: Option<Config>)
    ensures FlattenAll(ss + [Statement(tokens, child)]) ==
            FlattenAll(ss) + Words(tokens)
            + (if child.None? then [Semicolon] else [OpenBrace] + FlattenAll(child.value.statements) + [CloseBrace])
  {
    FlattenLast(ss, Statement(tokens, child));
  }

  /** Every step adds the lexeme it was given to what the parser has put away, and nothing else. */
  lemma AdvanceHolds(p: Parser, x: Lexeme)
    requires Valid(p) && Advance(p, x).Some?
    ensures Held(Advance(p, x).value) == Held(p) + [x]
  {
    hide FlattenAll;
    match x
    case Word(w) =>
      assert Words(p.tokens + [w]) == Words(p.tokens) + [Word(w)];
    case Semicolon =>
      FlattenClosed(p.done, p.tokens, None);
    case OpenBrace =>
      FlattenNothing();
    case CloseBrace =>
      FlattenClosed(p.outer.frame.done, p.outer.frame.tokens, Some(Config(p.done)));
  }

  lemma FlattenNothing()
    ensures FlattenAll([]) == []
  {
  }

  lemma {:induction false} FeedHolds(p: Parser, xs: seq<Lexeme>)
    requires Valid(p) && Lexical(xs) && Feed(p, xs).Some?
    ensures Valid(Feed(p, xs).value) && Held(Feed(p, xs).value) == Held(p) + xs
    decreases |xs|
  {
    if xs == [] {
      assert Held(p) + xs == Held(p);
    } else {
      AdvanceKeepsValid(p, xs[0]);
      AdvanceHolds(p, xs[0]);
      FeedHolds(Advance(p, xs[0]).value, xs[1..]);
      assert Held(p) + xs == Held(p) + [xs[0]] + xs[1..];
    }
  }

  /** Every accepted text gives a well-formed, non-empty tree with exactly the lexemes that the lexer delivers. */
  lemma ParseIsFaithful(text: string)
    requires Parse(text).Some?
    ensures var c := Parse(text).value;
            WellFormed(c) && c.statements != [] && Lexemes(text) == Scan(Flatten(c), true)
  {
    LexemesAreWords(text);
    var xs := Lexemes(text).lexemes;
    FeedHolds(INITIAL, xs);
    assert Held(INITIAL) == [];
    assert Held(Feed(INITIAL, xs).value) == FlattenAll(Feed(INITIAL, xs).value.done);
  }

  // ----- The parser rebuilds every well-formed tree from its lexemes -----

  lemma {:induction false} FeedConcat(p: Parser, xs: seq<Lexeme>, ys: seq<Lexeme>)
    ensures Feed(p, xs + ys) == (match Feed(p, xs) { case None => None case Some(q) => Feed(q, ys) })
    decreases |xs|
  {
    if xs == [] {
      assert xs + ys == ys;
    } else {
      assert (xs + ys)[1..] == xs[1..] + ys;
      if Advance(p, xs[0]).Some? { FeedConcat(Advance(p, xs[0]).value, xs[1..], ys); }
    }
  }

  lemma FeedOne(p: Parser, x: Lexeme)
    ensures Feed(p, [x]) == Advance(p, x)
  {
  }

  lemma {:induction false} FeedWords(p: Parser, tokens: seq<string>)
    requires tokens != []
    ensures Feed(p, Words(tokens)) == Some(p.(tokens := p.tokens + tokens, last := NORMAL))
  {
    var front, w := tokens[..|tokens|-1], tokens[|tokens|-1];
    FeedConcat(p, Words(front), [Word(w)]);
    assert Words(tokens) == Words(front) + [Word(w)];
    if front == [] {
      assert tokens == [w];
      FeedOne(p, Word(w));
    } else {
      FeedWords(p, front);
      FeedOne(p.(tokens := p.tokens + front, last := NORMAL), Word(w));
      assert p.tokens + front + [w] == p.tokens + tokens;
    }
  }

  /** The type of the last token of the statements. */
  function LastOf(ss: seq<Statement>, last: TokenType): TokenType {
    if ss == [] then last else if ss[|ss|-1].child.None? then STATEMENT_END else END_BLOCK
  }

  lemma {:induction false} FeedStatement(p: Parser, s: Statement)
    requires p.tokens == [] && StatementWellFormed(s)
    ensures Feed(p, FlattenStatement(s)) == Some(p.(done := p.done + [s], last := LastOf([s], p.last)))
    decreases s, 1
  {
    hide Feed;
    FeedWords(p, s.tokens);
    assert [] + s.tokens == s.tokens;
    var q := p.(tokens := s.tokens, last := NORMAL);
    match s.child
    case None =>
      FeedConcat(p, Words(s.tokens), [Semicolon]);
      FeedOne(q, Semicolon);
    case Some(c) =>
      var inner := Flatten(c) + [CloseBrace];
      var r := Parser(Push(Frame(p.done, s.tokens), p.outer), [], [], START_BLOCK);
      assert FlattenStatement(s) == Words(s.tokens) + ([OpenBrace] + inner);
      FeedConcat(p, Words(s.tokens), [OpenBrace] + inner);
      FeedConcat(q, [OpenBrace], inner);
      FeedOne(q, OpenBrace);
      FeedConcat(r, Flatten(c), [CloseBrace]);
      FeedAll(r, c.statements);
      assert [] + c.statements == c.statements;
      FeedOne(r.(done := c.statements, last := LastOf(c.statements, r.last)), CloseBrace);
  }

  lemma {:induction false} FeedAll(p: Parser, ss: seq<Statement>)
    requires p.tokens == [] && AllWellFormed(ss)
    ensures Feed(p, FlattenAll(ss)) == Some(p.(done := p.done + ss, last := LastOf(ss, p.last)))
    decreases ss, 0
  {
    if ss == [] {
      assert p.done + ss == p.done;
    } else {
      var front, s := ss[..|ss|-1], ss[|ss|-1];
      FeedAll(p, front);
      FeedStatement(p.(done := p.done + front, last := LastOf(front, p.last)), s);
      FeedConcat(p, FlattenAll(front), FlattenStatement(s));
      assert p.done + front + [s] == p.done + ss;
    }
  }

  lemma {:induction false} ParseLexemesOf(c: Config, text: string)
    requires WellFormed(c) && c.statements != [] && Lexemes(text) == Scan(Flatten(c), true)
    ensures Parse(text) == Some(c)
  {
    FeedAll(INITIAL, c.statements);
    assert [] + c.statements == c.statements;
  }

  // ----- Printing and parsing undo each other -----

  /** The parser accepts exactly the texts whose lexemes are those of a well-formed, non-empty tree, and builds
      that tree. */
  lemma ParsesExactlyTrees(text: string, c: Config)
    ensures Parse(text) == Some(c) <==> WellFormed(c) && c.statements != [] && Lexemes(text) == Scan(Flatten(c), true)
  {
    if Parse(text) == Some(c) { ParseIsFaithful(text); }
    if WellFormed(c) && c.statements != [] && Lexemes(text) == Scan(Flatten(c), true) { ParseLexemesOf(c, text); }
  }

  /** Printing a tree at any indent depth and parsing the text rebuilds the tree exactly when the tree is well
      formed and not empty. */
  lemma PrintThenParse(c: Config, depth: int)
    ensures Parse(Print(c, depth)) == Some(c) <==> WellFormed(c) && c.statements != []
  {
    if Parse(Print(c, depth)) == Some(c) { ParseIsFaithful(Print(c, depth)); }
    if WellFormed(c) && c.statements != [] {
      LexPrinted(c.statements, depth, "");
      assert Print(c, depth) + "" == Print(c, depth);
      assert Lexemes("") == Scan([], true);
      ParseLexemesOf(c, Print(c, depth));
    }
  }

  /** Parsing, printing and parsing again gives the first tree, and printing again the same text. */
  lemma ParsePrintParse(text: string, depth: int)
    requires Parse(text).Some?
    ensures var printed := Print(Parse(text).value, depth);
            Parse(printed) == Parse(text) && Print(Parse(printed).value, depth) == printed
  {
    ParseIsFaithful(text);
    PrintThenParse(Parse(text).value, depth);
  }
}
