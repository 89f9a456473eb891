/** A configuration in any layout: white space and comments wherever a token can end. */
module ConfigLayout {
  import opened Wrappers
  import opened ConfigLexer
  import opened ConfigTree
  import opened ConfigGrammar

  datatype Piece =
    | Blank(c: char)
    | Comment(text: string, end: char)
    | Bare(word: string)
    | Quoted(quote: char, word: string)
    | Mark(c: char)

  predicate PieceOk(p: Piece) {
    match p
    case Blank(c) => c in " \t\n\r"
    case Comment(text, end) => Avoids(text, "\n\r") && end in "\n\r"
    case Bare(word) => word != "" && word[0] !in " \t\n\r;{}\"'#" && Avoids(word[1..], " \t\n;{}\"'")
    case Quoted(quote, word) => quote in "\"'" && quote !in word
    case Mark(c) => c in ";{}"
  }

  function PieceText(p: Piece): string {
    match p
    case Blank(c) => [c]
    case Comment(text, end) => "#" + text + [end]
    case Bare(word) => word
    case Quoted(quote, word) => [quote] + word + [quote]
    case Mark(c) => [c]
  }

  /** The words and punctuation of a piece. */
  function PieceItems(p: Piece): seq<Lexeme> {
    match p
    case Blank(_) => []
    case Comment(_, _) => []
    case Bare(word) => [Word(word)]
    case Quoted(quote, word) => [Word([quote] + word + [quote])]
    case Mark(c) => if c == ';' then [Semicolon] else if c == '{' then [OpenBrace] else [CloseBrace]
  }

  function TextOf(ps: seq<Piece>): string {
    if ps == [] then "" else PieceText(ps[0]) + TextOf(ps[1..])
  }

  function ItemsOf(ps: seq<Piece>): seq<Lexeme> {
    if ps == [] then [] else PieceItems(ps[0]) + ItemsOf(ps[1..])
  }

  /** The next character ends a bare word. */
  predicate Ends(text: string) {
    text != "" && text[0] in " \t\n;{}\"'"
  }

  predicate LaidOut(ps: seq<Piece>) {
    ps != [] ==> PieceOk(ps[0]) && (ps[0].Bare? ==> Ends(TextOf(ps[1..]))) && LaidOut(ps[1..])
  }

  lemma LexemesUnfold(s: string)
    ensures var t := Lex(INITIAL_WHITESPACE, "", s);
            && (t.kind.NORMAL? ==> Lexemes(s) == Ahead([Word(t.value)], Lexemes(t.rest)))
            && (t.kind.STATEMENT_END? ==> Lexemes(s) == Ahead([Semicolon], Lexemes(t.rest)))
            && (t.kind.START_BLOCK? ==> Lexemes(s) == Ahead([OpenBrace], Lexemes(t.rest)))
            && (t.kind.END_BLOCK? ==> Lexemes(s) == Ahead([CloseBrace], Lexemes(t.rest)))
            && (t.kind.COMMENT? ==> Lexemes(s) == Lexemes(t.rest))
  {
    hide Lex;
  }

  lemma SameLexemes(s: string, s': string)
    requires Lex(INITIAL_WHITESPACE, "", s) == Lex(INITIAL_WHITESPACE, "", s')
    ensures Lexemes(s) == Lexemes(s')
  {
    hide Lex;
  }

  lemma NothingAhead(r: Scan)
    ensures Ahead([], r) == r
  {
  }

  lemma CommentSkipped(text: string, end: char, rest: string)
    requires Avoids(text, "\n\r") && end in "\n\r"
    ensures Lexemes("#" + text + [end] + rest) == Lexemes(rest)
  {
    LexCommentCharacters(text, [end] + rest);
    LexemesUnfold("#" + text + [end] + rest);
    assert "#" + text + ([end] + rest) == "#" + text + [end] + rest && ([end] + rest)[1..] == rest;
  }

  lemma PieceRead(p: Piece, rest: string)
    requires PieceOk(p) && (p.Bare? ==> Ends(rest))
    ensures Lexemes(PieceText(p) + rest) == Ahead(PieceItems(p), Lexemes(rest))
  {
    hide Lex, Lexemes, Avoids;
    match p
    case Blank(c) =>
      LexOtherCharacters([c], rest);
      SameLexemes([c] + rest, rest);
      NothingAhead(Lexemes(rest));
    case Comment(text, end) =>
      CommentSkipped(text, end, rest);
      NothingAhead(Lexemes(rest));
    case Bare(word) =>
      LexBareCharacters(word, rest);
      LexemesUnfold(word + rest);
    case Quoted(quote, word) =>
      LexQuotedCharacters(quote, word, rest);
      LexemesUnfold([quote] + word + [quote] + rest);
    case Mark(c) =>
      LexOtherCharacters("", rest);
      LexemesUnfold([c] + rest);
  }

  /** The lexer finds exactly the words and punctuation of the pieces. */
  lemma {:induction false} LayoutIsRead(ps: seq<Piece>)
    requires LaidOut(ps)
    ensures Lexemes(TextOf(ps)) == Scan(ItemsOf(ps), true)
  {
    if ps == [] {
      assert Lexemes("") == Scan([], true);
    } else {
      LayoutIsRead(ps[1..]);
      PieceRead(ps[0], TextOf(ps[1..]));
      hide Lexemes, PieceText, PieceItems;
    }
  }

  /** A text in any layout is parsed to a tree exactly when its words and punctuation are those of the tree: white space
      and comments change nothing, and no other character is taken for them. */
  lemma LayoutIsFree(ps: seq<Piece>, c: Config)
    requires LaidOut(ps)
    ensures Parse(TextOf(ps)) == Some(c) <==> WellFormed(c) && c.statements != [] && ItemsOf(ps) == Flatten(c)
  {
    LayoutIsRead(ps);
    ParsesExactlyTrees(TextOf(ps), c);
    hide *;
  }
}
