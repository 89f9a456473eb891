/** What becomes of a word at the very end of a text. */
module ConfigEnd {
  import opened Wrappers
  import opened ConfigLexer
  import opened ConfigTree
  import opened ConfigGrammar

  const INITIAL_STATE := ConfigLexer.INITIAL_WHITESPACE

  // ----- The state of the lexer at the end -----

  function FirstState(c: char): LexerState {
    if c == '#' then IN_COMMENT
    else if c == '"' then DOUBLE_QUOTE
    else if c == '\'' then SINGLE_QUOTE
    else if IsSpace(c) || c == '{' || c == '}' || c == ';' then INITIAL_STATE
    else IN_NORMAL
  }

  /** The state after a character; a character that ends a bare word is put back and read again. */
  function NextState(state: LexerState, c: char): LexerState {
    match state
    case INITIAL_WHITESPACE => FirstState(c)
    case SINGLE_QUOTE => if c == '\'' then INITIAL_STATE else state
    case DOUBLE_QUOTE => if c == '"' then INITIAL_STATE else state
    case IN_COMMENT => if c == '\n' || c == '\r' then INITIAL_STATE else state
    case IN_NORMAL => if EndsWord(c) then FirstState(c) else state
  }

  function StateAfter(state: LexerState, s: string): LexerState
    decreases |s|
  {
    if s == "" then state else StateAfter(NextState(state, s[0]), s[1..])
  }

  /** The state in which the text ends. */
  function EndState(s: string): LexerState {
    StateAfter(INITIAL_STATE, s)
  }

  /** The value gathered in a state. */
  predicate Gathered(state: LexerState, v: string) {
    Unfinished(state, v) && (state.IN_COMMENT? ==> v != "" && v[0] == '#')
  }

  /** A token that does not reach the end of the text is the same in a longer text; one that does goes on in the state
      in which the text ends. */
  lemma {:induction false} LexMore(state: LexerState, v: string, s: string, more: string)
    requires Gathered(state, v)
    ensures var t, end := Lex(state, v, s), StateAfter(state, s);
            if t.kind.EOF? || t.kind.ERROR? then
              && Lex(state, v, s + more) == Lex(end, t.value, more) && Gathered(end, t.value)
              && (t.kind.ERROR? <==> end.SINGLE_QUOTE? || end.DOUBLE_QUOTE?)
            else Lex(state, v, s + more) == t.(rest := t.rest + more) && end == StateAfter(INITIAL_STATE, t.rest)
    decreases |s|
  {
    if s == "" {
      assert s + more == more;
    } else {
      var c, rest := s[0], s[1..];
      assert (s + more)[0] == c && (s + more)[1..] == rest + more;
      match state
      case INITIAL_WHITESPACE =>
        if c == '#' { LexMore(IN_COMMENT, [c], rest, more); }
        else if c == '"' { LexMore(DOUBLE_QUOTE, [c], rest, more); }
        else if c == '\'' { LexMore(SINGLE_QUOTE, [c], rest, more); }
        else if IsSpace(c) { LexMore(state, v, rest, more); }
        else if c != '{' && c != '}' && c != ';' { LexMore(IN_NORMAL, v + [c], rest, more); }
      case SINGLE_QUOTE => if c != '\'' { LexMore(state, v + [c], rest, more); }
      case DOUBLE_QUOTE => if c != '"' { LexMore(state, v + [c], rest, more); }
      case IN_COMMENT => if c != '\n' && c != '\r' { LexMore(state, v + [c], rest, more); }
      case IN_NORMAL => if !EndsWord(c) { LexMore(state, v + [c], rest, more); }
    }
  }

  // ----- The word at the end -----

  /** The bare word that the end of the text cuts off, if there is one. */
  function CutOff(s: string): Option<string>
    decreases |s|
  {
    var t := Lex(INITIAL_STATE, "", s);
    match t.kind
    case EOF => if IsBare(t.value) then Some(t.value) else None
    case ERROR => None
    case START => None
    case _ => CutOff(t.rest)
  }

  /** The lexeme of a token; a comment has none. */
  function Front(t: Lexed): seq<Lexeme> {
    if IsLexeme(t.kind) then [LexemeOf(t.kind, t.value)] else []
  }

  /** What a token and the text after it give. */
  function After(t: Lexed): Scan {
    if t.kind.EOF? then Scan([], true)
    else if t.kind.ERROR? || t.kind.START? then Scan([], false)
    else Ahead(Front(t), Lexemes(t.rest))
  }

  lemma LexemesAfter(s: string)
    ensures Lexemes(s) == After(Lex(INITIAL_STATE, "", s))
  {
    hide Lex;
  }

  lemma CutOffAfter(s: string)
    ensures var t := Lex(INITIAL_STATE, "", s);
            CutOff(s) == if t.kind.EOF? then (if IsBare(t.value) then Some(t.value) else None)
                         else if t.kind.ERROR? then None else CutOff(t.rest)
  {
    hide Lex;
  }

  /** A longer text has the same lexemes and then those that the lexer finds in the state in which the text ends, with
      the value `v` it has gathered. */
  lemma {:induction false} LexemesMore(s: string, more: string) returns (v: string)
    ensures Gathered(EndState(s), v)
    ensures Lexemes(s + more) == Ahead(Lexemes(s).lexemes, After(Lex(EndState(s), v, more)))
    ensures Lexemes(s).complete <==> !EndState(s).SINGLE_QUOTE? && !EndState(s).DOUBLE_QUOTE?
    ensures CutOff(s) == if EndState(s).IN_NORMAL? then Some(v) else None
    decreases |s|
  {
    var t := Lex(INITIAL_STATE, "", s);
    LexMore(INITIAL_STATE, "", s, more);
    LexemesAfter(s);
    LexemesAfter(s + more);
    CutOffAfter(s);
    hide Lex, Lexemes, CutOff, StateAfter;
    if t.kind.EOF? || t.kind.ERROR? {
      v := t.value;
    } else {
      v := LexemesMore(t.rest, more);
      AheadTwice(Front(t), Lexemes(t.rest).lexemes, After(Lex(EndState(s), v, more)));
    }
  }

  predicate EndsWith(s: string, w: string) {
    |w| <= |s| && s[|s|-|w|..] == w
  }

  lemma EndsWithTwice(s: string, t: string, w: string)
    requires EndsWith(s, t) && EndsWith(t, w)
    ensures EndsWith(s, w)
  {
    assert s[|s|-|t|..][|t|-|w|..] == s[|s|-|w|..];
  }

  lemma {:induction false} LexRest(state: LexerState, v: string, s: string)
    ensures EndsWith(s, Lex(state, v, s).rest)
    decreases |s|
  {
    if s != "" {
      var c, rest := s[0], s[1..];
      LexRest(state, v, rest);
      LexRest(state, v + [c], rest);
      LexRest(IN_NORMAL, v + [c], rest);
      LexRest(IN_COMMENT, [c], rest);
      LexRest(DOUBLE_QUOTE, [c], rest);
      LexRest(SINGLE_QUOTE, [c], rest);
      var r := Lex(state, v, s).rest;
      if EndsWith(rest, r) { EndsWithTwice(s, rest, r); }
    }
  }

  lemma {:induction false} LexToEnd(v: string, s: string)
    ensures var t := Lex(IN_NORMAL, v, s); t.kind.EOF? ==> t.value == v + s
    decreases |s|
  {
    if s != "" {
      LexToEnd(v + [s[0]], s[1..]);
      assert v + s == v + [s[0]] + s[1..];
    }
  }

  lemma {:induction false} CommentToEnd(v: string, s: string)
    ensures Lex(IN_COMMENT, v, s).kind.EOF? ==> StateAfter(IN_COMMENT, s).IN_COMMENT?
    decreases |s|
  {
    if s != "" { CommentToEnd(v + [s[0]], s[1..]); }
  }

  lemma {:induction false} QuoteToEnd(state: LexerState, v: string, s: string)
    requires state.SINGLE_QUOTE? || state.DOUBLE_QUOTE?
    ensures !Lex(state, v, s).kind.EOF?
    decreases |s|
  {
    if s != "" { QuoteToEnd(state, v + [s[0]], s[1..]); }
  }

  lemma {:induction false} LexEndsInWord(s: string)
    ensures var t := Lex(INITIAL_STATE, "", s); t.kind.EOF? && EndState(s).IN_NORMAL? ==> EndsWith(s, t.value)
    decreases |s|
  {
    if s != "" {
      var c, rest := s[0], s[1..];
      assert "" + [c] == [c] && [c] + rest == s;
      LexToEnd([c], rest);
      CommentToEnd([c], rest);
      QuoteToEnd(SINGLE_QUOTE, [c], rest);
      QuoteToEnd(DOUBLE_QUOTE, [c], rest);
      LexEndsInWord(rest);
      var t := Lex(INITIAL_STATE, "", s);
      if EndsWith(rest, t.value) { EndsWithTwice(s, rest, t.value); }
    }
  }

  lemma {:induction false} CutOffIsLast(s: string)
    ensures CutOff(s).Some? ==> IsBare(CutOff(s).value) && EndsWith(s, CutOff(s).value)
    decreases |s|
  {
    var t := Lex(INITIAL_STATE, "", s);
    var v := LexemesMore(s, "");
    LexMore(INITIAL_STATE, "", s, "");
    LexRest(INITIAL_STATE, "", s);
    LexEndsInWord(s);
    CutOffAfter(s);
    hide Lex, CutOff, StateAfter, Lexemes, EndsWith, IsBare, After, Ahead;
    if !t.kind.EOF? && !t.kind.ERROR? {
      CutOffIsLast(t.rest);
      if CutOff(s).Some? { EndsWithTwice(s, t.rest, CutOff(s).value); }
    }
  }

  // ----- Exactly when a word is lost -----

  /** The words and punctuation that a text ends in and the parser does not get. */
  function Lost(s: string): seq<Lexeme> {
    if CutOff(s).Some? then [Word(CutOff(s).value)] else []
  }

  lemma NewlineEndsWord(state: LexerState, v: string)
    requires Gathered(state, v) && !state.SINGLE_QUOTE? && !state.DOUBLE_QUOTE?
    ensures After(Lex(state, v, "\n")) == Scan(if state.IN_NORMAL? then [Word(v)] else [], true)
  {
    assert "\n"[1..] == "";
    assert Lex(INITIAL_STATE, "", "\n") == Lexed(EOF, "", "");
  }

  /** A line feed at the end makes the lexer deliver the word that was cut off. */
  lemma NewlineReveals(s: string)
    requires Lexemes(s).complete
    ensures Lexemes(s + "\n") == Scan(Lexemes(s).lexemes + Lost(s), true)
  {
    var v := LexemesMore(s, "\n");
    NewlineEndsWord(EndState(s), v);
    hide Lexemes, CutOff, Lex, StateAfter, After;
  }

  /** An accepted text gives a tree with all its words and punctuation exactly when it does not end in a bare word; if
      it does, that word is the one that is missing. */
  lemma NothingLostUnlessCutOff(text: string)
    requires Parse(text).Some?
    ensures var c := Parse(text).value;
            && Lexemes(text + "\n") == Scan(Flatten(c) + Lost(text), true)
            && (Lost(text) == [] <==> !EndState(text).IN_NORMAL?)
            && (Lost(text) != [] ==> exists w :: Lost(text) == [Word(w)] && IsBare(w) && EndsWith(text, w))
  {
    ParseIsFaithful(text);
    NewlineReveals(text);
    var v := LexemesMore(text, "");
    CutOffIsLast(text);
    hide Lexemes, CutOff, StateAfter, EndsWith, Parse, Flatten;
  }

  lemma FeedWordRefused(p: Parser, xs: seq<Lexeme>, w: string)
    requires Feed(p, xs).Some?
    ensures Feed(p, xs + [Word(w)]).Some? && !Accepting(Feed(p, xs + [Word(w)]).value)
  {
    FeedConcat(p, xs, [Word(w)]);
    FeedOne(Feed(p, xs).value, Word(w));
  }

  /** With a line feed at its end an accepted text is parsed to the same tree exactly when it does not end in a bare
      word, and is refused if it does. */
  lemma NewlineChangesNothing(text: string)
    requires Parse(text).Some?
    ensures Parse(text + "\n") == if EndState(text).IN_NORMAL? then None else Parse(text)
  {
    NewlineReveals(text);
    var v := LexemesMore(text, "");
    var xs := Lexemes(text).lexemes;
    if EndState(text).IN_NORMAL? {
      FeedWordRefused(INITIAL, xs, v);
    } else {
      assert xs + [] == xs;
    }
  }

  predicate Unbroken(w: string) {
    forall i :: 0 <= i < |w| ==> !EndsWord(w[i])
  }

  lemma {:induction false} LexUnbroken(state: LexerState, v: string, w: string)
    requires Unbroken(w) && !state.SINGLE_QUOTE? && !state.DOUBLE_QUOTE?
    ensures After(Lex(state, v, w)) == Scan([], true)
    decreases |w|
  {
    if w != "" {
      var c, rest := w[0], w[1..];
      assert Unbroken(rest) && !EndsWord(c);
      LexUnbroken(INITIAL_STATE, "", rest);
      LexUnbroken(state, v, rest);
      LexUnbroken(state, v + [c], rest);
      LexUnbroken(IN_NORMAL, v + [c], rest);
      LexUnbroken(IN_COMMENT, [c], rest);
      LexemesAfter(rest);
    }
  }

  /** Anything without a character that ends bare words can stand at the end of an accepted text and is dropped. */
  lemma CutOffWordIsDropped(text: string, w: string)
    requires Parse(text).Some? && Unbroken(w)
    ensures Parse(text + w) == Parse(text)
  {
    var v := LexemesMore(text, w);
    LexUnbroken(EndState(text), v, w);
    assert Lexemes(text).lexemes + [] == Lexemes(text).lexemes;
  }
}
