/** Recognizing a block of code: lines that are indented by four spaces, and blank lines between them. */
module MarkdownCode {
  import opened Wrappers
  import opened MarkdownLines

  predicate IsCode(t: LineToken) {
    t.RawText? && "    " <= t.text
  }

  /** Lines that may stand in a block; the first and the last are indented, so blank lines only stand between. */
  ghost predicate IsBlock(tokens: seq<LineToken>) {
    && tokens != [] && IsCode(tokens[0]) && IsCode(tokens[|tokens|-1])
    && forall k :: 0 <= k < |tokens| ==> tokens[k].BlankLine? || IsCode(tokens[k])
  }

  /** The text of a block: a line for each token, without the indent. */
  function Code(tokens: seq<LineToken>): string {
    if tokens == [] then ""
    else (if IsCode(tokens[0]) then tokens[0].text[4..] else "") + "\n" + Code(tokens[1..])
  }

  /** The next indented line after any blank lines: its text with a line feed for each blank line, and where it ends. */
  function CodeLine(tokens: seq<LineToken>, i: nat): (r: Option<(string, nat)>)
    requires i < |tokens|
    ensures r.Some? ==> i < r.value.1 <= |tokens|
    decreases |tokens| - i
  {
    if tokens[i].BlankLine? then
      if i + 1 < |tokens| then
        match CodeLine(tokens, i + 1)
        case Some((text, end)) => Some(("\n" + text, end))
        case None => None
      else None
    else if IsCode(tokens[i]) then Some((tokens[i].text[4..], i + 1))
    else None
  }

  /** Where the block that starts at `i` ends, after the lines up to `i`. */
  function BlockEnd(tokens: seq<LineToken>, i: nat): (end: nat)
    requires i <= |tokens|
    ensures i <= end <= |tokens|
    decreases |tokens| - i
  {
    if i == |tokens| then i
    else
      match CodeLine(tokens, i)
      case None => i
      case Some((_, next)) => BlockEnd(tokens, next)
  }

  /** After blank lines comes a line at `k` that is no code, or the end. */
  ghost predicate StopsAt(tokens: seq<LineToken>, i: nat, k: nat) {
    && i <= k <= |tokens| && (forall j :: i <= j < k ==> tokens[j].BlankLine?)
    && (k < |tokens| ==> !tokens[k].BlankLine? && !IsCode(tokens[k]))
  }

  lemma BlankBefore(tokens: seq<LineToken>, i: nat, end: nat, text: string)
    requires i + 1 < end <= |tokens| && tokens[i].BlankLine? && text + "\n" == Code(tokens[i+1..end])
    ensures "\n" + text + "\n" == Code(tokens[i..end])
  {
    assert tokens[i..end][1..] == tokens[i+1..end];
    assert "\n" + text + "\n" == "" + "\n" + (text + "\n");
  }

  lemma {:induction false} NextCodeLine(tokens: seq<LineToken>, i: nat)
    requires i < |tokens|
    ensures match CodeLine(tokens, i)
            case Some((text, end)) =>
              && IsCode(tokens[end-1]) && (forall k :: i <= k < end - 1 ==> tokens[k].BlankLine?)
              && text + "\n" == Code(tokens[i..end])
            case None => exists k: nat :: StopsAt(tokens, i, k)
    decreases |tokens| - i
  {
    if tokens[i].BlankLine? {
      if i + 1 < |tokens| {
        NextCodeLine(tokens, i + 1);
        if CodeLine(tokens, i + 1).Some? {
          var (text, end) := CodeLine(tokens, i + 1).value;
          BlankBefore(tokens, i, end, text);
        } else {
          var k: nat :| StopsAt(tokens, i + 1, k);
          assert StopsAt(tokens, i, k);
        }
      } else {
        assert StopsAt(tokens, i, i + 1);
      }
    } else if IsCode(tokens[i]) {
      assert tokens[i..i+1] == [tokens[i]] && tokens[i..i+1][1..] == [];
    } else {
      assert StopsAt(tokens, i, i);
    }
  }

  lemma {:induction false} CodeConcat(a: seq<LineToken>, b: seq<LineToken>)
    ensures Code(a + b) == Code(a) + Code(b)
  {
    if a == [] {
      assert a + b == b;
    } else {
      assert (a + b)[1..] == a[1..] + b;
      CodeConcat(a[1..], b);
    }
  }

  /** No longer run of tokens that starts there is a block. */
  ghost predicate Maximal(tokens: seq<LineToken>, i: nat, end: nat)
    requires i <= end <= |tokens|
  {
    forall j :: end < j <= |tokens| ==> !IsBlock(tokens[i..j])
  }

  lemma NothingAhead(tokens: seq<LineToken>, start: nat, i: nat)
    requires start < i <= |tokens| && (i < |tokens| ==> CodeLine(tokens, i).None?)
    ensures Maximal(tokens, start, i)
  {
    if i < |tokens| {
      NextCodeLine(tokens, i);
      var k: nat :| StopsAt(tokens, i, k);
      forall j | i < j <= |tokens|
        ensures !IsBlock(tokens[start..j])
      {
        if k < j { assert tokens[start..j][k-start] == tokens[k]; }
        assert tokens[start..j][j-1-start] == tokens[j-1];
      }
    }
  }

  lemma LongerBlock(tokens: seq<LineToken>, start: nat, i: nat, next: nat)
    requires start < i < next <= |tokens| && IsBlock(tokens[start..i]) && IsCode(tokens[next-1])
    requires forall k :: i <= k < next - 1 ==> tokens[k].BlankLine?
    ensures IsBlock(tokens[start..next])
  {
    var longer := tokens[start..next];
    forall k | 0 <= k < |longer|
      ensures longer[k].BlankLine? || IsCode(longer[k])
    {
      if k < i - start { assert longer[k] == tokens[start..i][k]; }
    }
    assert longer[0] == tokens[start..i][0];
  }

  /** A block that has been found is extended as far as it goes. */
  lemma {:induction false} BlockEndExtends(tokens: seq<LineToken>, start: nat, i: nat)
    requires start < i <= |tokens| && IsBlock(tokens[start..i])
    ensures IsBlock(tokens[start..BlockEnd(tokens, i)]) && Maximal(tokens, start, BlockEnd(tokens, i))
    decreases |tokens| - i
  {
    if i < |tokens| && CodeLine(tokens, i).Some? {
      var next := CodeLine(tokens, i).value.1;
      NextCodeLine(tokens, i);
      LongerBlock(tokens, start, i, next);
      BlockEndExtends(tokens, start, next);
    } else {
      NothingAhead(tokens, start, i);
    }
  }

  /** The block at a place, and where it ends. */
  function ParseBlock(tokens: seq<LineToken>, i: nat): Option<(string, nat)>
    requires i < |tokens|
  {
    if IsCode(tokens[i]) then Some((Code(tokens[i..BlockEnd(tokens, i)]), BlockEnd(tokens, i))) else None
  }

  /** The longest run of indented lines and blank lines between them is taken, and nothing where no such run starts. */
  lemma ParsesLongestBlock(tokens: seq<LineToken>, i: nat)
    requires i < |tokens|
    ensures match ParseBlock(tokens, i)
            case Some((text, end)) =>
              i < end <= |tokens| && text == Code(tokens[i..end]) && IsBlock(tokens[i..end]) && Maximal(tokens, i, end)
            case None => forall j :: i < j <= |tokens| ==> !IsBlock(tokens[i..j])
  {
    if IsCode(tokens[i]) {
      assert tokens[i..i+1] == [tokens[i]] && BlockEnd(tokens, i) == BlockEnd(tokens, i + 1);
      BlockEndExtends(tokens, i, i + 1);
    }
  }

  // ----- Writing a block -----

  /** A line of code, or nothing for a blank line, as it stands in a document. */
  function Indented(line: Option<string>): LineToken {
    match line
    case Some(text) => RawText("    " + text)
    case None => BlankLine("")
  }

  function Indent(lines: seq<Option<string>>): (tokens: seq<LineToken>)
    ensures |tokens| == |lines| && forall i :: 0 <= i < |lines| ==> tokens[i] == Indented(lines[i])
  {
    if lines == [] then [] else [Indented(lines[0])] + Indent(lines[1..])
  }

  function Listing(lines: seq<Option<string>>): string {
    if lines == [] then "" else (if lines[0].Some? then lines[0].value else "") + "\n" + Listing(lines[1..])
  }

  /** Every line ends in a line feed, and a blank line is empty. */
  lemma ListingText(a: string, b: string)
    ensures Listing([Some(a), None, Some(b)]) == a + "\n" + "\n" + b + "\n"
  {
    var lines := [Some(a), None, Some(b)];
    assert lines[1..][1..] == [Some(b)] && Listing([Some(b)]) == b + "\n" + Listing([]);
  }

  lemma {:induction false} CodeOfIndent(lines: seq<Option<string>>)
    ensures Code(Indent(lines)) == Listing(lines)
  {
    if lines != [] {
      CodeOfIndent(lines[1..]);
      if lines[0].Some? { assert ("    " + lines[0].value)[4..] == lines[0].value; }
    }
  }

  /** Only one end makes a block the longest, and the parser takes that one. */
  lemma LongestIsTaken(tokens: seq<LineToken>, i: nat, end: nat)
    requires i < end <= |tokens| && IsBlock(tokens[i..end]) && Maximal(tokens, i, end)
    ensures ParseBlock(tokens, i) == Some((Code(tokens[i..end]), end))
  {
    ParsesLongestBlock(tokens, i);
    FirstIsCode(tokens, i, end);
    hide Code, IsBlock, BlockEnd;
  }

  lemma FirstIsCode(tokens: seq<LineToken>, i: nat, end: nat)
    requires i < end <= |tokens| && IsBlock(tokens[i..end])
    ensures IsCode(tokens[i])
  {
    assert tokens[i..end][0] == tokens[i];
  }

  lemma Slices(before: seq<LineToken>, block: seq<LineToken>, after: seq<LineToken>)
    ensures var tokens := before + block + after;
            tokens[|before|..|before|+|block|] == block && tokens[|before|+|block|..] == after
  {
  }

  /** Lines of code that are indented into a document are read back as they were, with the blank lines between them and
      without any after them. */
  lemma IndentThenParse(before: seq<LineToken>, lines: seq<Option<string>>, after: seq<LineToken>)
    requires lines != [] && lines[0].Some? && lines[|lines|-1].Some?
    requires after != [] ==> CodeLine(after, 0).None?
    ensures ParseBlock(before + Indent(lines) + after, |before|) == Some((Listing(lines), |before| + |lines|))
  {
    hide Code, CodeLine, IsBlock, Maximal, Listing, ParseBlock;
    var tokens, i, end := before + Indent(lines) + after, |before|, |before| + |lines|;
    Slices(before, Indent(lines), after);
    CodeOfIndent(lines);
    IndentIsBlock(lines);
    if after != [] { CodeLineLater(tokens, end, after, 0); }
    NothingAhead(tokens, i, end);
    LongestIsTaken(tokens, i, end);
  }

  lemma IndentIsBlock(lines: seq<Option<string>>)
    requires lines != [] && lines[0].Some? && lines[|lines|-1].Some?
    ensures IsBlock(Indent(lines))
  {
  }

  lemma {:induction false} CodeLineLater(tokens: seq<LineToken>, n: nat, after: seq<LineToken>, i: nat)
    requires n <= |tokens| && tokens[n..] == after && i < |after|
    ensures CodeLine(tokens, n + i).None? <==> CodeLine(after, i).None?
    decreases |after| - i
  {
    assert after[i] == tokens[n+i];
    if i + 1 < |after| { CodeLineLater(tokens, n, after, i + 1); }
  }

  // ----- The recognizer -----

  /** A place in a list of tokens that the recognizer moves. */
  class Cursor {
    const tokens: seq<LineToken>
    var pos: nat

    constructor (tokens: seq<LineToken>, pos: nat)
      ensures this.tokens == tokens && this.pos == pos
    {
      this.tokens, this.pos := tokens, pos;
    }
  }

  /** Takes blank lines and the indented line after them; without one, the cursor goes back to where it was. */
  method IsCodeBlockLine(i: Cursor) returns (r: Option<string>)
    requires i.pos < |i.tokens|
    modifies i
    ensures match CodeLine(i.tokens, old(i.pos))
            case Some((text, end)) => r == Some(text) && i.pos == end
            case None => r == None && i.pos == old(i.pos)
    decreases |i.tokens| - i.pos
  {
    r := None;
    if i.tokens[i.pos].BlankLine? {
      i.pos := i.pos + 1;
      if i.pos != |i.tokens| {
        r := IsCodeBlockLine(i);
        if r.Some? { return Some("\n" + r.value); }
      }
      i.pos := i.pos - 1;
    } else if i.tokens[i.pos].RawText? {
      var line := i.tokens[i.pos].text;
      if |line| >= 4 {
        var si := 0;
        while si != 4 && line[si] == ' '
          invariant 0 <= si <= 4 && forall k :: 0 <= k < si ==> line[k] == ' '
        {
          si := si + 1;
        }
        if si == 4 {
          i.pos := i.pos + 1;
          return Some(line[si..]);
        }
      }
    }
  }

  lemma LineAdded(a: string, text: string)
    ensures a + text + "\n" == a + (text + "\n")
  {
  }

  lemma OneMoreLine(tokens: seq<LineToken>, start: nat, i: nat)
    requires start <= i < |tokens| && CodeLine(tokens, i).Some?
    ensures var (text, end) := CodeLine(tokens, i).value;
            && BlockEnd(tokens, i) == BlockEnd(tokens, end)
            && Code(tokens[start..i]) + text + "\n" == Code(tokens[start..end])
  {
    var (text, end) := CodeLine(tokens, i).value;
    NextCodeLine(tokens, i);
    CodeConcat(tokens[start..i], tokens[i..end]);
    hide Code;
    assert tokens[start..end] == tokens[start..i] + tokens[i..end];
    LineAdded(Code(tokens[start..i]), text);
  }

  method ParseCodeBlock(i: Cursor) returns (r: Option<string>)
    requires i.pos < |i.tokens|
    modifies i
    ensures match ParseBlock(i.tokens, old(i.pos))
            case Some((text, end)) => r == Some(text) && i.pos == end
            case None => r == None && i.pos == old(i.pos)
  {
    hide Code, BlockEnd;
    r := None;
    if !i.tokens[i.pos].BlankLine? {
      var start := i.pos;
      var contents := IsCodeBlockLine(i);
      if contents.Some? {
        FirstLine(i.tokens, start);
        var out := contents.value + "\n";
        while i.pos != |i.tokens|
          invariant start < i.pos <= |i.tokens| && out == Code(i.tokens[start..i.pos])
          invariant BlockEnd(i.tokens, i.pos) == BlockEnd(i.tokens, start)
          decreases |i.tokens| - i.pos
        {
          if CodeLine(i.tokens, i.pos).Some? { OneMoreLine(i.tokens, start, i.pos); }
          BlockStops(i.tokens, i.pos);
          contents := IsCodeBlockLine(i);
          if contents.None? { break; }
          out := out + contents.value + "\n";
        }
        BlockStops(i.tokens, i.pos);
        return Some(out);
      }
    }
  }

  lemma FirstLine(tokens: seq<LineToken>, i: nat)
    requires i < |tokens| && CodeLine(tokens, i).Some?
    ensures var (text, end) := CodeLine(tokens, i).value;
            BlockEnd(tokens, i) == BlockEnd(tokens, end) && text + "\n" == Code(tokens[i..end])
  {
    NextCodeLine(tokens, i);
    hide Code;
  }

  lemma BlockStops(tokens: seq<LineToken>, i: nat)
    requires i <= |tokens|
    ensures i == |tokens| || CodeLine(tokens, i).None? ==> BlockEnd(tokens, i) == i
  {
  }
}
