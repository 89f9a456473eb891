/** The texts that are accepted as requests, and the request that each of them stands for. */
module RequestGrammar {
  import opened Wrappers
  import opened Streams
  import opened Utils
  import opened HttpRequest

  /** Three fields with single spaces between them, and perhaps a space at the end; the version begins with `HTTP/`. */
  predicate IsHead(head: string, verb: string, uri: string, version: string) {
    && ' ' !in verb && ' ' !in uri && ' ' !in version && 5 <= |version| && version[..5] == "HTTP/"
    && (head == verb + " " + uri + " " + version || head == verb + " " + uri + " " + version + " ")
  }

  /** A name without a colon, a colon, any number of spaces, and a value. */
  ghost predicate IsLine(line: string, h: (string, string)) {
    && ':' !in h.0 && (h.1 != "" ==> h.1[0] != ' ')
    && exists sp :: AllSpaces(sp) && line == h.0 + ":" + sp + h.1
  }

  function TextOf(lines: seq<string>): string {
    if lines == [] then "" else lines[0] + "\r\n" + TextOf(lines[1..])
  }

  lemma HeaderIff(line: string, h: (string, string))
    ensures ParseHeader(line) == Some(h) <==> IsLine(line, h)
  {
    hide ParseHeader;
    if ParseHeader(line) == Some(h) { HeaderTaken(line, h); }
    if IsLine(line, h) {
      var sp :| AllSpaces(sp) && line == h.0 + ":" + sp + h.1;
      HeaderLine(h.0, sp, h.1);
    }
  }

  lemma HeaderTaken(line: string, h: (string, string))
    requires ParseHeader(line) == Some(h)
    ensures IsLine(line, h)
  {
    var k := IndexOf(line, ':');
    var sp := SpacesBefore(line[k+1..]);
    assert line == line[..k] + ":" + line[k+1..];
    hide ParseHeader, DropSpaces, IndexOf;
    assert line == h.0 + ":" + (sp + h.1) == h.0 + ":" + sp + h.1;
  }

  lemma HeadIff(head: string, verb: string, uri: string, version: string)
    ensures (Split(head, ' ') == [verb, uri, version] && "HTTP/" <= version) <==> IsHead(head, verb, uri, version)
  {
    VersionStarts(version);
    if "HTTP/" <= version { ThreeFields(head, verb, uri, version); }
    hide Split;
  }

  lemma ThreeFields(head: string, a: string, b: string, c: string)
    requires c != ""
    ensures Split(head, ' ') == [a, b, c] <==>
            ' ' !in a && ' ' !in b && ' ' !in c && (head == a + " " + b + " " + c || head == a + " " + b + " " + c + " ")
  {
    hide Split, IndexOf;
    if Split(head, ' ') == [a, b, c] { ThreeSplit(head, a, b, c); }
    if ' ' !in a && ' ' !in b && ' ' !in c { ThreeJoined(a, b, c); }
  }

  lemma ThreeSplit(head: string, a: string, b: string, c: string)
    requires Split(head, ' ') == [a, b, c]
    ensures ' ' !in a && ' ' !in b && ' ' !in c
    ensures head == a + " " + b + " " + c || head == a + " " + b + " " + c + " "
  {
    FirstField(head, ' ');
    FieldsAreClean(head, ' ');
    SplitUnfolds("", ' ');
    hide Split;
    assert a in [a, b, c] && [a, b, c][1..] == [b, c];
    var rest := head[|a|+1..];
    assert head == a + " " + rest;
    SplitTwo(rest, ' ', b, c);
    hide *;
    assert a + " " + (b + [' '] + c) == a + " " + b + " " + c;
    assert a + " " + (b + [' '] + c + [' ']) == a + " " + b + " " + c + " ";
  }

  lemma ThreeJoined(a: string, b: string, c: string)
    requires ' ' !in a && ' ' !in b && ' ' !in c && c != ""
    ensures Split(a + " " + b + " " + c, ' ') == Split(a + " " + b + " " + c + " ", ' ') == [a, b, c]
  {
    hide *;
    var two := b + [' '] + c;
    SplitTwo(two, ' ', b, c);
    SplitTwo(two + [' '], ' ', b, c);
    SplitFirst(a, ' ', two);
    SplitFirst(a, ' ', two + [' ']);
    assert a + [' '] + two == a + " " + b + " " + c;
    assert a + [' '] + (two + [' ']) == a + " " + b + " " + c + " ";
    assert [a] + [b, c] == [a, b, c];
  }

  lemma NextLine(line: string, text: string, before: Headers)
    requires line != "" && '\n' !in line
    ensures ParseHeaders(line + "\r\n" + text, before) ==
            match ParseHeader(line) case None => None case Some(h) => ParseHeaders(text, before + [h])
  {
    WrittenLine(line, text);
    hide ParseHeader, CRLFLine;
  }

  lemma LastLine(sent: string, before: Headers)
    ensures ParseHeaders("\r\n" + sent, before) == Some((before, sent))
  {
    WrittenLine("", sent);
    hide ParseHeader, CRLFLine;
    assert "" + "\r\n" + sent == "\r\n" + sent;
  }

  function HeadersOf(lines: seq<string>): Option<Headers> {
    if lines == [] then Some([])
    else
      match (ParseHeader(lines[0]), HeadersOf(lines[1..]))
      case (Some(h), Some(hs)) => Some([h] + hs)
      case _ => None
  }

  lemma {:induction false} HeadersIff(lines: seq<string>, hs: Headers)
    ensures HeadersOf(lines) == Some(hs) <==>
            |hs| == |lines| && forall i :: 0 <= i < |lines| ==> IsLine(lines[i], hs[i])
  {
    hide ParseHeader, IsLine;
    if lines != [] && hs != [] {
      HeaderIff(lines[0], hs[0]);
      HeadersIff(lines[1..], hs[1..]);
      assert hs == [hs[0]] + hs[1..];
      if |hs| == |lines| && forall i :: 0 <= i < |lines| ==> IsLine(lines[i], hs[i]) {
        assert forall i :: 0 <= i < |lines[1..]| ==> IsLine(lines[1..][i], hs[1..][i]);
      }
      if HeadersOf(lines) == Some(hs) {
        assert HeadersOf(lines[1..]) == Some(hs[1..]) && ParseHeader(lines[0]) == Some(hs[0]) by {
          var h, more := ParseHeader(lines[0]).value, HeadersOf(lines[1..]).value;
          assert ([h] + more)[0] == h && ([h] + more)[1..] == more;
        }
        assert forall i :: 1 <= i < |lines| ==> lines[i] == lines[1..][i-1] && hs[i] == hs[1..][i-1];
      }
    }
  }

  predicate AreLines(lines: seq<string>) {
    forall i :: 0 <= i < |lines| ==> lines[i] != "" && '\n' !in lines[i]
  }

  /** The headers are those of the lines up to the empty one. */
  lemma {:induction false} LinesRead(lines: seq<string>, sent: string, before: Headers)
    requires AreLines(lines)
    ensures ParseHeaders(TextOf(lines) + "\r\n" + sent, before) ==
            match HeadersOf(lines) case None => None case Some(hs) => Some((before + hs, sent))
    decreases |lines|
  {
    hide ParseHeaders, ParseHeader;
    if lines == [] {
      assert TextOf(lines) + "\r\n" + sent == "\r\n" + sent && before + [] == before;
      LastLine(sent, before);
    } else {
      var line, rest := lines[0], TextOf(lines[1..]) + "\r\n" + sent;
      TextLine(line, TextOf(lines[1..]), sent);
      NextLine(line, rest, before);
      if ParseHeader(line).Some? {
        var h := ParseHeader(line).value;
        LinesRead(lines[1..], sent, before + [h]);
        if hs: Headers :| HeadersOf(lines[1..]) == Some(hs) { assert before + [h] + hs == before + ([h] + hs); }
      }
    }
  }

  lemma TextLine(line: string, text: string, sent: string)
    ensures line + "\r\n" + text + "\r\n" + sent == line + "\r\n" + (text + "\r\n" + sent)
  {
  }

  /** A first line, header lines and what is sent after the empty line are accepted as a request exactly when the first
      line has its three fields and each header line its header; a body of another length than the announced one is cut
      or filled up. */
  lemma AcceptsExactly(head: string, lines: seq<string>, sent: string, r: RequestValue)
    requires '\n' !in head && AreLines(lines)
    ensures Parse(head + "\r\n" + TextOf(lines) + "\r\n" + sent) == Some(r) <==>
            && IsHead(head, r.verb, r.uri, r.version)
            && |r.headers| == |lines| && (forall i :: 0 <= i < |lines| ==> IsLine(lines[i], r.headers[i]))
            && r.body == Body(sent, BodyLength(r.headers))
  {
    hide *;
    var rest := TextOf(lines) + "\r\n" + sent;
    TextLine(head, TextOf(lines), sent);
    WrittenLine(head, rest);
    AllRead(lines, sent);
    ParseIff(head + "\r\n" + rest, head, rest, HeadersOf(lines), sent, r);
    HeadersIff(lines, r.headers);
    HeadIff(head, r.verb, r.uri, r.version);
  }

  lemma AllRead(lines: seq<string>, sent: string)
    requires AreLines(lines)
    ensures ParseHeaders(TextOf(lines) + "\r\n" + sent, []) ==
            match HeadersOf(lines) case None => None case Some(hs) => Some((hs, sent))
  {
    LinesRead(lines, sent, []);
    hide *;
    if hs: Headers :| HeadersOf(lines) == Some(hs) { assert [] + hs == hs; }
  }

  lemma ParseIff(raw: string, head: string, rest: string, hs: Option<Headers>, sent: string, r: RequestValue)
    requires CRLFLine(raw) == Line(head, rest)
    requires ParseHeaders(rest, []) == match hs case None => None case Some(hs) => Some((hs, sent))
    ensures Parse(raw) == Some(r) <==>
            && Split(head, ' ') == [r.verb, r.uri, r.version] && "HTTP/" <= r.version && hs == Some(r.headers)
            && r.body == Body(sent, BodyLength(r.headers))
  {
    hide ParseHeaders, Split, CRLFLine, BodyLength, Body;
    var tokens := Split(head, ' ');
    if |tokens| == 3 { assert tokens == [tokens[0], tokens[1], tokens[2]]; }
  }
}
