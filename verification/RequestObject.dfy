/** The request object: parsing fills it in, writing reads it out, and a proxy changes it in between. */
module RequestObject {
  import opened Wrappers
  import opened Streams
  import opened Utils
  import opened HttpRequest

  lemma NoContentLength()
    ensures ContentLength([]) == 0
  {
  }

  lemma OneMoreHeader(headers: Headers, h: (string, string))
    ensures ContentLength(headers + [h]) == if h.0 == "Content-Length" then ToInt32(StrToL(h.1)) else ContentLength(headers)
  {
  }

  lemma ParseFirstHeader(text: string, before: Headers)
    ensures var l := CRLFLine(text);
            && (l.text == "" ==> ParseHeaders(text, before) == Some((before, l.rest)))
            && (l.text != "" ==> |l.rest| < |text|)
            && (l.text != "" && ParseHeader(l.text).None? ==> ParseHeaders(text, before) == None)
            && (l.text != "" && ParseHeader(l.text).Some? ==>
                  ParseHeaders(text, before) == ParseHeaders(l.rest, before + [ParseHeader(l.text).value]))
  {
  }

  /** Takes a header line apart at the first colon. */
  method ReadHeader(line: string) returns (ok: bool, headerKey: string, headerValue: string)
    ensures if ok then ParseHeader(line) == Some((headerKey, headerValue)) else ParseHeader(line) == None
  {
    var delimPos := IndexOf(line, ':');
    if delimPos == |line| { return false, "", ""; }
    headerKey := line[..delimPos];
    var headerValueStart := delimPos + 1;
    while headerValueStart < |line| && line[headerValueStart] == ' '
      invariant headerValueStart <= |line|
      invariant DropSpaces(line[headerValueStart..]) == DropSpaces(line[delimPos+1..])
    {
      headerValueStart := headerValueStart + 1;
    }
    ok, headerValue := true, line[headerValueStart..];
  }

  lemma NoBody(text: string)
    ensures Body(text, 0) == ""
  {
  }

  lemma BodyPadded(text: string, n: nat, chars: string)
    requires chars == if n <= |text| then text[..n] else text
    ensures chars + Nulls(n - |chars|) == Body(text, n)
  {
  }

  class Request {
    var method_: string
    var uri_: string
    var version_: string
    var headers_: Headers
    var body_: string

    constructor ()
      ensures Value() == RequestValue("", "", "", [], "")
    {
      method_, uri_, version_, headers_, body_ := "", "", "", [], "";
    }

    function Value(): RequestValue
      reads this
    {
      RequestValue(method_, uri_, version_, headers_, body_)
    }

    static method Parse(raw_request: string) returns (req: Request?)
      ensures req != null <==> HttpRequest.Parse(raw_request).Some?
      ensures req != null ==> fresh(req) && HttpRequest.Parse(raw_request) == Some(req.Value())
    {
      hide ParseHeaders, Split, CRLFLine, Body, Nulls;
      var reqSS := new InputStream(raw_request);
      req := new Request();
      var head := GetCRLFLine(reqSS);
      var headTokens := SplitLine(head, ' ');
      if |headTokens| != 3 { return null; }
      req.method_, req.uri_ := headTokens[0], headTokens[1];
      if !("HTTP/" <= headTokens[2]) { return null; }
      req.version_ := headTokens[2];
      ghost var text := reqSS.Rest();
      var ok, contentLength := req.ReadHeaders(reqSS);
      if !ok { return null; }
      NoBody(reqSS.Rest());
      if contentLength > 0 {
        ghost var body := reqSS.Rest();
        var chars := reqSS.Read(contentLength);
        req.body_ := chars + Nulls(contentLength - |chars|);
        BodyPadded(body, contentLength, chars);
      }
    }

    /** The loop over the header lines. */
    method ReadHeaders(reqSS: InputStream) returns (ok: bool, contentLength: int)
      requires reqSS.Valid() && headers_ == []
      modifies this`headers_, reqSS
      ensures reqSS.Valid()
      ensures ok == ParseHeaders(old(reqSS.Rest()), []).Some?
      ensures ok ==> ParseHeaders(old(reqSS.Rest()), []) == Some((headers_, reqSS.Rest()))
                     && contentLength == ContentLength(headers_)
    {
      hide ParseHeader, CRLFLine, ContentLength, ParseHeaders;
      ghost var text := reqSS.Rest();
      contentLength := 0;
      NoContentLength();
      while true
        invariant reqSS.Valid() && ParseHeaders(reqSS.Rest(), headers_) == ParseHeaders(text, [])
        invariant contentLength == ContentLength(headers_)
        decreases |reqSS.Rest()|
      {
        ParseFirstHeader(reqSS.Rest(), headers_);
        var line := GetCRLFLine(reqSS);
        if line == "" { return true, contentLength; }
        var found, headerKey, headerValue := ReadHeader(line);
        if !found { return false, 0; }
        OneMoreHeader(headers_, (headerKey, headerValue));
        if headerKey == "Content-Length" { contentLength := ToInt32(StrToL(headerValue)); }
        headers_ := headers_ + [(headerKey, headerValue)];
      }
    }

    method RawRequest() returns (raw: string)
      ensures raw == Write(Value())
    {
      raw := method_ + " " + uri_ + " " + version_ + "\r\n";
      ghost var start := raw;
      for i := 0 to |headers_|
        invariant raw + WriteHeaders(headers_[i..]) == start + WriteHeaders(headers_)
      {
        assert headers_[i..][1..] == headers_[i+1..];
        raw := raw + headers_[i].0 + ": " + headers_[i].1 + "\r\n";
      }
      raw := raw + "\r\n" + body_;
    }

    method SetUri(uri: string)
      modifies this`uri_
      ensures Value() == old(Value()).(uri := uri)
    {
      uri_ := uri;
    }

    method AddHeader(lhs: string, rhs: string)
      modifies this`headers_
      ensures Value() == old(Value().(headers := headers_ + [(lhs, rhs)]))
    {
      headers_ := headers_ + [(lhs, rhs)];
    }

    /** Removes the first header of that name, if there is one. */
    method RemoveHeader(lhs: string)
      modifies this`headers_
      ensures Value() == old(Value().(headers := RemoveFirst(headers_, lhs)))
    {
      var it := 0;
      while it < |headers_|
        invariant it <= |headers_| && headers_ == old(headers_)
        invariant forall i :: 0 <= i < it ==> headers_[i].0 != lhs
      {
        if headers_[it].0 == lhs {
          headers_ := headers_[..it] + headers_[it+1..];
          return;
        }
        it := it + 1;
      }
    }
  }

  /** The position of the first header of that name, or the number of headers. */
  function FirstKey(headers: Headers, key: string): (k: nat)
    ensures k <= |headers| && (k < |headers| ==> headers[k].0 == key)
    ensures forall i :: 0 <= i < k ==> headers[i].0 != key
  {
    if headers == [] || headers[0].0 == key then 0 else 1 + FirstKey(headers[1..], key)
  }

  function RemoveFirst(headers: Headers, key: string): Headers {
    var k := FirstKey(headers, key);
    if k == |headers| then headers else headers[..k] + headers[k+1..]
  }

  /** The values of the headers of that name, in order. */
  function ValuesOf(headers: Headers, key: string): seq<string> {
    if headers == [] then []
    else (if headers[0].0 == key then [headers[0].1] else []) + ValuesOf(headers[1..], key)
  }

  /** The headers of other names, in order. */
  function Others(headers: Headers, key: string): Headers {
    if headers == [] then []
    else (if headers[0].0 == key then [] else [headers[0]]) + Others(headers[1..], key)
  }

  lemma {:induction false} OthersFirst(before: Headers, key: string, rest: Headers)
    requires forall h :: h in before ==> h.0 != key
    ensures ValuesOf(before + rest, key) == ValuesOf(rest, key) && Others(before + rest, key) == before + Others(rest, key)
    decreases |before|
  {
    if before == [] {
      assert before + rest == rest && before + Others(rest, key) == Others(rest, key);
    } else {
      assert before[0] in before && (before + rest)[1..] == before[1..] + rest;
      OthersFirst(before[1..], key, rest);
      assert [before[0]] + (before[1..] + Others(rest, key)) == before + Others(rest, key);
    }
  }

  /** Only the first header of that name goes: the values of the others of that name stay in order, and so do the headers
      of other names; without such a header nothing changes. */
  lemma FirstIsRemoved(before: Headers, key: string, value: string, after: Headers)
    requires forall h :: h in before ==> h.0 != key
    ensures var headers := before + [(key, value)] + after; var r := RemoveFirst(headers, key);
            && RemoveFirst(before, key) == before && r == before + after
            && ValuesOf(headers, key) == [value] + ValuesOf(r, key) && Others(r, key) == Others(headers, key)
  {
    RemovedAt(before, (key, value), after);
    OthersFirst(before, key, [(key, value)] + after);
    OthersFirst(before, key, after);
    assert ([(key, value)] + after)[1..] == after;
    hide RemoveFirst;
    assert before + [(key, value)] + after == before + ([(key, value)] + after);
  }

  lemma RemovedAt(before: Headers, h: (string, string), after: Headers)
    requires forall b :: b in before ==> b.0 != h.0
    ensures RemoveFirst(before, h.0) == before && RemoveFirst(before + [h] + after, h.0) == before + after
  {
    var headers, n := before + [h] + after, |before|;
    assert headers[n] == h && headers[..n] == before && headers[n+1..] == after;
    assert forall i :: 0 <= i < n ==> headers[i] == before[i] && before[i] in before;
    hide FirstKey;
    assert FirstKey(before, h.0) == FirstKey(headers, h.0) == n;
  }

  // ----- What the mutators keep -----

  /** The values of the Content-Length headers. */
  function Lengths(headers: Headers): seq<string> {
    if headers == [] then []
    else Lengths(headers[..|headers|-1])
         + (var h := headers[|headers|-1]; if h.0 == "Content-Length" then [h.1] else [])
  }

  lemma {:induction false} LengthsConcat(a: Headers, b: Headers)
    ensures Lengths(a + b) == Lengths(a) + Lengths(b)
    decreases |b|
  {
    if b == [] {
      assert a + b == a;
    } else {
      assert (a + b)[..|a|+|b|-1] == a + b[..|b|-1];
      LengthsConcat(a, b[..|b|-1]);
    }
  }

  /** Only the Content-Length headers matter, and of those the last. */
  lemma {:induction false} LastLengthDecides(headers: Headers)
    ensures var ls := Lengths(headers);
            ContentLength(headers) == if ls == [] then 0 else ToInt32(StrToL(ls[|ls|-1]))
    decreases |headers|
  {
    if headers != [] { LastLengthDecides(headers[..|headers|-1]); }
  }

  lemma LengthsOfOne(h: (string, string))
    requires h.0 != "Content-Length"
    ensures Lengths([h]) == []
  {
  }

  lemma RemoveKeepsLengths(a: Headers, h: (string, string), b: Headers)
    requires h.0 != "Content-Length"
    ensures Lengths(a + b) == Lengths(a + [h] + b)
  {
    hide *;
    LengthsOfOne(h);
    LengthsConcat(a, b);
    LengthsConcat(a + [h], b);
    LengthsConcat(a, [h]);
    assert Lengths(a) + [] == Lengths(a);
  }

  lemma ReplaceKeepsLength(headers: Headers, key: string, value: string)
    requires key != "Content-Length"
    ensures ContentLength(RemoveFirst(headers, key) + [(key, value)]) == ContentLength(headers)
  {
    hide Lengths, ContentLength;
    var k := FirstKey(headers, key);
    var r := RemoveFirst(headers, key);
    if k < |headers| {
      RemoveKeepsLengths(headers[..k], headers[k], headers[k+1..]);
      assert headers == headers[..k] + [headers[k]] + headers[k+1..];
    }
    LastLengthDecides(r);
    LastLengthDecides(headers);
    OneMoreHeader(r, (key, value));
  }

  /** A request that has been given another URI and had headers other than Content-Length taken out and put in, as
      the proxy does, can still be written and parsed back. */
  lemma MutatorsKeepRoundTrip(r: RequestValue, uri: string, key: string, value: string)
    requires WellFormed(r) && FieldOk(uri) && HeaderOk((key, value)) && key != "Content-Length"
    ensures var q := r.(uri := uri, headers := RemoveFirst(r.headers, key) + [(key, value)]);
            WellFormed(q) && HttpRequest.Parse(Write(q)) == Some(q)
  {
    var q := r.(uri := uri, headers := RemoveFirst(r.headers, key) + [(key, value)]);
    hide ContentLength, Write, HttpRequest.Parse;
    ReplaceKeepsLength(r.headers, key, value);
    WriteThenParse(q);
  }
}
