/** The response object, and the proxy that parses responses and remembers redirects. */
module ResponseObject {
  import opened Wrappers
  import opened Utils
  import opened HttpResponse
  import Request = HttpRequest

  class Response {
    var code_: int
    var body_: string
    var headers_: Headers

    constructor ()
      ensures headers_ == [] && body_ == ""
    {
      code_, body_, headers_ := 0, "", [];
    }

    function Value(): ResponseValue
      reads this
    {
      ResponseValue(code_, headers_, body_)
    }

    method SetStatus(response_code: int)
      modifies this`code_
      ensures code_ == response_code
    {
      code_ := response_code;
    }

    method AddHeader(header_name: string, header_value: string)
      modifies this`headers_
      ensures headers_ == old(headers_) + [(header_name, header_value)]
    {
      headers_ := headers_ + [(header_name, header_value)];
    }

    method SetBody(body: string)
      modifies this`body_
      ensures body_ == body
    {
      body_ := body;
    }

    method ToString() returns (resp: Option<string>)
      ensures resp == Write(Value())
    {
      var status := StatusText(code_);
      if status == None { return None; }
      var r := "HTTP/1.1 " + status.value + CRLF;
      ghost var start := r;
      for i := 0 to |headers_|
        invariant r + Request.WriteHeaders(headers_[i..]) == start + Request.WriteHeaders(headers_)
      {
        assert headers_[i..][1..] == headers_[i+1..];
        r := r + headers_[i].0 + ": " + headers_[i].1 + CRLF;
      }
      assert headers_[|headers_|..] == [] && r + "" == r;
      resp := Some(r + CRLF + body_);
    }
  }

  class ProxyHandler {
    var redirect_: bool
    var redirect_uri_: string
    var redirect_host_: string
    var redirect_host_header_: string

    function Remembered(): Redirect
      reads this
    {
      Redirect(redirect_, redirect_uri_, redirect_host_, redirect_host_header_)
    }

    /** Remembers where a Location header leads. */
    method FollowLocation(header_value: string) returns (ok: bool)
      modifies this
      ensures ok == CanFollow(header_value)
      ensures ok ==> Remembered() == Follow(old(Remembered()), header_value)
    {
      redirect_ := true;
      if header_value != "" && header_value[0] == '/' {
        redirect_uri_ := header_value;
        return true;
      }
      var uri_pos := 0;
      redirect_host_ := header_value;
      if "http://" <= redirect_host_ {
        redirect_host_ := redirect_host_[7..];
        uri_pos := uri_pos + 7;
      }
      var slash := Find(header_value[uri_pos..], "/");
      if slash == None { return false; }
      uri_pos := uri_pos + slash.value;
      redirect_host_header_ := header_value[..uri_pos];
      redirect_uri_ := header_value[uri_pos..];
      var end := Find(redirect_host_, redirect_uri_);
      if end != None { redirect_host_ := redirect_host_[..end.value]; }
      ok := true;
    }

    /** The response in a text; null if a number, a colon or a line end is missing or a location cannot be followed. */
    method ParseRawResponse(raw_response: string) returns (response: Response?)
      modifies this
      ensures response != null <==> Parse(raw_response, old(Remembered())).Some?
      ensures response != null ==>
                fresh(response) && Parse(raw_response, old(Remembered())) == Some(Parsed(response.Value(), Remembered()))
    {
      hide Find, StoI, NextHeader, ParseHeaders, AfterHeader;
      var space := Find(raw_response, " ");
      var start := if space == None then 0 else space.value + 1;
      var end := Find(raw_response[start..], " ");
      var line_end := Find(raw_response[start..], CRLF);
      var number := if end == None then raw_response[start..] else raw_response[start..][..end.value];
      assert raw_response[0..] == raw_response;
      assert AfterSpace(raw_response) == raw_response[start..] && BeforeSpace(raw_response[start..]) == number;
      var rc := StoI(number);
      if rc == None || line_end == None { return null; }
      response := new Response();
      response.SetStatus(rc.value);
      var ok := ReadHeaders(raw_response[start..][line_end.value+2..], response);
      if !ok { return null; }
    }

    /** The loop over the headers, and the body after them. */
    method ReadHeaders(text: string, response: Response) returns (ok: bool)
      requires response.headers_ == []
      modifies this, response
      ensures ok == ParseHeaders(text, old(response.code_), [], old(Remembered())).Some?
      ensures ok ==> ParseHeaders(text, old(response.code_), [], old(Remembered())) == Some(Parsed(response.Value(), Remembered()))
    {
      hide Find, NextHeader, AfterHeader, CanFollow, Follow;
      var start := 0;
      while true
        invariant start <= |text| && response.code_ == old(response.code_)
        invariant ParseHeaders(text[start..], response.code_, response.headers_, Remembered()) ==
                  ParseHeaders(text, response.code_, [], old(Remembered()))
        decreases |text| - start
      {
        if CRLF <= text[start..] {
          start := start + 2;
          break;
        }
        var found, header_name, header_value, next := ReadHeader(text, start);
        if !found { return false; }
        if (response.code_ == 302 || response.code_ == 301) && header_name == "Location" {
          FollowUnfolds(Remembered(), response.code_, (header_name, header_value));
          var followed := FollowLocation(header_value);
          if !followed { return false; }
        } else {
          FollowUnfolds(Remembered(), response.code_, (header_name, header_value));
        }
        response.AddHeader(header_name, header_value);
        start := next;
      }
      response.SetBody(text[start..]);
      ok := true;
    }
  }

  lemma FollowUnfolds(rd: Redirect, code: int, h: (string, string))
    ensures AfterHeader(rd, code, h) == if IsRedirect(code, h.0) && CanFollow(h.1) then Follow(rd, h.1) else rd
  {
  }

  /** The header that begins at `start`, and where the next one begins. */
  method ReadHeader(text: string, start: nat) returns (ok: bool, name: string, value: string, next: nat)
    requires start <= |text|
    ensures ok == NextHeader(text[start..]).Some?
    ensures ok ==> start < next <= |text| && NextHeader(text[start..]) == Some(((name, value), text[next..]))
  {
    hide DropSpaces, Find;
    var colon := Find(text[start..], ":");
    name, value, next, ok := "", "", start, false;
    if colon == None { return; }
    var end := start + colon.value;
    name := text[start..end];
    var first := end + 1;
    while first < |text| && text[first] == ' '
      invariant end < first <= |text|
      invariant DropSpaces(text[first..]) == DropSpaces(text[end+1..])
    {
      SpaceDropped(text, first);
      first := first + 1;
    }
    SpacesDropped(text, first);
    var eol := Find(text[first..], CRLF);
    if eol == None { return; }
    value := text[first..first+eol.value];
    next, ok := first + eol.value + 2, true;
    HeaderTaken(text, start, end, first, eol.value);
  }

  lemma SpaceDropped(text: string, k: nat)
    requires k < |text| && text[k] == ' '
    ensures DropSpaces(text[k..]) == DropSpaces(text[k+1..])
  {
    assert text[k..][1..] == text[k+1..];
  }

  lemma SpacesDropped(text: string, k: nat)
    requires k <= |text| && (k < |text| ==> text[k] != ' ')
    ensures DropSpaces(text[k..]) == text[k..]
  {
  }

  lemma ColonTaken(text: string, start: nat, end: nat)
    requires start <= end < |text|
    ensures text[start..][..end-start] == text[start..end] && text[start..][end-start+1..] == text[end+1..]
  {
  }

  lemma HeaderTaken(text: string, start: nat, end: nat, first: nat, eol: nat)
    requires start <= end < first <= |text| && Find(text[start..], ":") == Some(end - start)
    requires DropSpaces(text[end+1..]) == text[first..] && Find(text[first..], CRLF) == Some(eol)
    ensures NextHeader(text[start..]) == Some(((text[start..end], text[first..first+eol]), text[first+eol+2..]))
  {
    hide Find, NextHeader, DropSpaces;
    ColonTaken(text, start, end);
    TakeApart(text[start..], end - start, text[first..], eol);
    ColonTaken(text, first, first + eol);
  }
}
