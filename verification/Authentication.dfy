/** Basic authentication: the credentials in a request, and the realm that protects its address. */
module Authentication {
  import opened Wrappers
  import opened Utils
  import opened Base64
  import opened Base64Decoding
  import HttpRequest
  import HttpResponse
  import RequestObject
  import ResponseObject

  // ----- The realm that protects an address -----

  /** The users of a realm, with their passwords. */
  type Users = map<string, string>

  /** The longest prefix of `s` that is a key; the empty prefix is never tried. */
  function LongestKey(keys: set<string>, s: string): Option<string> {
    if s == "" then None
    else if s in keys then Some(s)
    else LongestKey(keys, s[..|s|-1])
  }

  ghost predicate IsLongestKey(keys: set<string>, s: string, k: string) {
    k != "" && k <= s && k in keys && forall j :: j in keys && j <= s ==> |j| <= |k|
  }

  lemma {:induction false} LongestKeyIsLongest(keys: set<string>, s: string)
    ensures match LongestKey(keys, s)
            case Some(k) => IsLongestKey(keys, s, k)
            case None => forall j :: j in keys && j <= s ==> j == ""
  {
    if s != "" && s !in keys {
      LongestKeyIsLongest(keys, s[..|s|-1]);
      forall j | j in keys && j <= s
        ensures j <= s[..|s|-1]
      {
        assert |j| < |s| || j == s;
      }
    }
  }

  lemma OnlyLongestKey(keys: set<string>, s: string, k: string)
    requires IsLongestKey(keys, s, k)
    ensures LongestKey(keys, s) == Some(k)
  {
    LongestKeyIsLongest(keys, s);
    var r := LongestKey(keys, s).value;
    assert |r| == |k| && r == s[..|r|] && k == s[..|k|];
  }

  /** A new realm takes over exactly the addresses that begin with its name, unless a longer name protects them. */
  lemma NewRealm(keys: set<string>, name: string, s: string)
    ensures LongestKey(keys + {name}, s) ==
            var before := LongestKey(keys, s);
            if name != "" && name <= s && (before.None? || |before.value| <= |name|) then Some(name) else before
  {
    LongestKeyIsLongest(keys, s);
    LongestKeyIsLongest(keys + {name}, s);
    var before := LongestKey(keys, s);
    if name != "" && name <= s && (before.None? || |before.value| <= |name|) {
      OnlyLongestKey(keys + {name}, s, name);
    } else if before.Some? {
      OnlyLongestKey(keys + {name}, s, before.value);
    }
  }

  method MapHasPrefix<T>(m: map<string, T>, s: string) returns (found: Option<T>)
    ensures found == match LongestKey(m.Keys, s) case None => None case Some(k) => if k in m then Some(m[k]) else None
  {
    LongestKeyIsLongest(m.Keys, s);
    var prefix := s;
    if |m| == 0 { return None; }
    var prefixSize := |prefix|;
    assert s[..|s|] == s;
    while prefixSize > 0
      invariant 0 <= prefixSize <= |prefix| && prefix <= s
      invariant LongestKey(m.Keys, s) == LongestKey(m.Keys, s[..prefixSize])
    {
      prefix := prefix[..prefixSize];
      assert prefix == s[..prefixSize] && s[..prefixSize-1] == prefix[..prefixSize-1];
      if prefix in m { return Some(m[prefix]); }
      prefixSize := prefixSize - 1;
    }
    return None;
  }

  // ----- Credentials -----

  /** The user and the password in the value of an Authorization header. */
  function Credentials(value: string): Option<(string, string)> {
    var tokens := Split(value, ' ');
    if |tokens| != 2 || tokens[0] != "Basic" then None
    else
      var userpass := Split(Decode(tokens[1]), ':');
      if |userpass| != 2 then None else Some((userpass[0], userpass[1]))
  }

  /** The first Authorization header counts. */
  function FirstAuthorization(headers: Headers): Option<string> {
    if headers == [] then None
    else if headers[0].0 == "Authorization" then Some(headers[0].1)
    else FirstAuthorization(headers[1..])
  }

  function Stored(realms: map<string, Users>, uri: string, user: string): Option<string> {
    match LongestKey(realms.Keys, uri)
    case None => None
    case Some(k) => if k in realms && user in realms[k] then Some(realms[k][user]) else None
  }

  predicate Passes(realms: map<string, Users>, uri: string, headers: Headers) {
    match FirstAuthorization(headers)
    case None => false
    case Some(value) =>
      match Credentials(value)
      case None => false
      case Some((user, pass)) => Stored(realms, uri, user) == Some(pass)
  }

  /** The first Authorization header, at `i`, is the word Basic, a space and `t`, and `t` decodes to the user, a colon and
      the password; a space at the end of the header and a colon at the end of the password are ignored. */
  ghost predicate Sends(headers: Headers, i: nat, t: string, user: string, pass: string) {
    && i < |headers| && headers[i].0 == "Authorization" && (forall j :: 0 <= j < i ==> headers[j].0 != "Authorization")
    && ' ' !in t && (headers[i].1 == "Basic " + t + " " || (t != "" && headers[i].1 == "Basic " + t))
    && ':' !in user && ':' !in pass
    && (Decode(t) == user + ":" + pass + ":" || (pass != "" && Decode(t) == user + ":" + pass))
  }

  /** The realm `k` is the one with the longest name that begins the address, and it has that password for that user. */
  ghost predicate Accepts(realms: map<string, Users>, uri: string, user: string, pass: string, k: string) {
    && k != "" && k <= uri && k in realms && (forall j :: j in realms && j <= uri ==> |j| <= |k|)
    && user in realms[k] && realms[k][user] == pass
  }

  lemma {:induction false} FirstAuthorizationIs(headers: Headers, i: nat)
    requires i < |headers| && headers[i].0 == "Authorization"
    requires forall j :: 0 <= j < i ==> headers[j].0 != "Authorization"
    ensures FirstAuthorization(headers) == Some(headers[i].1)
  {
    if i > 0 { FirstAuthorizationIs(headers[1..], i - 1); }
  }

  lemma {:induction false} FirstAuthorizationAt(headers: Headers) returns (i: nat)
    requires FirstAuthorization(headers).Some?
    ensures i < |headers| && headers[i].0 == "Authorization" && headers[i].1 == FirstAuthorization(headers).value
    ensures forall j :: 0 <= j < i ==> headers[j].0 != "Authorization"
  {
    if headers[0].0 == "Authorization" {
      i := 0;
    } else {
      i := FirstAuthorizationAt(headers[1..]);
      i := i + 1;
    }
  }

  /** The texts of a header with a user and a password. */
  lemma CredentialsAre(value: string, user: string, pass: string)
    ensures Credentials(value) == Some((user, pass)) <==>
            exists t :: Split(value, ' ') == ["Basic", t] && Split(Decode(t), ':') == [user, pass]
  {
    hide Split, Decode;
    if Credentials(value) == Some((user, pass)) {
      var t := Split(value, ' ')[1];
      assert Split(value, ' ') == ["Basic", t];
      assert Split(Decode(t), ':') == [user, pass];
    }
  }

  lemma BasicText(value: string, t: string)
    ensures Split(value, ' ') == ["Basic", t] <==>
            ' ' !in t && (value == "Basic " + t + " " || (t != "" && value == "Basic " + t))
  {
    SplitTwo(value, ' ', "Basic", t);
    hide Split;
    assert "Basic" + [' '] == "Basic ";
  }

  lemma SentIffRead(headers: Headers, user: string, pass: string)
    ensures (exists i: nat, t :: Sends(headers, i, t, user, pass)) <==>
            FirstAuthorization(headers).Some? && Credentials(FirstAuthorization(headers).value) == Some((user, pass))
  {
    hide Split, Decode, Credentials;
    if i: nat, t :| Sends(headers, i, t, user, pass) {
      FirstAuthorizationIs(headers, i);
      BasicText(headers[i].1, t);
      SplitTwo(Decode(t), ':', user, pass);
      CredentialsAre(headers[i].1, user, pass);
    }
    if FirstAuthorization(headers).Some? && Credentials(FirstAuthorization(headers).value) == Some((user, pass)) {
      var i := FirstAuthorizationAt(headers);
      var value := headers[i].1;
      CredentialsAre(value, user, pass);
      var t :| Split(value, ' ') == ["Basic", t] && Split(Decode(t), ':') == [user, pass];
      BasicText(value, t);
      SplitTwo(Decode(t), ':', user, pass);
      assert Sends(headers, i, t, user, pass);
    }
  }

  lemma AcceptedIffStored(realms: map<string, Users>, uri: string, user: string, pass: string)
    ensures (exists k :: Accepts(realms, uri, user, pass, k)) <==> Stored(realms, uri, user) == Some(pass)
  {
    LongestKeyIsLongest(realms.Keys, uri);
    hide LongestKey;
    if k :| Accepts(realms, uri, user, pass, k) { OnlyLongestKey(realms.Keys, uri, k); }
    if Stored(realms, uri, user) == Some(pass) {
      assert Accepts(realms, uri, user, pass, LongestKey(realms.Keys, uri).value);
    }
  }

  /** A request passes exactly when it sends a user and a password that the realm of its address accepts; without an
      Authorization header, with another scheme, with malformed credentials and outside every realm it is refused. */
  lemma PassesIffAccepted(realms: map<string, Users>, uri: string, headers: Headers)
    ensures Passes(realms, uri, headers) <==>
            exists i: nat, t, user, pass, k ::
              Sends(headers, i, t, user, pass) && Accepts(realms, uri, user, pass, k)
  {
    hide Sends, Accepts, Credentials, Stored;
    if Passes(realms, uri, headers) {
      var (user, pass) := Credentials(FirstAuthorization(headers).value).value;
      SentIffRead(headers, user, pass);
      AcceptedIffStored(realms, uri, user, pass);
    }
    if i: nat, t, user, pass, k :| Sends(headers, i, t, user, pass) && Accepts(realms, uri, user, pass, k) {
      SentIffRead(headers, user, pass);
      AcceptedIffStored(realms, uri, user, pass);
    }
  }

  /** The headers that ask for credentials; they name the realm that protects the address. */
  function Challenge(realm: Option<string>): Headers {
    [("Content-Type", "text/html")] +
    (match realm case Some(k) => [("WWW-Authenticate", "Basic realm=\"" + k + "\"")] case None => [])
  }

  const REFUSAL := "<html><body><h1>401 Unauthorized</h1><p>Invalid credentials</p></body></html>"

  lemma ChallengeText(realm: string)
    ensures HttpRequest.WriteHeaders(Challenge(Some(realm))) ==
            "Content-Type: text/html\r\n" + ("WWW-Authenticate: Basic realm=\"" + realm + "\"\r\n")
  {
    var name := "Basic realm=\"" + realm + "\"";
    assert Challenge(Some(realm)) == [("Content-Type", "text/html"), ("WWW-Authenticate", name)];
    hide *;
    HttpRequest.WrittenPair("Content-Type", "text/html", "WWW-Authenticate", name);
    var first := "Content-Type" + ": " + "text/html" + "\r\n";
    assert first == "Content-Type: text/html\r\n";
    assert first + "WWW-Authenticate" + ": " + name + "\r\n" == first + ("WWW-Authenticate" + ": " + name + "\r\n");
    assert "WWW-Authenticate" + ": " + name + "\r\n" == "WWW-Authenticate: " + name + "\r\n";
    assert "WWW-Authenticate: " + name + "\r\n" == "WWW-Authenticate: Basic realm=\"" + realm + "\"\r\n";
  }

  /** The text of the answer to a request that is refused in the name of a realm. */
  lemma RefusalText(realm: string)
    ensures HttpResponse.Write(HttpResponse.ResponseValue(401, Challenge(Some(realm)), REFUSAL)) ==
            Some("HTTP/1.1 401 Unauthorized\r\n"
                 + ("Content-Type: text/html\r\n" + ("WWW-Authenticate: Basic realm=\"" + realm + "\"\r\n")) + "\r\n"
                 + "<html><body><h1>401 Unauthorized</h1><p>Invalid credentials</p></body></html>")
  {
    ChallengeText(realm);
    assert HttpResponse.StatusText(401) == Some("401 Unauthorized");
    hide HttpRequest.WriteHeaders, Challenge, HttpResponse.StatusText;
    assert "HTTP/1.1 " + "401 Unauthorized" + HttpResponse.CRLF == "HTTP/1.1 401 Unauthorized\r\n";
  }

  class AuthenticationRealm {
    const users_: Users
    const realm_: string

    constructor (realm: string, users: Users)
      ensures realm_ == realm && users_ == users
    {
      users_, realm_ := users, realm;
    }

    predicate Authenticate(username: string, password: string) {
      if username in users_ then users_[username] == password else false
    }
  }

  class Authenticator {
    var realms_: map<string, AuthenticationRealm>

    constructor ()
      ensures Valid() && Realms() == map[]
    {
      realms_ := map[];
    }

    ghost predicate Valid()
      reads this
    {
      forall k :: k in realms_ ==> realms_[k].realm_ == k
    }

    function Realms(): map<string, Users>
      reads this
    {
      map k | k in realms_ :: realms_[k].users_
    }

    /** A realm takes the place of one with the same name. */
    method AddRealm(r: AuthenticationRealm)
      requires Valid()
      modifies this
      ensures Valid() && Realms() == old(Realms())[r.realm_ := r.users_]
    {
      realms_ := realms_[r.realm_ := r];
    }

    /** The realm that protects an address. */
    method Protecting(uri: string) returns (found: Option<AuthenticationRealm>)
      ensures match LongestKey(Realms().Keys, uri)
              case Some(k) => k in realms_ && found == Some(realms_[k])
              case None => found == None
    {
      hide LongestKey;
      assert Realms().Keys == realms_.Keys;
      LongestKeyIsLongest(realms_.Keys, uri);
      found := MapHasPrefix(realms_, uri);
    }

    method RequestRequiresAuthentication(req: RequestObject.Request) returns (required: bool)
      ensures required <==> LongestKey(Realms().Keys, req.uri_).Some?
    {
      hide LongestKey;
      var found := Protecting(req.uri_);
      required := found != None;
    }

    /** Asks for credentials in the name of the realm that protects the address. */
    method GenerateFailedAuthenticationResponse(req: RequestObject.Request, resp: ResponseObject.Response)
      requires Valid()
      modifies resp
      ensures resp.Value() == HttpResponse.ResponseValue(
                401, old(resp.headers_) + Challenge(LongestKey(Realms().Keys, req.uri_)), REFUSAL)
    {
      hide LongestKey;
      var found := Protecting(req.uri_);
      resp.SetStatus(401);
      resp.AddHeader("Content-Type", "text/html");
      if found != None {
        resp.AddHeader("WWW-Authenticate", "Basic realm=\"" + found.value.realm_ + "\"");
      }
      resp.SetBody(REFUSAL);
    }

    method RequestPassesAuthentication(req: RequestObject.Request) returns (ok: bool)
      ensures ok == Passes(Realms(), req.uri_, req.headers_)
    {
      var found_auth, user, pass := false, "", "";
      for i := 0 to |req.headers_|
        invariant !found_auth && FirstAuthorization(req.headers_[i..]) == FirstAuthorization(req.headers_)
      {
        var header := req.headers_[i];
        assert req.headers_[i..][0] == header && req.headers_[i..][1..] == req.headers_[i+1..];
        if header.0 == "Authorization" {
          var tokens := SplitLine(header.1, ' ');
          if |tokens| != 2 || tokens[0] != "Basic" { return false; }
          var authUserPass := Base64Decode(tokens[1]);
          var userpass := SplitLine(authUserPass, ':');
          if |userpass| != 2 { return false; }
          user, pass, found_auth := userpass[0], userpass[1], true;
          break;
        }
      }
      if !found_auth {
        assert req.headers_[|req.headers_|..] == [];
        return false;
      }
      var found := Protecting(req.uri_);
      ok := found != None && found.value.Authenticate(user, pass);
    }
  }

  // ----- Logging in -----

  /** The header value for a user and a password, as RFC 7617 section 2 defines it. */
  function Basic(user: string, pass: string): string {
    "Basic " + Encode(user + ":" + pass)
  }

  /** The password as it is read back: nothing if it is empty or has a colon, except that a colon at its end is lost. */
  function ReadPassword(pass: string): Option<string> {
    if pass == "" then None
    else if ':' !in pass then Some(pass)
    else if ':' !in pass[..|pass|-1] then Some(pass[..|pass|-1])
    else None
  }

  lemma ReadPasswordSplits(pass: string)
    ensures match ReadPassword(pass)
            case Some(p) => Split(pass, ':') == [p]
            case None => |Split(pass, ':')| != 1
  {
  }

  lemma {:induction false} EncodedHasNoSpace(s: string)
    ensures ' ' !in Encode(s) && (s != "" ==> Encode(s) != "")
  {
    hide Byte;
    if 3 <= |s| { EncodedHasNoSpace(s[3..]); }
  }

  lemma BasicTokens(user: string, pass: string)
    ensures Split(Basic(user, pass), ' ') == ["Basic", Encode(user + ":" + pass)]
  {
    var b64 := Encode(user + ":" + pass);
    EncodedHasNoSpace(user + ":" + pass);
    hide Encode, Split;
    assert Basic(user, pass) == "Basic" + [' '] + b64;
    SplitFirst("Basic", ' ', b64);
    SplitLast(b64, ' ');
  }

  /** What the server makes of the header for a user without a colon. */
  lemma BasicCredentials(user: string, pass: string)
    requires IsBytes(user) && IsBytes(pass) && ':' !in user
    ensures Credentials(Basic(user, pass)) ==
            match ReadPassword(pass) case Some(p) => Some((user, p)) case None => None
  {
    hide Encode, Decode, Split, Basic;
    BasicTokens(user, pass);
    DecodeEncode(user + ":" + pass);
    assert user + ":" + pass == user + [':'] + pass;
    SplitFirst(user, ':', pass);
    ReadPasswordSplits(pass);
  }

  /** A user and a password are read back as they were exactly when the password is not empty and neither has a colon. */
  lemma CredentialsSurvive(user: string, pass: string)
    requires IsBytes(user) && IsBytes(pass)
    ensures Credentials(Basic(user, pass)) == Some((user, pass)) <==> ':' !in user && ':' !in pass && pass != ""
  {
    if ':' !in user {
      BasicCredentials(user, pass);
    } else {
      hide Split, Basic, Encode;
      BasicTokens(user, pass);
      FieldsAreClean(Decode(Encode(user + ":" + pass)), ':');
    }
  }

  lemma {:induction false} FirstCounts(before: Headers, value: string, after: Headers)
    requires forall h :: h in before ==> h.0 != "Authorization"
    ensures FirstAuthorization(before + [("Authorization", value)] + after) == Some(value)
    decreases |before|
  {
    var headers := before + [("Authorization", value)] + after;
    if before != [] {
      assert before[0] in before;
      assert headers[1..] == before[1..] + [("Authorization", value)] + after;
      FirstCounts(before[1..], value, after);
    }
  }

  /** A request that sends a user and a password passes exactly when the realm with the longest name that begins the
      address stores what is left of the password for that user. */
  lemma LoginPasses(realms: map<string, Users>, uri: string, headers: Headers, user: string, pass: string)
    requires IsBytes(user) && IsBytes(pass) && ':' !in user
    requires FirstAuthorization(headers) == Some(Basic(user, pass))
    ensures Passes(realms, uri, headers) <==>
            ReadPassword(pass).Some? && Stored(realms, uri, user) == ReadPassword(pass)
  {
    BasicCredentials(user, pass);
    hide Basic, Credentials;
  }

  /** The right password lets its user in exactly when it is not empty and has no colon. */
  lemma RightPasswordPasses(realms: map<string, Users>, uri: string, headers: Headers, user: string, pass: string)
    requires IsBytes(user) && IsBytes(pass) && ':' !in user
    requires FirstAuthorization(headers) == Some(Basic(user, pass)) && Stored(realms, uri, user) == Some(pass)
    ensures Passes(realms, uri, headers) <==> pass != "" && ':' !in pass
  {
    hide Passes, Stored, Basic;
    LoginPasses(realms, uri, headers, user, pass);
  }

  /** Any other password counts as the right one exactly when it is the right one followed by a colon. */
  lemma OtherPasswordPasses(realms: map<string, Users>, uri: string, headers: Headers, user: string, pass: string,
      right: string)
    requires IsBytes(user) && IsBytes(pass) && ':' !in user
    requires FirstAuthorization(headers) == Some(Basic(user, pass)) && Stored(realms, uri, user) == Some(right)
    requires pass != right
    ensures Passes(realms, uri, headers) <==> ':' !in right && pass == right + ":"
  {
    hide Passes, Stored, Basic;
    LoginPasses(realms, uri, headers, user, pass);
    if pass != "" && pass[|pass|-1] == ':' { assert pass == pass[..|pass|-1] + ":"; }
    if pass == right + ":" { assert pass[..|pass|-1] == right && pass[|pass|-1] == ':'; }
  }
}
