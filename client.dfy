/** `rest_tools/client/client.py`: a JSON-over-HTTP client holding one HTTP
    session, and its OpenID variant that keeps a bearer token fresh.

    The HTTP transport, the JSON decoder, UTF-8 decoding, token validation and
    the token endpoint's POST are not modelled; each enters as a function
    parameter, so every outcome they can have is covered. */
module Client {
  import opened Values
  import opened Strings

  // ---------------------------------------------------------------------------
  // to_str

  /** A token as a caller may pass it: text, or raw bytes. */
  datatype Token = Text(s: string) | Raw(b: Bytes)

  /** Python truthiness of an optional token. */
  predicate TokenTruthy(t: Option<Token>)
  {
    match t
    case None => false
    case Some(Text(s)) => s != ""
    case Some(Raw(b)) => b != []
  }

  /** `to_str`: text unchanged, bytes decoded as UTF-8; None when the decode
      raises. */
  function ToStr(t: Token, utf8: Bytes -> Option<string>): (r: Option<string>)
    ensures t.Text? ==> r == Some(t.s)
    ensures t.Raw? ==> r == utf8(t.b)
  {
    match t
    case Text(s) => Some(s)
    case Raw(b) => utf8(b)
  }

  // ---------------------------------------------------------------------------
  // Session configuration (open)

  /** The client certificate of a session: a (cert, key) pair or one file. */
  datatype Cert = CertPair(certFile: string, keyFile: string) | CertFile(file: string)

  /** What `open` configures on a session. `verify` is None when left at the
      library default. */
  datatype Settings = Settings(
    headers: map<string, string>,
    auth: Option<(string, string)>,
    cert: Option<Cert>,
    verify: Option<string>)

  const ContentTypeOnly: map<string, string> := map["Content-Type" := "application/json"]

  /** The basic-auth pair: set when both a username and a password are given. */
  function AuthOf(kwargs: map<string, string>): (r: Option<(string, string)>)
    ensures r.Some? <==> "username" in kwargs && "password" in kwargs
    ensures r.Some? ==> r.value == (kwargs["username"], kwargs["password"])
  {
    if "username" in kwargs && "password" in kwargs then Some((kwargs["username"], kwargs["password"])) else None
  }

  /** The client certificate: the (sslcert, sslkey) pair, or sslcert alone. */
  function CertOf(kwargs: map<string, string>): (r: Option<Cert>)
    ensures r.Some? <==> "sslcert" in kwargs
    ensures "sslcert" in kwargs && "sslkey" in kwargs ==> r == Some(CertPair(kwargs["sslcert"], kwargs["sslkey"]))
    ensures "sslcert" in kwargs && "sslkey" !in kwargs ==> r == Some(CertFile(kwargs["sslcert"]))
  {
    if "sslcert" !in kwargs then None
    else if "sslkey" in kwargs then Some(CertPair(kwargs["sslcert"], kwargs["sslkey"]))
    else Some(CertFile(kwargs["sslcert"]))
  }

  /** The CA bundle to verify against, when one is given. */
  function VerifyOf(kwargs: map<string, string>): (r: Option<string>)
    ensures r.Some? <==> "cacert" in kwargs
    ensures r.Some? ==> r.value == kwargs["cacert"]
  {
    if "cacert" in kwargs then Some(kwargs["cacert"]) else None
  }

  /** The settings `open` gives a new session, or None when turning the token
      into text raises. `kwargs` are the client's extra keyword arguments. */
  function Configure(token: Option<Token>, kwargs: map<string, string>, utf8: Bytes -> Option<string>): (r: Option<Settings>)
    ensures r.None? <==> TokenTruthy(token) && ToStr(token.value, utf8).None?
    ensures r.Some? ==> "Content-Type" in r.value.headers && r.value.headers["Content-Type"] == "application/json"
    ensures r.Some? ==> forall h :: h in r.value.headers ==> h == "Content-Type" || h == "Authorization"
    ensures r.Some? ==> ("Authorization" in r.value.headers <==> TokenTruthy(token))
    ensures r.Some? && TokenTruthy(token) ==>
      r.value.headers["Authorization"] == "Bearer " + ToStr(token.value, utf8).value
    ensures r.Some? ==> (r.value.auth.Some? <==> "username" in kwargs && "password" in kwargs)
    ensures r.Some? && r.value.auth.Some? ==> r.value.auth.value == (kwargs["username"], kwargs["password"])
    ensures r.Some? ==> (r.value.cert.Some? <==> "sslcert" in kwargs)
    ensures r.Some? && "sslcert" in kwargs && "sslkey" in kwargs ==>
      r.value.cert == Some(CertPair(kwargs["sslcert"], kwargs["sslkey"]))
    ensures r.Some? && "sslcert" in kwargs && "sslkey" !in kwargs ==> r.value.cert == Some(CertFile(kwargs["sslcert"]))
    ensures r.Some? ==> (r.value.verify.Some? <==> "cacert" in kwargs)
    ensures r.Some? && "cacert" in kwargs ==> r.value.verify == Some(kwargs["cacert"])
  {
    var bearer := if TokenTruthy(token) then ToStr(token.value, utf8) else None;
    if TokenTruthy(token) && bearer.None? then None
    else
      var headers := if bearer.Some? then ContentTypeOnly["Authorization" := "Bearer " + bearer.value] else ContentTypeOnly;
      Some(Settings(headers, AuthOf(kwargs), CertOf(kwargs), VerifyOf(kwargs)))
  }

  /** The settings with the bearer header set, as the OpenID client does it. */
  function WithBearer(s: Settings, accessToken: string): (r: Settings)
    ensures "Authorization" in r.headers && r.headers["Authorization"] == "Bearer " + accessToken
    ensures r.headers.Keys == s.headers.Keys + {"Authorization"}
    ensures forall h :: h in s.headers && h != "Authorization" ==> h in r.headers && r.headers[h] == s.headers[h]
    ensures r.auth == s.auth && r.cert == s.cert && r.verify == s.verify
  {
    s.(headers := s.headers["Authorization" := "Bearer " + accessToken])
  }

  /** An HTTP session (`Session` when `sync`, `AsyncSession` otherwise). */
  class Session {
    const sync: bool
    const retries: int
    var headers: map<string, string>
    var auth: Option<(string, string)>
    var cert: Option<Cert>
    var verify: Option<string>
    var closed: bool

    constructor (sync: bool, retries: int)
      ensures this.sync == sync && this.retries == retries
      ensures headers == map[] && auth.None? && cert.None? && verify.None? && !closed
    {
      this.sync := sync;
      this.retries := retries;
      headers := map[];
      auth := None;
      cert := None;
      verify := None;
      closed := false;
    }

    function Current(): Settings
      reads this
    {
      Settings(headers, auth, cert, verify)
    }

    method Close()
      modifies this
      ensures closed && Current() == old(Current())
    {
      closed := true;
    }
  }

  // ---------------------------------------------------------------------------
  // Request preparation (_prepare)

  /** `path` with one leading '/' removed. */
  function StripLeadingSlash(path: string): (p: string)
    ensures StartsWith(path, "/") ==> path == "/" + p
    ensures !StartsWith(path, "/") ==> p == path
  {
    if StartsWith(path, "/") then path[1..] else path
  }

  /** `os.path.join(a, b)` for POSIX paths. */
  function PathJoin(a: string, b: string): (r: string)
    ensures StartsWith(b, "/") ==> r == b
    ensures !StartsWith(b, "/") ==> StartsWith(r, a) && EndsWith(r, b)
    ensures !StartsWith(b, "/") ==> |r| == |a| + |b| + (if a == "" || EndsWith(a, "/") then 0 else 1)
    ensures !StartsWith(b, "/") && a != "" && !EndsWith(a, "/") ==> r == a + "/" + b
  {
    if StartsWith(b, "/") then b
    else if a == "" || EndsWith(a, "/") then a + b
    else a + "/" + b
  }

  /** Where the request arguments go: the query string, or a JSON body. */
  datatype Payload = Params(params: Json) | Body(json: Json)

  /** The keyword arguments passed to `session.request`. */
  datatype RequestKwargs = RequestKwargs(timeout: real, payload: Payload)

  predicate ArgsTruthy(args: Option<Json>)
  {
    args.Some? && Truthy(args.value)
  }

  function PayloadArgs(p: Payload): Json
  {
    match p
    case Params(a) => a
    case Body(a) => a
  }

  // ---------------------------------------------------------------------------
  // Responses (_decode, raise_for_status)

  datatype Response = Response(status: nat, content: Bytes)

  /** What a request returns or raises: the decoded value (None for an empty
      body), an HTTP error status, or any other exception. */
  datatype Reply = Returned(value: Option<Json>) | HttpFailed(status: nat) | Raised

  /** `_decode`: an empty body gives None without decoding; otherwise the
      decoded value, and a decoding error propagates. */
  function Decode(content: Bytes, jsonDecode: Bytes -> Loaded): (r: Reply)
    ensures !r.HttpFailed?
    ensures content == [] ==> r == Returned(None)
    ensures content != [] ==> (r.Raised? <==> !jsonDecode(content).Loaded?)
    ensures content != [] && r.Returned? ==> r.value == Some(jsonDecode(content).value)
  {
    if content == [] then Returned(None)
    else
      match jsonDecode(content)
      case Loaded(v) => Returned(Some(v))
      case _ => Raised
  }

  /** `raise_for_status` followed by `_decode`; `sent` is None when the
      transport itself raised. */
  function Complete(sent: Option<Response>, jsonDecode: Bytes -> Loaded): (r: Reply)
    ensures r.HttpFailed? <==> sent.Some? && 400 <= sent.value.status < 600
    ensures r.HttpFailed? ==> r.status == sent.value.status
    ensures sent.None? ==> r == Raised
    ensures sent.Some? && !(400 <= sent.value.status < 600) ==> r == Decode(sent.value.content, jsonDecode)
  {
    match sent
    case None => Raised
    case Some(response) =>
      if 400 <= response.status < 600 then HttpFailed(response.status)
      else Decode(response.content, jsonDecode)
  }

  /** A transport: what `session.request(verb, url, **kwargs)` gives on a
      session with the given settings; None when it raises. */
  type Transport = (Settings, string, string, RequestKwargs) -> Option<Response>

  // ---------------------------------------------------------------------------
  // RestClient

  class RestClient {
    const address: string
    const token: Option<Token>
    const timeout: real
    const retries: int
    /** The extra keyword arguments (`username`, `password`, `sslcert`, ...). */
    const kwargs: map<string, string>
    var session: Session?

    /** `__init__`: stores the settings and opens an asynchronous session. */
    constructor (address: string, token: Option<Token>, timeout: real, retries: int,
                 kwargs: map<string, string>, utf8: Bytes -> Option<string>)
      ensures this.address == address && this.token == token && this.timeout == timeout
      ensures this.retries == retries && this.kwargs == kwargs
      ensures session != null && fresh(session) && !session.sync && session.retries == retries && !session.closed
      ensures Configure(token, kwargs, utf8).Some? ==> session.Current() == Configure(token, kwargs, utf8).value
      ensures Configure(token, kwargs, utf8).None? ==> session.Current() == Settings(ContentTypeOnly, None, None, None)
    {
      this.address := address;
      this.token := token;
      this.timeout := timeout;
      this.retries := retries;
      this.kwargs := kwargs;
      session := null;
      new;
      var _ := Open(false, utf8);
    }

    /** Settings that agree with Configure piece by piece are Configure's. */
    static lemma SettingsOfConfigure(token: Option<Token>, kwargs: map<string, string>, utf8: Bytes -> Option<string>, st: Settings)
      requires !TokenTruthy(token) || ToStr(token.value, utf8).Some?
      requires st.headers == if TokenTruthy(token) then ContentTypeOnly["Authorization" := "Bearer " + ToStr(token.value, utf8).value] else ContentTypeOnly
      requires st.auth == AuthOf(kwargs) && st.cert == CertOf(kwargs) && st.verify == VerifyOf(kwargs)
      ensures Configure(token, kwargs, utf8) == Some(st)
    {
    }

    /** `open(sync)`: a new session configured from the token and kwargs.
        When turning the token into text raises, the new session is left
        with only the content-type header. */
    method Open(sync: bool, utf8: Bytes -> Option<string>) returns (ok: bool)
      modifies this
      ensures session != null && fresh(session)
      ensures session.sync == sync && session.retries == retries && !session.closed
      ensures ok <==> Configure(token, kwargs, utf8).Some?
      ensures ok ==> session.Current() == Configure(token, kwargs, utf8).value
      ensures !ok ==> session.Current() == Settings(ContentTypeOnly, None, None, None)
    {
      var s := new Session(sync, retries);
      s.headers := ContentTypeOnly;
      session := s;
      if TokenTruthy(token) {
        var text := ToStr(token.value, utf8);
        if text.None? {
          return false;
        }
        s.headers := s.headers["Authorization" := "Bearer " + text.value];
      }
      ApplyKwargs(s);
      SettingsOfConfigure(token, kwargs, utf8, s.Current());
      return true;
    }

    /** The part of `open` that copies basic auth, the client certificate
        and the CA bundle from the keyword arguments onto a fresh session. */
    method ApplyKwargs(s: Session)
      requires s.auth.None? && s.cert.None? && s.verify.None?
      modifies s
      ensures s.auth == AuthOf(kwargs) && s.cert == CertOf(kwargs) && s.verify == VerifyOf(kwargs)
      ensures s.headers == old(s.headers) && s.closed == old(s.closed)
    {
      if "username" in kwargs && "password" in kwargs {
        s.auth := Some((kwargs["username"], kwargs["password"]));
      }
      if "sslcert" in kwargs {
        if "sslkey" in kwargs {
          s.cert := Some(CertPair(kwargs["sslcert"], kwargs["sslkey"]));
        } else {
          s.cert := Some(CertFile(kwargs["sslcert"]));
        }
      }
      if "cacert" in kwargs {
        s.verify := Some(kwargs["cacert"]);
      }
    }

    /** `close()`: closes the current session, if there is one. */
    method Close()
      modifies session
      ensures session == old(session)
      ensures session != null ==> session.closed && session.Current() == old(session.Current())
    {
      if session != null {
        session.Close();
      }
    }

    /** `_prepare`: the URL and the keyword arguments of a request. */
    function Prepare(verb: string, path: string, args: Option<Json>): (r: (string, RequestKwargs))
      ensures r.1.timeout == timeout
      ensures r.1.payload.Params? <==> verb == "GET" || verb == "HEAD"
      ensures PayloadArgs(r.1.payload) == (if ArgsTruthy(args) then args.value else JObject([]))
      ensures r.0 == PathJoin(address, StripLeadingSlash(path))
    {
      var a := if ArgsTruthy(args) then args.value else JObject([]);
      var url := PathJoin(address, StripLeadingSlash(path));
      var payload := if verb == "GET" || verb == "HEAD" then Params(a) else Body(a);
      (url, RequestKwargs(timeout, payload))
    }

    /** One leading '/' on the path makes no difference. */
    lemma LeadingSlashIgnored(verb: string, path: string, args: Option<Json>)
      requires !StartsWith(path, "/")
      ensures Prepare(verb, "/" + path, args) == Prepare(verb, path, args)
    {
      assert StartsWith("/" + path, "/");
      assert ("/" + path)[1..] == path;
    }

    /** A relative path lands under the address, joined by exactly one '/'. */
    lemma UrlUnderAddress(verb: string, path: string, args: Option<Json>)
      requires address != "" && !EndsWith(address, "/")
      requires !StartsWith(StripLeadingSlash(path), "/")
      ensures Prepare(verb, path, args).0 == address + "/" + StripLeadingSlash(path)
    {
    }

    /** A path starting with "//" keeps only its second '/' onwards: the
        address is dropped. */
    lemma DoubleSlashDropsAddress(verb: string, path: string, args: Option<Json>)
      requires StartsWith(path, "//")
      ensures Prepare(verb, path, args).0 == path[1..]
    {
      assert path[1..][..1] == path[1..2] == "/";
    }

    /** `request`: sends on the current session and decodes the reply. */
    method Request(verb: string, path: string, args: Option<Json>, transport: Transport, jsonDecode: Bytes -> Loaded)
      returns (reply: Reply)
      requires session != null
      ensures var (url, kw) := Prepare(verb, path, args);
              reply == Complete(transport(session.Current(), verb, url, kw), jsonDecode)
    {
      var (url, kw) := Prepare(verb, path, args);
      var sent := transport(session.Current(), verb, url, kw);
      reply := Complete(sent, jsonDecode);
    }

    /** `request_seq`: sends on a fresh synchronous session and puts the
        previous session back, whether the request returns or raises. */
    method RequestSeq(verb: string, path: string, args: Option<Json>, transport: Transport,
                      jsonDecode: Bytes -> Loaded, utf8: Bytes -> Option<string>)
      returns (reply: Reply)
      modifies this
      ensures session == old(session)
      ensures Configure(token, kwargs, utf8).None? ==> reply == Raised
      ensures Configure(token, kwargs, utf8).Some? ==>
        var (url, kw) := Prepare(verb, path, args);
        reply == Complete(transport(Configure(token, kwargs, utf8).value, verb, url, kw), jsonDecode)
    {
      var (url, kw) := Prepare(verb, path, args);
      var saved := session;
      var ok := Open(true, utf8);
      if ok {
        var sent := transport(session.Current(), verb, url, kw);
        reply := Complete(sent, jsonDecode);
      } else {
        reply := Raised;
      }
      session := saved;
    }
  }

  // ---------------------------------------------------------------------------
  // OpenIDRestClient: the token state machine (_get_token)

  /** Python truthiness of an optional token string. */
  predicate Present(t: Option<string>)
  {
    t.Some? && t.value != ""
  }

  /** What the refresh POST gives: the fields of the JSON reply, or failure
      (the POST raised, the status was an error, or the reply was not JSON). */
  datatype TokenPost = PostFailed | PostReturned(fields: map<string, string>)

  /** How `_get_token` ends: it returns, raises "No token available", or
      raises KeyError because the reply has no 'access_token'. */
  datatype TokenOutcome = TokenReady | NoTokenAvailable | AccessTokenMissing

  datatype TokenState = TokenState(access: Option<string>, refresh: Option<string>, outcome: TokenOutcome)

  /** The form data of the refresh POST. */
  function RefreshArgs(refresh: string, clientId: string, clientSecret: string): (r: map<string, string>)
    ensures r.Keys == {"grant_type", "refresh_token", "client_id", "client_secret"}
    ensures r["grant_type"] == "refresh_token" && r["refresh_token"] == refresh
    ensures r["client_id"] == clientId && r["client_secret"] == clientSecret
  {
    map["grant_type" := "refresh_token", "refresh_token" := refresh, "client_id" := clientId, "client_secret" := clientSecret]
  }

  /** `_get_token` as a function of the two token fields: keep a token that
      validates, else refresh with the refresh token, else give up. */
  function TokenStep(access: Option<string>, refresh: Option<string>, clientId: string, clientSecret: string,
                     validate: string -> bool, post: map<string, string> -> TokenPost): (r: TokenState)
    ensures Present(access) && validate(access.value) ==> r == TokenState(access, refresh, TokenReady)
    ensures r.outcome == NoTokenAvailable ==> !Present(r.access) && !Present(r.refresh)
    ensures r.outcome != TokenReady ==> !Present(r.access)
    ensures !(Present(access) && validate(access.value)) && !Present(refresh) ==>
      r.outcome == NoTokenAvailable && r.refresh == refresh
    ensures !(Present(access) && validate(access.value)) && Present(refresh) ==>
      var reply := post(RefreshArgs(refresh.value, clientId, clientSecret));
      && (reply.PostFailed? ==> r.outcome == NoTokenAvailable && r.refresh.None?)
      && (reply.PostReturned? && "access_token" in reply.fields ==>
            && r.outcome == TokenReady
            && r.access == Some(reply.fields["access_token"])
            && r.refresh == (if "refresh_token" in reply.fields then Some(reply.fields["refresh_token"]) else None))
      && (reply.PostReturned? && "access_token" !in reply.fields ==>
            r.outcome == AccessTokenMissing && r.refresh == refresh)
  {
    if Present(access) && validate(access.value) then TokenState(access, refresh, TokenReady)
    else
      var kept := if Present(access) then None else access;
      if !Present(refresh) then TokenState(kept, refresh, NoTokenAvailable)
      else
        match post(RefreshArgs(refresh.value, clientId, clientSecret))
        case PostFailed => TokenState(kept, None, NoTokenAvailable)
        case PostReturned(fields) =>
          if "access_token" !in fields then TokenState(kept, refresh, AccessTokenMissing)
          else
            var next := if "refresh_token" in fields then Some(fields["refresh_token"]) else None;
            TokenState(Some(fields["access_token"]), next, TokenReady)
  }

  /** Once no token is available, every later call gives up again without
      contacting the token service, whatever it would answer. */
  lemma NoTokenIsFinal(access: Option<string>, refresh: Option<string>, clientId: string, clientSecret: string,
                       validate: string -> bool, post: map<string, string> -> TokenPost,
                       validate': string -> bool, post': map<string, string> -> TokenPost)
    requires TokenStep(access, refresh, clientId, clientSecret, validate, post).outcome == NoTokenAvailable
    ensures var s := TokenStep(access, refresh, clientId, clientSecret, validate, post);
            TokenStep(s.access, s.refresh, clientId, clientSecret, validate', post') == s
  {
  }

  /** A freshly refreshed token that validates is kept by the next call, with
      no second refresh. */
  lemma RefreshedTokenKept(access: Option<string>, refresh: Option<string>, clientId: string, clientSecret: string,
                           validate: string -> bool, post: map<string, string> -> TokenPost,
                           post': map<string, string> -> TokenPost)
    requires var s := TokenStep(access, refresh, clientId, clientSecret, validate, post);
             s.outcome == TokenReady && Present(s.access) && validate(s.access.value)
    ensures var s := TokenStep(access, refresh, clientId, clientSecret, validate, post);
            TokenStep(s.access, s.refresh, clientId, clientSecret, validate, post') == s
  {
  }

  class OpenIDRestClient {
    /** The RestClient this client extends. */
    const base: RestClient
    const clientId: string
    const clientSecret: string
    var accessToken: Option<string>
    var refreshToken: Option<string>

    /** `__init__` up to the first `_get_token`: no access token yet. */
    constructor (base: RestClient, refreshToken: Option<string>, clientId: string, clientSecret: string)
      ensures this.base == base && this.clientId == clientId && this.clientSecret == clientSecret
      ensures accessToken.None? && this.refreshToken == refreshToken
    {
      this.base := base;
      this.clientId := clientId;
      this.clientSecret := clientSecret;
      accessToken := None;
      this.refreshToken := refreshToken;
    }

    /** `__init__`: the base client, then a first `_get_token`. When the
        base client's `open` raises on a token it cannot turn into text, the
        constructor raises before any token request: the outcome is None and
        the tokens are as given. */
    static method Connect(address: string, token: Option<Token>, timeout: real, retries: int,
                          kwargs: map<string, string>, utf8: Bytes -> Option<string>,
                          refreshToken: Option<string>, clientId: string, clientSecret: string,
                          validate: string -> bool, post: map<string, string> -> TokenPost)
      returns (c: OpenIDRestClient, outcome: Option<TokenOutcome>)
      ensures fresh(c) && fresh(c.base) && c.base.session != null && fresh(c.base.session)
      ensures c.base.address == address && c.base.token == token && c.base.kwargs == kwargs
      ensures c.base.timeout == timeout && c.base.retries == retries
      ensures c.clientId == clientId && c.clientSecret == clientSecret
      ensures !c.base.session.sync && c.base.session.retries == retries && !c.base.session.closed
      ensures Configure(token, kwargs, utf8).Some? ==> c.base.session.Current() == Configure(token, kwargs, utf8).value
      ensures Configure(token, kwargs, utf8).None? ==> c.base.session.Current() == Settings(ContentTypeOnly, None, None, None)
      ensures Configure(token, kwargs, utf8).None? ==>
        outcome.None? && c.accessToken.None? && c.refreshToken == refreshToken
      ensures Configure(token, kwargs, utf8).Some? ==>
        outcome.Some? &&
        TokenState(c.accessToken, c.refreshToken, outcome.value) ==
        TokenStep(None, refreshToken, clientId, clientSecret, validate, post)
    {
      var base := new RestClient(address, token, timeout, retries, kwargs, utf8);
      c := new OpenIDRestClient(base, refreshToken, clientId, clientSecret);
      if Configure(token, kwargs, utf8).None? {
        return c, None;
      }
      var first := c.GetToken(validate, post);
      outcome := Some(first);
    }

    /** `_get_token`. */
    method GetToken(validate: string -> bool, post: map<string, string> -> TokenPost) returns (outcome: TokenOutcome)
      modifies this
      ensures TokenState(accessToken, refreshToken, outcome) ==
              TokenStep(old(accessToken), old(refreshToken), clientId, clientSecret, validate, post)
    {
      if Present(accessToken) {
        if validate(accessToken.value) {
          return TokenReady;
        }
        accessToken := None;
      }
      if Present(refreshToken) {
        var reply := post(RefreshArgs(refreshToken.value, clientId, clientSecret));
        match reply
        case PostFailed =>
          refreshToken := None;
        case PostReturned(fields) =>
          if "access_token" !in fields {
            return AccessTokenMissing;
          }
          accessToken := Some(fields["access_token"]);
          refreshToken := if "refresh_token" in fields then Some(fields["refresh_token"]) else None;
          return TokenReady;
      }
      return NoTokenAvailable;
    }

    /** `_prepare`: refresh the token, put it on the current session as the
        bearer, then prepare as the base client does. None when `_get_token`
        raises. */
    method Prepare(verb: string, path: string, args: Option<Json>,
                   validate: string -> bool, post: map<string, string> -> TokenPost)
      returns (outcome: TokenOutcome, prepared: Option<(string, RequestKwargs)>)
      requires base.session != null
      modifies this, base.session
      ensures TokenState(accessToken, refreshToken, outcome) ==
              TokenStep(old(accessToken), old(refreshToken), clientId, clientSecret, validate, post)
      ensures prepared.Some? <==> outcome == TokenReady
      ensures prepared.Some? ==> prepared.value == base.Prepare(verb, path, args)
      ensures outcome == TokenReady && Present(accessToken) ==>
        base.session.Current() == WithBearer(old(base.session.Current()), accessToken.value)
      ensures !(outcome == TokenReady && Present(accessToken)) ==> base.session.Current() == old(base.session.Current())
      ensures base.session.closed == old(base.session.closed)
    {
      outcome := GetToken(validate, post);
      if outcome != TokenReady {
        return outcome, None;
      }
      if Present(accessToken) {
        base.session.headers := base.session.headers["Authorization" := "Bearer " + accessToken.value];
      }
      prepared := Some(base.Prepare(verb, path, args));
    }

    /** `request`, which calls this class's `_prepare`: the request goes out
        on the current session, bearer included. */
    method Request(verb: string, path: string, args: Option<Json>,
                   validate: string -> bool, post: map<string, string> -> TokenPost,
                   transport: Transport, jsonDecode: Bytes -> Loaded)
      returns (outcome: TokenOutcome, reply: Reply)
      requires base.session != null
      modifies this, base.session
      ensures TokenState(accessToken, refreshToken, outcome) ==
              TokenStep(old(accessToken), old(refreshToken), clientId, clientSecret, validate, post)
      ensures outcome != TokenReady ==> reply == Raised
      ensures outcome == TokenReady ==>
        var (url, kw) := base.Prepare(verb, path, args);
        reply == Complete(transport(base.session.Current(), verb, url, kw), jsonDecode)
      ensures outcome == TokenReady && Present(accessToken) ==>
        base.session.Current() == WithBearer(old(base.session.Current()), accessToken.value)
      ensures !(outcome == TokenReady && Present(accessToken)) ==> base.session.Current() == old(base.session.Current())
      ensures base.session.closed == old(base.session.closed)
    {
      var prepared;
      outcome, prepared := Prepare(verb, path, args, validate, post);
      if prepared.None? {
        return outcome, Raised;
      }
      var (url, kw) := prepared.value;
      var sent := transport(base.session.Current(), verb, url, kw);
      reply := Complete(sent, jsonDecode);
    }

    /** `request_seq` as inherited: this class's `_prepare` puts the bearer
        on the current session, but the request is then sent on a fresh
        synchronous session that `open` configures from the base client's
        `token` alone. */
    method RequestSeq(verb: string, path: string, args: Option<Json>,
                      validate: string -> bool, post: map<string, string> -> TokenPost,
                      transport: Transport, jsonDecode: Bytes -> Loaded, utf8: Bytes -> Option<string>)
      returns (outcome: TokenOutcome, reply: Reply)
      requires base.session != null
      modifies this, base, base.session
      ensures base.session == old(base.session)
      ensures TokenState(accessToken, refreshToken, outcome) ==
              TokenStep(old(accessToken), old(refreshToken), clientId, clientSecret, validate, post)
      ensures outcome != TokenReady || Configure(base.token, base.kwargs, utf8).None? ==> reply == Raised
      ensures outcome == TokenReady && Configure(base.token, base.kwargs, utf8).Some? ==>
        var (url, kw) := base.Prepare(verb, path, args);
        reply == Complete(transport(Configure(base.token, base.kwargs, utf8).value, verb, url, kw), jsonDecode)
      ensures outcome == TokenReady && Present(accessToken) ==>
        base.session.Current() == WithBearer(old(base.session.Current()), accessToken.value)
      ensures !(outcome == TokenReady && Present(accessToken)) ==> base.session.Current() == old(base.session.Current())
      ensures base.session.closed == old(base.session.closed)
    {
      var prepared;
      outcome, prepared := Prepare(verb, path, args, validate, post);
      if prepared.None? {
        return outcome, Raised;
      }
      var (url, kw) := prepared.value;
      var saved := base.session;
      var ok := base.Open(true, utf8);
      if ok {
        var sent := transport(base.session.Current(), verb, url, kw);
        reply := Complete(sent, jsonDecode);
      } else {
        reply := Raised;
      }
      base.session := saved;
    }

    /** `request_seq` with the bearer put on the synchronous session it
        actually sends on. */
    method RequestSeqAuthorized(verb: string, path: string, args: Option<Json>,
                                validate: string -> bool, post: map<string, string> -> TokenPost,
                                transport: Transport, jsonDecode: Bytes -> Loaded, utf8: Bytes -> Option<string>)
      returns (outcome: TokenOutcome, reply: Reply)
      requires base.session != null
      modifies this, base, base.session
      ensures base.session == old(base.session)
      ensures TokenState(accessToken, refreshToken, outcome) ==
              TokenStep(old(accessToken), old(refreshToken), clientId, clientSecret, validate, post)
      ensures outcome != TokenReady || Configure(base.token, base.kwargs, utf8).None? ==> reply == Raised
      ensures outcome == TokenReady && Configure(base.token, base.kwargs, utf8).Some? ==>
        var (url, kw) := base.Prepare(verb, path, args);
        var configured := Configure(base.token, base.kwargs, utf8).value;
        var sentWith := if Present(accessToken) then WithBearer(configured, accessToken.value) else configured;
        reply == Complete(transport(sentWith, verb, url, kw), jsonDecode)
      ensures outcome == TokenReady && Present(accessToken) ==>
        base.session.Current() == WithBearer(old(base.session.Current()), accessToken.value)
      ensures !(outcome == TokenReady && Present(accessToken)) ==> base.session.Current() == old(base.session.Current())
      ensures base.session.closed == old(base.session.closed)
    {
      var prepared;
      outcome, prepared := Prepare(verb, path, args, validate, post);
      if prepared.None? {
        return outcome, Raised;
      }
      var (url, kw) := prepared.value;
      var saved := base.session;
      var ok := base.Open(true, utf8);
      if ok {
        if Present(accessToken) {
          base.session.headers := base.session.headers["Authorization" := "Bearer " + accessToken.value];
        }
        var sent := transport(base.session.Current(), verb, url, kw);
        reply := Complete(sent, jsonDecode);
      } else {
        reply := Raised;
      }
      base.session := saved;
    }
  }

  /** The settings a sequential OpenID request is sent with, for a client
      built without a plain `token`: no Authorization header at all, whatever
      access token `_prepare` obtained. */
  lemma SequentialRequestCarriesNoBearer(kwargs: map<string, string>, utf8: Bytes -> Option<string>)
    ensures Configure(None, kwargs, utf8).Some?
    ensures "Authorization" !in Configure(None, kwargs, utf8).value.headers
  {
  }

  /** With the correction, the sequential request is sent with the settings
      the asynchronous request uses on a session opened with the same
      configuration, whatever bearer an earlier `_prepare` left on it; and a
      truthy access token is its bearer. */
  lemma CorrectedSequentialRequestMatchesAsync(configured: Settings, earlier: Option<string>, accessToken: string)
    ensures var current := if earlier.Some? then WithBearer(configured, earlier.value) else configured;
            WithBearer(current, accessToken) == WithBearer(configured, accessToken)
    ensures WithBearer(configured, accessToken).headers["Authorization"] == "Bearer " + accessToken
  {
    if earlier.Some? {
      var h := configured.headers;
      var once := h["Authorization" := "Bearer " + accessToken];
      var twice := h["Authorization" := "Bearer " + earlier.value]["Authorization" := "Bearer " + accessToken];
      assert once.Keys == twice.Keys;
      assert forall k :: k in once ==> once[k] == twice[k];
    }
  }
}
