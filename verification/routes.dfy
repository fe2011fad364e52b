/**
  The OIDC routes of backend/src/oidc/routes.rs: the callback
  `oidc_redirect`, which turns an authorization code into a session cookie
  and sends the browser back to where it came from, and `oidc_goto_auth`,
  which sends it to the identity provider.

  Building the HTTP client, the token request, ID-token verification and
  JSON serialisation come from the `CallbackEnvironment` parameter.
 */
module OidcRoutes {
  import opened Wrappers
  import opened Cookies
  import opened OidcFlow
  import Guard
  import Http

  /** The callback's query parameters. */
  datatype OidcParams = OidcParams(code: string, state: string, sessionState: string)

  /** The token endpoint's answer: an access token and, normally, an ID token. */
  datatype TokenResponse = TokenResponse(accessToken: AccessToken, idToken: Option<IdToken>)

  /** The callback's error responses; only the first carries an explicit status (500) in the source. */
  datatype OidcError =
    | ClientBuildError(message: string)
    | CodeExchangeError(message: string)
    | IdTokenError(message: string)
    | ClaimsError(message: string)
    | SerializeSessionCookie(message: string)

  /** Where a redirect sends the browser: a URI string, or the provider's authorization URL. */
  datatype Location = Uri(value: string) | Authorization(url: AuthorizationUrl)

  datatype Redirect = RedirectTo(location: Location)

  /** What the callback gets from the HTTP client, the identity provider and serde. */
  datatype CallbackEnvironment = CallbackEnvironment(
    httpClientBuilds: bool,
    requestToken: string -> Option<TokenResponse>,
    verify: Verifier,
    serialize: SessionCookie -> Option<string>)

  /** The handler's response and the cookie jar after it. */
  datatype CallbackResult = CallbackResult(response: Result<Redirect, OidcError>, jar: Jar)

  const Root: string := "/"

  /** The session the callback stores for a token response: both tokens and no roles. */
  function NewSession(tokens: TokenResponse): SessionCookie
    requires tokens.idToken.Some?
  {
    SessionCookie(tokens.accessToken, tokens.idToken.value, [])
  }

  /** Every step of the callback succeeds: client, code exchange, ID token present, claims, serialisation. */
  predicate CallbackSucceeds(flow: Flow, params: OidcParams, env: CallbackEnvironment) {
    && env.httpClientBuilds
    && flow.client.provider.tokenEndpoint.Some?
    && env.requestToken(params.code).Some?
    && env.requestToken(params.code).value.idToken.Some?
    && env.verify(env.requestToken(params.code).value.idToken.value, flow.nonce).Some?
    && env.serialize(NewSession(env.requestToken(params.code).value)).Some?
  }

  /** `oidc_redirect`: the steps run in order and the first failure decides the error; cookies change only on success. */
  function OidcRedirect(jar: Jar, flow: Flow, params: OidcParams, env: CallbackEnvironment): (r: CallbackResult)
    ensures r.response.Success? <==> CallbackSucceeds(flow, params, env)
    ensures r.response.Failure? ==> r.jar == jar
    ensures !env.httpClientBuilds ==> r.response == Failure(OidcError.ClientBuildError("Cannot build client"))
    ensures env.httpClientBuilds && (flow.client.provider.tokenEndpoint.None? || env.requestToken(params.code).None?) ==>
      r.response == Failure(CodeExchangeError("Cannot exchange code"))
    ensures env.httpClientBuilds && flow.client.provider.tokenEndpoint.Some? && env.requestToken(params.code).Some? ==>
      var tokens := env.requestToken(params.code).value;
      && (tokens.idToken.None? ==> r.response == Failure(IdTokenError("Invalid IdToken")))
      && (tokens.idToken.Some? && env.verify(tokens.idToken.value, flow.nonce).None? ==>
            r.response == Failure(ClaimsError("Invalid claims")))
      && (tokens.idToken.Some? && env.verify(tokens.idToken.value, flow.nonce).Some? && env.serialize(NewSession(tokens)).None? ==>
            r.response == Failure(SerializeSessionCookie("Cannot serialize session cookie")))
    ensures r.response.Success? ==>
      var stored := env.serialize(NewSession(env.requestToken(params.code).value)).value;
      && SessionCookieName in r.jar && r.jar[SessionCookieName] == stored
      && (RedirectDestinationName in jar ==>
            r.response.value == RedirectTo(Uri(jar[RedirectDestinationName]))
            && r.jar == (jar - {RedirectDestinationName})[SessionCookieName := stored])
      && (RedirectDestinationName !in jar ==>
            r.response.value == RedirectTo(Uri(Root)) && r.jar == jar[SessionCookieName := stored])
  {
    if !env.httpClientBuilds then CallbackResult(Failure(OidcError.ClientBuildError("Cannot build client")), jar)
    else if flow.client.provider.tokenEndpoint.None? then CallbackResult(Failure(CodeExchangeError("Cannot exchange code")), jar)
    else
      match env.requestToken(params.code)
      case None => CallbackResult(Failure(CodeExchangeError("Cannot exchange code")), jar)
      case Some(tokens) =>
        match tokens.idToken
        case None => CallbackResult(Failure(IdTokenError("Invalid IdToken")), jar)
        case Some(idToken) =>
          match env.verify(idToken, flow.nonce)
          case None => CallbackResult(Failure(ClaimsError("Invalid claims")), jar)
          case Some(_) =>
            match env.serialize(SessionCookie(tokens.accessToken, idToken, []))
            case None => CallbackResult(Failure(SerializeSessionCookie("Cannot serialize session cookie")), jar)
            case Some(serialized) =>
              var withSession := jar[SessionCookieName := serialized];
              if RedirectDestinationName in withSession then
                CallbackResult(Success(RedirectTo(Uri(withSession[RedirectDestinationName]))),
                               withSession - {RedirectDestinationName})
              else
                CallbackResult(Success(RedirectTo(Uri(Root))), withSession)
  }

  /** `oidc_goto_auth`: a redirect to the authorization URL built once at startup. */
  function GotoAuth(flow: Flow): (r: Redirect)
    ensures r.location.Authorization? && r.location.url == flow.authUrl
  {
    RedirectTo(Authorization(flow.authUrl))
  }

  /** Every login redirect of a started flow carries the flow's stored state and nonce, and no PKCE challenge. */
  lemma GotoAuthCarriesStoredState(issuerUrl: string, redirectUrl: string, clientId: string, clientSecret: string,
                                   scopes: seq<string>, env: Bootstrap)
    requires New(issuerUrl, redirectUrl, clientId, clientSecret, scopes, env).Success?
    ensures var flow := New(issuerUrl, redirectUrl, clientId, clientSecret, scopes, env).value;
      && GotoAuth(flow).location.url.state == flow.csrfState == env.randomCsrfToken
      && GotoAuth(flow).location.url.nonce == flow.nonce == env.randomNonce
      && GotoAuth(flow).location.url.codeChallenge.None?
      && GotoAuth(flow).location.url.scopes == scopes
  {
  }

  /**
    The whole login: a request without a session is forwarded and its URI
    stashed; a successful callback stores the session and redirects back to
    that URI. The next request checks the ID token again with its own
    verifier (the check depends on the time): while the token verifies with
    the same claims it is authenticated as the verified subject, with no
    roles; once it no longer verifies it gets Error 422 and loses the
    session. Serde is assumed to read back what it wrote.
   */
  lemma LoginRoundTrip(jar: Jar, uri: string, nextUri: string, flow: Flow, params: OidcParams,
                       env: CallbackEnvironment, decode: Guard.Decoder, verifyLater: Verifier)
    requires SessionCookieName !in jar
    requires forall c :: env.serialize(c).Some? ==> decode(env.serialize(c).value) == Some(c)
    requires CallbackSucceeds(flow, params, env)
    ensures var before := Guard.FromRequest(jar, uri, flow, decode, env.verify);
      var callback := OidcRedirect(before.jar, flow, params, env);
      var after := Guard.FromRequest(callback.jar, nextUri, flow, decode, verifyLater);
      var token := env.requestToken(params.code).value.idToken.value;
      var claims := env.verify(token, flow.nonce).value;
      && before.outcome == Guard.Forward(Http.StatusOk)
      && callback.response == Success(RedirectTo(Uri(uri)))
      && RedirectDestinationName !in callback.jar
      && (verifyLater(token, flow.nonce) == Some(claims) ==>
            after == Guard.GuardResult(Guard.Success(Guard.OidcUser(claims.subject, claims.preferredUsername, [])), callback.jar))
      && (verifyLater(token, flow.nonce).None? ==>
            after.outcome == Guard.Error(Http.StatusUnprocessableEntity) && SessionCookieName !in after.jar)
  {
    var before := Guard.FromRequest(jar, uri, flow, decode, env.verify);
    var tokens := env.requestToken(params.code).value;
    var session := NewSession(tokens);
    assert decode(env.serialize(session).value) == Some(session);
  }

  /** The callback never looks at the `state` parameter: it is not compared with the flow's stored CSRF state. */
  lemma CallbackIgnoresState(jar: Jar, flow: Flow, params: OidcParams, state: string, env: CallbackEnvironment)
    ensures OidcRedirect(jar, flow, params.(state := state), env) == OidcRedirect(jar, flow, params, env)
  {
  }
}
