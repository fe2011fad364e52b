/**
  The OIDC client bootstrap of backend/src/oidc/oidcflow.rs: the data the
  flow keeps, the session cookie record, the error-chain logger
  `handle_error`, and `OidcFlow::new`.

  URL parsing, building the HTTP client, provider discovery and the random
  CSRF token, nonce and PKCE verifier come from the `Bootstrap` parameter.
 */
module OidcFlow {
  import opened Wrappers

  /** The errors `OidcFlow::new` returns. */
  datatype OAuth2Error = InvalidIssuerUrl | ClientBuildError | ProviderMetadataDiscovery

  /** How `OidcFlow::new` can fail: a returned error, or the panic of an unparsable redirect URL. */
  datatype NewFailure = Returned(error: OAuth2Error) | InvalidRedirectUrlPanic

  /** The discovered provider endpoints the flow uses; the token endpoint is optional in discovery. */
  datatype ProviderMetadata = ProviderMetadata(authorizationEndpoint: string, tokenEndpoint: Option<string>)

  datatype Client = Client(clientId: string, clientSecret: string, provider: ProviderMetadata, redirectUrl: string)

  /** The authorization request URL: Authorization Code flow, scopes in order, state and nonce; no PKCE challenge field is set. */
  datatype AuthorizationUrl = AuthorizationUrl(
    endpoint: string,
    responseType: string,
    clientId: string,
    redirectUrl: string,
    scopes: seq<string>,
    state: string,
    nonce: string,
    codeChallenge: Option<string>)

  /** `OidcFlow`: the client and the single login state shared by every login attempt. */
  datatype Flow = Flow(client: Client, authUrl: AuthorizationUrl, csrfState: string, nonce: string, pkceVerifierSecret: string)

  datatype AccessToken = AccessToken(secret: string)
  datatype IdToken = IdToken(jwt: string)

  /** `OidcSessionCookie`: what the session cookie carries. */
  datatype SessionCookie = SessionCookie(accessToken: AccessToken, idToken: IdToken, mappedRoles: seq<string>)

  /** The verified ID-token claims the application reads. */
  datatype IdTokenClaims = IdTokenClaims(subject: string, preferredUsername: Option<string>)

  /** `IdToken::claims` with the client's verifier: signature, issuer, audience and the expected nonce. */
  type Verifier = (IdToken, string) -> Option<IdTokenClaims>

  /** What `OidcFlow::new` gets from URL parsing, the network and the random generator. */
  datatype Bootstrap = Bootstrap(
    parsesAsUrl: string -> bool,
    httpClientBuilds: bool,
    discover: string -> Option<ProviderMetadata>,
    randomCsrfToken: string,
    randomNonce: string,
    randomPkceVerifier: string)

  const ResponseTypeCode: string := "code"
  const CausedBy: string := "\n    caused by: "

  /** A Rust error value: its `Display` text and its `source()`. */
  datatype ErrorValue = ErrorValue(display: string, source: Option<ErrorValue>)

  /** The `Display` texts of an error and its sources, starting with the error itself. */
  function Causes(e: ErrorValue): (texts: seq<string>)
    ensures |texts| >= 1 && texts[0] == e.display
  {
    [e.display] + Rest(e.source)
  }

  /** The texts still to be logged when `cur` is next in the chain. */
  function Rest(cur: Option<ErrorValue>): seq<string> {
    match cur
    case None => []
    case Some(e) => Causes(e)
  }

  /** One `caused by` line per text, in order. */
  function CauseLines(texts: seq<string>): string {
    if |texts| == 0 then "" else CauseLines(texts[..|texts| - 1]) + CausedBy + texts[|texts| - 1]
  }

  /** `handle_error`: the message logged for `fail`, walking `source()` until it is `None`. */
  method HandleError(fail: ErrorValue, msg: string) returns (logged: string)
    ensures logged == msg + CauseLines(Causes(fail))
    ensures logged[..|msg|] == msg
  {
    logged := msg;
    var cur: Option<ErrorValue> := Some(fail);
    ghost var done: seq<string> := [];
    while cur.Some?
      invariant done + Rest(cur) == Causes(fail)
      invariant logged == msg + CauseLines(done)
      decreases |Rest(cur)|
    {
      var cause := cur.value;
      logged := logged + CausedBy + cause.display;
      assert (done + [cause.display])[..|done|] == done;
      done := done + [cause.display];
      cur := cause.source;
    }
    assert done == Causes(fail);
  }

  /** `add_scope` for every configured scope, in order. */
  function AddScopes(url: AuthorizationUrl, scopes: seq<string>): (r: AuthorizationUrl)
    ensures r.scopes == url.scopes + scopes
    ensures r.(scopes := url.scopes) == url
    decreases |scopes|
  {
    if |scopes| == 0 then url
    else AddScopes(url.(scopes := url.scopes + [scopes[0]]), scopes[1..])
  }

  /** `OidcFlow::new`: issuer URL, HTTP client, discovery and redirect URL are checked in that order. */
  function New(issuerUrl: string, redirectUrl: string, clientId: string, clientSecret: string,
               scopes: seq<string>, env: Bootstrap): (r: Result<Flow, NewFailure>)
    ensures !env.parsesAsUrl(issuerUrl) ==> r == Failure(Returned(InvalidIssuerUrl))
    ensures env.parsesAsUrl(issuerUrl) && !env.httpClientBuilds ==> r == Failure(Returned(ClientBuildError))
    ensures env.parsesAsUrl(issuerUrl) && env.httpClientBuilds && env.discover(issuerUrl).None? ==>
      r == Failure(Returned(ProviderMetadataDiscovery))
    ensures env.parsesAsUrl(issuerUrl) && env.httpClientBuilds && env.discover(issuerUrl).Some? && !env.parsesAsUrl(redirectUrl) ==>
      r == Failure(InvalidRedirectUrlPanic)
    ensures r.Success? <==>
      env.parsesAsUrl(issuerUrl) && env.httpClientBuilds && env.discover(issuerUrl).Some? && env.parsesAsUrl(redirectUrl)
    ensures r.Success? ==>
      && r.value.authUrl.state == r.value.csrfState
      && r.value.authUrl.nonce == r.value.nonce
      && r.value.authUrl.codeChallenge.None?
      && r.value.authUrl.scopes == scopes
      && r.value.authUrl.endpoint == env.discover(issuerUrl).value.authorizationEndpoint
      && r.value.authUrl.responseType == ResponseTypeCode
      && r.value.client == Client(clientId, clientSecret, env.discover(issuerUrl).value, redirectUrl)
      && r.value.nonce == env.randomNonce && r.value.csrfState == env.randomCsrfToken
  {
    if !env.parsesAsUrl(issuerUrl) then Failure(Returned(InvalidIssuerUrl))
    else if !env.httpClientBuilds then Failure(Returned(ClientBuildError))
    else
      match env.discover(issuerUrl)
      case None => Failure(Returned(ProviderMetadataDiscovery))
      case Some(metadata) =>
        if !env.parsesAsUrl(redirectUrl) then Failure(InvalidRedirectUrlPanic)
        else
          var client := Client(clientId, clientSecret, metadata, redirectUrl);
          var request := AuthorizationUrl(metadata.authorizationEndpoint, ResponseTypeCode, clientId, redirectUrl,
                                          [], env.randomCsrfToken, env.randomNonce, None);
          var url := AddScopes(request, scopes);
          Success(Flow(client, url, url.state, url.nonce, env.randomPkceVerifier))
  }
}
