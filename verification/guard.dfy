/**
  The private cookies a request sees and the names the OIDC code uses.
  A jar maps cookie names to their (decrypted) values; encryption and
  signing of private cookies are not modelled.
 */
module Cookies {
  type Jar = map<string, string>

  const SessionCookieName: string := "oidc_user_session"
  const RedirectDestinationName: string := "oidc_redirect_destination"
}

/**
  The request guard of backend/src/oidc/guard.rs. It decides, per request,
  between Success (an authenticated user), Forward (no usable session; the
  request URI is stashed for after login) and Error 422 (a session that
  decodes but whose ID token no longer verifies). The JSON decoder and the
  ID-token verifier are parameters.
 */
module Guard {
  import opened Wrappers
  import opened Cookies
  import opened OidcFlow
  import opened Http

  /** The authenticated principal handed to route handlers. */
  datatype OidcUser = OidcUser(subject: string, preferredUsername: Option<string>, mappedRoles: seq<string>)

  /** Rocket's request outcome. */
  datatype Outcome = Success(user: OidcUser) | Error(status: nat) | Forward(status: nat)

  /** The outcome and the cookie jar after the guard's additions and removals. */
  datatype GuardResult = GuardResult(outcome: Outcome, jar: Jar)

  /** `serde_json::from_str::<OidcSessionCookie>` on a cookie value. */
  type Decoder = string -> Option<SessionCookie>

  datatype ClaimsVerificationError = ClaimsVerificationError

  /** `load_from_session`: re-verifies the stored ID token against the flow's stored nonce. */
  function LoadFromSession(flow: Flow, session: SessionCookie, verify: Verifier): (r: Result<OidcUser, ClaimsVerificationError>)
    ensures r.Success? <==> verify(session.idToken, flow.nonce).Some?
    ensures r.Success? ==>
      var claims := verify(session.idToken, flow.nonce).value;
      && r.value.subject == claims.subject
      && r.value.preferredUsername == claims.preferredUsername
      && r.value.mappedRoles == session.mappedRoles
  {
    match verify(session.idToken, flow.nonce)
    case None => Wrappers.Failure(ClaimsVerificationError)
    case Some(claims) => Wrappers.Success(OidcUser(claims.subject, claims.preferredUsername, session.mappedRoles))
  }

  /** A session cookie value that decodes and whose ID token verifies. */
  predicate ValidSession(value: string, flow: Flow, decode: Decoder, verify: Verifier) {
    decode(value).Some? && verify(decode(value).value.idToken, flow.nonce).Some?
  }

  /** `from_request`: the three-way decision and its effect on the cookie jar. */
  function FromRequest(jar: Jar, uri: string, flow: Flow, decode: Decoder, verify: Verifier): (r: GuardResult)
    ensures r.outcome.Success? <==> SessionCookieName in jar && ValidSession(jar[SessionCookieName], flow, decode, verify)
    ensures r.outcome.Success? ==>
      && r.jar == jar
      && r.outcome.user == LoadFromSession(flow, decode(jar[SessionCookieName]).value, verify).value
    ensures SessionCookieName !in jar ==>
      r.outcome == Forward(StatusOk) && r.jar == jar[RedirectDestinationName := uri]
    ensures SessionCookieName in jar && decode(jar[SessionCookieName]).None? ==>
      r.outcome == Forward(StatusOk) && r.jar == (jar - {SessionCookieName})[RedirectDestinationName := uri]
    ensures r.outcome.Error? <==>
      SessionCookieName in jar && decode(jar[SessionCookieName]).Some? && !ValidSession(jar[SessionCookieName], flow, decode, verify)
    ensures r.outcome.Error? ==> r.outcome.status == StatusUnprocessableEntity && r.jar == jar - {SessionCookieName}
  {
    if SessionCookieName in jar then
      match decode(jar[SessionCookieName])
      case Some(session) =>
        (match LoadFromSession(flow, session, verify)
         case Success(user) => GuardResult(Outcome.Success(user), jar)
         case Failure(_) => GuardResult(Error(StatusUnprocessableEntity), jar - {SessionCookieName}))
      case None =>
        GuardResult(Forward(StatusOk), (jar - {SessionCookieName})[RedirectDestinationName := uri])
    else
      GuardResult(Forward(StatusOk), jar[RedirectDestinationName := uri])
  }

  /** After the guard, a session cookie left in the jar is one that decodes and verifies. */
  lemma GuardLeavesOnlyValidSessions(jar: Jar, uri: string, flow: Flow, decode: Decoder, verify: Verifier)
    ensures var r := FromRequest(jar, uri, flow, decode, verify);
      SessionCookieName in r.jar ==> ValidSession(r.jar[SessionCookieName], flow, decode, verify) && r.outcome.Success?
  {
  }

  /**
    Running the guard again, at a later request, on the jar it left. Each
    request checks the ID token with its own verifier, since the check
    depends on the time (an expired token no longer verifies). Anything but
    Success becomes Forward; a Success is repeated while the token still
    verifies with the same claims, and becomes Error 422, with the session
    cookie removed, once it no longer verifies.
   */
  lemma GuardRerun(jar: Jar, uri: string, uri2: string, flow: Flow, decode: Decoder, verify: Verifier, verifyLater: Verifier)
    ensures var first := FromRequest(jar, uri, flow, decode, verify);
      var second := FromRequest(first.jar, uri2, flow, decode, verifyLater);
      && (!first.outcome.Success? ==> second.outcome == Forward(StatusOk))
      && (first.outcome.Success? ==>
            var token := decode(jar[SessionCookieName]).value.idToken;
            && (verifyLater(token, flow.nonce) == verify(token, flow.nonce) ==> second == first)
            && (verifyLater(token, flow.nonce).None? ==>
                  second.outcome == Error(StatusUnprocessableEntity) && SessionCookieName !in second.jar))
  {
    var first := FromRequest(jar, uri, flow, decode, verify);
    GuardLeavesOnlyValidSessions(jar, uri, flow, decode, verify);
    if !first.outcome.Success? {
      assert SessionCookieName !in first.jar;
    }
  }
}
