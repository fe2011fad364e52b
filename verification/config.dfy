/**
  Startup configuration of backend/src/configuration/config.rs: building
  the security-header fairing and the OIDC flow from the `[app]` table.

  Both readers panic on bad configuration; a panic is modelled as a
  `Failure(StartupPanic)`. Regex compilation is the `compiles` parameter.
 */
module Configuration {
  import opened Wrappers
  import opened ConfigTypes
  import opened OidcFlow
  import opened SecurityHttpHeaders
  import Base64

  /** The reasons the server stops while reading its configuration. */
  datatype StartupPanic =
    | MissingSetting(setting: string)
    | InvalidRegexSet
    | OidcInitFailed(error: OAuth2Error)
    | InvalidRedirectUrl

  /** The OIDC settings that must be present, in the order they are checked. */
  const RequiredSettings: seq<string> := ["issuer_url", "redirect_url", "client_id", "client_secret"]

  /** The values of the required settings, in the order of `RequiredSettings`. */
  function RequiredValues(c: OidcConfig): (values: seq<Option<string>>)
    ensures |values| == |RequiredSettings|
  {
    [c.issuerUrl, c.redirectUrl, c.clientId, c.clientSecret]
  }

  /** The position of the first absent value at or after `from`, if any. */
  function FirstMissing(values: seq<Option<string>>, from: nat): (r: Option<nat>)
    requires from <= |values|
    ensures r.Some? ==> from <= r.value < |values| && values[r.value].None?
    ensures r.Some? ==> forall j :: from <= j < r.value ==> values[j].Some?
    ensures r.None? <==> forall j :: from <= j < |values| ==> values[j].Some?
    decreases |values| - from
  {
    if from == |values| then None
    else if values[from].None? then Some(from)
    else FirstMissing(values, from + 1)
  }

  /** The `{:?}` rendering of an `OAuth2Error`. */
  function DebugName(e: OAuth2Error): string {
    match e
    case InvalidIssuerUrl => "INVALID_ISSUER_URL"
    case ClientBuildError => "CLIENT_BUILD_ERROR"
    case ProviderMetadataDiscovery => "PROVIDER_METADATA_DISCOVERY"
  }

  const MissingPrefix: string := "Invalid "
  const InitPrefix: string := "Error initializing Oidc: "
  const UnwrapOnErr: string := "called `Result::unwrap()` on an `Err` value"
  const Unreachable: string := "internal error: entered unreachable code"

  /** The panic message the server stops with. */
  function PanicMessage(p: StartupPanic): string {
    match p
    case MissingSetting(setting) => MissingPrefix + setting + "."
    case InvalidRegexSet => UnwrapOnErr
    case OidcInitFailed(e) => InitPrefix + DebugName(e)
    case InvalidRedirectUrl => Unreachable
  }

  /** All four required OIDC settings are present. */
  predicate RequiredPresent(c: OidcConfig) {
    c.issuerUrl.Some? && c.redirectUrl.Some? && c.clientId.Some? && c.clientSecret.Some?
  }

  /** The required settings are checked in order: the first absent one is the one reported. */
  lemma FirstMissingRequired(c: OidcConfig)
    ensures FirstMissing(RequiredValues(c), 0).None? <==> RequiredPresent(c)
    ensures c.issuerUrl.None? ==> FirstMissing(RequiredValues(c), 0) == Some(0)
    ensures c.issuerUrl.Some? && c.redirectUrl.None? ==> FirstMissing(RequiredValues(c), 0) == Some(1)
    ensures c.issuerUrl.Some? && c.redirectUrl.Some? && c.clientId.None? ==> FirstMissing(RequiredValues(c), 0) == Some(2)
    ensures c.issuerUrl.Some? && c.redirectUrl.Some? && c.clientId.Some? && c.clientSecret.None? ==>
      FirstMissing(RequiredValues(c), 0) == Some(3)
  {
    var values := RequiredValues(c);
    assert values[0] == c.issuerUrl && values[1] == c.redirectUrl && values[2] == c.clientId && values[3] == c.clientSecret;
    if c.issuerUrl.Some? && c.redirectUrl.Some? {
      assert FirstMissing(values, 0) == FirstMissing(values, 2);
    }
  }

  /** `read_oidc_config`: the four required settings in order, scopes defaulting to none, then `OidcFlow::new`. */
  function ReadOidcConfig(config: Config, env: Bootstrap): (r: Result<Flow, StartupPanic>)
    ensures var missing := FirstMissing(RequiredValues(config.app.oidc), 0);
      missing.Some? ==> r == Failure(MissingSetting(RequiredSettings[missing.value]))
    ensures (r.Failure? && r.error.MissingSetting?) <==> !RequiredPresent(config.app.oidc)
    ensures r.Success? <==>
      var c := config.app.oidc;
      && RequiredPresent(c)
      && New(c.issuerUrl.value, c.redirectUrl.value, c.clientId.value, c.clientSecret.value, ConfiguredScopes(c), env).Success?
    ensures r.Success? ==>
      var c := config.app.oidc;
      && r.value == New(c.issuerUrl.value, c.redirectUrl.value, c.clientId.value, c.clientSecret.value, ConfiguredScopes(c), env).value
      && r.value.authUrl.scopes == ConfiguredScopes(c)
      && r.value.client.clientId == c.clientId.value
      && r.value.client.clientSecret == c.clientSecret.value
      && r.value.client.redirectUrl == c.redirectUrl.value
    ensures RequiredPresent(config.app.oidc) && !env.parsesAsUrl(config.app.oidc.issuerUrl.value) ==>
      r == Failure(OidcInitFailed(InvalidIssuerUrl))
    ensures RequiredPresent(config.app.oidc) ==>
      var c := config.app.oidc;
      var flow := New(c.issuerUrl.value, c.redirectUrl.value, c.clientId.value, c.clientSecret.value, ConfiguredScopes(c), env);
      && (flow.Failure? && flow.error.Returned? ==> r == Failure(OidcInitFailed(flow.error.error)))
      && (flow.Failure? && flow.error.InvalidRedirectUrlPanic? ==> r == Failure(InvalidRedirectUrl))
  {
    var c := config.app.oidc;
    FirstMissingRequired(c);
    if c.issuerUrl.None? then Failure(MissingSetting("issuer_url"))
    else if c.redirectUrl.None? then Failure(MissingSetting("redirect_url"))
    else if c.clientId.None? then Failure(MissingSetting("client_id"))
    else if c.clientSecret.None? then Failure(MissingSetting("client_secret"))
    else
      match New(c.issuerUrl.value, c.redirectUrl.value, c.clientId.value, c.clientSecret.value, ConfiguredScopes(c), env)
      case Success(flow) => Success(flow)
      case Failure(Returned(e)) => Failure(OidcInitFailed(e))
      case Failure(InvalidRedirectUrlPanic) => Failure(InvalidRedirectUrl)
  }

  /** The scopes to request: the configured list, or none when the setting is absent. */
  function ConfiguredScopes(c: OidcConfig): (scopes: seq<string>)
    ensures c.scopes.None? ==> scopes == []
    ensures c.scopes.Some? ==> scopes == c.scopes.value
  {
    if c.scopes.Some? then c.scopes.value else []
  }

  /** The nonce-path patterns to compile: the configured list, or none when the setting is absent. */
  function NoncePaths(config: Config): seq<string> {
    match config.app.httpheaders.contentSecurityPolicyInjectNoncePaths
    case None => []
    case Some(paths) => paths
  }

  /** `read_security_http_headers_config`: the fairing over the whole `[app]` table and the compiled nonce paths. */
  function ReadSecurityHttpHeadersConfig(config: Config, compiles: string -> bool): (r: Result<SecurityHeaders, StartupPanic>)
    ensures r.Success? <==> forall i :: 0 <= i < |NoncePaths(config)| ==> compiles(NoncePaths(config)[i])
    ensures r.Failure? ==> r.error == InvalidRegexSet
    ensures r.Success? ==> r.value.config == config.app && r.value.regexPaths.patterns == NoncePaths(config)
  {
    match config.app.httpheaders.contentSecurityPolicyInjectNoncePaths
    case None => Success(SecurityHeaders(config.app, RegexSet([])))
    case Some(paths) =>
      assert NoncePaths(config) == paths;
      if forall i :: 0 <= i < |paths| ==> compiles(paths[i]) then Success(SecurityHeaders(config.app, RegexSet(paths)))
      else Failure(InvalidRegexSet)
  }

  /** The missing setting reported is a required one that is absent, and every setting checked before it is present. */
  lemma MissingSettingIsFirstAbsent(config: Config, env: Bootstrap)
    ensures var r := ReadOidcConfig(config, env);
      r.Failure? && r.error.MissingSetting? ==>
        exists k :: 0 <= k < |RequiredSettings| && r.error.setting == RequiredSettings[k]
          && RequiredValues(config.app.oidc)[k].None?
          && forall j :: 0 <= j < k ==> RequiredValues(config.app.oidc)[j].Some?
  {
    var r := ReadOidcConfig(config, env);
    var missing := FirstMissing(RequiredValues(config.app.oidc), 0);
    FirstMissingRequired(config.app.oidc);
    if missing.Some? {
      var k := missing.value;
      assert r.error.setting == RequiredSettings[k] && RequiredValues(config.app.oidc)[k].None?;
    }
  }

  /** Reads the cause back from a panic message. */
  function ParsePanic(m: string): Option<StartupPanic> {
    if m == UnwrapOnErr then Some(InvalidRegexSet)
    else if m == Unreachable then Some(InvalidRedirectUrl)
    else if |m| > |MissingPrefix| && m[..|MissingPrefix|] == MissingPrefix && m[|m| - 1] == '.' then
      Some(MissingSetting(m[|MissingPrefix|..|m| - 1]))
    else if |m| >= |InitPrefix| && m[..|InitPrefix|] == InitPrefix then
      var name := m[|InitPrefix|..];
      if name == DebugName(InvalidIssuerUrl) then Some(OidcInitFailed(InvalidIssuerUrl))
      else if name == DebugName(ClientBuildError) then Some(OidcInitFailed(ClientBuildError))
      else if name == DebugName(ProviderMetadataDiscovery) then Some(OidcInitFailed(ProviderMetadataDiscovery))
      else None
    else None
  }

  lemma ConcatParts<T>(a: seq<T>, b: seq<T>, c: seq<T>)
    ensures (a + b + c)[..|a|] == a
    ensures (a + b + c)[|a|..|a + b + c| - |c|] == b
    ensures |c| > 0 ==> (a + b + c)[|a + b + c| - 1] == c[|c| - 1]
    ensures |a| > 0 ==> (a + b + c)[0] == a[0]
  {
  }

  lemma ParseMissingSetting(setting: string)
    ensures ParsePanic(PanicMessage(MissingSetting(setting))) == Some(MissingSetting(setting))
  {
    var m := PanicMessage(MissingSetting(setting));
    ConcatParts(MissingPrefix, setting, ".");
    assert m[0] == 'I';
    assert UnwrapOnErr[0] == 'c' && Unreachable[0] == 'i';
  }

  lemma ParseInitFailed(e: OAuth2Error)
    ensures ParsePanic(PanicMessage(OidcInitFailed(e))) == Some(OidcInitFailed(e))
  {
    var m := PanicMessage(OidcInitFailed(e));
    ConcatParts(InitPrefix, DebugName(e), []);
    assert m == InitPrefix + DebugName(e) + [];
    assert m[0] == 'E';
    assert UnwrapOnErr[0] == 'c' && Unreachable[0] == 'i';
    assert m[|m| - 1] != '.';
  }

  /** Every panic message names its cause: the message reads back as the panic that produced it. */
  lemma ParsePanicMessage(p: StartupPanic)
    ensures ParsePanic(PanicMessage(p)) == Some(p)
  {
    match p
    case MissingSetting(setting) => ParseMissingSetting(setting);
    case OidcInitFailed(e) => ParseInitFailed(e);
    case InvalidRegexSet =>
    case InvalidRedirectUrl =>
      assert Unreachable[0] != UnwrapOnErr[0];
  }

  /** Different panics stop the server with different messages. */
  lemma PanicMessagesDistinct(p: StartupPanic, q: StartupPanic)
    ensures PanicMessage(p) == PanicMessage(q) ==> p == q
  {
    ParsePanicMessage(p);
    ParsePanicMessage(q);
  }

  /** With no nonce paths configured, the fairing the configuration builds never touches a response. */
  lemma NoNoncePathsNoRewrite(config: Config, compiles: string -> bool, path: string, res: Response,
                              randomBytes: seq<Base64.Byte>, matches: (string, string) -> bool)
    requires |NoncePaths(config)| == 0
    requires |randomBytes| == NonceByteCount
    ensures ReadSecurityHttpHeadersConfig(config, compiles).Success?
    ensures OnResponse(ReadSecurityHttpHeadersConfig(config, compiles).value, path, res, randomBytes, matches) == res
  {
  }
}
