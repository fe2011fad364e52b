/**
  The application configuration read from the `[app]` table of the Rocket
  configuration (backend/src/configuration/config.rs). Every setting the
  file may omit is an `Option`.
 */
module ConfigTypes {
  import opened Wrappers

  /** OIDC settings. The role-claim settings are read but no code uses them. */
  datatype OidcConfig = OidcConfig(
    issuerUrl: Option<string>,
    redirectUrl: Option<string>,
    clientId: Option<string>,
    clientSecret: Option<string>,
    rolesIdtokenClaims: Option<seq<string>>,
    rolesUserinfoendpointClaims: Option<seq<string>>,
    claimsSeparator: Option<map<string, string>>,
    scopes: Option<seq<string>>)

  /** Security header settings. Only the four CSP settings are used; the other five headers are never written. */
  datatype HttpHeadersConfig = HttpHeadersConfig(
    contentSecurityPolicy: Option<string>,
    contentSecurityPolicyInjectNoncePaths: Option<seq<string>>,
    contentSecurityPolicyInjectNonceTags: Option<seq<string>>,
    contentSecurityPolicyNonceHeaders: Option<seq<string>>,
    permissionsPolicy: Option<string>,
    referrerPolicy: Option<string>,
    crossOriginEmbedderPolicy: Option<string>,
    crossOriginOpenerPolicy: Option<string>,
    crossOriginResourcePolicy: Option<string>)

  datatype StaticFilesConfig = StaticFilesConfig(location: string)

  datatype AppConfig = AppConfig(httpheaders: HttpHeadersConfig, oidc: OidcConfig, fileserver: StaticFilesConfig)

  datatype Config = Config(app: AppConfig)
}
