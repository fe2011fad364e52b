# rust-rocket-svelte-example: security pipeline model

A Dafny model of the security-relevant request pipeline of a Rocket (Rust)
backend with a SvelteKit frontend:

- the response fairing `SecurityHttpHeaders::on_response`, which sets a
  Content-Security-Policy header and splices a fresh per-response nonce
  (64 random bytes in standard base64, section 4 of RFC 4648) into chosen
  CSP directives and into chosen HTML tags of the body;
- the request guard `OidcUser::from_request` with `load_from_session`,
  which turns the private `oidc_user_session` cookie into an authenticated
  user, forwards to login (stashing the request URI in
  `oidc_redirect_destination`) or answers 422;
- the OIDC callback `oidc_redirect`, a fixed sequence of fallible steps
  ending in a session cookie and a redirect, and `oidc_goto_auth`;
- the bootstrap `OidcFlow::new` and the error-chain logger `handle_error`;
- the startup readers `read_oidc_config` and
  `read_security_http_headers_config`;
- the frontend build's `strip-announcer` preprocessor, which replaces the
  first SvelteKit announcer `<div>` with an empty component.

Everything outside the repository's own logic is a parameter: URL
parsing, the HTTP client, provider discovery, the token endpoint, ID-token
verification (`Verifier`), serde encoding and decoding, regex compilation
and matching, and the random values (nonce bytes, CSRF token, OIDC nonce,
PKCE verifier). Panics at startup are `Failure(StartupPanic)` values.

Modules, one per source file, plus shared ones:

| file | module | models |
|---|---|---|
| wrappers.dfy | Wrappers | `Option`, `Result` |
| http.dfy | Http | the status codes 200 and 422 |
| strings.dfy | Strings | Rust `str::replace` on `seq<char>`, with search, split and join |
| base64.dfy | Base64 | standard base64 encoding and its decoder |
| config_types.dfy | ConfigTypes | the `[app]` configuration records |
| config.dfy | Configuration | the two startup readers |
| security_headers.dfy | SecurityHttpHeaders | the CSP fairing |
| oidcflow.dfy | OidcFlow | flow data, `handle_error`, `OidcFlow::new` |
| guard.dfy | Cookies, Guard | the cookie jar and the request guard |
| routes.dfy | OidcRoutes | `oidc_redirect`, `oidc_goto_auth` |
| strip_announcer.dfy | StripAnnouncer | the `strip-announcer` preprocessor |

## Behaviour worth knowing

- The callback maps no claims to roles and never calls the userinfo
  endpoint. The stored role list is always empty. The source writes
  `mapped_roles: Some(Vec::new())` into a `Vec<String>` field, which is a
  type mismatch; the model stores the empty list.
- For the body `<script>x</script>` and the tag `script`, the rewrite gives
  `<script nonce="N">x</script>`.
- The body rewrite is not idempotent: a second pass adds a second `nonce`
  attribute to the same tag (`SecurityHttpHeaders.SecondPassAddsSecondNonce`).
- The callback never compares the `state` query parameter with the stored
  CSRF state: its outcome does not depend on that parameter
  (`OidcRoutes.CallbackIgnoresState`).

## Model

| member | source | states |
|---|---|---|
| Strings.IndexOf | backend/src/httpfirewall/securityhttpheaders.rs:63-70 | the result is the first occurrence at or after the start position, and None exactly when there is none |
| Strings.ReplaceAllIsJoinOfSplit | backend/src/httpfirewall/securityhttpheaders.rs:63-70 | `ReplaceAll`, the model of Rust's `str::replace` (every occurrence, left to right, without overlaps), equals splitting at the pattern and joining with the replacement |
| Strings.SplitJoinRoundTrip | backend/src/httpfirewall/securityhttpheaders.rs:63-70 | joining the split pieces with the pattern gives back the original text |
| Strings.SplitPiecesAvoidPattern | backend/src/httpfirewall/securityhttpheaders.rs:63-70 | no piece between two replaced occurrences still contains the pattern |
| Strings.ReplaceAllLength | backend/src/httpfirewall/securityhttpheaders.rs:63-70 | the length of `ReplaceAll`'s result changes by the length difference once per non-overlapping occurrence |
| Strings.CountIsSplitOccurrences | backend/src/httpfirewall/securityhttpheaders.rs:63-70 | the number of places `ReplaceAll` rewrites is the number of occurrences the independent search finds, one fewer than the pieces of `Split` |
| Strings.ReplaceAllKeepsText | backend/src/httpfirewall/securityhttpheaders.rs:63-70 | when the replacement starts with the pattern, `ReplaceAll` only inserts: the text is a subsequence of the result |
| Strings.ReplaceAllAtFirst | backend/src/httpfirewall/securityhttpheaders.rs:63-70 | `ReplaceAll` keeps the text before the first occurrence, turns the occurrence into the replacement, and processes the rest the same way |
| Strings.ReplaceAllAbsent | backend/src/httpfirewall/securityhttpheaders.rs:63-70 | `ReplaceAll` returns text without the pattern unchanged |
| Strings.ReplaceAllSelf | backend/src/httpfirewall/securityhttpheaders.rs:63-70 | `ReplaceAll` with a pattern replaced by itself changes nothing, the empty pattern included |
| Strings.ReplaceAllShowsReplacement | backend/src/httpfirewall/securityhttpheaders.rs:63-70 | if the pattern occurs, `ReplaceAll`'s result contains the replacement |
| Base64.Encode | backend/src/httpfirewall/securityhttpheaders.rs:42-44 | the encoding has 4 characters per started 3-byte group, all from the standard alphabet or `=` |
| Base64.KnownAnswers | backend/src/httpfirewall/securityhttpheaders.rs:44 | `Man` encodes to `TWFu`, and `fo` and `f` to `Zm8=` and `Zg==` as in the test vectors of section 10 of RFC 4648, so the bit order and padding are the standard ones |
| Base64.DecodeEncode | backend/src/httpfirewall/securityhttpheaders.rs:42-44 | decoding the encoding gives back the bytes, so the nonce carries all 64 random bytes |
| Base64.EncodeHasNoQuotes | backend/src/httpfirewall/securityhttpheaders.rs:42-44 | no encoding contains a double or single quote |
| Base64.ValueOf | backend/src/httpfirewall/securityhttpheaders.rs:44 | every alphabet symbol is the symbol of the value it decodes to, so symbols and 6-bit values correspond one to one |
| SecurityHttpHeaders.Nonce | backend/src/httpfirewall/securityhttpheaders.rs:42-44 | the nonce of 64 bytes is 88 characters long and contains no quote, so it cannot close the attribute or source expression it is placed in |
| SecurityHttpHeaders.OnResponse | backend/src/httpfirewall/securityhttpheaders.rs:32-106 | a non-200 response, a missing CSP template or an empty path set leaves the response untouched; otherwise the CSP header is set and the declared size is the new body's length; the nonce goes into the header and body only when the tag list is set, the path matches and the directive list is set, and otherwise the header is the template and the body is unchanged; the status and all other headers are kept |
| SecurityHttpHeaders.InjectHeaderNonceInOrder | backend/src/httpfirewall/securityhttpheaders.rs:62-71 | directive names are applied in list order, each over the result of the ones before |
| SecurityHttpHeaders.InjectBodyNonceInOrder | backend/src/httpfirewall/securityhttpheaders.rs:74-83 | tag names are applied in list order, each over the result of the ones before |
| SecurityHttpHeaders.InjectHeaderNonce | backend/src/httpfirewall/securityhttpheaders.rs:62-71 | the header rewrite only inserts text: the template is a subsequence of the result, which is never shorter; a template that names none of the directives is kept as it is |
| SecurityHttpHeaders.InjectBodyNonce | backend/src/httpfirewall/securityhttpheaders.rs:74-83 | the body rewrite only inserts text: the body is a subsequence of the result, which is never shorter; a body that opens none of the tags is kept as it is |
| SecurityHttpHeaders.SameNonceInHeaderAndBody | backend/src/httpfirewall/securityhttpheaders.rs:44-83 | with one directive `d` that the template names and one tag `t` that the body opens, the header holds `d 'nonce-N'` and the body holds `<t nonce="N"` for the same nonce N |
| SecurityHttpHeaders.LaterDirectiveRewritesNonce | backend/src/httpfirewall/securityhttpheaders.rs:62-71 | each directive is applied to the header as the earlier ones left it: with the template `d`, the directives `d` then `c` and the nonce `c`, the header becomes `d 'nonce-c 'nonce-c''` |
| SecurityHttpHeaders.OnResponseAsWritten | backend/src/httpfirewall/securityhttpheaders.rs:32-106 | as written, the fairing agrees with `OnResponse` whenever it sets the CSP header, and a 200 response it does not rewrite goes out with the body `to_bytes` drained |
| SecurityHttpHeaders.DrainedBodyLost | backend/src/httpfirewall/securityhttpheaders.rs:33-35 | a 200 response with a body and no CSP template loses its body as written and keeps it under `OnResponse` |
| SecurityHttpHeaders.InjectHeaderNonceSingle | backend/src/httpfirewall/securityhttpheaders.rs:62-71 | with one directive, the header rewrite replaces every occurrence of the directive name by that name followed by the quoted nonce source |
| SecurityHttpHeaders.InjectBodyNonceSingle | backend/src/httpfirewall/securityhttpheaders.rs:74-83 | with one tag, the body rewrite replaces every `<tag` by `<tag nonce="N"` |
| SecurityHttpHeaders.WholeTemplateDirective | backend/src/httpfirewall/securityhttpheaders.rs:62-71 | a template that is just the directive name becomes that name followed by the nonce source |
| SecurityHttpHeaders.LeadingTagOnly | backend/src/httpfirewall/securityhttpheaders.rs:74-83 | a body that opens the tag once, at its start, gets the nonce attribute there and keeps the rest |
| SecurityHttpHeaders.ScriptHeaderExample | backend/src/httpfirewall/securityhttpheaders.rs:62-71 | the template `script-src 'self'` with that directive becomes `script-src 'self' 'nonce-N'` |
| SecurityHttpHeaders.ScriptBodyExample | backend/src/httpfirewall/securityhttpheaders.rs:74-83 | `<script>x</script>` with tag `script` becomes `<script nonce="N">x</script>`; the closing tag is not touched |
| SecurityHttpHeaders.SecondPassAddsSecondNonce | backend/src/httpfirewall/securityhttpheaders.rs:74-83 | running the body rewrite twice puts two `nonce` attributes on the same tag |
| OidcFlow.HandleError | backend/src/oidc/oidcflow.rs:102-110 | the logged text starts with the message, followed by one `caused by` line per error of the chain, from the error itself along its sources, until a source is absent |
| OidcFlow.AddScopes | backend/src/oidc/oidcflow.rs:174-176 | the scopes are appended in configuration order and nothing else in the request changes |
| OidcFlow.New | backend/src/oidc/oidcflow.rs:114-187 | the issuer URL, the HTTP client, discovery and the redirect URL are checked in that order and the first failure decides the error; on success the URL uses the code flow, the discovered endpoint and the configured scopes; the stored state and nonce are the ones in the URL; no PKCE challenge is attached |
| Guard.LoadFromSession | backend/src/oidc/guard.rs:25-49 | the user exists exactly when the stored ID token verifies against the flow's stored nonce; subject and username come from the claims and the roles from the session |
| Guard.FromRequest | backend/src/oidc/guard.rs:66-96 | Success exactly when the session cookie is present, decodes and verifies, with no cookie change; no cookie means Forward(200) and the request URI stashed; an undecodable cookie is removed, the URI stashed and the outcome is Forward(200); a decodable cookie that does not verify is removed and the outcome is Error(422), with nothing stashed |
| Guard.GuardLeavesOnlyValidSessions | backend/src/oidc/guard.rs:66-96 | a session cookie left in the jar after the guard decodes and verifies |
| Guard.GuardRerun | backend/src/oidc/guard.rs:66-96 | running the guard again on the jar it left turns anything but Success into Forward; a Success repeats while the later check still accepts the ID token with the same claims, and becomes Error 422 with the session cookie removed once the token no longer verifies (after expiry) |
| OidcRoutes.OidcRedirect | backend/src/oidc/routes.rs:31-113 | the client, code exchange, ID token, claims and serialisation steps run in order and the first failure decides the error and its message; on any failure no cookie changes; success needs every step; the stored session holds both tokens and no roles; the redirect goes to the stashed destination, which is removed, or to `/` |
| OidcRoutes.GotoAuth | backend/src/oidc/routes.rs:116-120 | the redirect always goes to the single authorization URL stored in the flow |
| OidcRoutes.GotoAuthCarriesStoredState | backend/src/oidc/routes.rs:116-120 | every login redirect of a started flow carries the flow's stored CSRF state, its nonce and the configured scopes, and no PKCE challenge |
| OidcRoutes.CallbackIgnoresState | backend/src/oidc/routes.rs:31-113 | the callback's outcome and cookies do not depend on the `state` query parameter: it is never compared with the stored CSRF state |
| OidcRoutes.LoginRoundTrip | backend/src/oidc/routes.rs:85-112 | a request without a session is forwarded and its URI stashed; the successful callback redirects back to that URI and clears it; the next request is authenticated as the verified subject with no roles while its check still accepts the ID token, and gets Error 422 and loses the session once it does not |
| Configuration.FirstMissing | backend/src/configuration/config.rs:134-157 | the result is the first absent setting in order, and None exactly when all are present |
| Configuration.ReadOidcConfig | backend/src/configuration/config.rs:133-175 | the first missing of issuer_url, redirect_url, client_id, client_secret stops startup with that name; missing scopes mean none are requested; any error of `OidcFlow::new` stops startup; any error `OidcFlow::new` returns stops startup with that error, and its invalid redirect URL stops it with the `unreachable!` panic; otherwise the flow is the one `OidcFlow::new` builds from the settings |
| Configuration.MissingSettingIsFirstAbsent | backend/src/configuration/config.rs:134-157 | a reported missing setting is absent and every setting checked before it is present |
| Configuration.ParsePanicMessage | backend/src/configuration/config.rs:137-172 | every startup panic message reads back as the panic that produced it |
| Configuration.PanicMessagesDistinct | backend/src/configuration/config.rs:137-172 | different startup failures stop the server with different messages |
| Configuration.ReadSecurityHttpHeadersConfig | backend/src/configuration/config.rs:73-90 | the pattern set is empty when no nonce paths are configured and otherwise holds exactly the configured paths in order; startup stops when a path does not compile; the whole application configuration is carried unchanged |
| Configuration.NoNoncePathsNoRewrite | backend/src/configuration/config.rs:74-89 | with no nonce paths configured, the fairing built at startup never changes a response; this holds of the corrected fairing, while the code as written drains the body of a 200 response (see Findings) |
| StripAnnouncer.FindMatch | frontend/svelte.config.js:11-14 | a found span starts with the announcer opening and ends with a closing `div` tag |
| StripAnnouncer.Markup | frontend/svelte.config.js:10-16 | code the regular expression matches nowhere is returned unchanged; otherwise the length changes by the replaced span, the text before it is kept and the component text appears; `FindMatchIsFirst`, `NoFindMeansNoMatch` and `MarkupKeepsAnnouncerFreePrefix` fix which span that is |
| StripAnnouncer.FindMatchIsFirst | frontend/svelte.config.js:11-14 | the span found is the leftmost match and, for that start, the shortest one, as the lazy regular expression without the global flag picks |
| StripAnnouncer.NoFindMeansNoMatch | frontend/svelte.config.js:11-14 | when no span is found, the regular expression matches nowhere in the code |
| StripAnnouncer.MarkupChangesIffMatch | frontend/svelte.config.js:10-16 | the markup changes exactly when the code holds an announcer opening followed by a closing `div` tag |
| StripAnnouncer.MarkupKeepsAnnouncerFreePrefix | frontend/svelte.config.js:10-16 | the text before the match is kept, the match becomes exactly `{@const Component = null}<Component />`, the text after it is kept, and no announcer opens before the match |

## Left out

- Network, cryptography and libraries: the HTTP client, provider discovery, the token request, ID-token signature, issuer, audience, nonce and expiry checks, and random generation are parameters. Their internal behaviour is not modelled.
- Private-cookie encryption and serde_json are left out. A cookie jar maps names to decrypted values. The decoder and serialiser are parameters. `OidcRoutes.LoginRoundTrip` assumes serde reads back what it wrote.
- Regular expressions are left out. Nonce-path matching and compilation are parameters. A pattern set fails to compile exactly when one of its patterns does, so size limits of `regex::RegexSet` are not modelled.
- SecurityHttpHeaders.OnResponse: the body is text, not bytes. `from_utf8_lossy` on a valid UTF-8 body is taken to be the identity. The declared size counts characters, which equals the byte count only for ASCII bodies.
- SecurityHttpHeaders.OnResponse: header names are compared exactly, while Rocket's `set_raw_header` replaces a header whatever the case of its name. A response that already carries `content-security-policy` keeps it in the model as another header, where Rocket would leave only the new `Content-Security-Policy`.
- SecurityHttpHeaders.OnResponse: a response the fairing leaves alone is unchanged, the intended behaviour; `OnResponseAsWritten` models the drained body of the code as written (see Findings).
- SecurityHttpHeaders.SameNonceInHeaderAndBody: stated for one directive and one tag. With several, a later directive can occur inside an earlier inserted nonce source and rewrite it (`LaterDirectiveRewritesNonce`), so the header need not keep `d 'nonce-N'`.
- The clock is not modelled. ID-token verification, its expiry check included, is a `Verifier` parameter per request; `Guard.GuardRerun` and `OidcRoutes.LoginRoundTrip` give the later request its own verifier.
- Logging through `tracing` is not modelled, apart from the text `handle_error` builds. That includes the configuration errors `on_response` logs when a list is missing.
- The `openid` scope that the OIDC library adds by itself is left out. `scopes` holds only the configured ones.
- Rocket's response plumbing is left out. Only `ClientBuildError` declares a status (500), so the model gives no status for the other callback errors.
- `configure_oidc` and `configure_fileserver` only mount routes or manage state. The `oidc_user_info` route, which answers with the guarded user, is not modelled. The permissions, referrer and cross-origin header settings and the role-claim settings are read but never used. None of these are modelled beyond their fields.
- Configuration.ReadSecurityHttpHeadersConfig: the text of the regex compilation error inside the `unwrap` panic comes from the regex library. `PanicMessage` gives only the fixed part of the panic message.

## Findings

| source | as written | input that shows it | evidently intended | confidence | as-written member | corrected member |
|---|---|---|---|---|---|---|
| backend/src/httpfirewall/securityhttpheaders.rs:33-35 | every 200 response's body is read with `to_bytes` before any decision, and the body is set again only when the CSP header is set | status 200, body `<p>hi</p>`, no CSP template configured (or no nonce paths): the response goes out with an empty body | a response the fairing does not rewrite leaves untouched, body included | medium: rests on Rocket's `to_bytes` draining the body; not executed | SecurityHttpHeaders.DrainedBodyLost | SecurityHttpHeaders.OnResponse |
