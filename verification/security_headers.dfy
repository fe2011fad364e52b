/**
  The response fairing of backend/src/httpfirewall/securityhttpheaders.rs.

  For a 200 response with a configured CSP template and a non-empty set of
  nonce paths, it draws 64 random bytes, base64-encodes them as the nonce,
  and sets the `Content-Security-Policy` header and a sized body. The nonce
  is spliced into the header and the body only when the tag list is
  configured, the request path matches a pattern, and the directive list is
  configured. The random bytes and the regex engine are parameters.
 */
module SecurityHttpHeaders {
  import opened Wrappers
  import opened Strings
  import Base64
  import opened ConfigTypes
  import opened Http

  const ContentSecurityPolicy: string := "Content-Security-Policy"
  const NonceByteCount: nat := 64
  const NonceLength: nat := 88

  /** A compiled `regex::RegexSet`: its patterns in configuration order. */
  datatype RegexSet = RegexSet(patterns: seq<string>)

  /** `RegexSet::is_match`: some pattern matches the path; `matches` stands for the regex engine. */
  predicate IsMatch(regexes: RegexSet, path: string, matches: (string, string) -> bool) {
    exists i :: 0 <= i < |regexes.patterns| && matches(regexes.patterns[i], path)
  }

  /** The fairing: the whole application configuration and the compiled nonce paths. */
  datatype SecurityHeaders = SecurityHeaders(config: AppConfig, regexPaths: RegexSet)

  /** The parts of a response the fairing reads or writes; `declaredSize` is the size given to `set_sized_body`. */
  datatype Response = Response(status: nat, headers: map<string, string>, body: string, declaredSize: Option<nat>)

  /** The per-response nonce: 64 random bytes in standard base64. */
  function Nonce(randomBytes: seq<Base64.Byte>): (nonce: string)
    requires |randomBytes| == NonceByteCount
    ensures |nonce| == NonceLength
    ensures forall i :: 0 <= i < |nonce| ==> nonce[i] != '"' && nonce[i] != '\''
  {
    Base64.EncodeHasNoQuotes(randomBytes);
    Base64.Encode(randomBytes)
  }

  /** The text a nonce source starts with, after the directive name. */
  const NonceSourceOpening: string := " 'nonce-"

  function DirectiveWithNonce(directive: string, nonce: string): string {
    directive + NonceSourceOpening + nonce + "'"
  }

  function TagOpening(tag: string): string {
    "<" + tag
  }

  function NonceAttribute(nonce: string): string {
    " nonce=\"" + nonce + "\""
  }

  function TagWithNonce(tag: string, nonce: string): string {
    TagOpening(tag) + NonceAttribute(nonce)
  }

  /**
    Each directive name in list order: every occurrence in the header becomes
    the name followed by the nonce source. The rewrite only inserts text (the
    template is a subsequence of the result), and a template that names none
    of the directives is kept as it is.
   */
  function InjectHeaderNonce(csp: string, directives: seq<string>, nonce: string): (r: string)
    ensures Subsequence(csp, r) && |r| >= |csp|
    ensures (forall i :: 0 <= i < |directives| ==> !Contains(csp, directives[i])) ==> r == csp
    decreases |directives|
  {
    if |directives| == 0 then
      SubsequenceSelf(csp);
      csp
    else
      var d := directives[0];
      var rep := DirectiveWithNonce(d, nonce);
      assert rep == d + (NonceSourceOpening + nonce + "'");
      ReplaceAllKeepsText(csp, d, NonceSourceOpening + nonce + "'");
      ReplaceAllGrows(csp, d, rep);
      ReplaceAllAbsent(csp, d, rep);
      var once := ReplaceAll(csp, d, rep);
      var r := InjectHeaderNonce(once, directives[1..], nonce);
      SubsequenceTrans(csp, once, r);
      r
  }

  /**
    Each tag name in list order: every `<tag` in the body gains a `nonce`
    attribute. The rewrite only inserts text (the body is a subsequence of
    the result), and a body that opens none of the tags is kept as it is.
   */
  function InjectBodyNonce(body: string, tags: seq<string>, nonce: string): (r: string)
    ensures Subsequence(body, r) && |r| >= |body|
    ensures (forall i :: 0 <= i < |tags| ==> !Contains(body, TagOpening(tags[i]))) ==> r == body
    decreases |tags|
  {
    if |tags| == 0 then
      SubsequenceSelf(body);
      body
    else
      var rep := TagWithNonce(tags[0], nonce);
      ReplaceAllKeepsText(body, TagOpening(tags[0]), NonceAttribute(nonce));
      ReplaceAllGrows(body, TagOpening(tags[0]), rep);
      ReplaceAllAbsent(body, TagOpening(tags[0]), rep);
      var once := ReplaceAll(body, TagOpening(tags[0]), rep);
      var r := InjectBodyNonce(once, tags[1..], nonce);
      SubsequenceTrans(body, once, r);
      r
  }

  /** The fairing writes a header and a body: status 200, a CSP template, and at least one nonce path. */
  predicate Rewrites(h: SecurityHeaders, res: Response) {
    && res.status == StatusOk
    && h.config.httpheaders.contentSecurityPolicy.Some?
    && |h.regexPaths.patterns| > 0
  }

  /** The nonce goes into header and body: tag list set, path matching, directive list set. */
  predicate SplicesNonce(h: SecurityHeaders, path: string, matches: (string, string) -> bool) {
    && h.config.httpheaders.contentSecurityPolicyInjectNonceTags.Some?
    && IsMatch(h.regexPaths, path, matches)
    && h.config.httpheaders.contentSecurityPolicyNonceHeaders.Some?
  }

  /** `on_response`: the decision tree over status, configuration and path match, then the two rewrites. */
  function OnResponse(h: SecurityHeaders, path: string, res: Response, randomBytes: seq<Base64.Byte>,
                      matches: (string, string) -> bool): (r: Response)
    requires |randomBytes| == NonceByteCount
    ensures !Rewrites(h, res) ==> r == res
    ensures r.status == res.status
    ensures r.headers - {ContentSecurityPolicy} == res.headers - {ContentSecurityPolicy}
    ensures Rewrites(h, res) ==> ContentSecurityPolicy in r.headers && r.declaredSize == Some(|r.body|)
    ensures Rewrites(h, res) && SplicesNonce(h, path, matches) ==>
      var csp, nonce := h.config.httpheaders.contentSecurityPolicy.value, Nonce(randomBytes);
      && r.headers[ContentSecurityPolicy] == InjectHeaderNonce(csp, h.config.httpheaders.contentSecurityPolicyNonceHeaders.value, nonce)
      && r.body == InjectBodyNonce(res.body, h.config.httpheaders.contentSecurityPolicyInjectNonceTags.value, nonce)
    ensures Rewrites(h, res) && !SplicesNonce(h, path, matches) ==>
      r.headers[ContentSecurityPolicy] == h.config.httpheaders.contentSecurityPolicy.value && r.body == res.body
  {
    if res.status != StatusOk then res
    else
      match h.config.httpheaders.contentSecurityPolicy
      case None => res
      case Some(csp) =>
        if |h.regexPaths.patterns| == 0 then res
        else
          var nonce := Nonce(randomBytes);
          var (cspValue, body) :=
            match h.config.httpheaders.contentSecurityPolicyInjectNonceTags
            case None => (csp, res.body)
            case Some(tags) =>
              if !IsMatch(h.regexPaths, path, matches) then (csp, res.body)
              else
                match h.config.httpheaders.contentSecurityPolicyNonceHeaders
                case None => (csp, res.body)
                case Some(directives) =>
                  (InjectHeaderNonce(csp, directives, nonce), InjectBodyNonce(res.body, tags, nonce));
          res.(headers := res.headers[ContentSecurityPolicy := cspValue], body := body, declaredSize := Some(|body|))
  }

  /**
    `on_response` as written: a 200 response's body is drained by `to_bytes`
    before any decision, and it is written back only on the paths that set
    the CSP header. On the other 200 paths the response goes out with the
    drained, empty body.
   */
  function OnResponseAsWritten(h: SecurityHeaders, path: string, res: Response, randomBytes: seq<Base64.Byte>,
                               matches: (string, string) -> bool): (r: Response)
    requires |randomBytes| == NonceByteCount
    ensures res.status != StatusOk ==> r == res
    ensures Rewrites(h, res) ==> r == OnResponse(h, path, res, randomBytes, matches)
    ensures res.status == StatusOk && !Rewrites(h, res) ==>
      r.body == [] && r.status == res.status && r.headers == res.headers
  {
    if res.status != StatusOk then res
    else if Rewrites(h, res) then OnResponse(h, path, res, randomBytes, matches)
    else
      var drained := match res.declaredSize case None => None case Some(_) => Some(0);
      res.(body := [], declaredSize := drained)
  }

  /** A 200 response the fairing does not rewrite loses its body as written, while `OnResponse` keeps it. */
  lemma DrainedBodyLost(h: SecurityHeaders, path: string, res: Response, randomBytes: seq<Base64.Byte>,
                        matches: (string, string) -> bool)
    requires |randomBytes| == NonceByteCount
    requires res.status == StatusOk && h.config.httpheaders.contentSecurityPolicy.None? && |res.body| > 0
    ensures OnResponseAsWritten(h, path, res, randomBytes, matches).body == []
    ensures OnResponse(h, path, res, randomBytes, matches).body == res.body
    ensures OnResponseAsWritten(h, path, res, randomBytes, matches) != OnResponse(h, path, res, randomBytes, matches)
  {
  }

  /** Directive lists are applied in order: a list is the first part followed by the rest. */
  lemma {:induction false} InjectHeaderNonceInOrder(csp: string, first: seq<string>, rest: seq<string>, nonce: string)
    ensures InjectHeaderNonce(csp, first + rest, nonce) == InjectHeaderNonce(InjectHeaderNonce(csp, first, nonce), rest, nonce)
    decreases |first|
  {
    if |first| > 0 {
      assert (first + rest)[0] == first[0];
      assert (first + rest)[1..] == first[1..] + rest;
      InjectHeaderNonceInOrder(ReplaceAll(csp, first[0], DirectiveWithNonce(first[0], nonce)), first[1..], rest, nonce);
    } else {
      assert first + rest == rest;
    }
  }

  /** Tag lists are applied in order: a list is the first part followed by the rest. */
  lemma {:induction false} InjectBodyNonceInOrder(body: string, first: seq<string>, rest: seq<string>, nonce: string)
    ensures InjectBodyNonce(body, first + rest, nonce) == InjectBodyNonce(InjectBodyNonce(body, first, nonce), rest, nonce)
    decreases |first|
  {
    if |first| > 0 {
      assert (first + rest)[0] == first[0];
      assert (first + rest)[1..] == first[1..] + rest;
      InjectBodyNonceInOrder(ReplaceAll(body, TagOpening(first[0]), TagWithNonce(first[0], nonce)), first[1..], rest, nonce);
    } else {
      assert first + rest == rest;
    }
  }

  /** One directive and one tag: header and body both carry the same per-response nonce. */
  lemma SameNonceInHeaderAndBody(h: SecurityHeaders, path: string, res: Response, randomBytes: seq<Base64.Byte>,
                                 matches: (string, string) -> bool, directive: string, tag: string)
    requires |randomBytes| == NonceByteCount
    requires Rewrites(h, res) && SplicesNonce(h, path, matches) && |directive| > 0
    requires h.config.httpheaders.contentSecurityPolicyNonceHeaders == Some([directive])
    requires h.config.httpheaders.contentSecurityPolicyInjectNonceTags == Some([tag])
    requires Contains(h.config.httpheaders.contentSecurityPolicy.value, directive)
    requires Contains(res.body, TagOpening(tag))
    ensures var r, nonce := OnResponse(h, path, res, randomBytes, matches), Nonce(randomBytes);
      && Contains(r.headers[ContentSecurityPolicy], DirectiveWithNonce(directive, nonce))
      && Contains(r.body, TagWithNonce(tag, nonce))
  {
    var nonce := Nonce(randomBytes);
    var csp := h.config.httpheaders.contentSecurityPolicy.value;
    var header := ReplaceAll(csp, directive, DirectiveWithNonce(directive, nonce));
    var body := ReplaceAll(res.body, TagOpening(tag), TagWithNonce(tag, nonce));
    assert InjectHeaderNonce(csp, [directive], nonce) == InjectHeaderNonce(header, [], nonce) == header;
    assert InjectBodyNonce(res.body, [tag], nonce) == InjectBodyNonce(body, [], nonce) == body;
    ReplaceAllShowsReplacement(csp, directive, DirectiveWithNonce(directive, nonce));
    ReplaceAllShowsReplacement(res.body, TagOpening(tag), TagWithNonce(tag, nonce));
  }

  /** A one-element directive list is a single `replace`. */
  lemma InjectHeaderNonceSingle(csp: string, directive: string, nonce: string)
    ensures InjectHeaderNonce(csp, [directive], nonce) == ReplaceAll(csp, directive, DirectiveWithNonce(directive, nonce))
  {
    var once := ReplaceAll(csp, directive, DirectiveWithNonce(directive, nonce));
    assert [directive][0] == directive && [directive][1..] == [];
    assert InjectHeaderNonce(csp, [directive], nonce) == InjectHeaderNonce(once, [], nonce);
  }

  /** A one-element tag list is a single `replace`. */
  lemma InjectBodyNonceSingle(body: string, tag: string, nonce: string)
    ensures InjectBodyNonce(body, [tag], nonce) == ReplaceAll(body, TagOpening(tag), TagWithNonce(tag, nonce))
  {
    var once := ReplaceAll(body, TagOpening(tag), TagWithNonce(tag, nonce));
    assert [tag][0] == tag && [tag][1..] == [];
    assert InjectBodyNonce(body, [tag], nonce) == InjectBodyNonce(once, [], nonce);
  }

  /** A template that is exactly the directive becomes the directive with its nonce source. */
  lemma WholeTemplateDirective(directive: string, nonce: string)
    requires |directive| > 0
    ensures InjectHeaderNonce(directive, [directive], nonce) == DirectiveWithNonce(directive, nonce)
  {
    var header := DirectiveWithNonce(directive, nonce);
    InjectHeaderNonceSingle(directive, directive, nonce);
    ReplaceAllAtFirst(directive, directive, header, 0);
    assert directive[|directive|..] == [];
  }

  /** Example: template and directive both `script-src 'self'`. */
  lemma ScriptHeaderExample(nonce: string)
    ensures InjectHeaderNonce("script-src 'self'", ["script-src 'self'"], nonce) == DirectiveWithNonce("script-src 'self'", nonce)
  {
    WholeTemplateDirective("script-src 'self'", nonce);
  }

  /**
    Directives are applied to the header as it stands, inserted nonce sources
    included. With the template `d`, the directives `d` then `c` and the
    nonce `c`, the second directive rewrites the `c` inside `'nonce-c'`:
    the header ends as `d 'nonce-c 'nonce-c''` and no longer holds
    `d 'nonce-c'`.
   */
  lemma LaterDirectiveRewritesNonce(d: string, c: char)
    requires |d| > 0 && c != '\''
    requires forall k :: 0 <= k < |d| ==> d[k] != c
    requires forall k :: 0 <= k < |NonceSourceOpening| ==> NonceSourceOpening[k] != c
    ensures InjectHeaderNonce(d, [d, [c]], [c]) == d + NonceSourceOpening + DirectiveWithNonce([c], [c]) + "'"
  {
    FirstDirectiveThenSecond(d, [c], [c]);
    NonceCharRewritten(d, c);
  }

  /** Two directives over a template that is exactly the first: the second rewrites the first's result. */
  lemma FirstDirectiveThenSecond(d: string, second: string, nonce: string)
    requires |d| > 0
    ensures InjectHeaderNonce(d, [d, second], nonce)
         == ReplaceAll(DirectiveWithNonce(d, nonce), second, DirectiveWithNonce(second, nonce))
  {
    assert [d, second] == [d] + [second];
    InjectHeaderNonceInOrder(d, [d], [second], nonce);
    WholeTemplateDirective(d, nonce);
    InjectHeaderNonceSingle(DirectiveWithNonce(d, nonce), second, nonce);
  }

  /** The one `c` in `d 'nonce-c'` is the nonce itself, and that is where the directive `c` is applied. */
  lemma NonceCharRewritten(d: string, c: char)
    requires c != '\''
    requires forall k :: 0 <= k < |d| ==> d[k] != c
    requires forall k :: 0 <= k < |NonceSourceOpening| ==> NonceSourceOpening[k] != c
    ensures ReplaceAll(DirectiveWithNonce(d, [c]), [c], DirectiveWithNonce([c], [c]))
         == d + NonceSourceOpening + DirectiveWithNonce([c], [c]) + "'"
  {
    var pre, post := d + NonceSourceOpening, "'";
    assert DirectiveWithNonce(d, [c]) == pre + [c] + post;
    forall k | 0 <= k < |pre| ensures pre[k] != c {
      if k >= |d| {
        assert pre[k] == NonceSourceOpening[k - |d|];
      }
    }
    ReplaceSingleOccurrence(pre, c, post, DirectiveWithNonce([c], [c]));
  }

  /** A tag opening at the start of a body, with no other opening of it, is the only place that changes. */
  lemma LeadingTagOnly(tag: string, rest: string, nonce: string)
    requires !Contains(rest, TagOpening(tag))
    ensures InjectBodyNonce(TagOpening(tag) + rest, [tag], nonce) == TagWithNonce(tag, nonce) + rest
  {
    var open := TagOpening(tag);
    var body := open + rest;
    var tagged := TagWithNonce(tag, nonce);
    InjectBodyNonceSingle(body, tag, nonce);
    assert body[0..|open|] == open && body[|open|..] == rest;
    ReplaceAllAtFirst(body, open, tagged, 0);
    ReplaceAllAbsent(rest, open, tagged);
    assert body[..0] == [];
  }

  lemma ClosingScriptOpensNoScript()
    ensures !Contains(">x</script>", TagOpening("script"))
  {
    var rest := ">x</script>";
    var open := TagOpening("script");
    assert |open| == 7 && open[0] == '<' && open[1] == 's';
    forall k: nat ensures !OccursAt(rest, open, k) {
      if k + 7 <= |rest| {
        if k == 2 {
          assert rest[k..k + 7][1] == '/';
        } else {
          assert rest[k..k + 7][0] != '<';
        }
      }
    }
  }

  /** Example: body `<script>x</script>` and tag `script`; the closing tag is left alone. */
  lemma ScriptBodyExample(nonce: string)
    ensures InjectBodyNonce(TagOpening("script") + ">x</script>", ["script"], nonce) == TagWithNonce("script", nonce) + ">x</script>"
  {
    ClosingScriptOpensNoScript();
    LeadingTagOnly("script", ">x</script>", nonce);
  }

  lemma NonceAttributeOpensNoTag(nonce: string)
    requires forall i :: 0 <= i < |nonce| ==> nonce[i] != '<'
    ensures forall i :: 0 <= i < |NonceAttribute(nonce) + ">"| ==> (NonceAttribute(nonce) + ">")[i] != '<'
  {
    var a := NonceAttribute(nonce) + ">";
    forall i | 0 <= i < |a| ensures a[i] != '<' {
      if i < 8 {
        assert a[i] == " nonce=\""[i];
      } else if i < 8 + |nonce| {
        assert a[i] == nonce[i - 8];
      }
    }
  }

  /** The rewrite is not idempotent: a second pass adds a second `nonce` attribute to the same tag. */
  lemma SecondPassAddsSecondNonce(tag: string, first: string, second: string)
    requires forall i :: 0 <= i < |first| ==> first[i] != '<'
    ensures InjectBodyNonce(InjectBodyNonce(TagOpening(tag) + ">", [tag], first), [tag], second)
         == TagOpening(tag) + NonceAttribute(second) + NonceAttribute(first) + ">"
  {
    var open := TagOpening(tag);
    assert open[0] == '<';
    AbsentWithoutFirstChar(">", open);
    LeadingTagOnly(tag, ">", first);
    var tail := NonceAttribute(first) + ">";
    NonceAttributeOpensNoTag(first);
    AbsentWithoutFirstChar(tail, open);
    assert TagWithNonce(tag, first) + ">" == open + tail;
    LeadingTagOnly(tag, tail, second);
  }
}
