/** `RedirectHTTPSService`, the per-request half of the middleware: the copy of the
    configuration made by `new_transform`, and `call`, which either hands the
    request to the wrapped service or answers it with a redirect. */
module RedirectService {
  import opened StrReplace
  import opened Rewrite
  import opened RedirectHttps

  /** The scheme that is never redirected. */
  const HttpsScheme: string := "https"
  /** The start of every redirect URL, before the rules are applied. */
  const HttpsPrefix: string := "https://"
  /** HTTP status 301, Moved Permanently. */
  const MovedPermanently: int := 301

  /** The service's own fields; the wrapped inner service is represented by the
      `Forward` outcome of `Call`. */
  datatype Service = Service(disabled: bool, replacements: seq<Replacement>)

  /** What `call` reads from the request: the connection scheme, the host, and the
      request URI as `Uri` displays it. */
  datatype Request = Request(scheme: string, host: string, uri: string)

  /** The redirect response: its status code and its `Location` header. */
  datatype Response = Response(status: int, location: string)

  /** The two shapes of `call`'s result. `Forward(r)` is `Either::Left`: `r` is
      handed to the wrapped service, whose result is returned as it is.
      `Respond(resp)` is `Either::Right`: the middleware answers by itself and the
      wrapped service is not called. */
  datatype Outcome = Forward(request: Request) | Respond(response: Response)

  /** `new_transform`: the service takes its own copy of both fields. */
  function NewTransform(c: Config): Service {
    Service(c.disabled, c.replacements)
  }

  /** The configuration a service was made from. */
  function ConfigOf(svc: Service): Config {
    Config(svc.disabled, svc.replacements)
  }

  /** `format!("https://{}{}", host, uri)` followed by the rules, in order. */
  function RedirectUrl(rules: seq<Replacement>, host: string, uri: string): string {
    ApplyReplacements(HttpsPrefix + host + uri, rules)
  }

  /** `call`, with the test exactly as the code writes it:
      `scheme == "https" || !disabled` forwards the request. */
  function Call(svc: Service, req: Request): Outcome {
    if req.scheme == HttpsScheme || !svc.disabled then Forward(req)
    else Respond(Response(MovedPermanently, RedirectUrl(svc.replacements, req.host, req.uri)))
  }

  /** `call` as the code runs it: the decision, then on the redirect path the
      URL built by `format!` and rewritten by a `for` loop calling `replace`. */
  method CallService(svc: Service, req: Request) returns (o: Outcome)
    ensures o == Call(svc, req)
  {
    if req.scheme == HttpsScheme || !svc.disabled {
      return Forward(req);
    }
    var start := HttpsPrefix + req.host + req.uri;
    var url := start;
    var k := 0;
    while k < |svc.replacements|
      invariant 0 <= k <= |svc.replacements|
      invariant url == ApplyReplacements(start, svc.replacements[..k])
    {
      var rule := svc.replacements[k];
      url := ReplaceByScan(url, rule.0, rule.1);
      ApplySnoc(start, svc.replacements[..k], rule);
      assert svc.replacements[..k + 1] == svc.replacements[..k] + [rule];
      k := k + 1;
    }
    assert svc.replacements[..k] == svc.replacements;
    o := Respond(Response(MovedPermanently, url));
  }

  // ---------------------------------------------------------------------------
  // The configuration copy
  // ---------------------------------------------------------------------------

  /** `new_transform` copies the flag and the rules verbatim, so the configuration
      can be read back from the service, and every service arises this way. */
  lemma NewTransformCopies(c: Config, svc: Service)
    ensures NewTransform(c).disabled == c.disabled
    ensures NewTransform(c).replacements == c.replacements
    ensures ConfigOf(NewTransform(c)) == c
    ensures NewTransform(ConfigOf(svc)) == svc
  {}

  // ---------------------------------------------------------------------------
  // The decision
  // ---------------------------------------------------------------------------

  /** A request is forwarded exactly when its scheme is "https" or the service is
      not disabled, and it is forwarded unchanged. */
  lemma ForwardIff(svc: Service, req: Request)
    ensures Call(svc, req).Forward? <==> (req.scheme == HttpsScheme || !svc.disabled)
    ensures Call(svc, req).Forward? ==> Call(svc, req).request == req
  {}

  /** A request is redirected exactly when the service is disabled and the scheme
      is not "https". */
  lemma RedirectIff(svc: Service, req: Request)
    ensures Call(svc, req).Respond? <==> (svc.disabled && req.scheme != HttpsScheme)
  {}

  /** An "https" request is never redirected, whatever the configuration. */
  lemma HttpsNeverRedirected(svc: Service, req: Request)
    requires req.scheme == HttpsScheme
    ensures Call(svc, req) == Forward(req)
  {}

  /** A redirect is a 301 whose `Location` is the fold of the rules, in order,
      over "https://" + host + uri; with no rules it is that URL exactly. */
  lemma RedirectResponse(svc: Service, req: Request)
    requires Call(svc, req).Respond?
    ensures Call(svc, req).response.status == MovedPermanently
    ensures Call(svc, req).response.location
         == ApplyReplacements(HttpsPrefix + req.host + req.uri, svc.replacements)
    ensures svc.replacements == [] ==>
      Call(svc, req).response.location == HttpsPrefix + req.host + req.uri
  {}

  /** The last rule acts on the URL the earlier rules produced, not on the
      original one. */
  lemma RedirectUrlCumulative(rules: seq<Replacement>, last: Replacement, host: string, uri: string)
    ensures RedirectUrl(rules + [last], host, uri)
         == ReplaceAll(RedirectUrl(rules, host, uri), last.0, last.1)
  {
    ApplySnoc(HttpsPrefix + host + uri, rules, last);
  }

  // ---------------------------------------------------------------------------
  // What the builders lead to
  // ---------------------------------------------------------------------------

  /** A service made from a configuration that is not disabled forwards every
      request. */
  lemma EnabledNeverRedirects(c: Config, req: Request)
    requires IsEnabled(c)
    ensures Call(NewTransform(c), req) == Forward(req)
  {}

  /** As written, the default middleware forwards every request, "http" ones
      included. */
  lemma DefaultNeverRedirects(req: Request)
    ensures Call(NewTransform(Default()), req) == Forward(req)
  {}

  /** As written, `with_replacements` alone forwards every request, so its rules
      are never used. */
  lemma WithReplacementsNeverRedirects(rules: seq<Replacement>, req: Request)
    ensures Call(NewTransform(WithReplacements(rules)), req) == Forward(req)
  {}

  /** Only after `set_enabled(false)` does the middleware redirect, and then it
      redirects exactly the requests whose scheme is not "https". */
  lemma DisabledRedirectsInsecure(c: Config, req: Request)
    ensures Call(NewTransform(SetEnabled(c, false)), req).Respond?
        <==> req.scheme != HttpsScheme
  {}

  /** The rules given to `with_replacements` are the ones a redirect applies, once
      `set_enabled(false)` has made the middleware redirect at all. */
  lemma WithReplacementsRulesApplied(rules: seq<Replacement>, req: Request)
    requires req.scheme != HttpsScheme
    ensures Call(NewTransform(SetEnabled(WithReplacements(rules), false)), req)
         == Respond(Response(MovedPermanently, ApplyReplacements(HttpsPrefix + req.host + req.uri, rules)))
  {}

  // ---------------------------------------------------------------------------
  // The documented behaviour
  // ---------------------------------------------------------------------------

  /** What the crate documentation describes: redirect every non-"https" request
      unless the middleware is disabled. */
  function DocumentedCall(svc: Service, req: Request): Outcome {
    if req.scheme == HttpsScheme || svc.disabled then Forward(req)
    else Respond(Response(MovedPermanently, RedirectUrl(svc.replacements, req.host, req.uri)))
  }

  /** The code behaves as the documentation describes for the opposite value of
      the flag: on every request, `call` does what the documented middleware would
      do with `disabled` inverted. */
  lemma CallInvertsDocumentedFlag(svc: Service, req: Request)
    ensures Call(svc, req) == DocumentedCall(svc.(disabled := !svc.disabled), req)
    ensures req.scheme != HttpsScheme ==>
      (Call(svc, req).Forward? <==> DocumentedCall(svc, req).Respond?)
  {}

  /** The documented example `App::new().wrap(RedirectHTTPS::default())` on a plain
      "http" request: the documentation promises a redirect, the code forwards. */
  lemma DefaultContradictsDocumentation()
    ensures Call(NewTransform(Default()), Request("http", "example.com", "/"))
         == Forward(Request("http", "example.com", "/"))
    ensures DocumentedCall(NewTransform(Default()), Request("http", "example.com", "/"))
         == Respond(Response(301, "https://example.com/"))
  {}

  // ---------------------------------------------------------------------------
  // Worked examples
  // ---------------------------------------------------------------------------

  /** A port rule on a disabled middleware: ":8080" becomes ":8443". */
  lemma PortRewriteExample()
    ensures Call(NewTransform(SetEnabled(WithReplacements([(":8080", ":8443")]), false)),
                 Request("http", "example.com:8080", "/foo?x=1"))
         == Respond(Response(301, "https://example.com:8443/foo?x=1"))
  {
    var url := HttpsPrefix + "example.com:8080" + "/foo?x=1";
    PortRuleOnce("https://example.com", ":8080", "/foo?x=1", ":8443");
    assert url == "https://example.com" + ":8080" + "/foo?x=1";
    assert "https://example.com" + ":8443" + "/foo?x=1" == "https://example.com:8443/foo?x=1";
    assert ApplyReplacements(url, [(":8080", ":8443")])
        == ApplyReplacements(ReplaceAll(url, ":8080", ":8443"), []);
  }

  /** The port rule on the example URL: ":8080" occurs once, at positions 19 to 23,
      right after the host name. The `PortAbsent` lemmas below establish that it
      starts nowhere else, checking the positions before 19 and from 24 on a few
      at a time, since evaluating `NoMatchFrom` on a given string is only cheap over
      short ranges. The strings are parameters so that `ReplaceAll` is not
      evaluated on them character by character. */
  lemma PortRuleOnce(pre: string, pat: string, post: string, sub: string)
    requires pre == "https://example.com" && pat == ":8080" && post == "/foo?x=1"
    ensures ReplaceAll(pre + pat + post, pat, sub) == pre + sub + post
  {
    PortAbsent0To5();
    PortAbsent5To10();
    PortAbsent10To15();
    PortAbsent15To19();
    PortAbsent24To29();
    PortAbsent29To33();
    ReplaceAllSingleOccurrence(pre, pat, post, sub);
  }

  lemma PortAbsent0To5()
    ensures NoMatchBetween("https://example.com" + ":8080" + "/foo?x=1", ":8080", 0, 5)
  {
    assert NoMatchFrom("https://example.com" + ":8080" + "/foo?x=1", ":8080", 0, 5);
    NoMatchFromIff("https://example.com" + ":8080" + "/foo?x=1", ":8080", 0, 5);
  }

  lemma PortAbsent5To10()
    ensures NoMatchBetween("https://example.com" + ":8080" + "/foo?x=1", ":8080", 5, 10)
  {
    assert NoMatchFrom("https://example.com" + ":8080" + "/foo?x=1", ":8080", 5, 10);
    NoMatchFromIff("https://example.com" + ":8080" + "/foo?x=1", ":8080", 5, 10);
  }

  lemma PortAbsent10To15()
    ensures NoMatchBetween("https://example.com" + ":8080" + "/foo?x=1", ":8080", 10, 15)
  {
    assert NoMatchFrom("https://example.com" + ":8080" + "/foo?x=1", ":8080", 10, 15);
    NoMatchFromIff("https://example.com" + ":8080" + "/foo?x=1", ":8080", 10, 15);
  }

  lemma PortAbsent15To19()
    ensures NoMatchBetween("https://example.com" + ":8080" + "/foo?x=1", ":8080", 15, 19)
  {
    assert NoMatchFrom("https://example.com" + ":8080" + "/foo?x=1", ":8080", 15, 19);
    NoMatchFromIff("https://example.com" + ":8080" + "/foo?x=1", ":8080", 15, 19);
  }

  lemma PortAbsent24To29()
    ensures NoMatchBetween("https://example.com" + ":8080" + "/foo?x=1", ":8080", 24, 29)
  {
    assert NoMatchFrom("https://example.com" + ":8080" + "/foo?x=1", ":8080", 24, 29);
    NoMatchFromIff("https://example.com" + ":8080" + "/foo?x=1", ":8080", 24, 29);
  }

  lemma PortAbsent29To33()
    ensures NoMatchBetween("https://example.com" + ":8080" + "/foo?x=1", ":8080", 29, 33)
  {
    assert NoMatchFrom("https://example.com" + ":8080" + "/foo?x=1", ":8080", 29, 33);
    NoMatchFromIff("https://example.com" + ":8080" + "/foo?x=1", ":8080", 29, 33);
  }
}
