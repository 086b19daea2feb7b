# RedirectHTTPS middleware, modelled in Dafny

A model of the `actix-web-middleware-redirect-https` crate. The crate provides a
middleware value, `RedirectHTTPS`, with two fields: a `disabled` flag and an
ordered list of `(pattern, substitute)` string replacements. Its `new_transform`
copies both fields into a `RedirectHTTPSService`. For every request, that service's
`call` does one of two things:

- it hands the request to the wrapped service unchanged;
- it answers by itself with `301 Moved Permanently`. The `Location` header is
  `"https://" + host + uri` after each replacement has been applied in turn with
  Rust's `str::replace`. (The model takes the rewritten URL to be a valid header
  value; see "Left out".)

The model has four modules:

- `StrReplace` (`str_replace.dfy`) defines `str::replace` on strings as sequences
  of Unicode scalar values. For a non-empty pattern it replaces the leftmost
  non-overlapping occurrences. For the empty pattern it inserts the substitute at
  every char boundary. The module characterises the result and proves that a
  left-to-right scan computing it is correct.
- `Rewrite` (`rewrite.dfy`) is the left fold of `replace` over the rules.
- `RedirectHttps` (`redirect_https.dfy`) is the configuration value and its
  builders `default`, `with_replacements` and `set_enabled`.
- `RedirectService` (`redirect_service.dfy`) is `new_transform` and the decision in
  `call`. Its outcome is either `Forward(request)` or
  `Respond(Response(status, location))`.

## The test in `call` is inverted

The code forwards a request when `scheme == "https" || !disabled`. So it redirects
only when `disabled` is true, which `set_enabled(false)` sets. Under
`RedirectHTTPS::default()` and under `with_replacements(..)` alone, nothing is ever
redirected. This contradicts the crate documentation, which says "redirects all
`http` requests to `https`" and shows `RedirectHTTPS::default()` as the usage.

The model follows the code. Four lemmas state the discrepancy:

- `DefaultNeverRedirects` and `WithReplacementsNeverRedirects` show the effect of
  the builders.
- `CallInvertsDocumentedFlag` compares `Call` with `DocumentedCall`, which is the
  behaviour the documentation describes. `Call` behaves like `DocumentedCall` with
  the flag inverted.
- `DefaultContradictsDocumentation` gives a concrete `http` request on which the
  two differ.

## Model

| member | source | states |
|---|---|---|
| `RedirectHttps.Default` | src/lib.rs:27-31 | no contract (definition); the derived default: `disabled` false, no rules |
| `RedirectHttps.WithReplacements` | src/lib.rs:49-54 | no contract (definition); `disabled` false and the given rules, in order |
| `RedirectHttps.SetEnabled` | src/lib.rs:56-59 | no contract (definition); stores `disabled = !enabled`, keeping the rules |
| `RedirectService.NewTransform` | src/lib.rs:73-79 | no contract (definition); the service gets the middleware's flag and rules |
| `RedirectService.RedirectUrl` | src/lib.rs:107-110 | no contract (definition); `"https://" + host + uri`, then the rules folded over it in order |
| `RedirectService.Call` | src/lib.rs:101-118 | no contract (definition); forwards the request when `scheme == "https"` or `!disabled` (the test as written), else answers 301 with `Location` = `RedirectUrl` |
| `RedirectService.DocumentedCall` | src/lib.rs:13-14 | no contract (definition); the documented reading: forwards when `scheme == "https"` or disabled, else answers 301 with `Location` = `RedirectUrl` |
| `Rewrite.ApplyReplacements` | src/lib.rs:108-110 | no contract (definition); the `for` loop as a left fold: each rule's `replace` acts on the previous result |
| `StrReplace.ReplaceAll` | src/lib.rs:109 | no contract (definition); `str::replace`: leftmost non-overlapping occurrences of a non-empty pattern replaced left to right; the empty pattern inserts the substitute at every char boundary |
| `RedirectHttps.DefaultConfig` | src/lib.rs:27-31 | the derived default is not disabled, has no rules, and equals `with_replacements` of an empty list |
| `RedirectHttps.WithReplacementsConfig` | src/lib.rs:49-54 | `with_replacements` is never disabled and keeps every rule in its given order |
| `RedirectHttps.SetEnabledGet` | src/lib.rs:56-59 | the flag read back after `set_enabled(e)` is `e` (stored as `disabled = !e`), and the rules are untouched |
| `RedirectHttps.SetEnabledOwnFlag` | src/lib.rs:56-59 | setting the flag to the value it already has changes nothing |
| `RedirectHttps.SetEnabledLastWins` | src/lib.rs:56-59 | of two `set_enabled` calls the later wins, so repeating a call is idempotent |
| `RedirectService.NewTransformCopies` | src/lib.rs:73-79 | the service holds the middleware's flag and rules verbatim; the configuration can be read back from it, and every service arises this way |
| `RedirectService.ForwardIff` | src/lib.rs:102-103 | a request is forwarded exactly when its scheme is "https" or the service is not disabled, and it is forwarded unchanged |
| `RedirectService.RedirectIff` | src/lib.rs:102-104 | a request is answered by the middleware exactly when the service is disabled and the scheme is not "https" |
| `RedirectService.HttpsNeverRedirected` | src/lib.rs:102-103 | an "https" request is forwarded under every configuration |
| `RedirectService.EnabledNeverRedirects` | src/lib.rs:102-103 | a service made from a configuration that is not disabled forwards every request |
| `RedirectService.DefaultNeverRedirects` | src/lib.rs:102-103 | as written, the default middleware forwards every request, plain "http" included |
| `RedirectService.WithReplacementsNeverRedirects` | src/lib.rs:102-103 | as written, `with_replacements` alone forwards every request, so its rules are never used |
| `RedirectService.WithReplacementsRulesApplied` | src/lib.rs:49-54 | after `with_replacements(rules)` and `set_enabled(false)`, a non-"https" request is redirected with 301 to the fold of exactly those rules over "https://" + host + uri |
| `RedirectService.DisabledRedirectsInsecure` | src/lib.rs:56-59 | after `set_enabled(false)` the middleware answers exactly the requests whose scheme is not "https" |
| `RedirectService.CallInvertsDocumentedFlag` | src/lib.rs:102 | the code decides as the documented middleware would with `disabled` inverted; on a non-"https" request the code forwards exactly when the documented middleware would redirect |
| `RedirectService.DefaultContradictsDocumentation` | src/lib.rs:13-14 | an "http" request to the default middleware is forwarded by the code but redirected to "https://example.com/" under the documented reading |
| `RedirectService.RedirectResponse` | src/lib.rs:105-116 | a redirect has status 301; its `Location` is the fold of the rules over "https://" + host + uri; with no rules it is exactly that URL |
| `RedirectService.RedirectUrlCumulative` | src/lib.rs:108-110 | the last rule acts on the URL that the earlier rules produced |
| `RedirectService.CallService` | src/lib.rs:101-118 | running the decision, `format!` and the `for` loop of `replace` calls yields exactly the outcome `Call` specifies |
| `RedirectService.PortRewriteExample` | src/lib.rs:44 | with the rule `(":8080", ":8443")` on a disabled middleware, `http://example.com:8080/foo?x=1` is redirected with 301 to `https://example.com:8443/foo?x=1` |
| `Rewrite.ApplyAppend` | src/lib.rs:108-110 | applying two lists of rules one after the other is applying their concatenation |
| `Rewrite.ApplySnoc` | src/lib.rs:108-110 | each rule acts on the cumulative result of the rules before it |
| `Rewrite.ApplyNone` | src/lib.rs:107-110 | with no rules the URL is left as it is |
| `Rewrite.ApplyWithoutOccurrences` | src/lib.rs:108-110 | rules none of whose patterns occur in the URL leave it unchanged |
| `Rewrite.ApplyIdentityRules` | src/lib.rs:108-110 | rules that replace each pattern by itself leave the URL unchanged |
| `Rewrite.ApplyOrderMatters` | src/lib.rs:108-110 | the order of the rules is significant: `a->b, b->c` turns "a" into "c", and the reverse order turns it into "b" |
| `StrReplace.ReplaceAllNoMatch` | src/lib.rs:109 | a pattern that does not occur leaves the string as it is |
| `StrReplace.ReplaceAllAtFirstMatch` | src/lib.rs:109 | the leftmost occurrence of a non-empty pattern is replaced, the text before it is kept, and replacing resumes after the occurrence |
| `StrReplace.ReplaceAllSingleOccurrence` | src/lib.rs:109 | a pattern occurring once only, between `pre` and `post`, gives `pre + sub + post` |
| `StrReplace.ReplaceAllUnchangedIff` | src/lib.rs:109 | `replace` returns its input exactly when the pattern does not occur or the substitute equals the pattern |
| `StrReplace.ReplaceAllChanges` | src/lib.rs:109 | a non-empty pattern occurring at any position, replaced by a different string, changes the string |
| `StrReplace.ReplaceAllSelf` | src/lib.rs:109 | replacing a pattern by itself changes nothing, for the empty pattern too |
| `StrReplace.ReplaceAllLength` | src/lib.rs:109 | for a non-empty pattern the length is kept when the substitute is as long as the pattern, never shrinks when it is longer, and never grows when it is shorter |
| `StrReplace.InsertAtBoundariesLength` | src/lib.rs:109 | the empty pattern adds one copy of the substitute per char boundary, so the result has n + (n + 1) * m characters for an input of n and a substitute of m |
| `StrReplace.InsertAtBoundariesBlock` | src/lib.rs:109 | with the empty pattern, block `k` of the result is the substitute followed by the `k`-th character of the input |
| `StrReplace.InsertAtBoundariesEnd` | src/lib.rs:109 | with the empty pattern the result ends with the substitute, after the last character |
| `StrReplace.NoMatchFromIff` | src/lib.rs:109 | the position-by-position check for occurrences agrees with the quantified definition, in both directions |
| `StrReplace.FirstMatchBelow` | src/lib.rs:109 | an occurrence at `i` implies a leftmost occurrence at or before `i`, so the scan always has a first match to take |
| `StrReplace.ReplaceByScan` | src/lib.rs:109 | the left-to-right scan that takes each match and copies the text between matches computes `replace` exactly, for empty and non-empty patterns |
| `StrReplace.ScanMatches` | src/lib.rs:109 | for a non-empty pattern, the scan that resumes after each match yields the specified result |
| `StrReplace.ScanBoundaries` | src/lib.rs:109 | for the empty pattern, writing the substitute before each character and once at the end yields the specified result |

## Left out

- The actix `Service` and `Transform` plumbing is not modelled: the wrapped inner service, `Either`, `Ready` and the futures. A forwarded request is the `Forward` outcome. The inner service's own response is not modelled.
- `poll_ready` only delegates to the inner service, so it has no logic of its own to model.
- How `connection_info().scheme()`, `host()` and `req.uri()` are derived from the connection and its headers is not modelled. The scheme, host and displayed URI are inputs to `Call`.
- `ServiceResponse::new(req.into_parts().0, ..)`, the response builder and header encoding are not modelled. The response is its status and `Location` value.
- The model assumes the rewritten URL is a valid header value, so every redirect is a 301. In actix-web, `insert_header` keeps the error when the URL cannot be converted to a header value; that happens, for example, when a configured substitute contains a control character. `finish()` then returns an error response instead of the 301. Header-value validity is not modelled.
- The documented behaviour (redirect unless disabled) appears only as the reference `DocumentedCall`. The rest of the model follows the code as written, whose test is inverted.
- Concurrency is not modelled. `call` takes `&self` and does not mutate shared state.
- Strings are sequences of Unicode scalar values, not UTF-8 bytes. Every matching position of `str::replace` is a char boundary, so the result is the same.
- The `Clone` derive and `replacements.to_vec()`/`clone()` copy by value in Rust; in the model values are immutable, so copying is equality.
