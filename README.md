# mitmproxy-ui addon: the mock-rule decision, in Dafny

This project models the core of `scripts/mitm-addon.py`, the mitmproxy addon of
mitmproxy-ui. For every intercepted request the addon decides whether a mock
rule applies, and if one does it answers with a synthetic response. A rule is
chosen by scanning the server's ordered rule list, and the first enabled rule
wins whose URL pattern (`exact`, `wildcard` or `regex`) and HTTP method match.
The addon caches that list for five seconds. It also logs traffic, decoding
bodies to text along the way, and logs WebSocket URLs with `ws://` / `wss://`
in place of `http://` / `https://`.

Modules, one per concern:

- `Wrappers` (`wrappers.dfy`): `Option`, with `GetOr` for `dict.get(key, default)`.
- `Glob` (`glob.dfy`): `fnmatch.fnmatch` on POSIX. The pattern is translated to
  tokens (`*`, `?`, literals, `[...]`/`[!...]` sets; a `[` with no closing `]`
  is a literal), and then the whole name must match the tokens, case-sensitively.
- `Rules` (`rules.dfy`): a rule as the JSON object the server sends. Every key
  may be absent, and the defaults `enabled = true`, `urlPatternType = wildcard`
  and `method = ANY` are filled in where the addon reads them.
- `Matching` (`matching.dfy`): `match_url`, `match_method`, and the
  first-match-wins scan of `find_matching_rule`. The scan is a recursive
  specification plus a loop method proved equal to it.
- `Utf8`, `Decimal`, `Content` (`utf8.dfy`, `decimal.dfy`, `content.dfy`):
  strict UTF-8 encoding and decoding, Latin-1 decoding, decimal spelling of
  lengths, and `safe_decode`.
- `WsUrl` (`ws_url.dfy`): Python's `str.replace` and the WebSocket URL rewrite.
- `Addon` (`addon.dfy`): the class `MitmProxyUIAddon` with the fields
  `mock_rules` and `last_rules_fetch`, the cache-refresh specification, the
  mock-response defaults of `request`, and the `request` hook itself.

The clock reading, the reply to `GET /api/rules`, the regex engine and
`json.dumps` come from outside the addon, so each one is a parameter. The
regex engine is the oracle `RegexSearch`, which answers `None` when the
pattern does not compile (`re.error`). The `[Binary content: N bytes]` branch
of `safe_decode` has no counterpart in the model. Latin-1 decoding is total, so
that branch is unreachable, and `Content.SafeDecode` states this: it returns
text for every non-empty body.

`fnmatch` also gives a meaning to `?` and to bracket expressions, and both are
modelled. `rule['urlPattern']` (scripts/mitm-addon.py:119) raises `KeyError` on
an enabled rule that lacks the key, and this is modelled as the outcome
`MissingUrlPattern`.

## Model

| member | source | states |
|---|---|---|
| `Glob.StarMatchesEverything` | scripts/mitm-addon.py:96-97 | the wildcard pattern `*` matches every URL |
| `Glob.LiteralPatternIffEqual` | scripts/mitm-addon.py:96-97 | a pattern with no `*`, `?` or `[` matches a URL iff the two are identical (so matching is case-sensitive) |
| `Glob.PrefixStarIffStartsWith` | scripts/mitm-addon.py:96-97 | `prefix*` matches exactly the URLs that start with `prefix` |
| `Glob.StarSuffixIffEndsWith` | scripts/mitm-addon.py:96-97 | `*suffix` matches exactly the URLs that end with `suffix` |
| `Glob.StarMatchesAnyRun` | scripts/mitm-addon.py:96-97 | in `prefix*q`, the `*` matches any run of characters, the empty run included |
| `Glob.StarRunCollapses` | scripts/mitm-addon.py:96-97 | a leading `**` matches the same names as a leading `*` |
| `Glob.StarRunCollapsesAt` | scripts/mitm-addon.py:96-97 | `**` matches the same names as `*` wherever the run stands in the pattern, so folding runs of stars changes nothing |
| `Glob.QuestionMatchesOneChar` | scripts/mitm-addon.py:96-97 | `?` matches exactly the one-character names |
| `Glob.NegatedClassComplements` | scripts/mitm-addon.py:96-97 | on a single character, `[!set]` matches iff `[set]` does not, for a set that does not open with a descending range |
| `Glob.EmptyRangeThenBangMatchesAny` | scripts/mitm-addon.py:96-97 | `[b-a!]` matches every one-character name: deleting the empty range `b-a` leaves a leading `!`, which negates the empty set |
| `Glob.EmptyRangeThenBangNegates` | scripts/mitm-addon.py:96-97 | `[b-a!x]` matches a one-character name iff it is not `x` |
| `Glob.UnclosedBracketIsLiteral` | scripts/mitm-addon.py:96-97 | a `[` with no `]` after it translates to the literal `[` followed by the translation of the rest, so it matches exactly a name that starts with `[` and whose remainder matches the rest |
| `Glob.StarSplits` | scripts/mitm-addon.py:96-97 | a leading `*` matches only by skipping some prefix of the name, after which the rest of the pattern matches |
| `Matching.MatchUrl` | scripts/mitm-addon.py:92-103 | `exact` matches iff `url == pattern`; `wildcard` is `fnmatch`; `regex` is the oracle's unanchored search result, and an invalid pattern gives false without raising; any other type never matches |
| `Matching.WildcardDefaults` | scripts/mitm-addon.py:96-97 | under `wildcard`, `*` matches every URL and a plain pattern matches only itself |
| `Matching.MatchMethod` | scripts/mitm-addon.py:105-109 | `ANY` matches every method; otherwise the result is whether the upper-cased methods are equal |
| `Matching.MethodMatchIsCaseInsensitiveEquality` | scripts/mitm-addon.py:105-109 | apart from `ANY`, a rule method matches exactly the request methods that spell it letter by letter in any case |
| `Matching.MethodMatchIgnoresRequestCase` | scripts/mitm-addon.py:109 | lower- or upper-casing the request method never changes the answer |
| `Matching.MethodMatchSymmetric` | scripts/mitm-addon.py:109 | between two methods neither of which is `ANY`, matching is symmetric |
| `Matching.LowercaseAnyIsNotWildcard` | scripts/mitm-addon.py:107-109 | only the exact spelling `ANY` is the wildcard: `any` does not match `GET` but does match `ANY` |
| `Matching.SelectedRuleIsFirstMatch` | scripts/mitm-addon.py:111-123 | a returned rule is the list element at its index, is enabled (a missing flag counts as enabled), matches URL and method under the defaults, and every rule before it was disabled or failed to match |
| `Matching.MissingPatternIsFirstStop` | scripts/mitm-addon.py:116-119 | the `KeyError` outcome occurs at an enabled rule with no `urlPattern`, and every rule before it was disabled or failed to match |
| `Matching.NoMatchIffAllPassedOver` | scripts/mitm-addon.py:115-123 | `None` is returned iff every rule is disabled or has a pattern and fails to match |
| `Matching.FirstMatchWins` | scripts/mitm-addon.py:115-121 | an enabled matching rule preceded only by disabled or non-matching rules is the one returned, whatever follows |
| `Matching.DisabledRulesNeverShadow` | scripts/mitm-addon.py:116-117 | removing every disabled rule from the list leaves the decision unchanged |
| `Matching.SelectFromShift` | scripts/mitm-addon.py:115 | putting a rule in front of the list and starting the scan one position later gives the same decision |
| `Matching.ScanRules` | scripts/mitm-addon.py:115-123 | the loop with its early return computes exactly the decision `Select` specifies |
| `Utf8.DecodeEncode` | scripts/mitm-addon.py:148 | decoding the UTF-8 bytes of a text gives that text back |
| `Utf8.EncodeDecode` | scripts/mitm-addon.py:204 | bytes that decode as UTF-8 re-encode to exactly themselves |
| `Utf8.Latin1` | scripts/mitm-addon.py:207 | Latin-1 decoding never fails and maps each byte to the character of the same code point |
| `Utf8.Latin1Injective` | scripts/mitm-addon.py:207 | Latin-1 decoding loses no information |
| `Utf8.AsciiEncodesAsItself` | scripts/mitm-addon.py:148 | ASCII text encodes to one byte per character, of equal value |
| `Decimal.NatToString` | scripts/mitm-addon.py:201 | the length is spelled as a non-empty string of digits with no leading zero |
| `Decimal.NatToStringRoundTrip` | scripts/mitm-addon.py:201 | reading the digits back gives the number |
| `Content.SafeDecode` | scripts/mitm-addon.py:193-209 | empty content gives None; more than 50000 bytes gives exactly `[Content too large: N bytes]`; otherwise the result is text that re-encodes to the content when it is valid UTF-8, and otherwise one character per byte with equal code point |
| `Content.SafeDecodeOfEncoded` | scripts/mitm-addon.py:203-204 | a non-empty text whose UTF-8 form is within the limit is logged as exactly that text |
| `Content.TooLargeNoticeNamesLength` | scripts/mitm-addon.py:199-201 | the number in the size notice reads back as the content's length |
| `Content.SafeDecodeInjective` | scripts/mitm-addon.py:203-207 | within the limit, two bodies logged as the same text are the same bytes when both or neither are valid UTF-8 |
| `WsUrl.ReplaceAbsent` | scripts/mitm-addon.py:220 | `str.replace` leaves a string without an occurrence unchanged |
| `WsUrl.ReplaceFront` | scripts/mitm-addon.py:220 | a leading occurrence is replaced and the scan continues after it |
| `WsUrl.ReplaceKeepsPrefix` | scripts/mitm-addon.py:220 | a prefix none of whose characters can start an occurrence is kept unchanged |
| `WsUrl.HttpBecomesWs` | scripts/mitm-addon.py:220 | `http://rest` is logged as `ws://` followed by the rewrite of `rest` |
| `WsUrl.HttpsBecomesWss` | scripts/mitm-addon.py:263 | `https://rest` is logged as `wss://` followed by the rewrite of `rest` |
| `WsUrl.NoSchemeUnchanged` | scripts/mitm-addon.py:297 | a URL containing neither `http://` nor `https://` is logged unchanged |
| `WsUrl.SchemeOnlyRewritten` | scripts/mitm-addon.py:220 | with no further occurrence after the scheme, only the scheme changes: `http://` becomes `ws://` and `https://` becomes `wss://` |
| `Addon.Refresh` | scripts/mitm-addon.py:71-90 | within 5 seconds of the last fetch the cache is served and nothing changes; a successful fetch stores the list and stamps `now`; a failed one changes nothing |
| `Addon.ServedFromCacheAfterFetch` | scripts/mitm-addon.py:74-75 | after a successful fetch at `t`, every call before `t + 5` serves that list and changes nothing, whatever the server would answer |
| `Addon.FailedFetchRetriesNextTime` | scripts/mitm-addon.py:87-88 | a failed fetch leaves no trace, so the next call behaves as if it had not happened |
| `Addon.FetchStampFollowsClock` | scripts/mitm-addon.py:86 | with a clock that does not run backwards, the fetch stamp never moves back and never passes the clock |
| `Addon.CacheHoldsServerList` | scripts/mitm-addon.py:85 | the cached list only ever becomes a list the server sent |
| `Addon.BodyText` | scripts/mitm-addon.py:141-144 | a missing body is `{}`, a text body is sent as it is, an object body is serialised |
| `Addon.MockResponseFor` | scripts/mitm-addon.py:135-154 | status defaults to 200 and headers to `Content-Type: application/json`; the body bytes decode as UTF-8 to the rule's body text; there is a pause iff `delay > 0`, and then it is `delay` ms; the rule id is recorded |
| `Addon.BareRuleGetsDefaults` | scripts/mitm-addon.py:140-147 | a rule with only a pattern gets a 200, the JSON content type, the two bytes `{}`, and no pause |
| `Addon.MockBodyIsLoggedAsRuleText` | scripts/mitm-addon.py:146-150 | a mocked body within the logging limit is logged as the rule's body text |
| `Addon.MitmProxyUIAddon.constructor` | scripts/mitm-addon.py:57-60 | the addon starts with no rules and fetch stamp 0 |
| `Addon.MitmProxyUIAddon.FetchMockRules` | scripts/mitm-addon.py:71-90 | the fields move to `Refresh` of their old values, and the call returns the new `mock_rules` |
| `Addon.MitmProxyUIAddon.FindMatchingRule` | scripts/mitm-addon.py:111-123 | the cache is refreshed first, and the result is the first-match decision over the refreshed list |
| `Addon.MitmProxyUIAddon.Request` | scripts/mitm-addon.py:125-156 | a matched rule yields exactly its mock response; no match (or the `KeyError`) yields none; the cache is refreshed as `Refresh` says |

## Left out

- HTTP I/O is not modelled: `send_to_server`, the `urllib` opener, and the JSON decoding of the `/api/rules` reply. The reply is the input `FetchReply`, and any exception on the way is `FetchFailed`.
- The mitmproxy integration is not modelled: `ctx.options`, `get_server_url`, `load_option`, `load`, `ctx.log`, `http.Response.make` and the flow objects. The `request` hook returns the mock response, with the rule id that it records in `flow.metadata`, instead of writing to a flow.
- The `response` hook is modelled only through `safe_decode`. Building the traffic record, rounding the duration (floating point) and posting the record are left out.
- The WebSocket handlers are modelled only through their URL rewrite. The base64 encoding of binary messages and the event records are left out.
- `time.time()` and `time.sleep` are not modelled: the clock is the parameter `now` (a `real`), and the pause is the field `sleepMs`.
- `json.dumps` is the parameter `dumps`, and Python's `re` engine is the oracle `RegexSearch`.
- `Glob.Translate`: it does not cache compiled patterns and does not fold runs of `*`. `Glob.StarRunCollapsesAt` shows the folding does not change the result, wherever the run stands. Bracket sets follow the translation of Python 3.9 and later: descending ranges are deleted, and a `!` that this brings to the front of the set negates it. Older versions raised an error on a descending range instead.
- `Matching.MatchMethod`: it upper-cases ASCII letters only. Python's `str.upper` also maps other letters, sometimes to longer strings (`ß` becomes `SS`). HTTP methods are ASCII tokens.
- `Rules.Rule`: every present key has the type the server writes. JSON values of other types are not modelled: `"enabled": null` (which Python treats as disabled), `"method": null` (which raises in `upper`), and list or number bodies (which raise in `encode`). Non-integer `delay` values are not modelled either.
- `Utf8.Encode`: a Dafny `char` is a Unicode scalar value, so encoding never fails. A Python string taken from JSON can hold a lone surrogate, and then `body.encode('utf-8')` raises.
- `Content.SafeDecode`: it takes a byte sequence, so the `None` content that `if not content` (scripts/mitm-addon.py:195) also turns into `None` is not represented; the empty sequence stands for both.
- `Addon.FetchReply`: `Fetched` holds a list of rules. A reply that decodes to some other JSON value is stored as it is and stamped with the time (scripts/mitm-addon.py:85); that case is not represented.
- `Matching.Selection`: it carries the index of the chosen rule as well. The Python function returns only the rule.
- The server-side components (rule store, traffic backlog, recordings, process supervisor) are not part of this model.
