/** The addon object: its rule cache (`mock_rules`, `last_rules_fetch`, refreshed
    at most every five seconds), the mock response it builds for a matched rule,
    and the `request` hook that puts the two together. The clock reading, the
    server's reply to `GET /api/rules`, the regex engine and the JSON serialiser
    are parameters. */
module Addon {
  import opened Wrappers
  import opened Rules
  import opened Matching
  import opened Utf8
  import Content

  /** `rules_cache_ttl`: seconds a fetched rule list is served without asking again. */
  const RulesCacheTtl: real := 5.0

  /** What the `GET /api/rules` request yielded: the decoded rule list, or any
      exception (connection refused, timeout, malformed JSON), which is swallowed. */
  datatype FetchReply = Fetched(rules: seq<Rule>) | FetchFailed

  /** The two fields `fetch_mock_rules` reads and writes. */
  datatype RuleCache = RuleCache(rules: seq<Rule>, lastFetch: real)

  /** The state `fetch_mock_rules` leaves behind when called at time `now`; it
      always returns the `rules` of that state. */
  function Refresh(c: RuleCache, now: real, reply: FetchReply): (r: RuleCache)
    ensures now - c.lastFetch < RulesCacheTtl ==> r == c
    ensures now - c.lastFetch >= RulesCacheTtl && reply.Fetched? ==> r == RuleCache(reply.rules, now)
    ensures reply.FetchFailed? ==> r == c
  {
    if now - c.lastFetch < RulesCacheTtl then c
    else match reply
      case Fetched(rules) => RuleCache(rules, now)
      case FetchFailed => c
  }

  /** After a fetch that succeeded at `t`, every call before `t + 5` serves that list
      and changes nothing, whatever the server would have said. */
  lemma ServedFromCacheAfterFetch(c: RuleCache, t: real, rules: seq<Rule>, t2: real, reply: FetchReply)
    requires t - c.lastFetch >= RulesCacheTtl
    requires t <= t2 < t + RulesCacheTtl
    ensures Refresh(Refresh(c, t, Fetched(rules)), t2, reply) == RuleCache(rules, t)
  {
  }

  /** A failed fetch leaves no trace: the next call behaves as if it never happened,
      so the addon tries again at once instead of waiting out a TTL. */
  lemma FailedFetchRetriesNextTime(c: RuleCache, t: real, t2: real, reply: FetchReply)
    ensures Refresh(Refresh(c, t, FetchFailed), t2, reply) == Refresh(c, t2, reply)
  {
  }

  /** With a clock that does not run backwards, the fetch stamp never moves back
      and never passes the clock. */
  lemma FetchStampFollowsClock(c: RuleCache, now: real, reply: FetchReply)
    requires c.lastFetch <= now
    ensures c.lastFetch <= Refresh(c, now, reply).lastFetch <= now
  {
  }

  /** The cached list only ever becomes a list the server sent. */
  lemma CacheHoldsServerList(c: RuleCache, now: real, reply: FetchReply)
    ensures Refresh(c, now, reply).rules == c.rules
      || (reply.Fetched? && Refresh(c, now, reply).rules == reply.rules)
  {
  }

  // ---------------------------------------------------------------------------
  // The mock response

  /** What `request` hands to `http.Response.make`, plus the pause before it and the
      `rule_id` it records in the flow's metadata. */
  datatype MockResponse = MockResponse(
    statusCode: int,
    body: seq<Byte>,
    headers: Headers,
    sleepMs: nat,
    ruleId: Option<string>)

  const DefaultStatus: int := 200
  const DefaultHeaders: Headers := [("Content-Type", "application/json")]
  const DefaultBody: string := "{}"

  /** The text sent for a rule's body: text as it is, an object through `json.dumps`. */
  function BodyText(body: Option<Body>, dumps: seq<(string, Json)> -> string): (r: string)
    ensures body.None? ==> r == DefaultBody
    ensures body.Some? && body.value.Text? ==> r == body.value.text
    ensures body.Some? && body.value.Object? ==> r == dumps(body.value.members)
  {
    match body.GetOr(Text(DefaultBody))
    case Text(t) => t
    case Object(members) => dumps(members)
  }

  /** The response built for a matched rule: status 200, a JSON content type and the
      body `{}` unless the rule says otherwise, the body sent as UTF-8, and a pause
      of the rule's `delay` milliseconds only when that is positive. */
  function MockResponseFor(rule: Rule, dumps: seq<(string, Json)> -> string): (r: MockResponse)
    ensures r.statusCode == rule.statusCode.GetOr(DefaultStatus)
    ensures r.headers == rule.headers.GetOr(DefaultHeaders)
    ensures Decode(r.body) == Some(BodyText(rule.body, dumps))
    ensures r.sleepMs > 0 <==> rule.delay.Some? && rule.delay.value > 0
    ensures r.sleepMs > 0 ==> r.sleepMs == rule.delay.value
    ensures r.ruleId == rule.id
  {
    var delay := rule.delay.GetOr(0);
    var text := BodyText(rule.body, dumps);
    DecodeEncode(text);
    MockResponse(
      rule.statusCode.GetOr(DefaultStatus),
      Encode(text),
      rule.headers.GetOr(DefaultHeaders),
      if delay > 0 then delay else 0,
      rule.id)
  }

  /** A rule that gives nothing but its pattern gets the documented defaults: a 200
      with `Content-Type: application/json`, the two bytes `{}`, and no pause. */
  lemma BareRuleGetsDefaults(pattern: string, dumps: seq<(string, Json)> -> string)
    ensures var r := MockResponseFor(Rule(None, None, Some(pattern), None, None, None, None, None, None), dumps);
      && r.statusCode == 200
      && r.headers == [("Content-Type", "application/json")]
      && r.body == ['{' as int, '}' as int]
      && r.sleepMs == 0
  {
    var r := MockResponseFor(Rule(None, None, Some(pattern), None, None, None, None, None, None), dumps);
    EncodeDecode(r.body);
    AsciiEncodesAsItself(DefaultBody);
  }

  /** The traffic log shows a mocked body as the rule's body text, as long as that
      text is non-empty and its UTF-8 form is within the logging limit. */
  lemma MockBodyIsLoggedAsRuleText(rule: Rule, dumps: seq<(string, Json)> -> string)
    requires var n := |MockResponseFor(rule, dumps).body|; 0 < n <= Content.MaxSize
    ensures Content.SafeDecode(MockResponseFor(rule, dumps).body) == Some(BodyText(rule.body, dumps))
  {
  }

  // ---------------------------------------------------------------------------
  // The addon object

  class MitmProxyUIAddon {
    var mockRules: seq<Rule>
    var lastRulesFetch: real

    /** `__init__`: no rules yet, and a fetch stamp of 0 so the first call fetches. */
    constructor ()
      ensures mockRules == [] && lastRulesFetch == 0.0
    {
      mockRules := [];
      lastRulesFetch := 0.0;
    }

    function Cache(): RuleCache
      reads this
    {
      RuleCache(mockRules, lastRulesFetch)
    }

    /** `fetch_mock_rules` called at time `now`, the server answering with `reply`. */
    method FetchMockRules(now: real, reply: FetchReply) returns (rules: seq<Rule>)
      modifies this
      ensures Cache() == Refresh(old(Cache()), now, reply)
      ensures rules == mockRules
    {
      if now - lastRulesFetch < RulesCacheTtl {
        return mockRules;
      }
      match reply {
        case Fetched(fetched) =>
          mockRules := fetched;
          lastRulesFetch := now;
        case FetchFailed =>
      }
      return mockRules;
    }

    /** `find_matching_rule(url, method)`: refresh the cache, then scan it. */
    method FindMatchingRule(url: string, requestMethod: string, now: real, reply: FetchReply, search: RegexSearch)
      returns (sel: Selection)
      modifies this
      ensures Cache() == Refresh(old(Cache()), now, reply)
      ensures sel == Select(mockRules, url, requestMethod, search)
    {
      var rules := FetchMockRules(now, reply);
      sel := ScanRules(rules, url, requestMethod, search);
    }

    /** `request(flow)`: a matched rule puts a mock response on the flow; no match
        leaves the flow to go upstream; a rule without a pattern makes the hook raise,
        and the flow gets no mock either. */
    method Request(url: string, requestMethod: string, now: real, reply: FetchReply,
                   search: RegexSearch, dumps: seq<(string, Json)> -> string)
      returns (mock: Option<MockResponse>, sel: Selection)
      modifies this
      ensures Cache() == Refresh(old(Cache()), now, reply)
      ensures sel == Select(mockRules, url, requestMethod, search)
      ensures sel.Matched? ==> mock == Some(MockResponseFor(sel.rule, dumps))
      ensures !sel.Matched? ==> mock == None
    {
      sel := FindMatchingRule(url, requestMethod, now, reply, search);
      if sel.Matched? {
        mock := Some(MockResponseFor(sel.rule, dumps));
      } else {
        mock := None;
      }
    }
  }
}
