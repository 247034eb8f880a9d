/** The addon's decision whether a request gets a mock response:
    `match_url`, `match_method` and the first-match-wins scan of
    `find_matching_rule` over the ordered rule list. */
module Matching {
  import opened Wrappers
  import opened Rules
  import Glob

  /** `re.search(pattern, url)` as an oracle: `Some(found)` when the pattern
      compiles, `None` when compiling it raises `re.error`. */
  type RegexSearch = (string, string) -> Option<bool>

  // ---------------------------------------------------------------------------
  // URL matching

  /** `match_url(pattern, pattern_type, url)`. */
  function MatchUrl(pattern: string, patternType: string, url: string, search: RegexSearch): (r: bool)
    ensures patternType == "exact" ==> (r <==> url == pattern)
    ensures patternType == "wildcard" ==> (r <==> Glob.Fnmatch(url, pattern))
    ensures patternType == "regex" ==> (r <==> search(pattern, url) == Some(true))
    ensures patternType == "regex" && search(pattern, url).None? ==> !r
    ensures patternType !in {"exact", "wildcard", "regex"} ==> !r
  {
    if patternType == "exact" then url == pattern
    else if patternType == "wildcard" then Glob.Fnmatch(url, pattern)
    else if patternType == "regex" then
      match search(pattern, url)
      case Some(found) => found
      case None => false
    else false
  }

  /** Under the default `wildcard` type, the pattern `*` matches every URL and a
      pattern without `*`, `?` or `[` matches only itself. */
  lemma WildcardDefaults(url: string, pattern: string, search: RegexSearch)
    ensures MatchUrl("*", "wildcard", url, search)
    ensures Glob.NoMeta(pattern) ==> (MatchUrl(pattern, "wildcard", url, search) <==> url == pattern)
  {
    Glob.StarMatchesEverything(url);
    if Glob.NoMeta(pattern) {
      Glob.LiteralPatternIffEqual(url, pattern);
    }
  }

  // ---------------------------------------------------------------------------
  // Method matching

  /** `str.upper` on one character, for the ASCII letters HTTP methods are made of. */
  function UpperChar(c: char): char {
    if 'a' <= c <= 'z' then (c as int - 32) as char else c
  }

  function LowerChar(c: char): char {
    if 'A' <= c <= 'Z' then (c as int + 32) as char else c
  }

  function Upper(s: string): (r: string)
    ensures |r| == |s|
    ensures forall i :: 0 <= i < |s| ==> r[i] == UpperChar(s[i])
    decreases |s|
  {
    if s == [] then [] else [UpperChar(s[0])] + Upper(s[1..])
  }

  function Lower(s: string): (r: string)
    ensures |r| == |s|
    ensures forall i :: 0 <= i < |s| ==> r[i] == LowerChar(s[i])
    decreases |s|
  {
    if s == [] then [] else [LowerChar(s[0])] + Lower(s[1..])
  }

  /** `match_method(rule_method, request_method)`: the literal `ANY` matches every
      method, anything else is compared ignoring case. */
  function MatchMethod(ruleMethod: string, requestMethod: string): (r: bool)
    ensures ruleMethod == "ANY" ==> r
    ensures ruleMethod != "ANY" ==> (r <==> Upper(ruleMethod) == Upper(requestMethod))
  {
    ruleMethod == "ANY" || Upper(ruleMethod) == Upper(requestMethod)
  }

  /** Two characters that are the same letter in either case, or the same character. */
  predicate SameIgnoringCase(a: char, b: char) {
    a == b
    || ('a' <= a <= 'z' && b as int == a as int - 32)
    || ('A' <= a <= 'Z' && b as int == a as int + 32)
  }

  /** Apart from `ANY`, a rule method matches exactly the request methods that spell
      it letter by letter in any mix of cases. */
  lemma MethodMatchIsCaseInsensitiveEquality(ruleMethod: string, requestMethod: string)
    requires ruleMethod != "ANY"
    ensures MatchMethod(ruleMethod, requestMethod) <==>
      (|ruleMethod| == |requestMethod|
       && forall i :: 0 <= i < |ruleMethod| ==> SameIgnoringCase(ruleMethod[i], requestMethod[i]))
  {
    var a, b := Upper(ruleMethod), Upper(requestMethod);
    if MatchMethod(ruleMethod, requestMethod) {
      assert |ruleMethod| == |requestMethod|;
      forall i | 0 <= i < |ruleMethod| ensures SameIgnoringCase(ruleMethod[i], requestMethod[i]) {
        assert a[i] == b[i];
      }
    }
    if |ruleMethod| == |requestMethod|
       && forall i :: 0 <= i < |ruleMethod| ==> SameIgnoringCase(ruleMethod[i], requestMethod[i])
    {
      forall i | 0 <= i < |a| ensures a[i] == b[i] {
        assert SameIgnoringCase(ruleMethod[i], requestMethod[i]);
      }
    }
  }

  /** Changing the case of the request method never changes the answer. */
  lemma MethodMatchIgnoresRequestCase(ruleMethod: string, requestMethod: string)
    ensures MatchMethod(ruleMethod, Lower(requestMethod)) == MatchMethod(ruleMethod, requestMethod)
    ensures MatchMethod(ruleMethod, Upper(requestMethod)) == MatchMethod(ruleMethod, requestMethod)
  {
    assert Upper(Lower(requestMethod)) == Upper(requestMethod);
    assert Upper(Upper(requestMethod)) == Upper(requestMethod);
  }

  /** Between two methods neither of which is `ANY`, matching is symmetric. */
  lemma MethodMatchSymmetric(a: string, b: string)
    requires a != "ANY" && b != "ANY"
    ensures MatchMethod(a, b) == MatchMethod(b, a)
  {
  }

  /** Only the exact spelling `ANY` is the wildcard: a rule method `any` is an
      ordinary method and does not match `GET`. */
  lemma LowercaseAnyIsNotWildcard()
    ensures !MatchMethod("any", "GET")
    ensures MatchMethod("any", "ANY")
  {
    assert Upper("any") == "ANY";
    assert Upper("GET")[0] == 'G';
  }

  // ---------------------------------------------------------------------------
  // Rule selection

  /** The outcome of `find_matching_rule`: the first matching rule (with its position
      in the list), `None`, or the `KeyError` raised by `rule['urlPattern']` when an
      enabled rule reached by the scan has no `urlPattern`. */
  datatype Selection = Matched(index: nat, rule: Rule) | NoMatch | MissingUrlPattern(index: nat)

  /** `rule` has a pattern and matches the request under the defaults. */
  predicate RuleMatches(rule: Rule, url: string, requestMethod: string, search: RegexSearch) {
    rule.urlPattern.Some?
    && MatchUrl(rule.urlPattern.value, PatternType(rule), url, search)
    && MatchMethod(RuleMethod(rule), requestMethod)
  }

  /** The scan moves past `rule`: it is disabled, or it has a pattern and fails to match. */
  predicate PassesOver(rule: Rule, url: string, requestMethod: string, search: RegexSearch) {
    IsEnabled(rule) ==> rule.urlPattern.Some? && !RuleMatches(rule, url, requestMethod, search)
  }

  /** The scan of `rules` from position `i` on. */
  function SelectFrom(rules: seq<Rule>, i: nat, url: string, requestMethod: string, search: RegexSearch): Selection
    decreases |rules| - i
  {
    if i >= |rules| then NoMatch
    else if !IsEnabled(rules[i]) then SelectFrom(rules, i + 1, url, requestMethod, search)
    else if rules[i].urlPattern.None? then MissingUrlPattern(i)
    else if RuleMatches(rules[i], url, requestMethod, search) then Matched(i, rules[i])
    else SelectFrom(rules, i + 1, url, requestMethod, search)
  }

  /** The decision of `find_matching_rule` for the given rule list. */
  function Select(rules: seq<Rule>, url: string, requestMethod: string, search: RegexSearch): Selection {
    SelectFrom(rules, 0, url, requestMethod, search)
  }

  /** A matched rule is the element at its index, is enabled, matches the request,
      and every rule before it was passed over. */
  lemma {:induction false} SelectedRuleIsFirstMatch(rules: seq<Rule>, i: nat, url: string, requestMethod: string, search: RegexSearch)
    requires SelectFrom(rules, i, url, requestMethod, search).Matched?
    ensures var s := SelectFrom(rules, i, url, requestMethod, search);
      && i <= s.index < |rules|
      && rules[s.index] == s.rule
      && IsEnabled(s.rule)
      && RuleMatches(s.rule, url, requestMethod, search)
      && forall j :: i <= j < s.index ==> PassesOver(rules[j], url, requestMethod, search)
    decreases |rules| - i
  {
    if i < |rules| && SelectFrom(rules, i, url, requestMethod, search) == SelectFrom(rules, i + 1, url, requestMethod, search) {
      if !(IsEnabled(rules[i]) && rules[i].urlPattern.Some? && RuleMatches(rules[i], url, requestMethod, search)) {
        SelectedRuleIsFirstMatch(rules, i + 1, url, requestMethod, search);
      }
    }
  }

  /** The `KeyError` is raised at an enabled rule without a pattern, reached because
      every rule before it was passed over. */
  lemma {:induction false} MissingPatternIsFirstStop(rules: seq<Rule>, i: nat, url: string, requestMethod: string, search: RegexSearch)
    requires SelectFrom(rules, i, url, requestMethod, search).MissingUrlPattern?
    ensures var s := SelectFrom(rules, i, url, requestMethod, search);
      && i <= s.index < |rules|
      && IsEnabled(rules[s.index])
      && rules[s.index].urlPattern.None?
      && forall j :: i <= j < s.index ==> PassesOver(rules[j], url, requestMethod, search)
    decreases |rules| - i
  {
    if i < |rules| && !(IsEnabled(rules[i]) && rules[i].urlPattern.None?) {
      MissingPatternIsFirstStop(rules, i + 1, url, requestMethod, search);
    }
  }

  /** `None` is returned exactly when the scan passes over every rule: no enabled
      rule matches (and none lacks a pattern). */
  lemma {:induction false} NoMatchIffAllPassedOver(rules: seq<Rule>, i: nat, url: string, requestMethod: string, search: RegexSearch)
    ensures SelectFrom(rules, i, url, requestMethod, search) == NoMatch <==>
      forall j :: i <= j < |rules| ==> PassesOver(rules[j], url, requestMethod, search)
    decreases |rules| - i
  {
    if i < |rules| {
      NoMatchIffAllPassedOver(rules, i + 1, url, requestMethod, search);
      if forall j :: i + 1 <= j < |rules| ==> PassesOver(rules[j], url, requestMethod, search) {
        if PassesOver(rules[i], url, requestMethod, search) {
          assert forall j :: i <= j < |rules| ==> PassesOver(rules[j], url, requestMethod, search) by {
            forall j | i <= j < |rules| ensures PassesOver(rules[j], url, requestMethod, search) {
              if j > i {
                assert i + 1 <= j < |rules|;
              }
            }
          }
        }
      }
    }
  }

  /** First match wins: an enabled matching rule preceded only by rules that are
      passed over is the one selected, whatever follows it. */
  lemma {:induction false} FirstMatchWins(rules: seq<Rule>, i: nat, k: nat, url: string, requestMethod: string, search: RegexSearch)
    requires i <= k < |rules|
    requires IsEnabled(rules[k]) && RuleMatches(rules[k], url, requestMethod, search)
    requires forall j :: i <= j < k ==> PassesOver(rules[j], url, requestMethod, search)
    ensures SelectFrom(rules, i, url, requestMethod, search) == Matched(k, rules[k])
    decreases k - i
  {
    if i < k {
      assert PassesOver(rules[i], url, requestMethod, search);
      FirstMatchWins(rules, i + 1, k, url, requestMethod, search);
    }
  }

  // ---------------------------------------------------------------------------
  // Disabled rules never shadow

  /** The rules `find_matching_rule` does not skip, in their order. */
  function EnabledRules(rules: seq<Rule>): (r: seq<Rule>)
    decreases |rules|
  {
    if rules == [] then []
    else if IsEnabled(rules[0]) then [rules[0]] + EnabledRules(rules[1..])
    else EnabledRules(rules[1..])
  }

  /** Two outcomes that agree on everything but the index. */
  predicate SameDecision(a: Selection, b: Selection) {
    a.NoMatch? == b.NoMatch?
    && a.MissingUrlPattern? == b.MissingUrlPattern?
    && a.Matched? == b.Matched?
    && (a.Matched? ==> a.rule == b.rule)
  }

  lemma {:induction false} SelectFromShift(x: Rule, ys: seq<Rule>, j: nat, url: string, requestMethod: string, search: RegexSearch)
    ensures SameDecision(SelectFrom([x] + ys, j + 1, url, requestMethod, search), SelectFrom(ys, j, url, requestMethod, search))
    decreases |ys| - j
  {
    if j < |ys| {
      assert ([x] + ys)[j + 1] == ys[j];
      SelectFromShift(x, ys, j + 1, url, requestMethod, search);
    }
  }

  /** Dropping the disabled rules leaves the decision as it was: a disabled rule
      never shadows a later match. */
  lemma {:induction false} DisabledRulesNeverShadow(rules: seq<Rule>, url: string, requestMethod: string, search: RegexSearch)
    ensures SameDecision(Select(rules, url, requestMethod, search), Select(EnabledRules(rules), url, requestMethod, search))
    decreases |rules|
  {
    if rules != [] {
      var tail := rules[1..];
      DisabledRulesNeverShadow(tail, url, requestMethod, search);
      SelectFromShift(rules[0], tail, 0, url, requestMethod, search);
      assert [rules[0]] + tail == rules;
      if IsEnabled(rules[0]) {
        var e := EnabledRules(rules);
        assert e == [rules[0]] + EnabledRules(tail);
        SelectFromShift(rules[0], EnabledRules(tail), 0, url, requestMethod, search);
      }
    }
  }

  // ---------------------------------------------------------------------------
  // The loop of `find_matching_rule`

  /** The `for rule in rules` loop with its early return. */
  method ScanRules(rules: seq<Rule>, url: string, requestMethod: string, search: RegexSearch) returns (sel: Selection)
    ensures sel == Select(rules, url, requestMethod, search)
  {
    var i := 0;
    while i < |rules|
      invariant 0 <= i <= |rules|
      invariant SelectFrom(rules, i, url, requestMethod, search) == Select(rules, url, requestMethod, search)
    {
      var rule := rules[i];
      if !IsEnabled(rule) {
        i := i + 1;
        continue;
      }
      if rule.urlPattern.None? {
        return MissingUrlPattern(i);
      }
      if MatchUrl(rule.urlPattern.value, PatternType(rule), url, search) {
        if MatchMethod(RuleMethod(rule), requestMethod) {
          return Matched(i, rule);
        }
      }
      i := i + 1;
    }
    return NoMatch;
  }
}
