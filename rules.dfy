/** A mock rule as the addon receives it from the server's `/api/rules` reply:
    a JSON object whose keys may be absent. An absent key is `None`; the addon
    supplies its own default at each place it reads one. */
module Rules {
  import opened Wrappers

  /** JSON values, as far as a structured body can hold them. */
  datatype Json =
    | JNull
    | JBool(b: bool)
    | JNumber(n: int)
    | JString(s: string)
    | JArray(items: seq<Json>)
    | JObject(members: seq<(string, Json)>)

  /** A rule's body: text is sent as it is, an object is serialised first. */
  datatype Body = Text(text: string) | Object(members: seq<(string, Json)>)

  type Headers = seq<(string, string)>

  datatype Rule = Rule(
    id: Option<string>,
    enabled: Option<bool>,
    urlPattern: Option<string>,
    urlPatternType: Option<string>,
    httpMethod: Option<string>,  // the JSON key `method`
    statusCode: Option<int>,
    headers: Option<Headers>,
    body: Option<Body>,
    delay: Option<int>)

  /** `rule.get('enabled', True)`. */
  function IsEnabled(rule: Rule): bool {
    rule.enabled.GetOr(true)
  }

  /** `rule.get('urlPatternType', 'wildcard')`. */
  function PatternType(rule: Rule): string {
    rule.urlPatternType.GetOr("wildcard")
  }

  /** `rule.get('method', 'ANY')`. */
  function RuleMethod(rule: Rule): string {
    rule.httpMethod.GetOr("ANY")
  }
}
