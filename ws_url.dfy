/** The URL the WebSocket handlers log: the request URL with every `http://`
    replaced by `ws://` and then every `https://` replaced by `wss://`. */
module WsUrl {

  /** Python's `s.replace(target, repl)` for a non-empty `target`: occurrences are found
      left to right, do not overlap, and the replacement text is not rescanned. */
  function Replace(s: string, target: string, repl: string): (r: string)
    requires |target| > 0
    decreases |s|
  {
    if s == [] then []
    else if target <= s then repl + Replace(s[|target|..], target, repl)
    else [s[0]] + Replace(s[1..], target, repl)
  }

  /** Does `needle` occur anywhere in `hay`? */
  predicate Occurs(needle: string, hay: string) {
    exists i :: 0 <= i <= |hay| && OccursAt(needle, hay, i)
  }

  predicate OccursAt(needle: string, hay: string, i: int) {
    0 <= i <= |hay| - |needle| && hay[i..i + |needle|] == needle
  }

  /** The rewrite in `websocket_start`, `websocket_message` and `websocket_end`. */
  function WebSocketUrl(url: string): string {
    Replace(Replace(url, "http://", "ws://"), "https://", "wss://")
  }

  // ---------------------------------------------------------------------------

  lemma OccursAtFront(needle: string, hay: string)
    requires needle <= hay
    ensures Occurs(needle, hay)
  {
    assert OccursAt(needle, hay, 0);
  }

  lemma OccursInTail(needle: string, hay: string)
    requires hay != [] && Occurs(needle, hay[1..])
    ensures Occurs(needle, hay)
  {
    var i :| 0 <= i <= |hay[1..]| && OccursAt(needle, hay[1..], i);
    assert hay[i + 1..i + 1 + |needle|] == hay[1..][i..i + |needle|];
    assert OccursAt(needle, hay, i + 1);
  }

  /** Without an occurrence there is nothing to replace. */
  lemma {:induction false} ReplaceAbsent(s: string, target: string, repl: string)
    requires |target| > 0 && !Occurs(target, s)
    ensures Replace(s, target, repl) == s
    decreases |s|
  {
    if s != [] {
      if target <= s {
        OccursAtFront(target, s);
      }
      if Occurs(target, s[1..]) {
        OccursInTail(target, s);
      }
      ReplaceAbsent(s[1..], target, repl);
      assert [s[0]] + s[1..] == s;
    }
  }

  /** A leading occurrence is replaced and the scan goes on after it. */
  lemma ReplaceFront(target: string, repl: string, rest: string)
    requires |target| > 0
    ensures Replace(target + rest, target, repl) == repl + Replace(rest, target, repl)
  {
    assert (target + rest)[|target|..] == rest;
  }

  /** A leading character with which `target` does not start here is kept as it is. */
  lemma ReplaceKeeps(c: char, rest: string, target: string, repl: string)
    requires |target| > 0 && !(target <= [c] + rest)
    ensures Replace([c] + rest, target, repl) == [c] + Replace(rest, target, repl)
  {
    assert ([c] + rest)[1..] == rest;
  }

  /** A prefix no character of which can begin an occurrence of `target` is kept as it is. */
  lemma {:induction false} ReplaceKeepsPrefix(p: string, rest: string, target: string, repl: string)
    requires |target| > 0
    requires forall i :: 0 <= i < |p| ==> p[i] != target[0]
    ensures Replace(p + rest, target, repl) == p + Replace(rest, target, repl)
    decreases |p|
  {
    if p != [] {
      assert p + rest == [p[0]] + (p[1..] + rest);
      ReplaceKeeps(p[0], p[1..] + rest, target, repl);
      ReplaceKeepsPrefix(p[1..], rest, target, repl);
      assert [p[0]] + (p[1..] + Replace(rest, target, repl)) == p + Replace(rest, target, repl);
    } else {
      assert p + rest == rest;
    }
  }

  /** `http://rest` is logged as `ws://` followed by the rewrite of `rest`. */
  lemma HttpBecomesWs(rest: string)
    ensures WebSocketUrl("http://" + rest) == "ws://" + WebSocketUrl(rest)
  {
    ReplaceFront("http://", "ws://", rest);
    var mid := Replace(rest, "http://", "ws://");
    ReplaceKeepsPrefix("ws://", mid, "https://", "wss://");
  }

  /** `https://rest` is logged as `wss://` followed by the rewrite of `rest`. */
  lemma HttpsBecomesWss(rest: string)
    ensures WebSocketUrl("https://" + rest) == "wss://" + WebSocketUrl(rest)
  {
    var h := "https://";
    assert h + rest == ['h'] + ("ttps://" + rest);
    assert !("http://" <= h + rest) by {
      assert (h + rest)[4] == 's';
    }
    ReplaceKeeps('h', "ttps://" + rest, "http://", "ws://");
    ReplaceKeepsPrefix("ttps://", rest, "http://", "ws://");
    assert ['h'] + ("ttps://" + Replace(rest, "http://", "ws://")) == h + Replace(rest, "http://", "ws://");
    ReplaceFront(h, "wss://", Replace(rest, "http://", "ws://"));
  }

  /** A URL that mentions neither scheme is logged unchanged. */
  lemma NoSchemeUnchanged(url: string)
    requires !Occurs("http://", url) && !Occurs("https://", url)
    ensures WebSocketUrl(url) == url
  {
    ReplaceAbsent(url, "http://", "ws://");
    ReplaceAbsent(url, "https://", "wss://");
  }

  /** With no further occurrence after the scheme, only the scheme changes. */
  lemma SchemeOnlyRewritten(rest: string)
    requires !Occurs("http://", rest) && !Occurs("https://", rest)
    ensures WebSocketUrl("http://" + rest) == "ws://" + rest
    ensures WebSocketUrl("https://" + rest) == "wss://" + rest
  {
    HttpBecomesWs(rest);
    HttpsBecomesWss(rest);
    NoSchemeUnchanged(rest);
  }
}
