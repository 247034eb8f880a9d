/** Shell-style wildcard matching as Python's `fnmatch.fnmatch` does it on POSIX:
    the pattern is translated to a token list (`fnmatch.translate`) and the whole
    name must match it (the translated regex is anchored at both ends and `.`
    also matches a newline). Matching is case-sensitive because `os.path.normcase`
    is the identity on POSIX. */
module Glob {
  import opened Wrappers

  /** One member of a bracket expression: a single character or a range `lo-hi`. */
  datatype ClassItem = Single(c: char) | Range(lo: char, hi: char)

  /** The translated form of a pattern. */
  datatype Token =
    | Star                                             // `*`: any run, possibly empty
    | AnyChar                                          // `?`: exactly one character
    | Literal(c: char)                                 // every other character, escaped
    | CharClass(negated: bool, items: seq<ClassItem>)  // `[...]` or `[!...]`

  /** The characters that `fnmatch` gives a meaning to. */
  predicate IsMeta(c: char) {
    c == '*' || c == '?' || c == '['
  }

  predicate NoMeta(p: string) {
    forall i :: 0 <= i < |p| ==> !IsMeta(p[i])
  }

  /** The first index at or after `j` holding `]`, if any. */
  function FindClose(p: string, j: nat): (r: Option<nat>)
    requires j <= |p|
    ensures r.Some? ==> j <= r.value < |p| && p[r.value] == ']'
    ensures r.Some? ==> forall k :: j <= k < r.value ==> p[k] != ']'
    ensures r.None? ==> forall k :: j <= k < |p| ==> p[k] != ']'
    decreases |p| - j
  {
    if j == |p| then None
    else if p[j] == ']' then Some(j)
    else FindClose(p, j + 1)
  }

  /** Where the bracket expression opened by `p[0] == '['` closes: a `!` right after
      the bracket and then a `]` right after that are part of the set, not its end. */
  function ClassEnd(p: string): (r: Option<nat>)
    requires |p| > 0 && p[0] == '['
    ensures r.Some? ==> 1 <= r.value < |p| && p[r.value] == ']'
  {
    var j1 := if 1 < |p| && p[1] == '!' then 2 else 1;
    var j2 := if j1 < |p| && p[j1] == ']' then j1 + 1 else j1;
    FindClose(p, j2)
  }

  /** The members of a set, read left to right: `x-y` is a range when a character
      follows the hyphen, otherwise every character stands for itself. A descending
      range contains nothing, which is what `fnmatch` gets by deleting it. */
  function ParseItems(s: string): (r: seq<ClassItem>)
    decreases |s|
  {
    if s == [] then []
    else if |s| >= 3 && s[1] == '-' then [Range(s[0], s[2])] + ParseItems(s[3..])
    else [Single(s[0])] + ParseItems(s[1..])
  }

  /** A descending range `x-y` (with `x > y`) contains nothing. */
  predicate IsEmptyRange(item: ClassItem) {
    item.Range? && item.lo > item.hi
  }

  /** The members left once the descending ranges are deleted, in their order. */
  function DropEmptyRanges(items: seq<ClassItem>): (r: seq<ClassItem>)
    ensures forall i :: 0 <= i < |r| ==> !IsEmptyRange(r[i])
    ensures forall c :: InClass(r, c) == InClass(items, c)
    ensures |items| > 0 && !IsEmptyRange(items[0]) ==> |r| > 0 && r[0] == items[0]
    decreases |items|
  {
    if items == [] then []
    else if IsEmptyRange(items[0]) then DropEmptyRanges(items[1..])
    else
      var rest := DropEmptyRanges(items[1..]);
      assert forall c :: InClass([items[0]] + rest, c) == (ItemHas(items[0], c) || InClass(rest, c)) by {
        assert ([items[0]] + rest)[1..] == rest;
      }
      [items[0]] + rest
  }

  /** The token for the text strictly between `[` and its closing `]`. Deleting the
      descending ranges can bring a `!` to the front of a set that was not negated;
      the library then reads that `!` as the negation: `[b-a!]` becomes "any
      character", `[b-a!x]` becomes "not `x`", and `[b-a!-z]` "neither `-` nor `z`". */
  function ClassToken(stuff: string): Token {
    if |stuff| > 0 && stuff[0] == '!' then CharClass(true, ParseItems(stuff[1..]))
    else
      var kept := DropEmptyRanges(ParseItems(stuff));
      if |kept| > 0 && kept[0] == Single('!') then CharClass(true, kept[1..])
      else if |kept| > 0 && kept[0].Range? && kept[0].lo == '!' then
        CharClass(true, [Single('-'), Single(kept[0].hi)] + kept[1..])
      else CharClass(false, kept)
  }

  /** `fnmatch.translate`: a `[` without a closing `]` is an ordinary character.
      (The library also folds a run of `*` into one; `StarRunCollapsesAt` shows that
      this does not change what matches, so the model omits it.) */
  function Translate(p: string): (r: seq<Token>)
    decreases |p|
  {
    if p == [] then []
    else if p[0] == '*' then [Star] + Translate(p[1..])
    else if p[0] == '?' then [AnyChar] + Translate(p[1..])
    else if p[0] == '[' then
      match ClassEnd(p)
      case None => [Literal('[')] + Translate(p[1..])
      case Some(j) => [ClassToken(p[1..j])] + Translate(p[j + 1..])
    else [Literal(p[0])] + Translate(p[1..])
  }

  predicate ItemHas(item: ClassItem, c: char) {
    match item
    case Single(d) => c == d
    case Range(lo, hi) => lo <= c <= hi
  }

  predicate InClass(items: seq<ClassItem>, c: char)
    decreases |items|
  {
    |items| > 0 && (ItemHas(items[0], c) || InClass(items[1..], c))
  }

  /** Does the whole of `s` match the token list `t`? */
  predicate MatchTokens(t: seq<Token>, s: string)
    decreases |t|, |s|
  {
    if t == [] then s == []
    else match t[0]
      case Star => MatchTokens(t[1..], s) || (s != [] && MatchTokens(t, s[1..]))
      case AnyChar => s != [] && MatchTokens(t[1..], s[1..])
      case Literal(c) => s != [] && s[0] == c && MatchTokens(t[1..], s[1..])
      case CharClass(neg, items) =>
        s != [] && InClass(items, s[0]) != neg && MatchTokens(t[1..], s[1..])
  }

  /** `fnmatch.fnmatch(name, pattern)`. */
  predicate Fnmatch(name: string, pattern: string) {
    MatchTokens(Translate(pattern), name)
  }

  /** The token list of a pattern free of wildcards: one literal per character. */
  function Literals(p: string): (r: seq<Token>)
    ensures |r| == |p|
    ensures forall i :: 0 <= i < |p| ==> r[i] == Literal(p[i])
    decreases |p|
  {
    if p == [] then [] else [Literal(p[0])] + Literals(p[1..])
  }

  // ---------------------------------------------------------------------------
  // Translation lemmas

  lemma {:induction false} TranslateNoMetaPrefix(p: string, rest: string)
    requires NoMeta(p)
    ensures Translate(p + rest) == Literals(p) + Translate(rest)
    decreases |p|
  {
    if p != [] {
      assert (p + rest)[0] == p[0];
      assert (p + rest)[1..] == p[1..] + rest;
      assert !IsMeta(p[0]);
      TranslateNoMetaPrefix(p[1..], rest);
    } else {
      assert p + rest == rest;
    }
  }

  lemma TranslateNoMeta(p: string)
    requires NoMeta(p)
    ensures Translate(p) == Literals(p)
  {
    TranslateNoMetaPrefix(p, []);
    assert p + [] == p;
  }

  lemma TranslateStarPrefix(rest: string)
    ensures Translate(['*'] + rest) == [Star] + Translate(rest)
  {
    assert (['*'] + rest)[1..] == rest;
  }

  // ---------------------------------------------------------------------------
  // Matching lemmas on tokens

  /** A run of literals matches exactly the string it spells, followed by whatever
      the rest of the tokens match. */
  lemma {:induction false} LiteralsThen(p: string, t: seq<Token>, s: string)
    ensures MatchTokens(Literals(p) + t, s) <==> (p <= s && MatchTokens(t, s[|p|..]))
    decreases |p|
  {
    if p == [] {
      assert Literals(p) + t == t;
    } else {
      var lt := Literals(p) + t;
      assert lt[0] == Literal(p[0]);
      assert lt[1..] == Literals(p[1..]) + t;
      if s != [] {
        LiteralsThen(p[1..], t, s[1..]);
        if |p| <= |s| {
          assert s[1..][|p| - 1..] == s[|p|..];
        }
        assert p <= s <==> (p[0] == s[0] && p[1..] <= s[1..]);
      }
    }
  }

  /** A `*` token matches every string when it is the last token. */
  lemma {:induction false} StarAlone(s: string)
    ensures MatchTokens([Star], s)
    decreases |s|
  {
    if s != [] {
      StarAlone(s[1..]);
    } else {
      assert [Star][1..] == [];
    }
  }

  /** A leading `*` may swallow any prefix `x` of the name, including the empty one. */
  lemma {:induction false} StarSkips(x: string, t: seq<Token>, s: string)
    requires MatchTokens(t, s)
    ensures MatchTokens([Star] + t, x + s)
    decreases |x|
  {
    assert ([Star] + t)[1..] == t;
    if x != [] {
      StarSkips(x[1..], t, s);
      assert (x + s)[1..] == x[1..] + s;
    } else {
      assert x + s == s;
    }
  }

  /** Conversely, a leading `*` matches only by skipping some prefix. */
  lemma {:induction false} StarSplits(t: seq<Token>, s: string)
    requires MatchTokens([Star] + t, s)
    ensures exists k :: 0 <= k <= |s| && MatchTokens(t, s[k..])
    decreases |s|
  {
    assert ([Star] + t)[1..] == t;
    if MatchTokens(t, s) {
      assert s[0..] == s;
    } else {
      StarSplits(t, s[1..]);
      var k :| 0 <= k <= |s[1..]| && MatchTokens(t, s[1..][k..]);
      assert s[1..][k..] == s[k + 1..];
    }
  }

  // ---------------------------------------------------------------------------
  // Properties of `Fnmatch`

  /** The pattern `*` matches every name. */
  lemma StarMatchesEverything(name: string)
    ensures Fnmatch(name, "*")
  {
    TranslateStarPrefix([]);
    assert ['*'] + [] == "*";
    assert [Star] + Translate([]) == [Star];
    StarAlone(name);
  }

  /** A pattern with no `*`, `?` or `[` matches only the identical name
      (so matching is case-sensitive). */
  lemma LiteralPatternIffEqual(name: string, pattern: string)
    requires NoMeta(pattern)
    ensures Fnmatch(name, pattern) <==> name == pattern
  {
    TranslateNoMeta(pattern);
    assert Literals(pattern) + [] == Literals(pattern);
    LiteralsThen(pattern, [], name);
    if pattern <= name {
      assert MatchTokens([], name[|pattern|..]) <==> |name| == |pattern|;
    }
  }

  /** `prefix*` matches exactly the names that start with `prefix`. */
  lemma PrefixStarIffStartsWith(name: string, prefix: string)
    requires NoMeta(prefix)
    ensures Fnmatch(name, prefix + "*") <==> prefix <= name
  {
    TranslateNoMetaPrefix(prefix, "*");
    TranslateStarPrefix([]);
    assert ['*'] + [] == "*";
    assert Translate("*") == [Star];
    LiteralsThen(prefix, [Star], name);
    if prefix <= name {
      StarAlone(name[|prefix|..]);
    }
  }

  lemma TranslateStarSuffix(suffix: string)
    requires NoMeta(suffix)
    ensures Translate("*" + suffix) == [Star] + Literals(suffix)
  {
    TranslateStarPrefix(suffix);
    assert "*" + suffix == ['*'] + suffix;
    TranslateNoMeta(suffix);
  }

  lemma StarSuffixOnlyEndsWith(name: string, suffix: string)
    requires NoMeta(suffix)
    requires MatchTokens([Star] + Literals(suffix), name)
    ensures |suffix| <= |name| && name[|name| - |suffix|..] == suffix
  {
    var t := Literals(suffix);
    assert t + [] == t;
    StarSplits(t, name);
    var k :| 0 <= k <= |name| && MatchTokens(t, name[k..]);
    var tail := name[k..];
    LiteralsThen(suffix, [], tail);
    assert suffix <= tail && MatchTokens([], tail[|suffix|..]);
    assert |tail| == |suffix|;
    assert tail == suffix;
    assert k == |name| - |suffix|;
  }

  lemma StarSuffixMatchesEnding(name: string, suffix: string)
    requires NoMeta(suffix)
    requires |suffix| <= |name| && name[|name| - |suffix|..] == suffix
    ensures MatchTokens([Star] + Literals(suffix), name)
  {
    var t := Literals(suffix);
    var k := |name| - |suffix|;
    assert t + [] == t;
    LiteralsThen(suffix, [], suffix);
    assert suffix[|suffix|..] == [];
    StarSkips(name[..k], t, suffix);
    assert name[..k] + suffix == name;
  }

  /** `*suffix` matches exactly the names that end with `suffix`. */
  lemma StarSuffixIffEndsWith(name: string, suffix: string)
    requires NoMeta(suffix)
    ensures Fnmatch(name, "*" + suffix) <==> (|suffix| <= |name| && name[|name| - |suffix|..] == suffix)
  {
    TranslateStarSuffix(suffix);
    if Fnmatch(name, "*" + suffix) {
      StarSuffixOnlyEndsWith(name, suffix);
    }
    if |suffix| <= |name| && name[|name| - |suffix|..] == suffix {
      StarSuffixMatchesEnding(name, suffix);
    }
  }

  /** A `*` between a plain prefix and any sub-pattern matches any run, including
      the empty run: if `u` matches `q`, then `prefix + x + u` matches `prefix*q`. */
  lemma StarMatchesAnyRun(prefix: string, x: string, q: string, u: string)
    requires NoMeta(prefix)
    requires Fnmatch(u, q)
    ensures Fnmatch(prefix + x + u, prefix + "*" + q)
    ensures Fnmatch(prefix + u, prefix + "*" + q)
  {
    assert prefix + "*" + q == prefix + (['*'] + q);
    TranslateNoMetaPrefix(prefix, ['*'] + q);
    TranslateStarPrefix(q);
    var t := [Star] + Translate(q);
    StarSkips(x, Translate(q), u);
    StarSkips([], Translate(q), u);
    assert [] + u == u;
    LiteralsThen(prefix, t, prefix + x + u);
    assert (prefix + x + u)[|prefix|..] == x + u;
    LiteralsThen(prefix, t, prefix + u);
    assert (prefix + u)[|prefix|..] == u;
  }

  /** Two `*` in a row match the same names as one, so folding runs of `*` (as the
      library's translation does) does not change the result. */
  lemma {:induction false} StarRunCollapses(t: seq<Token>, s: string)
    ensures MatchTokens([Star, Star] + t, s) <==> MatchTokens([Star] + t, s)
    decreases |s|
  {
    var one := [Star] + t;
    var two := [Star, Star] + t;
    assert two[1..] == one;
    assert two == [Star] + one;
    if MatchTokens(two, s) {
      StarSplits(one, s);
      var k :| 0 <= k <= |s| && MatchTokens(one, s[k..]);
      StarSplits(t, s[k..]);
      var m :| 0 <= m <= |s[k..]| && MatchTokens(t, s[k..][m..]);
      assert s[k..][m..] == s[k + m..];
      StarSkips(s[..k + m], t, s[k + m..]);
      assert s[..k + m] + s[k + m..] == s;
    }
    if MatchTokens(one, s) {
      StarSkips([], one, s);
      assert [] + s == s;
    }
  }

  /** The same holds for a run of `*` anywhere in the token list, which is where the
      library's translation folds it. */
  lemma {:induction false} StarRunCollapsesAt(u: seq<Token>, t: seq<Token>, s: string)
    ensures MatchTokens(u + [Star, Star] + t, s) <==> MatchTokens(u + [Star] + t, s)
    decreases |u|, |s|
  {
    if u == [] {
      assert u + [Star, Star] + t == [Star, Star] + t;
      assert u + [Star] + t == [Star] + t;
      StarRunCollapses(t, s);
    } else {
      var two := u + [Star, Star] + t;
      var one := u + [Star] + t;
      assert two[0] == u[0] && two[1..] == u[1..] + [Star, Star] + t;
      assert one[0] == u[0] && one[1..] == u[1..] + [Star] + t;
      StarRunCollapsesAt(u[1..], t, s);
      if s != [] {
        StarRunCollapsesAt(u[1..], t, s[1..]);
        StarRunCollapsesAt(u, t, s[1..]);
      }
    }
  }

  /** `?` matches exactly the one-character names. */
  lemma QuestionMatchesOneChar(name: string)
    ensures Fnmatch(name, "?") <==> |name| == 1
  {
    var p := "?";
    assert p[0] == '?' && p[1..] == [];
    assert Translate(p) == [AnyChar];
    assert [AnyChar][1..] == [];
    if name != [] {
      assert MatchTokens([], name[1..]) <==> |name| == 1;
    }
  }

  /** Negating a bracket expression complements it on one-character names, as long
      as the set does not open with a descending range (see `ClassToken`). */
  lemma NegatedClassComplements(c: char, set_: string)
    requires |set_| > 0 && set_[0] != '!' && set_[0] != ']'
    requires forall i :: 0 <= i < |set_| ==> set_[i] != ']'
    requires !(|set_| >= 3 && set_[1] == '-' && set_[0] > set_[2])
    ensures Fnmatch([c], "[!" + set_ + "]") <==> !Fnmatch([c], "[" + set_ + "]")
  {
    var pos := "[" + set_ + "]";
    var neg := "[!" + set_ + "]";
    assert pos[1] == set_[0];
    assert FindClose(pos, 1) == Some(|set_| + 1) by {
      FindCloseAt(pos, 1, |set_| + 1);
    }
    assert neg[1] == '!' && neg[2] == set_[0];
    assert FindClose(neg, 2) == Some(|set_| + 2) by {
      FindCloseAt(neg, 2, |set_| + 2);
    }
    assert pos[1..|set_| + 1] == set_;
    assert neg[1..|set_| + 2] == ['!'] + set_;
    assert (['!'] + set_)[1..] == set_;
    assert pos[|set_| + 2..] == [];
    assert neg[|set_| + 3..] == [];
    var items := ParseItems(set_);
    var kept := DropEmptyRanges(items);
    assert items[0] == (if |set_| >= 3 && set_[1] == '-' then Range(set_[0], set_[2]) else Single(set_[0]));
    assert !IsEmptyRange(items[0]);
    assert kept[0] == items[0];
    assert ClassEnd(pos) == Some(|set_| + 1);
    assert ClassEnd(neg) == Some(|set_| + 2);
    assert ClassToken(set_) == CharClass(false, kept);
    assert ClassToken(['!'] + set_) == CharClass(true, items);
    assert Translate(pos[|set_| + 2..]) == [];
    assert Translate(neg[|set_| + 3..]) == [];
    assert Translate(pos) == [CharClass(false, kept)];
    assert Translate(neg) == [CharClass(true, items)];
    assert [c][1..] == [];
    assert [CharClass(false, kept)][1..] == [];
    assert [CharClass(true, items)][1..] == [];
    assert Fnmatch([c], pos) <==> InClass(items, c) by {
      assert MatchTokens([CharClass(false, kept)], [c]) <==> InClass(kept, c) != false;
    }
    assert Fnmatch([c], neg) <==> !InClass(items, c) by {
      assert MatchTokens([CharClass(true, items)], [c]) <==> InClass(items, c) != true;
    }
  }

  /** `[b-a!]`: the empty range `b-a` is deleted and the `!` left at the front
      negates an empty set, so the pattern matches any one character. */
  lemma EmptyRangeThenBangMatchesAny(c: char)
    ensures Fnmatch([c], "[b-a!]")
  {
    var p := "[b-a!]";
    assert FindClose(p, 1) == Some(5) by {
      FindCloseAt(p, 1, 5);
    }
    assert p[1..5] == "b-a!" && p[6..] == [];
    var items := ParseItems("b-a!");
    assert items == [Range('b', 'a'), Single('!')] by {
      assert "b-a!"[3..] == "!" && "!"[1..] == [];
    }
    assert DropEmptyRanges(items) == [Single('!')] by {
      assert items[1..] == [Single('!')] && [Single('!')][1..] == [];
    }
    assert Translate(p) == [CharClass(true, [])];
    assert [CharClass(true, [])][1..] == [] && [c][1..] == [];
  }

  /** `[b-a!x]`: once `b-a` is deleted the set reads `!x`, which matches every
      character but `x`. */
  lemma EmptyRangeThenBangNegates(c: char)
    ensures Fnmatch([c], "[b-a!x]") <==> c != 'x'
  {
    var p := "[b-a!x]";
    assert FindClose(p, 1) == Some(6) by {
      FindCloseAt(p, 1, 6);
    }
    assert p[1..6] == "b-a!x" && p[7..] == [];
    var items := ParseItems("b-a!x");
    assert items == [Range('b', 'a'), Single('!'), Single('x')] by {
      assert "b-a!x"[3..] == "!x" && "!x"[1..] == "x" && "x"[1..] == [];
    }
    assert DropEmptyRanges(items) == [Single('!'), Single('x')] by {
      assert items[1..] == [Single('!'), Single('x')];
      assert [Single('!'), Single('x')][1..] == [Single('x')] && [Single('x')][1..] == [];
    }
    assert [Single('!'), Single('x')][1..] == [Single('x')];
    assert ClassEnd(p) == Some(6);
    assert ClassToken("b-a!x") == CharClass(true, [Single('x')]);
    var t := [CharClass(true, [Single('x')])];
    assert Translate(p) == t;
    assert t[1..] == [] && [c][1..] == [];
    assert InClass([Single('x')], c) <==> c == 'x' by {
      assert [Single('x')][1..] == [];
    }
    assert MatchTokens(t, [c]) <==> InClass([Single('x')], c) != true;
  }

  lemma {:induction false} FindCloseAt(p: string, j: nat, k: nat)
    requires j <= k < |p| && p[k] == ']'
    requires forall i :: j <= i < k ==> p[i] != ']'
    ensures FindClose(p, j) == Some(k)
    decreases k - j
  {
    if j < k {
      FindCloseAt(p, j + 1, k);
    }
  }

  /** A `[` with no `]` anywhere after it stands for itself, whatever else the rest
      of the pattern holds. */
  lemma UnclosedBracketIsLiteral(name: string, rest: string)
    requires forall i :: 0 <= i < |rest| ==> rest[i] != ']'
    ensures Translate("[" + rest) == [Literal('[')] + Translate(rest)
    ensures Fnmatch(name, "[" + rest) <==> (name != [] && name[0] == '[' && Fnmatch(name[1..], rest))
  {
    var p := "[" + rest;
    TranslateUnclosed(p);
    assert p[1..] == rest;
    var t := [Literal('[')] + Translate(rest);
    assert t[0] == Literal('[') && t[1..] == Translate(rest);
  }

  lemma TranslateUnclosed(p: string)
    requires |p| > 0 && p[0] == '['
    requires forall k :: 1 <= k < |p| ==> p[k] != ']'
    ensures Translate(p) == [Literal('[')] + Translate(p[1..])
  {
    assert ClassEnd(p) == None;
  }
}
