/**
 * A small backtracking pattern matcher: literals, the wildcard `.`, the
 * escape marker `\`, the postfix quantifiers `?`, `*`, `+` and the anchors
 * `^`, `$`.  The comparator and the three quantifier handlers are mutually
 * recursive functions over pattern and text suffixes; the locator is a
 * method whose window loop is proved against the predicate `Search`.
 */
module Regex {

  /** One pattern symbol against one text symbol.  Both are strings of
      length 0 or 1, as the symbols handed around by the matcher are. */
  function CompareOne(sym: string, ch: string): (r: bool)
    ensures |sym| == 0 ==> r
    ensures |sym| != 0 && |ch| == 0 ==> !r
    ensures sym == "." && |ch| != 0 ==> r
    ensures |sym| != 0 && |ch| != 0 && sym != "." ==> (r <==> sym == ch)
  {
    if |sym| == 0 then true
    else if |ch| == 0 then false
    else if sym == "." then true
    else sym == ch
  }

  /** The reference meaning of a single pattern character against a single
      text character: the wildcard matches everything, any other character
      only itself. */
  predicate SymbolMatches(p: char, c: char) {
    p == '.' || p == c
  }

  lemma CompareOneOnSymbols(p: char, c: char)
    ensures CompareOne([p], [c]) == SymbolMatches(p, c)
  {
    assert [p] == "." <==> p == '.';
    assert [p] == [c] <==> p == c;
  }

  predicate IsQuantifier(c: char) {
    c == '?' || c == '*' || c == '+'
  }

  /** The comparator walks a pattern token by token: an escape marker and
      the character after it, a character and the quantifier after it, or a
      single character.  A pattern is well formed when that walk never
      stops on a lone trailing escape marker, the one input on which the
      comparator would read past the end of the pattern. */
  predicate WellFormed(p: string)
    decreases |p|
  {
    if |p| == 0 then true
    else if p[0] == '\\' then |p| >= 2 && WellFormed(p[2..])
    else if |p| >= 2 && IsQuantifier(p[1]) then WellFormed(p[2..])
    else WellFormed(p[1..])
  }

  /** Full-consumption comparison of a pattern suffix against a text suffix. */
  function Compare(regex: string, text: string): bool
    requires WellFormed(regex)
    decreases |text|, |regex|, 0
  {
    if |regex| == 0 then |text| == 0
    else if regex == "$" then |text| == 0
    else if |text| == 0 then false
    else if regex[0] == '\\' then
      CompareOne([regex[1]], [text[0]]) && Compare(regex[2..], text[1..])
    else if |regex| >= 2 && regex[1] == '?' then ZeroOrOne([regex[0]], regex[2..], text)
    else if |regex| >= 2 && regex[1] == '*' then ZeroOrMany([regex[0]], regex[2..], text)
    else if |regex| >= 2 && regex[1] == '+' then OneOrMany([regex[0]], regex[2..], text)
    else CompareOne([regex[0]], [text[0]]) && Compare(regex[1..], text[1..])
  }

  /** `prev?` followed by `rest`. */
  function ZeroOrOne(prev: string, rest: string, text: string): bool
    requires WellFormed(rest)
    decreases |text|, |rest|, 1
  {
    if Compare(rest, text) then true
    else if |text| == 0 then false
    else if CompareOne(prev, [text[0]]) then
      (if |rest| != 0 then Compare(rest, text[1..]) else true)
    else false
  }

  /** `prev*` followed by `rest`. */
  function ZeroOrMany(prev: string, rest: string, text: string): bool
    requires WellFormed(rest)
    decreases |text|, |rest|, 1
  {
    if |text| == 0 then Compare(rest, "")
    else if Compare(rest, text) then true
    else if CompareOne(prev, [text[0]]) then
      (if ZeroOrMany(prev, rest, text[1..]) then true else Compare(rest, text[1..]))
    else false
  }

  /** `prev+` followed by `rest`. */
  function OneOrMany(prev: string, rest: string, text: string): bool
    requires WellFormed(rest)
    decreases |text|, |rest|, 1
  {
    if |text| == 0 then false
    else if !CompareOne(prev, [text[0]]) then false
    else if Compare(rest, text[1..]) then true
    else if CompareOne(prev, [text[0]]) then
      (if OneOrMany(prev, rest, text[1..]) then true else Compare(rest, text[1..]))
    else false
  }

  // ---------------------------------------------------------------------
  // The comparator on small patterns

  lemma CompareOnEmpty(regex: string, text: string)
    requires WellFormed(regex)
    ensures regex == "" ==> (Compare(regex, text) <==> text == "")
    ensures regex == "$" ==> (Compare(regex, text) <==> text == "")
    ensures regex != "" && regex != "$" ==> !Compare(regex, "")
  {
  }

  /** A quantified symbol never matches the empty text, not even `a*`. */
  lemma QuantifiedNeverMatchesEmpty(c: char, q: char, rest: string)
    requires IsQuantifier(q) && WellFormed([c, q] + rest)
    ensures !Compare([c, q] + rest, "")
  {
    assert [c, q] + rest != "$";
  }

  /** A pattern without metacharacters, and not ending in `$`. */
  predicate Literal(p: string) {
    (forall i :: 0 <= i < |p| ==> !IsMeta(p[i])) &&
    (|p| != 0 ==> p[|p| - 1] != '$')
  }

  predicate IsMeta(c: char) {
    c == '.' || c == '\\' || IsQuantifier(c)
  }

  lemma {:induction false} LiteralWellFormed(p: string)
    requires Literal(p)
    ensures WellFormed(p)
    decreases |p|
  {
    if |p| != 0 {
      assert !IsMeta(p[0]);
      if |p| >= 2 {
        assert !IsMeta(p[1]);
      }
      assert Literal(p[1..]) by {
        forall i | 0 <= i < |p[1..]| ensures !IsMeta(p[1..][i]) {
          assert p[1..][i] == p[i + 1];
        }
      }
      LiteralWellFormed(p[1..]);
    }
  }

  /** A literal pattern matches exactly itself: full consumption, not a
      prefix test. */
  lemma {:induction false} LiteralMatchesItselfOnly(p: string, t: string)
    requires Literal(p)
    ensures WellFormed(p) && (Compare(p, t) <==> p == t)
    decreases |p|
  {
    LiteralWellFormed(p);
    if |p| != 0 && |t| != 0 {
      assert !IsMeta(p[0]);
      assert p != "$";
      if |p| >= 2 {
        assert !IsMeta(p[1]);
      }
      assert Literal(p[1..]) by {
        forall i | 0 <= i < |p[1..]| ensures !IsMeta(p[1..][i]) {
          assert p[1..][i] == p[i + 1];
        }
      }
      LiteralMatchesItselfOnly(p[1..], t[1..]);
      CompareOneOnSymbols(p[0], t[0]);
      assert Compare(p, t) == (p[0] == t[0] && Compare(p[1..], t[1..]));
      if p == t {
        assert p[1..] == t[1..];
      } else if p[0] == t[0] {
        assert p == [p[0]] + p[1..] && t == [t[0]] + t[1..];
      }
    } else if |p| != 0 {
      assert p != "$";
    }
  }

  /** A literal pattern followed by `$` matches exactly the literal. */
  lemma {:induction false} LiteralDollarMatchesLiteral(p: string, t: string)
    requires Literal(p)
    ensures WellFormed(p + "$") && (Compare(p + "$", t) <==> p == t)
    decreases |p|
  {
    if |p| == 0 {
      assert p + "$" == "$";
    } else {
      var q := p + "$";
      assert q[0] == p[0] && q[1..] == p[1..] + "$";
      assert !IsMeta(p[0]);
      assert q[1] != '?' && q[1] != '*' && q[1] != '+' by {
        if |p| >= 2 { assert q[1] == p[1] && !IsMeta(p[1]); } else { assert q[1] == '$'; }
      }
      assert Literal(p[1..]) by {
        forall i | 0 <= i < |p[1..]| ensures !IsMeta(p[1..][i]) {
          assert p[1..][i] == p[i + 1];
        }
      }
      LiteralDollarMatchesLiteral(p[1..], if |t| == 0 then t else t[1..]);
      assert WellFormed(q);
      if |t| != 0 {
        CompareOneOnSymbols(p[0], t[0]);
        assert Compare(q, t) == (p[0] == t[0] && Compare(p[1..] + "$", t[1..]));
        if p == t {
          assert p[1..] == t[1..];
        } else if p[0] == t[0] {
          assert p == [p[0]] + p[1..] && t == [t[0]] + t[1..];
        }
      }
    }
  }

  /** A leading escape consumes two pattern symbols and one text symbol,
      and matches the escaped symbol through `CompareOne`. */
  lemma EscapeConsumesPair(c: char, rest: string, t: string)
    requires WellFormed(rest) && |t| != 0
    ensures WellFormed(['\\', c] + rest)
    ensures Compare(['\\', c] + rest, t) <==> SymbolMatches(c, t[0]) && Compare(rest, t[1..])
  {
    var p := ['\\', c] + rest;
    assert p[2..] == rest;
    assert p != "$";
    CompareOneOnSymbols(c, t[0]);
  }

  /** So an escaped `.` is still a wildcard. */
  lemma EscapedDotIsWildcard(t: string)
    ensures WellFormed("\\.") && (Compare("\\.", t) <==> |t| == 1)
  {
    assert "\\."[2..] == "";
    if |t| != 0 {
      EscapeConsumesPair('.', "", t);
      assert ['\\', '.'] + "" == "\\.";
    }
  }

  /** A quantifier is recognised only as the second symbol of a pattern that
      does not start with an escape marker. */
  lemma QuantifierDispatch(c: char, q: char, rest: string, t: string)
    requires c != '\\' && IsQuantifier(q) && WellFormed(rest) && |t| != 0
    ensures WellFormed([c, q] + rest)
    ensures q == '?' ==> Compare([c, q] + rest, t) == ZeroOrOne([c], rest, t)
    ensures q == '*' ==> Compare([c, q] + rest, t) == ZeroOrMany([c], rest, t)
    ensures q == '+' ==> Compare([c, q] + rest, t) == OneOrMany([c], rest, t)
  {
    var p := [c, q] + rest;
    assert p[2..] == rest;
    assert p != "$";
  }

  // ---------------------------------------------------------------------
  // The quantifier handlers against a reference meaning

  /** Every symbol of `s` matches `prev`. */
  predicate AllMatch(prev: string, s: string) {
    forall i :: 0 <= i < |s| ==> CompareOne(prev, [s[i]])
  }

  /** The first `k` symbols of `text` repeat `prev` and `rest` matches the
      remainder. */
  predicate SplitsAt(prev: string, rest: string, text: string, k: nat)
    requires WellFormed(rest) && k <= |text|
  {
    AllMatch(prev, text[..k]) && Compare(rest, text[k..])
  }

  lemma AllMatchCons(prev: string, text: string, k: nat)
    requires 1 <= k <= |text|
    ensures AllMatch(prev, text[..k]) <==> CompareOne(prev, [text[0]]) && AllMatch(prev, text[1..][..k - 1])
  {
    var head, tail := text[..k], text[1..][..k - 1];
    assert head[0] == text[0];
    forall i | 0 <= i < k - 1 ensures tail[i] == head[i + 1] {
    }
    if AllMatch(prev, head) {
      assert CompareOne(prev, [head[0]]);
      forall i | 0 <= i < |tail| ensures CompareOne(prev, [tail[i]]) {
        assert CompareOne(prev, [head[i + 1]]);
      }
    }
    if CompareOne(prev, [text[0]]) && AllMatch(prev, tail) {
      forall i | 0 <= i < |head| ensures CompareOne(prev, [head[i]]) {
        if i > 0 {
          assert head[i] == tail[i - 1];
        }
      }
    }
  }

  /** Shifting a split point by one symbol of the text. */
  lemma SplitsAtCons(prev: string, rest: string, text: string, k: nat)
    requires WellFormed(rest) && 1 <= k <= |text|
    ensures SplitsAt(prev, rest, text, k) <==>
              CompareOne(prev, [text[0]]) && SplitsAt(prev, rest, text[1..], k - 1)
  {
    AllMatchCons(prev, text, k);
    assert text[k..] == text[1..][k - 1..];
  }

  lemma SplitsAtZero(prev: string, rest: string, text: string)
    requires WellFormed(rest)
    ensures SplitsAt(prev, rest, text, 0) <==> Compare(rest, text)
  {
    assert text[0..] == text;
  }

  /** `prev*rest` matches iff some number of leading symbols, zero included,
      repeat `prev` and `rest` matches what follows them. */
  lemma {:induction false} ZeroOrManyMeaning(prev: string, rest: string, text: string)
    requires WellFormed(rest)
    ensures ZeroOrMany(prev, rest, text) <==>
              exists k: nat :: k <= |text| && SplitsAt(prev, rest, text, k)
    decreases |text|
  {
    SplitsAtZero(prev, rest, text);
    if |text| == 0 {
      assert text == "";
    } else if Compare(rest, text) {
      assert SplitsAt(prev, rest, text, 0);
    } else if CompareOne(prev, [text[0]]) {
      ZeroOrManyMeaning(prev, rest, text[1..]);
      if ZeroOrMany(prev, rest, text[1..]) {
        var k: nat :| k <= |text[1..]| && SplitsAt(prev, rest, text[1..], k);
        SplitsAtCons(prev, rest, text, k + 1);
      }
      if k: nat :| k <= |text| && SplitsAt(prev, rest, text, k) {
        SplitsAtCons(prev, rest, text, k);
      }
    } else {
      if k: nat :| k <= |text| && SplitsAt(prev, rest, text, k) {
        SplitsAtCons(prev, rest, text, k);
      }
    }
  }

  /** `prev+rest` fails on an empty text or a first symbol that does not
      match `prev`; otherwise it matches iff at least one leading symbol
      repeats `prev` and `rest` matches what follows. */
  lemma {:induction false} OneOrManyMeaning(prev: string, rest: string, text: string)
    requires WellFormed(rest)
    ensures |text| == 0 || !CompareOne(prev, [text[0]]) ==> !OneOrMany(prev, rest, text)
    ensures OneOrMany(prev, rest, text) <==>
              exists k: nat :: 1 <= k <= |text| && SplitsAt(prev, rest, text, k)
    decreases |text|
  {
    if |text| != 0 && CompareOne(prev, [text[0]]) {
      OneOrManyMeaning(prev, rest, text[1..]);
      if Compare(rest, text[1..]) {
        SplitsAtZero(prev, rest, text[1..]);
        SplitsAtCons(prev, rest, text, 1);
      } else if OneOrMany(prev, rest, text[1..]) {
        var k: nat :| 1 <= k <= |text[1..]| && SplitsAt(prev, rest, text[1..], k);
        SplitsAtCons(prev, rest, text, k + 1);
      }
      if k: nat :| 1 <= k <= |text| && SplitsAt(prev, rest, text, k) {
        SplitsAtCons(prev, rest, text, k);
        if k == 1 {
          SplitsAtZero(prev, rest, text[1..]);
        } else {
          assert SplitsAt(prev, rest, text[1..], k - 1);
        }
      }
    } else if k: nat :| 1 <= k <= |text| && SplitsAt(prev, rest, text, k) {
      SplitsAtCons(prev, rest, text, k);
    }
  }

  /** The fallback of `ZeroOrMany` after its recursive call is never
      needed: the recursive call tries `rest` against the same text first. */
  lemma ZeroOrManyTriesRestFirst(prev: string, rest: string, text: string)
    requires WellFormed(rest)
    ensures Compare(rest, text) ==> ZeroOrMany(prev, rest, text)
  {
  }

  /** The last fallback of `*` adds nothing: the recursive call on the
      shorter text tries `rest` against that same text first. */
  lemma ZeroOrManyFallbackIsRedundant(prev: string, rest: string, text: string)
    requires WellFormed(rest) && |text| != 0
    ensures ZeroOrMany(prev, rest, text) <==>
              Compare(rest, text) || (CompareOne(prev, [text[0]]) && ZeroOrMany(prev, rest, text[1..]))
  {
    if Compare(rest, text[1..]) {
      ZeroOrManyTriesRestFirst(prev, rest, text[1..]);
    }
  }

  /** The last fallback of `+` adds nothing: it repeats the test of `rest`
      against the shorter text that has already failed. */
  lemma OneOrManyFallbackIsRedundant(prev: string, rest: string, text: string)
    requires WellFormed(rest) && |text| != 0
    ensures OneOrMany(prev, rest, text) <==>
              CompareOne(prev, [text[0]]) && (Compare(rest, text[1..]) || OneOrMany(prev, rest, text[1..]))
  {
  }

  /** `prev+` is one `prev` followed by `prev*`. */
  lemma OneOrManyIsOneThenZeroOrMany(prev: string, rest: string, text: string)
    requires WellFormed(rest)
    ensures OneOrMany(prev, rest, text) <==>
              |text| != 0 && CompareOne(prev, [text[0]]) && ZeroOrMany(prev, rest, text[1..])
  {
    OneOrManyMeaning(prev, rest, text);
    if |text| != 0 && CompareOne(prev, [text[0]]) {
      ZeroOrManyMeaning(prev, rest, text[1..]);
      if OneOrMany(prev, rest, text) {
        var k: nat :| 1 <= k <= |text| && SplitsAt(prev, rest, text, k);
        SplitsAtCons(prev, rest, text, k);
      }
      if ZeroOrMany(prev, rest, text[1..]) {
        var k: nat :| k <= |text[1..]| && SplitsAt(prev, rest, text[1..], k);
        SplitsAtCons(prev, rest, text, k + 1);
      }
    }
  }

  /** `prev?rest`, for a non-empty `rest`, matches iff zero or one leading
      symbol repeats `prev` and `rest` matches what follows. */
  lemma ZeroOrOneMeaning(prev: string, rest: string, text: string)
    requires WellFormed(rest) && |rest| != 0
    ensures ZeroOrOne(prev, rest, text) <==>
              exists k: nat :: k <= 1 && k <= |text| && SplitsAt(prev, rest, text, k)
  {
    SplitsAtZero(prev, rest, text);
    if |text| != 0 {
      SplitsAtCons(prev, rest, text, 1);
      SplitsAtZero(prev, rest, text[1..]);
    }
  }

  /** With nothing after `prev?`, one matching symbol is enough, however
      much text follows it. */
  lemma ZeroOrOneWithEmptyRest(prev: string, text: string)
    ensures ZeroOrOne(prev, "", text) <==> |text| == 0 || CompareOne(prev, [text[0]])
  {
  }

  // ---------------------------------------------------------------------
  // The anchor-aware locator

  predicate StartsWithCaret(regex: string) {
    |regex| != 0 && regex[0] == '^'
  }

  predicate EndsWithDollar(regex: string) {
    |regex| != 0 && regex[|regex| - 1] == '$'
  }

  /** The pattern the locator hands to the comparator. */
  function SearchedPattern(regex: string): (p: string)
    ensures |p| <= |regex|
  {
    if StartsWithCaret(regex) && EndsWithDollar(regex) then regex[1..|regex| - 1]
    else if StartsWithCaret(regex) then regex[1..]
    else regex
  }

  /** The window length of the end-anchored and of the unanchored search:
      one symbol less when the pattern holds an escape marker. */
  function WindowLength(regex: string, anchored: bool): nat
    requires anchored ==> EndsWithDollar(regex)
  {
    var n := if anchored then |regex| - 1 else |regex|;
    if '\\' in regex then n - 1 else n
  }

  /** `text[:n]` */
  function Prefix(text: string, n: int): (w: string)
    requires n >= 0
    ensures |w| <= |text| && w == text[..|w|]
  {
    if n < |text| then text[..n] else text
  }

  /** `text[-n:]`, where `-0` is `0` and so yields the whole text. */
  function Suffix(text: string, n: nat): (w: string)
    ensures |w| <= |text| && w == text[|text| - |w|..]
  {
    if n == 0 || n >= |text| then text else text[|text| - n..]
  }

  /** `text[i:i+n]` */
  function Window(text: string, i: nat, n: nat): (w: string)
    requires i <= |text|
    ensures |w| <= n && i + |w| <= |text| && w == text[i..i + |w|]
  {
    if i + n <= |text| then text[i..i + n] else text[i..]
  }

  /** The last start offset of the unanchored search. */
  function LastStart(text: string, n: nat): (r: nat)
    ensures n <= |text| ==> r + n == |text| && |Window(text, r, n)| == n
    ensures n >= |text| ==> r == 0
  {
    if |text| > n then |text| - n else 0
  }

  /** Whether the locator reports a match. */
  predicate Search(regex: string, text: string)
    requires WellFormed(SearchedPattern(regex))
  {
    if StartsWithCaret(regex) && EndsWithDollar(regex) then
      Compare(SearchedPattern(regex), text)
    else if StartsWithCaret(regex) then
      Compare(SearchedPattern(regex), Prefix(text, |regex| - 1))
    else if EndsWithDollar(regex) then
      Compare(regex, Suffix(text, WindowLength(regex, true)))
    else
      var n := WindowLength(regex, false);
      exists i: nat :: i <= LastStart(text, n) && Compare(regex, Window(text, i, n))
  }

  /** The locator: the anchored cases compare once, the unanchored case
      slides a fixed-width window over the text and stops at the first hit. */
  method MatchPattern(regex: string, text: string) returns (found: bool)
    requires WellFormed(SearchedPattern(regex))
    ensures found == Search(regex, text)
  {
    if StartsWithCaret(regex) && EndsWithDollar(regex) {
      found := Compare(regex[1..|regex| - 1], text);
    } else if StartsWithCaret(regex) {
      found := Compare(regex[1..], Prefix(text, |regex| - 1));
    } else if EndsWithDollar(regex) {
      var index := if '\\' in regex then |regex| - 2 else |regex| - 1;
      found := Compare(regex, Suffix(text, index));
    } else {
      var index := if '\\' in regex then |regex| - 1 else |regex|;
      var count := if |text| - index + 1 > 1 then |text| - index + 1 else 1;
      assert index == WindowLength(regex, false) && count == LastStart(text, index) + 1;
      var i := 0;
      while i < count
        invariant 0 <= i <= count
        invariant forall j: nat :: j < i ==> !Compare(regex, Window(text, j, index))
      {
        if Compare(regex, Window(text, i, index)) {
          assert i <= LastStart(text, index);
          return true;
        }
        i := i + 1;
      }
      found := false;
    }
  }

  /** `^p$` compares `p` against the whole text. */
  lemma FullyAnchoredIsCompare(p: string, text: string)
    requires WellFormed(p)
    ensures SearchedPattern(['^'] + p + ['$']) == p
    ensures Search(['^'] + p + ['$'], text) == Compare(p, text)
  {
    var r := ['^'] + p + ['$'];
    assert r[1..|r| - 1] == p;
  }

  predicate OccursAt(p: string, text: string, i: nat) {
    i + |p| <= |text| && text[i..i + |p|] == p
  }

  /** A literal pattern not starting with `^` is found iff it occurs in the
      text. */
  lemma {:induction false} LiteralSearchIsSubstring(p: string, text: string)
    requires Literal(p) && !StartsWithCaret(p)
    ensures WellFormed(SearchedPattern(p))
    ensures Search(p, text) <==>
              exists i: nat :: OccursAt(p, text, i)
  {
    LiteralWellFormed(p);
    assert !EndsWithDollar(p);
    assert '\\' !in p;
    var n := WindowLength(p, false);
    assert n == |p|;
    if Search(p, text) {
      var i: nat :| i <= LastStart(text, n) && Compare(p, Window(text, i, n));
      LiteralMatchesItselfOnly(p, Window(text, i, n));
      assert OccursAt(p, text, i);
    }
    if i: nat :| OccursAt(p, text, i) {
      LiteralMatchesItselfOnly(p, Window(text, i, n));
      assert i <= LastStart(text, n) && Compare(p, Window(text, i, n));
      assert Search(p, text);
    }
  }

  /** A `^`-anchored literal pattern is found iff it is a prefix of the text. */
  lemma LiteralStartAnchoredIsPrefix(p: string, text: string)
    requires Literal(p)
    ensures WellFormed(SearchedPattern(['^'] + p))
    ensures Search(['^'] + p, text) <==> |p| <= |text| && text[..|p|] == p
  {
    var r := ['^'] + p;
    LiteralWellFormed(p);
    if |p| != 0 {
      assert r[|r| - 1] == p[|p| - 1];
    }
    assert !EndsWithDollar(r);
    assert r[1..] == p;
    LiteralMatchesItselfOnly(p, Prefix(text, |r| - 1));
  }

  /** A non-empty literal pattern followed by `$` is found iff it ends the
      text. */
  lemma LiteralEndAnchoredIsSuffix(p: string, text: string)
    requires Literal(p) && |p| != 0 && !StartsWithCaret(p)
    ensures WellFormed(SearchedPattern(p + "$"))
    ensures Search(p + "$", text) <==> |p| <= |text| && text[|text| - |p|..] == p
  {
    var r := p + "$";
    LiteralDollarMatchesLiteral(p, Suffix(text, |p|));
    assert r[0] == p[0];
    assert forall j :: 0 <= j < |r| ==> r[j] != '\\' by {
      forall j | 0 <= j < |r| ensures r[j] != '\\' {
        if j < |p| {
          assert r[j] == p[j] && !IsMeta(p[j]);
        }
      }
    }
    assert '\\' !in r;
    assert WindowLength(r, true) == |p|;
  }

  /** A lone `$` matches only the empty text: it is not a suffix test. */
  lemma LoneDollarMatchesOnlyEmpty(text: string)
    ensures WellFormed(SearchedPattern("$"))
    ensures Search("$", text) <==> text == ""
  {
    assert "$"[1..] == "";
  }

  /** The wildcard alone is found in every non-empty text. */
  lemma WildcardFindsAnySymbol(text: string)
    ensures WellFormed(SearchedPattern("."))
    ensures Search(".", text) <==> |text| >= 1
  {
    assert "."[1..] == "";
    assert WindowLength(".", false) == 1;
    if |text| >= 1 {
      assert Window(text, 0, 1) == [text[0]];
      assert Compare(".", Window(text, 0, 1));
    }
  }

  /** Text added around the subject can turn a fully anchored search from
      failing to succeeding: `^...$` fails on `a` and succeeds on `xay`. */
  lemma AnchoredSearchCanFlipWithMoreText()
    ensures WellFormed(SearchedPattern("^...$"))
    ensures !Search("^...$", "a") && Search("^...$", "xay")
  {
    assert "^...$"[1..4] == "...";
    assert "..."[1..] == ".." && ".."[1..] == ".";
  }

  /** Worked cases of the comparator and of the locator. */
  lemma Examples()
    ensures Compare("a?b", "b") && Compare("a?b", "ab") && !Compare("a?b", "aab")
    ensures Compare("a*b", "b") && Compare("a*b", "aaab") && !Compare("a*b", "")
    ensures !Compare("a+b", "b") && Compare("a+b", "ab") && Compare("a+b", "aaab")
    ensures Compare("\\.", ".") && Compare("\\.", "x")
    ensures Search("^a.c$", "abc") && !Search("^a.c$", "abcc")
  {
    assert "a?b"[2..] == "b" && "a*b"[2..] == "b" && "a+b"[2..] == "b";
    assert "^a.c$"[1..4] == "a.c";
    EscapedDotIsWildcard(".");
    EscapedDotIsWildcard("x");
  }
}
