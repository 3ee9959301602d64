/** The phrase query's LIKE pattern: the rewrite the adapter applies to the
    user's phrase, what that pattern matches, and a corrected rewrite that
    makes `%` and `_` literal. */
module Phrase {
  import opened Wrappers
  import opened Strings
  import opened LikeMatch

  /** Java `String.replace` with a one-character target: every `c` in `s`
      becomes `t`, left to right. */
  function ReplaceAll(s: string, c: char, t: string): (r: string)
    ensures |r| == |s| + Count(s, c) * (|t| - 1)
  {
    if s == [] then []
    else (if s[0] == c then t else [s[0]]) + ReplaceAll(s[1..], c, t)
  }

  lemma {:induction false} ReplaceAllConcat(a: string, b: string, c: char, t: string)
    ensures ReplaceAll(a + b, c, t) == ReplaceAll(a, c, t) + ReplaceAll(b, c, t)
  {
    if a == [] {
      assert a + b == b;
    } else {
      assert (a + b)[1..] == a[1..] + b;
      ReplaceAllConcat(a[1..], b, c, t);
    }
  }

  /** The first replacement adds one `%` per `_` to those already there. */
  lemma {:induction false} UnderscoreRewriteCount(p: string)
    ensures Count(ReplaceAll(p, '_', "%_"), '%') == Count(p, '%') + Count(p, '_')
  {
    if p != [] {
      var first := if p[0] == '_' then "%_" else [p[0]];
      assert ReplaceAll(p, '_', "%_") == first + ReplaceAll(p[1..], '_', "%_");
      CountConcat(first, ReplaceAll(p[1..], '_', "%_"), '%');
      assert p == [p[0]] + p[1..];
      CountConcat([p[0]], p[1..], '%');
      CountConcat([p[0]], p[1..], '_');
      UnderscoreRewriteCount(p[1..]);
    }
  }

  /** The adapter's rewrite of the phrase: `_` to `%_`, then `%` to `%%`.
      Every `%` of the phrase gains one character and every `_` two. */
  function Escape(phrase: string): (r: string)
    ensures |r| == |phrase| + Count(phrase, '%') + 2 * Count(phrase, '_')
  {
    UnderscoreRewriteCount(phrase);
    ReplaceAll(ReplaceAll(phrase, '_', "%_"), '%', "%%")
  }

  /** What the two replacements do to one character of the phrase: the
      character is kept last, and only `%` and `_` gain a prefix. */
  function EscapeChar(c: char): (r: string)
    ensures 1 <= |r| <= 3 && r[|r| - 1] == c
    ensures |r| == 1 <==> c != '%' && c != '_'
  {
    if c == '_' then "%%_" else if c == '%' then "%%" else [c]
  }

  /** The rewrite stated character by character: every character of the
      phrase is kept, in order, behind the wildcards inserted for it. */
  function EscapeEach(p: string): (r: string)
    ensures |r| == |p| + Count(p, '%') + 2 * Count(p, '_')
  {
    if p == [] then [] else EscapeChar(p[0]) + EscapeEach(p[1..])
  }

  /** The chained replacements act character by character: the `%` that the
      first one inserts before `_` is doubled by the second. */
  lemma {:induction false} EscapeIsPerChar(p: string)
    ensures Escape(p) == EscapeEach(p)
  {
    if p != [] {
      var c := p[0];
      var first := if c == '_' then "%_" else [c];
      assert ReplaceAll(p, '_', "%_") == first + ReplaceAll(p[1..], '_', "%_");
      ReplaceAllConcat(first, ReplaceAll(p[1..], '_', "%_"), '%', "%%");
      assert ReplaceAll(first, '%', "%%") == EscapeChar(c) by {
        if c == '_' {
          assert first == ['%'] + ['_'];
          ReplaceAllConcat(['%'], ['_'], '%', "%%");
        }
      }
      EscapeIsPerChar(p[1..]);
    }
  }

  /** The parameter bound to `content LIKE ?`: the rewritten phrase between
      two `%%`. */
  function PhrasePattern(phrase: string): (r: string)
    ensures r == "%%" + EscapeEach(phrase) + "%%"
    ensures |r| == |phrase| + Count(phrase, '%') + 2 * Count(phrase, '_') + 4
  {
    EscapeIsPerChar(phrase);
    "%%" + Escape(phrase) + "%%"
  }

  /** `%%` matches every string, as `%` does. */
  lemma MatchesAnythingTwice(s: string)
    ensures Like(s, "%%", None)
  {
    MatchesAnything(s, None);
    assert "%%"[1..] == "%";
  }

  // One unfolding of Like without an escape character, per pattern head.

  lemma PercentEmpty(s: string, r: string)
    requires Like(s, r, None)
    ensures Like(s, "%" + r, None)
  {
    assert ("%" + r)[1..] == r;
  }

  lemma PercentConsumes(s: string, r: string)
    requires s != [] && Like(s[1..], "%" + r, None)
    ensures Like(s, "%" + r, None)
  {
  }

  lemma UnderscoreConsumes(s: string, r: string)
    requires s != [] && Like(s[1..], r, None)
    ensures Like(s, "_" + r, None)
  {
    assert ("_" + r)[1..] == r;
  }

  lemma LiteralConsumes(s: string, c: char, r: string)
    requires c != '%' && c != '_'
    requires s != [] && s[0] == c && Like(s[1..], r, None)
    ensures Like(s, [c] + r, None)
  {
    assert ([c] + r)[1..] == r;
  }

  /** The wildcards the rewrite puts in front of a character let a match of
      the rest go on after that character. */
  lemma EscapeCharMatches(s: string, rest: string)
    requires s != [] && Like(s[1..], rest, None)
    ensures Like(s, EscapeChar(s[0]) + rest, None)
  {
    var c := s[0];
    if c == '_' {
      UnderscoreConsumes(s, rest);
      PercentEmpty(s, "_" + rest);
      PercentEmpty(s, "%" + ("_" + rest));
      assert EscapeChar(c) + rest == "%" + ("%" + ("_" + rest));
    } else if c == '%' {
      PercentEmpty(s[1..], rest);
      PercentEmpty(s[1..], "%" + rest);
      PercentConsumes(s, "%" + rest);
      assert EscapeChar(c) + rest == "%" + ("%" + rest);
    } else {
      LiteralConsumes(s, c, rest);
    }
  }

  /** Dropping the first character of a subject that starts with `p`. */
  lemma PrefixTail(s: string, p: string)
    requires p != [] && |p| <= |s| && s[..|p|] == p
    ensures s[0] == p[0] && s[1..][..|p| - 1] == p[1..] && s[1..][|p| - 1..] == s[|p|..]
  {
    assert s[0] == s[..|p|][0];
  }

  /** The rewrite of `p` followed by `q`, split after the first character. */
  lemma EscapeEachCons(p: string, q: string)
    requires p != []
    ensures EscapeEach(p) + q == EscapeChar(p[0]) + (EscapeEach(p[1..]) + q)
  {
  }

  /** A subject that starts with `p` and continues with a match of `q`
      matches the rewritten `p` followed by `q`. */
  lemma {:induction false} EscapedPrefixMatches(s: string, p: string, q: string)
    requires |p| <= |s| && s[..|p|] == p
    requires Like(s[|p|..], q, None)
    ensures Like(s, EscapeEach(p) + q, None)
    decreases |p|
  {
    if p == [] {
      assert s[0..] == s;
      assert EscapeEach(p) + q == q;
    } else {
      var rest := EscapeEach(p[1..]) + q;
      PrefixTail(s, p);
      EscapedPrefixMatches(s[1..], p[1..], q);
      EscapeCharMatches(s, rest);
      EscapeEachCons(p, q);
    }
  }

  /** Every content that contains the phrase matches the phrase pattern. */
  lemma ContainsMatches(s: string, phrase: string)
    requires Contains(s, phrase)
    ensures Like(s, PhrasePattern(phrase), None)
  {
    var k :| 0 <= k <= |s| - |phrase| && OccursAt(s, phrase, k);
    var t := s[k..];
    assert t[..|phrase|] == phrase;
    MatchesAnythingTwice(t[|phrase|..]);
    EscapedPrefixMatches(t, phrase, "%%");
    var r := EscapeEach(phrase) + "%%";
    PercentSkips(s, r, None, k);
    var pattern := "%" + ("%" + r);
    assert pattern[1..] == "%" + r;
    assert PhrasePattern(phrase) == pattern;
  }

  /** The rewrite does not make `_` literal: "a_b" becomes "%%a%%_b%%",
      which "axyb" matches although it does not contain "a_b". */
  lemma WildcardLeak()
    ensures Like("axyb", PhrasePattern("a_b"), None)
    ensures !Contains("axyb", "a_b")
  {
    var tail := "%%";
    MatchesAnythingTwice([]);
    LiteralConsumes("b", 'b', tail);
    UnderscoreConsumes("yb", "b" + tail);
    var v := "%" + ("_" + ("b" + tail));
    PercentEmpty("yb", "_" + ("b" + tail));
    PercentConsumes("xyb", "_" + ("b" + tail));
    PercentEmpty("xyb", v);
    LiteralConsumes("axyb", 'a', "%" + v);
    PercentEmpty("axyb", "a" + ("%" + v));
    PercentEmpty("axyb", "%" + ("a" + ("%" + v)));
    assert EscapeEach("a_b") == "a%%_b";
    assert PhrasePattern("a_b") == "%" + ("%" + ("a" + ("%" + v)));
    forall k | 0 <= k <= 1
      ensures !OccursAt("axyb", "a_b", k)
    {
      assert "axyb"[k..k + 3][1] != '_';
    }
  }

  // ---------------------------------------------------------------------
  // Corrected rewrite: escape with a designated character and bind the
  // pattern with `LIKE ? ESCAPE '\\'` (the SQL string holding one backslash).

  const EscapeCharacter: char := '\\'

  /** One character of the phrase, escaped when it is a wildcard or the
      escape character itself. */
  function EscapeLiteralChar(c: char): string
  {
    if c == '%' || c == '_' || c == EscapeCharacter then [EscapeCharacter, c] else [c]
  }

  function EscapeLiteral(p: string): (r: string)
    ensures |p| <= |r|
  {
    if p == [] then [] else EscapeLiteralChar(p[0]) + EscapeLiteral(p[1..])
  }

  /** The corrected pattern: the escaped phrase between single `%`. */
  function LiteralPattern(phrase: string): (r: string)
    ensures |r| >= |phrase| + 2 && r[0] == '%' && r[|r| - 1] == '%'
  {
    "%" + EscapeLiteral(phrase) + "%"
  }

  /** The escaped phrase followed by `q` matches exactly the subjects that
      start with the phrase and continue with a match of `q`. */
  lemma {:induction false} LiteralPrefix(s: string, p: string, q: string)
    ensures Like(s, EscapeLiteral(p) + q, Some(EscapeCharacter))
        <==> |p| <= |s| && s[..|p|] == p && Like(s[|p|..], q, Some(EscapeCharacter))
    decreases |p|
  {
    if p == [] {
      assert s[0..] == s;
      assert EscapeLiteral(p) + q == q;
    } else {
      var rest := EscapeLiteral(p[1..]) + q;
      assert EscapeLiteral(p) + q == EscapeLiteralChar(p[0]) + rest;
      LiteralCharStep(s, p[0], rest);
      if s != [] {
        LiteralPrefix(s[1..], p[1..], q);
        if |p| <= |s| {
          PrefixCons(s, p);
        }
      }
    }
  }

  /** One escaped character of the phrase matches exactly that character. */
  lemma LiteralCharStep(s: string, c: char, rest: string)
    ensures Like(s, EscapeLiteralChar(c) + rest, Some(EscapeCharacter))
        <==> s != [] && s[0] == c && Like(s[1..], rest, Some(EscapeCharacter))
  {
    var pattern := EscapeLiteralChar(c) + rest;
    if c == '%' || c == '_' || c == EscapeCharacter {
      assert pattern[0] == EscapeCharacter && pattern[1] == c && pattern[2..] == rest;
    } else {
      assert pattern[0] == c && pattern[1..] == rest;
    }
  }

  /** A subject starts with a non-empty `p` iff its first character is
      `p`'s and its tail starts with the rest of `p`. */
  lemma PrefixCons(s: string, p: string)
    requires p != [] && |p| <= |s|
    ensures s[1..][|p| - 1..] == s[|p|..]
    ensures s[..|p|] == p <==> s[0] == p[0] && s[1..][..|p| - 1] == p[1..]
  {
    assert s[..|p|] == [s[0]] + s[1..][..|p| - 1];
    assert p == [p[0]] + p[1..];
  }

  /** The corrected pattern matches a content exactly when the content
      contains the phrase. */
  lemma LiteralPatternExact(s: string, phrase: string)
    ensures Like(s, LiteralPattern(phrase), Some(EscapeCharacter)) <==> Contains(s, phrase)
  {
    var esc := Some(EscapeCharacter);
    var r := EscapeLiteral(phrase) + "%";
    assert LiteralPattern(phrase) == "%" + r;
    if Like(s, "%" + r, esc) {
      PercentSplits(s, r, esc);
      var k :| 0 <= k <= |s| && Like(s[k..], r, esc);
      LiteralPrefix(s[k..], phrase, "%");
      assert s[k..][..|phrase|] == s[k..k + |phrase|];
      assert OccursAt(s, phrase, k);
    }
    if Contains(s, phrase) {
      var k :| 0 <= k <= |s| - |phrase| && OccursAt(s, phrase, k);
      assert s[k..][..|phrase|] == phrase;
      MatchesAnything(s[k..][|phrase|..], esc);
      LiteralPrefix(s[k..], phrase, "%");
      PercentSkips(s, r, esc, k);
    }
  }
}
