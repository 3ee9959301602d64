/** The SQL `<like predicate>` (ISO/IEC 9075, section 8.5): in the pattern
    `%` matches any sequence of characters, `_` matches exactly one, and the
    optional escape character makes the character after it literal. */
module LikeMatch {
  import opened Wrappers

  /** `s LIKE p [ESCAPE esc]`. An escape character at the very end of the
      pattern is taken literally. */
  predicate Like(s: string, p: string, esc: Option<char>)
    decreases |s| + |p|
  {
    if p == [] then s == []
    else if esc == Some(p[0]) && |p| >= 2 then
      s != [] && s[0] == p[1] && Like(s[1..], p[2..], esc)
    else if p[0] == '%' then
      Like(s, p[1..], esc) || (s != [] && Like(s[1..], p, esc))
    else if p[0] == '_' then
      s != [] && Like(s[1..], p[1..], esc)
    else
      s != [] && s[0] == p[0] && Like(s[1..], p[1..], esc)
  }

  /** A leading `%` may skip any prefix of the subject. */
  lemma {:induction false} PercentSkips(s: string, r: string, esc: Option<char>, k: nat)
    requires esc != Some('%')
    requires k <= |s| && Like(s[k..], r, esc)
    ensures Like(s, "%" + r, esc)
    decreases k
  {
    var p := "%" + r;
    assert p[1..] == r;
    if k == 0 {
      assert s[k..] == s;
    } else {
      assert s[1..][k - 1..] == s[k..];
      PercentSkips(s[1..], r, esc, k - 1);
    }
  }

  /** Conversely, a match of a leading `%` skips some prefix of the subject. */
  lemma {:induction false} PercentSplits(s: string, r: string, esc: Option<char>)
    requires esc != Some('%')
    requires Like(s, "%" + r, esc)
    ensures exists k | 0 <= k <= |s| :: Like(s[k..], r, esc)
    decreases |s|
  {
    var p := "%" + r;
    assert p[1..] == r;
    if Like(s, r, esc) {
      assert s[0..] == s;
    } else {
      PercentSplits(s[1..], r, esc);
      var k :| 0 <= k <= |s[1..]| && Like(s[1..][k..], r, esc);
      assert s[1..][k..] == s[k + 1..];
    }
  }

  /** `%` matches every string. */
  lemma MatchesAnything(s: string, esc: Option<char>)
    requires esc != Some('%')
    ensures Like(s, "%", esc)
  {
    assert s[|s|..] == [];
    assert "%" == "%" + [];
    PercentSkips(s, [], esc, |s|);
  }
}
