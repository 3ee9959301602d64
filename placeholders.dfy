/** The `?, ?, …` parameter list of the keyword query's `IN (…)` clause. */
module Placeholders {
  import opened Wrappers
  import opened Strings
  import opened Pagination

  /** `s` alternates `?` and `,`, starting and ending with `?`. */
  predicate IsPlaceholderList(s: string)
  {
    |s| % 2 == 1 && forall i | 0 <= i < |s| :: s[i] == if i % 2 == 0 then '?' else ','
  }

  /** The largest length whose buffer capacity `len * 2 - 1` fits in an `int`. */
  const MaxPlaceholders: int := 0x4000_0000

  /** Builds `len` comma-separated placeholders. A length below 1 throws, and
      so does a length whose capacity `len * 2 - 1` wraps negative. */
  method MakePlaceholders(len: Int32) returns (r: Result<string, string>)
    ensures r.Failure? <==> len < 1 || len > MaxPlaceholders
    ensures r.Failure? ==> r.error == (if len < 1 then "No placeholders" else "NegativeArraySizeException")
    ensures r.Success? ==> IsPlaceholderList(r.value) && |r.value| == 2 * len - 1
  {
    if len < 1 {
      return Failure("No placeholders");
    }
    var capacity := Wrap32(Wrap32(len * 2) - 1);
    if capacity < 0 {
      return Failure("NegativeArraySizeException");
    }
    var sb := "?";
    for i := 1 to len
      invariant |sb| == 2 * i - 1
      invariant forall k | 0 <= k < |sb| :: sb[k] == if k % 2 == 0 then '?' else ','
    {
      sb := sb + ",?";
    }
    return Success(sb);
  }

  /** A placeholder list of length 2n - 1 binds exactly n parameters. */
  lemma {:induction false} PlaceholderCount(s: string)
    requires IsPlaceholderList(s)
    ensures Count(s, '?') == (|s| + 1) / 2
    decreases |s|
  {
    if |s| > 1 {
      var t := s[2..];
      assert IsPlaceholderList(t) by {
        forall i | 0 <= i < |t|
          ensures t[i] == if i % 2 == 0 then '?' else ','
        {
          assert t[i] == s[i + 2];
        }
      }
      PlaceholderCount(t);
      assert s == s[..2] + t;
      CountConcat(s[..2], t, '?');
      assert s[..2] == "?,";
    }
  }
}
