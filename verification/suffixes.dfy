/** Suffix tests, and where a pattern ending in a delimiter can occur. */
module Suffixes {
  import opened Strings

  /** `suffix` ends `s`. */
  predicate EndsWith(s: string, suffix: string) {
    |suffix| <= |s| && s[|s| - |suffix|..] == suffix
  }

  /** A suffix with a character absent from `s` does not end it. */
  lemma NotEndsWith(s: string, suffix: string, j: nat)
    requires j < |suffix| && suffix[j] !in s
    ensures !EndsWith(s, suffix)
  {
    if |suffix| <= |s| {
      assert s[|s| - |suffix|..][j] == s[|s| - |suffix| + j];
    }
  }

  /** A pattern whose only `c` is its last character occurs in `u c v`, with
      `u` free of `c`, only by ending at that `c` or inside `v`: so it does
      not occur when `u` does not end in the rest of the pattern and `v` does
      not hold it. */
  lemma CharEndedAbsent(u: string, c: char, v: string, pat: string)
    requires |pat| > 1 && pat[|pat| - 1] == c && c !in pat[..|pat| - 1]
    requires c !in u
    requires !EndsWith(u, pat[..|pat| - 1]) && !Contains(v, pat)
    ensures !Contains(u + [c] + v, pat)
  {
    var s, n := u + [c] + v, |pat|;
    forall k | 0 <= k && k + n <= |s|
      ensures !Occurs(s, pat, k)
    {
      if k + n - 1 < |u| {
        assert s[k + n - 1] == u[k + n - 1];
        assert s[k..k + n][n - 1] == s[k + n - 1];
      } else if k + n - 1 == |u| {
        assert s[k..k + n - 1] == u[|u| - (n - 1)..];
        assert s[k..k + n][..n - 1] == s[k..k + n - 1];
      } else if k <= |u| {
        assert s[k..k + n][|u| - k] == s[|u|];
        assert pat[..n - 1][|u| - k] == pat[|u| - k];
      } else {
        assert s[k..k + n] == v[k - |u| - 1..k - |u| - 1 + n];
        assert !Occurs(v, pat, k - |u| - 1);
      }
    }
  }
}
