/** The two fixed regular expressions of the parser, `-H '[^']+'` and
    `--data-raw '[^']*'`, as hand-written scanners with the semantics of
    Python's `re.findall`: leftmost match first, the scan resuming right
    after each match, so matches never overlap. */
module Scanner {
  import opened Results
  import opened Strings

  /** A literal opener ending in a quote, a run of at least `minBody`
      non-quote characters, and a closing quote. */
  datatype Pattern = Pattern(opener: string, minBody: nat)

  /** `-H '[^']+'`: one header argument. */
  const HeaderFlag := Pattern("-H '", 1)

  /** `--data-raw '[^']*'`: one raw body argument. */
  const DataRawFlag := Pattern("--data-raw '", 0)

  /** `s[i..e]` is a match of `p`. Because the run excludes quotes, the closing
      quote is the first quote after the opener, as the greedy regex finds it. */
  predicate IsMatch(s: string, p: Pattern, i: int, e: int) {
    && Occurs(s, p.opener, i)
    && i + |p.opener| + p.minBody < e <= |s|
    && s[e - 1] == '\''
    && '\'' !in s[i + |p.opener|..e - 1]
  }

  /** A matched fragment on its own: the whole fragment is a match. */
  predicate IsFragment(p: Pattern, m: string) {
    IsMatch(m, p, 0, |m|)
  }

  /** Where the match of `p` that starts at `i` ends, if one starts there. */
  function MatchEnd(s: string, p: Pattern, i: nat): (r: Option<nat>)
    ensures r.Some? ==> IsMatch(s, p, i, r.value)
  {
    if !Occurs(s, p.opener, i) then None
    else
      var start := i + |p.opener|;
      QuoteAfter(s, start);
      match IndexOf(s[start..], "'")
      case None => None
      case Some(j) => if j >= p.minBody then Some(start + j + 1) else None
  }

  /** What `IndexOf` reports about the first quote at or after `start`. */
  lemma QuoteAfter(s: string, start: nat)
    requires start <= |s|
    ensures IndexOf(s[start..], "'").None? ==> '\'' !in s[start..]
    ensures IndexOf(s[start..], "'").Some? ==>
      var j := IndexOf(s[start..], "'").value;
      start + j < |s| && s[start + j] == '\'' && '\'' !in s[start..start + j]
  {
    var rest := s[start..];
    IndexOfChar(rest, '\'');
    if IndexOf(rest, "'").Some? {
      var j := IndexOf(rest, "'").value;
      assert s[start..start + j] == rest[..j];
    }
  }

  /** The regular expression at `i` succeeds exactly when `IsMatch` says so. */
  lemma MatchEndExact(s: string, p: Pattern, i: nat, e: nat)
    ensures MatchEnd(s, p, i) == Some(e) <==> IsMatch(s, p, i, e)
  {
    if IsMatch(s, p, i, e) {
      var start := i + |p.opener|;
      QuoteAfter(s, start);
      assert s[start..][e - 1 - start] == s[e - 1];
      var j := IndexOf(s[start..], "'").value;
      assert j == e - 1 - start;
    }
  }

  /** The matched fragment `s[i..e]` read on its own is a match. */
  lemma SliceIsFragment(s: string, p: Pattern, i: nat, e: nat)
    requires IsMatch(s, p, i, e)
    ensures IsFragment(p, s[i..e])
  {
    var m := s[i..e];
    var a := |p.opener|;
    assert |m| == e - i;
    assert m[0..a] == s[i..i + a];
    var inner, orig := m[a..|m| - 1], s[i + a..e - 1];
    assert inner == orig by {
      forall k | 0 <= k < |inner|
        ensures inner[k] == orig[k]
      {
        assert m[a + k] == s[i + a + k];
      }
    }
  }

  /** Python's `re.findall(p, s[i:])`, scanning from `i`. */
  function Scan(s: string, p: Pattern, i: nat): (ms: seq<string>)
    ensures forall k :: 0 <= k < |ms| ==> IsFragment(p, ms[k])
    decreases |s| - i
  {
    if i >= |s| then []
    else
      match MatchEnd(s, p, i)
      case Some(e) =>
        SliceIsFragment(s, p, i, e);
        [s[i..e]] + Scan(s, p, e)
      case None => Scan(s, p, i + 1)
  }

  /** Python's `re.findall(p, s)`: matched fragments only, and none exactly
      when the pattern matches nowhere. */
  function FindAll(s: string, p: Pattern): (ms: seq<string>)
    ensures forall k :: 0 <= k < |ms| ==> IsFragment(p, ms[k])
    ensures ms == [] <==> NoMatchFrom(s, p, 0)
  {
    ScanEmpty(s, p, 0);
    Scan(s, p, 0)
  }

  /** No match of `p` starts at or after `i`. */
  ghost predicate NoMatchFrom(s: string, p: Pattern, i: nat) {
    forall k, e :: i <= k ==> !IsMatch(s, p, k, e)
  }

  /** The scan finds nothing exactly when no match starts at or after `i`. */
  lemma {:induction false} ScanEmpty(s: string, p: Pattern, i: nat)
    ensures Scan(s, p, i) == [] <==> NoMatchFrom(s, p, i)
    decreases |s| - i
  {
    if i < |s| {
      match MatchEnd(s, p, i)
      case Some(e) =>
        assert !NoMatchFrom(s, p, i) by {
          assert IsMatch(s, p, i, e);
        }
      case None =>
        ScanEmpty(s, p, i + 1);
        if NoMatchFrom(s, p, i + 1) {
          forall k, e | i <= k && IsMatch(s, p, k, e)
            ensures false
          {
            MatchEndExact(s, p, i, e);
          }
        }
    }
  }

  /** No match starts before `i` when the opener does not occur in the text
      up to where an opener starting just before `i` would end. */
  lemma NoMatchBefore(s: string, p: Pattern, i: nat)
    requires |p.opener| > 0 && i + |p.opener| - 1 <= |s|
    requires !Contains(s[..i + |p.opener| - 1], p.opener)
    ensures forall k, e :: 0 <= k < i ==> !IsMatch(s, p, k, e)
  {
    var n := |p.opener|;
    forall k | 0 <= k < i && k + n <= |s|
      ensures !Occurs(s, p.opener, k)
    {
      assert s[..i + n - 1][k..k + n] == s[k..k + n];
      assert !Occurs(s[..i + n - 1], p.opener, k);
    }
  }

  /** No match starts at or after `e` when the opener does not occur from `e`
      on before the last character: a match needs a closing quote after its
      opener. */
  lemma NoMatchAfter(s: string, p: Pattern, e: nat)
    requires e < |s| && !Contains(s[e..|s| - 1], p.opener)
    ensures NoMatchFrom(s, p, e)
  {
    var n := |p.opener|;
    forall k, e' | e <= k && IsMatch(s, p, k, e')
      ensures false
    {
      assert k + n < e' <= |s|;
      OccursInSlice(s, e, |s| - 1, p.opener, k);
    }
  }

  /** The first fragment found is the match at the leftmost position where
      the pattern matches. */
  lemma {:induction false} ScanFirst(s: string, p: Pattern, i: nat, j: nat, e: nat)
    requires i <= j && IsMatch(s, p, j, e)
    requires forall k, e' :: i <= k < j ==> !IsMatch(s, p, k, e')
    ensures Scan(s, p, i) != [] && Scan(s, p, i)[0] == s[j..e]
    decreases j - i
  {
    MatchEndExact(s, p, i, e);
    if i < j {
      ScanFirst(s, p, i + 1, j, e);
    }
  }

  /** After the leftmost match at or after `i`, the scan resumes at its end:
      together with `ScanEmpty` this pins down every fragment `Scan` returns
      as the successive leftmost non-overlapping matches. */
  lemma {:induction false} ScanNext(s: string, p: Pattern, i: nat, j: nat, e: nat)
    requires i <= j && IsMatch(s, p, j, e)
    requires forall k, e' :: i <= k < j ==> !IsMatch(s, p, k, e')
    ensures Scan(s, p, i) == [s[j..e]] + Scan(s, p, e)
    decreases j - i
  {
    MatchEndExact(s, p, i, e);
    if i < j {
      ScanNext(s, p, i + 1, j, e);
    }
  }
}
