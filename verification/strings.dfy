/** Python's `str.split`, `str.join`, `str.replace` and substring `in`,
    over strings as sequences of characters. */
module Strings {
  import opened Results

  /** `pat` occurs in `s` starting at index `i`. */
  predicate Occurs(s: string, pat: string, i: int) {
    0 <= i && i + |pat| <= |s| && s[i..i + |pat|] == pat
  }

  /** Python's `pat in s` for strings. */
  predicate Contains(s: string, pat: string) {
    exists i :: 0 <= i <= |s| && Occurs(s, pat, i)
  }

  /** The first position at or after `j` where `pat` occurs in `s`. */
  function IndexFrom(s: string, pat: string, j: nat): (r: Option<nat>)
    ensures r.Some? ==> j <= r.value && Occurs(s, pat, r.value)
    ensures r.Some? ==> forall k :: j <= k < r.value ==> !Occurs(s, pat, k)
    ensures r.None? ==> forall k :: j <= k ==> !Occurs(s, pat, k)
    decreases |s| - j
  {
    if j + |pat| > |s| then None
    else if Occurs(s, pat, j) then Some(j)
    else IndexFrom(s, pat, j + 1)
  }

  /** The index of the first occurrence of `pat` in `s`, like `s.find(pat)`. */
  function IndexOf(s: string, pat: string): (r: Option<nat>)
    ensures r.Some? ==> Occurs(s, pat, r.value)
    ensures r.Some? ==> forall k :: 0 <= k < r.value ==> !Occurs(s, pat, k)
    ensures r.None? <==> !Contains(s, pat)
  {
    IndexFrom(s, pat, 0)
  }

  /** The first occurrence is the only index `IndexOf` can return. */
  lemma IndexOfFirst(s: string, pat: string, i: nat)
    requires Occurs(s, pat, i)
    requires forall k :: 0 <= k < i ==> !Occurs(s, pat, k)
    ensures IndexOf(s, pat) == Some(i)
  {
  }

  /** A single character occurs exactly where the string holds it. */
  lemma OccursChar(s: string, c: char)
    ensures forall i :: Occurs(s, [c], i) <==> 0 <= i < |s| && s[i] == c
    ensures Contains(s, [c]) <==> c in s
  {
    forall i | 0 <= i < |s| && s[i] == c
      ensures Occurs(s, [c], i)
    {
      assert s[i..i + 1] == [s[i]];
    }
    if c in s {
      var i :| 0 <= i < |s| && s[i] == c;
      assert Occurs(s, [c], i);
    }
  }

  /** No occurrence of `pat` lies inside the text before its first occurrence. */
  lemma NoneBefore(s: string, pat: string, i: nat)
    requires |pat| > 0 && i <= |s|
    requires forall k :: 0 <= k < i ==> !Occurs(s, pat, k)
    ensures !Contains(s[..i], pat)
  {
    forall k | Occurs(s[..i], pat, k)
      ensures false
    {
      assert s[..i][k..k + |pat|] == s[k..k + |pat|];
      assert Occurs(s, pat, k);
    }
  }

  /** Python's `s.split(sep)` for a non-empty separator: the pieces between
      the non-overlapping occurrences of `sep`, scanned left to right. */
  function Split(s: string, sep: string): (parts: seq<string>)
    requires |sep| > 0
    ensures |parts| >= 1
    ensures |parts[0]| <= |s| && parts[0] == s[..|parts[0]|]
    decreases |s|
  {
    match IndexOf(s, sep)
    case None => [s]
    case Some(i) => [s[..i]] + Split(s[i + |sep|..], sep)
  }

  /** No piece of a split contains the separator, and the split has a single
      piece exactly when the separator does not occur. */
  lemma {:induction false} SplitPieces(s: string, sep: string)
    requires |sep| > 0
    ensures |Split(s, sep)| == 1 <==> !Contains(s, sep)
    ensures forall k :: 0 <= k < |Split(s, sep)| ==> !Contains(Split(s, sep)[k], sep)
    decreases |s|
  {
    match IndexOf(s, sep)
    case None =>
    case Some(i) =>
      var tail := s[i + |sep|..];
      SplitUnfold(s, sep, i);
      NoneBefore(s, sep, i);
      SplitPieces(tail, sep);
  }

  /** No piece of a split on a character holds that character. */
  lemma SplitPiecesChar(s: string, c: char)
    ensures forall k :: 0 <= k < |Split(s, [c])| ==> c !in Split(s, [c])[k]
  {
    SplitPieces(s, [c]);
    forall k | 0 <= k < |Split(s, [c])|
      ensures c !in Split(s, [c])[k]
    {
      OccursChar(Split(s, [c])[k], c);
    }
  }

  /** An occurrence inside `s[a..b]` is an occurrence in that slice. */
  lemma OccursInSlice(s: string, a: nat, b: nat, pat: string, k: nat)
    requires a <= k && k + |pat| <= b <= |s| && Occurs(s, pat, k)
    ensures Occurs(s[a..b], pat, k - a)
  {
    var t := s[a..b];
    forall j | k - a <= j < k - a + |pat|
      ensures t[j] == s[j + a]
    {
    }
    assert t[k - a..k - a + |pat|] == s[k..k + |pat|];
  }

  /** A pattern with a character absent from `s` does not occur in it. */
  lemma AbsentChar(s: string, pat: string, j: nat)
    requires j < |pat| && pat[j] !in s
    ensures !Contains(s, pat)
  {
    forall k | 0 <= k && k + |pat| <= |s|
      ensures !Occurs(s, pat, k)
    {
      assert s[k..k + |pat|][j] == s[k + j];
    }
  }

  /** A pattern without `c` occurs in `x c y` only inside `x` or inside `y`. */
  lemma AroundChar(x: string, c: char, y: string, pat: string)
    requires c !in pat && !Contains(x, pat) && !Contains(y, pat)
    ensures !Contains(x + [c] + y, pat)
  {
    var s, n := x + [c] + y, |pat|;
    forall k | 0 <= k && k + n <= |s|
      ensures !Occurs(s, pat, k)
    {
      if k + n <= |x| {
        assert s[k..k + n] == x[k..k + n];
        assert !Occurs(x, pat, k);
      } else if k <= |x| {
        assert s[k..k + n][|x| - k] == s[|x|];
      } else {
        assert s[k..k + n] == y[k - |x| - 1..k - |x| - 1 + n];
        assert !Occurs(y, pat, k - |x| - 1);
      }
    }
  }

  /** Reference definition: the total length of the parts. */
  function TotalLength(parts: seq<string>): nat
  {
    if |parts| == 0 then 0 else |parts[0]| + TotalLength(parts[1..])
  }

  /** Python's `sep.join(parts)`: the parts in order, the separator between
      each two neighbours. */
  function Join(parts: seq<string>, sep: string): (r: string)
    ensures |parts| > 0 ==> parts[0] <= r
  {
    if |parts| == 0 then []
    else if |parts| == 1 then parts[0]
    else parts[0] + sep + Join(parts[1..], sep)
  }

  /** The joined text is as long as the parts plus one separator between
      each two neighbours. */
  lemma {:induction false} JoinLength(parts: seq<string>, sep: string)
    requires |parts| > 0
    ensures |Join(parts, sep)| == TotalLength(parts) + (|parts| - 1) * |sep|
  {
    if |parts| > 1 {
      JoinLength(parts[1..], sep);
    }
  }

  lemma JoinCons(head: string, rest: seq<string>, sep: string)
    requires |rest| >= 1
    ensures Join([head] + rest, sep) == head + sep + Join(rest, sep)
  {
    assert ([head] + rest)[1..] == rest;
  }

  /** Splitting at a found separator: the first piece followed by the split
      of everything after that separator. */
  lemma SplitUnfold(s: string, sep: string, i: nat)
    requires |sep| > 0
    requires IndexOf(s, sep) == Some(i)
    ensures Split(s, sep) == [s[..i]] + Split(s[i + |sep|..], sep)
  {
  }

  /** Joining the pieces of a split with the same separator gives back the
      original string. */
  lemma {:induction false} SplitThenJoin(s: string, sep: string)
    requires |sep| > 0
    ensures Join(Split(s, sep), sep) == s
    decreases |s|
  {
    match IndexOf(s, sep)
    case None =>
    case Some(i) =>
      var tail := s[i + |sep|..];
      assert s == s[..i] + sep + tail;
      SplitUnfold(s, sep, i);
      SplitThenJoin(tail, sep);
      JoinCons(s[..i], Split(tail, sep), sep);
  }

  /** The first piece of a split is the text before the first separator, and
      the remaining pieces rejoined are the text after it. */
  lemma SplitAtFirst(s: string, sep: string, i: nat)
    requires |sep| > 0
    requires IndexOf(s, sep) == Some(i)
    ensures Split(s, sep)[0] == s[..i]
    ensures Join(Split(s, sep)[1..], sep) == s[i + |sep|..]
  {
    var tail := s[i + |sep|..];
    SplitUnfold(s, sep, i);
    assert Split(s, sep)[1..] == Split(tail, sep);
    SplitThenJoin(tail, sep);
  }

  lemma SplitNone(s: string, sep: string)
    requires |sep| > 0
    requires IndexOf(s, sep).None?
    ensures Split(s, sep) == [s]
  {
  }

  /** The first piece of a split: the text before the first separator, or
      all of `s` when there is none. */
  lemma SplitFirstPiece(s: string, sep: string)
    requires |sep| > 0
    ensures IndexOf(s, sep).None? ==> Split(s, sep)[0] == s
    ensures IndexOf(s, sep).Some? ==> Split(s, sep)[0] == s[..IndexOf(s, sep).value]
  {
    if IndexOf(s, sep).Some? {
      SplitAtFirst(s, sep, IndexOf(s, sep).value);
    }
  }

  /** The first piece of a split on a character holds no such character, and
      is either all of `s` (exactly when `c` is absent, as the only piece) or
      the text before the first `c`. */
  lemma SplitCharFirst(s: string, c: char)
    ensures c !in Split(s, [c])[0]
    ensures Split(s, [c])[0] == s || Split(s, [c])[0] + [c] <= s
    ensures c !in s ==> Split(s, [c]) == [s]
  {
    SplitPiecesChar(s, c);
    IndexOfChar(s, c);
    SplitFirstPiece(s, [c]);
    match IndexOf(s, [c])
    case None =>
      SplitNone(s, [c]);
    case Some(i) =>
      assert s[..i] + [c] == s[..i + 1];
  }

  /** Python's `parts = t.split(sep)` followed by `parts[0]` and
      `sep.join(parts[1:])`: the text before the first separator, and all the
      text after it, later separators included. */
  function SplitKeyValue(t: string, sep: string): (kv: (string, string))
    requires |sep| > 0
    ensures !Contains(kv.0, sep)
    ensures IndexOf(t, sep).None? ==> kv == (t, [])
    ensures IndexOf(t, sep).Some? ==>
      var i := IndexOf(t, sep).value;
      && kv.0 == t[..i]
      && kv.1 == t[i + |sep|..]
      && kv.0 + sep + kv.1 == t
  {
    var parts := Split(t, sep);
    SplitPieces(t, sep);
    if IndexOf(t, sep).Some? then
      var i := IndexOf(t, sep).value;
      SplitAtFirst(t, sep, i);
      assert t == t[..i] + sep + t[i + |sep|..];
      (parts[0], Join(parts[1..], sep))
    else
      SplitNone(t, sep);
      (parts[0], Join(parts[1..], sep))
  }

  /** The first occurrence of a character is where it first appears. */
  lemma IndexOfCharAt(s: string, c: char, i: nat)
    requires i < |s| && s[i] == c && c !in s[..i]
    ensures IndexOf(s, [c]) == Some(i)
  {
    IndexOfChar(s, c);
  }

  /** Splitting `a c b rest` on the character `c`, where neither `a` nor `b`
      holds `c` and `rest` is empty or starts with `c`: the first two pieces
      are `a` and `b`. */
  lemma SplitFirstTwo(a: string, c: char, b: string, rest: string)
    requires c !in a && c !in b
    requires rest == [] || rest[0] == c
    ensures |Split(a + [c] + b + rest, [c])| >= 2
    ensures rest == [] ==> |Split(a + [c] + b + rest, [c])| == 2
    ensures Split(a + [c] + b + rest, [c])[0] == a
    ensures Split(a + [c] + b + rest, [c])[1] == b
  {
    var s := a + [c] + b + rest;
    assert s[..|a|] == a;
    IndexOfCharAt(s, c, |a|);
    var tail := b + rest;
    assert s[|a| + 1..] == tail;
    SplitUnfold(s, [c], |a|);
    assert tail[..|b|] == b;
    if rest == [] {
      IndexOfChar(tail, c);
      SplitNone(tail, [c]);
    } else {
      IndexOfCharAt(tail, c, |b|);
      SplitAtFirst(tail, [c], |b|);
    }
  }

  /** A first occurrence inside `x` is still the first once text is appended. */
  lemma IndexOfExtend(x: string, y: string, pat: string, i: nat)
    requires IndexOf(x, pat) == Some(i)
    ensures IndexOf(x + y, pat) == Some(i)
  {
    assert (x + y)[i..i + |pat|] == x[i..i + |pat|];
    forall k | 0 <= k < i
      ensures !Occurs(x + y, pat, k)
    {
      if Occurs(x + y, pat, k) {
        assert (x + y)[k..k + |pat|] == x[k..k + |pat|];
        assert Occurs(x, pat, k);
      }
    }
    IndexOfFirst(x + y, pat, i);
  }

  /** Prepending a character that cannot start `pat` shifts every occurrence
      by one. */
  lemma IndexOfShift(c: char, x: string, pat: string)
    requires |pat| > 0 && pat[0] != c
    ensures IndexOf([c] + x, pat) ==
      match IndexOf(x, pat)
      case None => None
      case Some(i) => Some(i + 1)
  {
    var y := [c] + x;
    assert !Occurs(y, pat, 0) by {
      if |pat| <= |y| {
        assert y[0..|pat|][0] == c;
      }
    }
    forall k | 1 <= k
      ensures Occurs(y, pat, k) <==> Occurs(x, pat, k - 1)
    {
      if k + |pat| <= |y| {
        assert y[k..k + |pat|] == x[k - 1..k - 1 + |pat|];
      }
    }
    match IndexOf(x, pat)
    case None =>
      assert !Contains(y, pat);
    case Some(i) =>
      IndexOfFirst(y, pat, i + 1);
  }

  /** Appending a character that cannot end `pat` creates no occurrence. */
  lemma IndexOfAppendMiss(x: string, c: char, pat: string)
    requires |pat| > 0 && pat[|pat| - 1] != c
    requires IndexOf(x, pat).None?
    ensures IndexOf(x + [c], pat).None?
  {
    var y := x + [c];
    forall k | 0 <= k <= |y|
      ensures !Occurs(y, pat, k)
    {
      if k + |pat| <= |x| {
        assert !Occurs(x, pat, k);
        assert y[k..k + |pat|] == x[k..k + |pat|];
      } else if k + |pat| == |y| {
        assert y[k..k + |pat|][|pat| - 1] == c;
      }
    }
  }

  /** Python's `s.replace(target, replacement)`: every non-overlapping
      occurrence of `target`, left to right, replaced by `replacement`. */
  function Replace(s: string, target: string, replacement: string): (r: string)
    requires |target| > 0
    ensures !Contains(s, target) ==> r == s
    ensures replacement == target ==> r == s
  {
    SplitThenJoin(s, target);
    Join(Split(s, target), replacement)
  }

  /** Python's `s[:-1]`: everything but the last character, and the empty
      string stays empty. */
  function DropLast(s: string): (r: string)
    ensures |s| == 0 ==> r == []
    ensures |s| > 0 ==> r + [s[|s| - 1]] == s
  {
    if |s| == 0 then s else s[..|s| - 1]
  }

  /** Reference definition: `s` with every `c` filtered out. */
  function Without(s: string, c: char): string
  {
    if |s| == 0 then []
    else (if s[0] == c then [] else [s[0]]) + Without(s[1..], c)
  }

  lemma {:induction false} WithoutConcat(a: string, b: string, c: char)
    ensures Without(a + b, c) == Without(a, c) + Without(b, c)
    decreases |a|
  {
    if |a| > 0 {
      assert (a + b)[1..] == a[1..] + b;
      WithoutConcat(a[1..], b, c);
    } else {
      assert a + b == b;
    }
  }

  lemma {:induction false} WithoutAbsent(s: string, c: char)
    requires c !in s
    ensures Without(s, c) == s
    decreases |s|
  {
    if |s| > 0 {
      WithoutAbsent(s[1..], c);
    }
  }

  lemma {:induction false} WithoutRemoves(s: string, c: char)
    ensures c !in Without(s, c)
    ensures forall x :: x in Without(s, c) ==> x in s
    decreases |s|
  {
    if |s| > 0 {
      WithoutRemoves(s[1..], c);
    }
  }

  /** For a one-character pattern, `IndexOf` finds the first position holding
      that character. */
  lemma IndexOfChar(s: string, c: char)
    ensures IndexOf(s, [c]).None? <==> c !in s
    ensures IndexOf(s, [c]).Some? ==>
      var i := IndexOf(s, [c]).value;
      i < |s| && s[i] == c && c !in s[..i]
  {
    OccursChar(s, c);
    if IndexOf(s, [c]).Some? {
      var i := IndexOf(s, [c]).value;
      NoneBefore(s, [c], i);
      OccursChar(s[..i], c);
    }
  }

  /** `s.replace(c, '')` for a one-character `c` deletes exactly the
      occurrences of `c` and keeps every other character in order. */
  lemma {:induction false} ReplaceCharByNothing(s: string, c: char)
    ensures Replace(s, [c], []) == Without(s, c)
    decreases |s|
  {
    IndexOfChar(s, c);
    match IndexOf(s, [c])
    case None =>
      WithoutAbsent(s, c);
    case Some(i) =>
      var head, tail := s[..i], s[i + 1..];
      assert s == head + [c] + tail;
      calc {
        Replace(s, [c], []);
        { ReplaceAtChar(s, c, i); }
        head + Replace(tail, [c], []);
        { ReplaceCharByNothing(tail, c); }
        head + Without(tail, c);
        { WithoutAbsent(head, c); }
        Without(head, c) + Without(tail, c);
        { WithoutSplit(head, c, tail); }
        Without(head + [c] + tail, c);
      }
  }

  /** Replacing a character by nothing: the text before its first occurrence,
      then the replacement applied to the rest. */
  lemma ReplaceAtChar(s: string, c: char, i: nat)
    requires IndexOf(s, [c]) == Some(i)
    ensures Replace(s, [c], []) == s[..i] + Replace(s[i + 1..], [c], [])
  {
    var tail := s[i + 1..];
    var rest := Split(tail, [c]);
    assert s[..i] + [] == s[..i];
    assert Replace(tail, [c], []) == Join(rest, []);
    SplitUnfold(s, [c], i);
    assert Replace(s, [c], []) == Join([s[..i]] + rest, []);
    JoinCons(s[..i], rest, []);
  }

  lemma WithoutSplit(head: string, c: char, tail: string)
    ensures Without(head + [c] + tail, c) == Without(head, c) + Without(tail, c)
  {
    WithoutConcat(head + [c], tail, c);
    WithoutConcat(head, [c], c);
    assert [c][1..] == [];
    assert Without([c], c) == [] + Without([], c);
  }

  lemma WithoutAround(x: string, c: char)
    requires c !in x
    ensures Without([c] + x + [c], c) == x
    ensures Without([c] + x, c) == x
  {
    WithoutAbsent(x, c);
    WithoutConcat([c], x, c);
    WithoutConcat([c] + x, [c], c);
    assert Without([c], c) == [] + Without([], c);
  }

  /** Python's `s.replace("'", '')`. */
  function RemoveQuotes(s: string): (r: string)
    ensures r == Without(s, '\'')
    ensures '\'' !in r
  {
    ReplaceCharByNothing(s, '\'');
    WithoutRemoves(s, '\'');
    Replace(s, "'", "")
  }
}
