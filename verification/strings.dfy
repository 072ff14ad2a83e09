/** The JavaScript string operations the editor relies on: `split` on a
    one-character separator, `Array.prototype.join`, and `replace` with a
    string pattern (first occurrence only). */
module Strings {

  /** Index of the first `c` in `s`, or `|s|` when `s` has none. */
  function FirstIndex(s: string, c: char): (r: nat)
    ensures r <= |s|
    ensures r < |s| ==> s[r] == c
    ensures forall i :: 0 <= i < r ==> s[i] != c
  {
    if s == [] then 0
    else if s[0] == c then 0
    else 1 + FirstIndex(s[1..], c)
  }

  /** `s.split(c)`: the pieces between the occurrences of `c`, so one more
      piece than `s` has occurrences of `c` (and `[""]` for the empty string). */
  function Split(s: string, c: char): (r: seq<string>)
    ensures |r| >= 1
    ensures r[0] == s[..FirstIndex(s, c)]
    ensures |r| == 1 <==> c !in s
    ensures forall i :: 0 <= i < |r| ==> c !in r[i]
    decreases |s|
  {
    var i := FirstIndex(s, c);
    if i == |s| then [s]
    else [s[..i]] + Split(s[i + 1..], c)
  }

  /** `xs.join(sep)`. */
  function Join(xs: seq<string>, sep: string): (r: string)
    ensures xs == [] ==> r == ""
    ensures |xs| >= 1 ==> |xs[0]| <= |r| && r[..|xs[0]|] == xs[0]
  {
    if |xs| == 0 then ""
    else if |xs| == 1 then xs[0]
    else xs[0] + sep + Join(xs[1..], sep)
  }

  /** `pat` occurs in `s` starting at index `j`. */
  predicate OccursAt(s: string, pat: string, j: nat)
  {
    j + |pat| <= |s| && s[j..j + |pat|] == pat
  }

  /** Index of the first occurrence of `pat` in `s`, or `|s|` when `pat`
      does not occur (an empty `pat` occurs at 0). */
  function FirstOccurrence(s: string, pat: string): (r: nat)
    ensures r <= |s|
    ensures r < |s| ==> OccursAt(s, pat, r)
    ensures forall j :: 0 <= j < r ==> !OccursAt(s, pat, j)
    decreases |s|
  {
    if |s| < |pat| then |s|
    else if s[..|pat|] == pat then 0
    else
      OccursShift(s, pat);
      1 + FirstOccurrence(s[1..], pat)
  }

  /** An occurrence at `j >= 1` in `s` is one at `j - 1` in `s[1..]`, and
      none is at 0 when `s` does not start with `pat`. */
  lemma OccursShift(s: string, pat: string)
    requires |s| >= 1
    ensures forall j: nat :: 1 <= j ==> (OccursAt(s, pat, j) <==> OccursAt(s[1..], pat, j - 1))
    ensures |pat| <= |s| && s[..|pat|] != pat ==> !OccursAt(s, pat, 0)
  {
    forall j: nat | 1 <= j
      ensures OccursAt(s, pat, j) <==> OccursAt(s[1..], pat, j - 1)
    {
      if j + |pat| <= |s| {
        assert s[1..][j - 1..j - 1 + |pat|] == s[j..j + |pat|] by {
          assert s[1..][j - 1..j - 1 + |pat|] == s[1 + (j - 1)..1 + (j - 1) + |pat|];
        }
      }
    }
  }

  /** `s.replace(pat, "")`: `s` without the first occurrence of `pat`, or `s`
      itself when `pat` does not occur. */
  function RemoveFirst(s: string, pat: string): (r: string)
    ensures var i := FirstOccurrence(s, pat);
            r == if i == |s| then s else s[..i] + s[i + |pat|..]
    decreases |s|
  {
    if |s| < |pat| then s
    else if s[..|pat|] == pat then s[|pat|..]
    else [s[0]] + RemoveFirst(s[1..], pat)
  }

  /** The first occurrence of `c` in `a + [c] + b` is the one after `a` when
      `a` has none. */
  lemma FirstIndexAfter(a: string, c: char, b: string)
    requires c !in a
    ensures FirstIndex(a + [c] + b, c) == |a|
  {
    var s := a + [c] + b;
    assert s[|a|] == c;
    assert forall i :: 0 <= i < |a| ==> s[i] == a[i];
  }

  /** A string is the part before index `i`, the character at `i` and the rest. */
  lemma CutAt(s: string, i: nat)
    requires i < |s|
    ensures s == s[..i] + [s[i]] + s[i + 1..]
  {
    assert s[..i] + [s[i]] == s[..i + 1];
  }

  /** Joining a non-empty list behind a first element. */
  lemma JoinCons(x: string, xs: seq<string>, sep: string)
    requires |xs| >= 1
    ensures Join([x] + xs, sep) == x + sep + Join(xs, sep)
  {
    assert ([x] + xs)[1..] == xs;
  }

  /** Splitting `a + [c] + b` at `c` when `a` has no `c`: `a`, then the pieces of `b`. */
  lemma SplitAfter(a: string, c: char, b: string)
    requires c !in a
    ensures Split(a + [c] + b, c) == [a] + Split(b, c)
  {
    var s := a + [c] + b;
    FirstIndexAfter(a, c, b);
    assert s[..|a|] == a;
    assert s[|a| + 1..] == b;
  }

  /** Joining the pieces of a split with the separator gives the string back. */
  lemma {:induction false} JoinSplit(s: string, c: char)
    ensures Join(Split(s, c), [c]) == s
    decreases |s|
  {
    var i := FirstIndex(s, c);
    if i < |s| {
      var rest := Split(s[i + 1..], c);
      JoinSplit(s[i + 1..], c);
      JoinCons(s[..i], rest, [c]);
      CutAt(s, i);
    }
  }

  /** Splitting a join gives the pieces back, when no piece holds the separator. */
  lemma {:induction false} SplitJoin(xs: seq<string>, c: char)
    requires |xs| >= 1
    requires forall i :: 0 <= i < |xs| ==> c !in xs[i]
    ensures Split(Join(xs, [c]), c) == xs
  {
    if |xs| > 1 {
      var tail := Join(xs[1..], [c]);
      assert xs == [xs[0]] + xs[1..];
      JoinCons(xs[0], xs[1..], [c]);
      SplitAfter(xs[0], c, tail);
      SplitJoin(xs[1..], c);
    } else {
      assert Join(xs, [c]) == xs[0];
    }
  }

  /** Joining one more element appends the separator and that element. */
  lemma {:induction false} JoinSnoc(xs: seq<string>, x: string, sep: string)
    ensures Join(xs + [x], sep) == if xs == [] then x else Join(xs, sep) + sep + x
  {
    if |xs| > 1 {
      assert (xs + [x])[1..] == xs[1..] + [x];
      JoinSnoc(xs[1..], x, sep);
    } else if |xs| == 1 {
      assert (xs + [x])[1..] == [x];
    }
  }

  /** A character in none of the pieces nor the separator is not in the join. */
  lemma {:induction false} JoinNoChar(xs: seq<string>, sep: string, c: char)
    requires forall i :: 0 <= i < |xs| ==> c !in xs[i]
    requires c !in sep
    ensures c !in Join(xs, sep)
  {
    if |xs| > 1 {
      JoinNoChar(xs[1..], sep, c);
    }
  }

  /** `(pat + x).replace(pat, "")` strips the prefix. */
  lemma RemoveFirstPrefix(pat: string, x: string)
    ensures RemoveFirst(pat + x, pat) == x
  {
    assert (pat + x)[..|pat|] == pat;
    assert (pat + x)[|pat|..] == x;
  }
}
