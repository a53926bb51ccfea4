/** The few JavaScript string operations the scripts rely on, over
    `string == seq<char>`. */
module Text {
  import opened Base

  /** The characters JavaScript's regular-expression class `\s` and
      `String.prototype.trim` both treat as white space (the ECMAScript
      WhiteSpace and LineTerminator productions). */
  predicate IsSpace(c: char) {
    || c == ' ' || c == '\t' || c == '\n' || c == '\U{000B}' || c == '\U{000C}' || c == '\r'
    || c == '\U{00A0}' || c == '\U{1680}' || ('\U{2000}' <= c <= '\U{200A}')
    || c == '\U{2028}' || c == '\U{2029}' || c == '\U{202F}' || c == '\U{205F}'
    || c == '\U{3000}' || c == '\U{FEFF}'
  }

  predicate AllSpace(s: string) {
    forall k :: 0 <= k < |s| ==> IsSpace(s[k])
  }

  /** The index of the first non-space character of `s` at or after `i`
      (or `|s|`). */
  function SkipSpace(s: string, i: nat): (j: nat)
    requires i <= |s|
    ensures i <= j <= |s| && (j < |s| ==> !IsSpace(s[j]))
    ensures forall k :: i <= k < j ==> IsSpace(s[k])
    decreases |s| - i
  {
    if i < |s| && IsSpace(s[i]) then SkipSpace(s, i + 1) else i
  }

  /** The end of `s[i..j]` once its trailing white space is dropped. */
  function SkipSpaceBack(s: string, i: nat, j: nat): (e: nat)
    requires i <= j <= |s|
    ensures i <= e <= j && (e > i ==> !IsSpace(s[e - 1]))
    ensures forall k :: e <= k < j ==> IsSpace(s[k])
    decreases j - i
  {
    if i < j && IsSpace(s[j - 1]) then SkipSpaceBack(s, i, j - 1) else j
  }

  /** `String.prototype.trim`: `s` is `lead + r + tail` with `lead` and
      `tail` all white space and `r` neither starting nor ending with it. */
  function Trim(s: string): (r: string)
    ensures exists i :: 0 <= i && i + |r| <= |s| && r == s[i..i + |r|] && AllSpace(s[..i]) && AllSpace(s[i + |r|..])
    ensures |r| > 0 ==> !IsSpace(r[0]) && !IsSpace(r[|r| - 1])
    ensures |r| == 0 ==> AllSpace(s)
  {
    var i := SkipSpace(s, 0);
    var e := SkipSpaceBack(s, i, |s|);
    TrimShape(s, i, e);
    s[i..e]
  }

  /** Cutting `s` at the first and after the last non-space character. */
  lemma TrimShape(s: string, i: nat, e: nat)
    requires i <= e <= |s|
    requires forall k :: 0 <= k < i ==> IsSpace(s[k])
    requires forall k :: e <= k < |s| ==> IsSpace(s[k])
    requires i < e ==> !IsSpace(s[i]) && !IsSpace(s[e - 1])
    requires i == e ==> forall k :: i <= k < |s| ==> IsSpace(s[k])
    ensures var r := s[i..e];
      (exists i :: 0 <= i && i + |r| <= |s| && r == s[i..i + |r|] && AllSpace(s[..i]) && AllSpace(s[i + |r|..]))
      && (|r| > 0 ==> !IsSpace(r[0]) && !IsSpace(r[|r| - 1]))
      && (|r| == 0 ==> AllSpace(s))
  {
    assert AllSpace(s[..i]) by {
      assert forall k :: 0 <= k < i ==> s[..i][k] == s[k];
    }
    assert AllSpace(s[e..]) by {
      assert forall k :: 0 <= k < |s| - e ==> s[e..][k] == s[e + k];
    }
    var r := s[i..e];
    assert r == s[i..i + |r|];
    if i < e {
      assert r[0] == s[i] && r[|r| - 1] == s[e - 1];
    } else {
      assert AllSpace(s) by {
        assert forall k :: 0 <= k < |s| ==> (k < i || i <= k) && IsSpace(s[k]);
      }
    }
  }

  lemma TrimIdempotent(s: string)
    ensures Trim(Trim(s)) == Trim(s)
  {
    var r := Trim(s);
    if |r| > 0 {
      assert SkipSpace(r, 0) == 0;
      assert SkipSpaceBack(r, 0, |r|) == |r|;
      assert r[0..|r|] == r;
    }
  }

  /** `pat` occurs in `s` at index `k`. */
  predicate OccursAt(s: string, pat: string, k: int) {
    0 <= k && k + |pat| <= |s| && s[k..k + |pat|] == pat
  }

  predicate Contains(s: string, pat: string) {
    exists k :: 0 <= k <= |s| && OccursAt(s, pat, k)
  }

  /** The first index `>= from` at which `pat` occurs in `s`, if any. */
  function IndexOfFrom(s: string, pat: string, from: nat): (r: Option<nat>)
    ensures r.Some? ==> from <= r.value && OccursAt(s, pat, r.value)
    ensures forall k :: from <= k && (r.None? || k < r.value) ==> !OccursAt(s, pat, k)
    decreases |s| - from
  {
    if from + |pat| > |s| then None
    else if s[from..from + |pat|] == pat then Some(from)
    else IndexOfFrom(s, pat, from + 1)
  }

  /** `String.prototype.indexOf` for a string pattern. */
  function IndexOf(s: string, pat: string): (r: Option<nat>)
    ensures r.Some? ==> OccursAt(s, pat, r.value) && forall k :: 0 <= k < r.value ==> !OccursAt(s, pat, k)
    ensures r.None? <==> !Contains(s, pat)
  {
    IndexOfFrom(s, pat, 0)
  }

  /** `s.replace(pat, rep)` with a string (not a regular expression)
      pattern: only the first occurrence is replaced, and `s` is returned
      unchanged when `pat` does not occur. */
  function ReplaceFirst(s: string, pat: string, rep: string): (r: string)
    ensures !Contains(s, pat) ==> r == s
    ensures forall k :: OccursAt(s, pat, k) && (forall j :: 0 <= j < k ==> !OccursAt(s, pat, j)) ==>
      r == s[..k] + rep + s[k + |pat|..]
  {
    match IndexOf(s, pat)
    case None => s
    case Some(k) => s[..k] + rep + s[k + |pat|..]
  }

  /** A pattern whose first character occurs nowhere else in it (every
      transform suffix the cursor appends, such as `" scale(1.5)"`, starts
      with its only space). Such a pattern cannot overlap itself. */
  predicate HeadIsUnique(pat: string) {
    |pat| > 0 && forall i :: 1 <= i < |pat| ==> pat[i] != pat[0]
  }

  /** Removing the first occurrence of a self-non-overlapping pattern from
      `a + pat + b` gives back `a + b`, provided `a` did not already contain
      the pattern: the appended copy is the first one. */
  lemma {:induction false} RemoveAppended(a: string, pat: string, b: string)
    requires HeadIsUnique(pat)
    requires !Contains(a, pat)
    ensures ReplaceFirst(a + pat + b, pat, "") == a + b
  {
    var s := a + pat + b;
    assert s[|a|..|a| + |pat|] == pat;
    assert OccursAt(s, pat, |a|);
    forall k | 0 <= k < |a|
      ensures !OccursAt(s, pat, k)
    {
      if k + |pat| <= |a| {
        assert a[k..k + |pat|] == s[k..k + |pat|];
        assert !OccursAt(a, pat, k);
      } else {
        var i := |a| - k;
        assert 0 < i < |pat|;
        assert s[k..k + |pat|][i] == s[|a|] == pat[0];
        assert s[k..k + |pat|][i] != pat[i];
      }
    }
    var idx := IndexOf(s, pat);
    assert idx == Some(|a|);
    assert s[..|a|] == a;
    assert s[|a| + |pat|..] == b;
  }

  /** Appending a string shorter than a self-non-overlapping pattern and
      starting with the pattern's first character creates no occurrence
      of it. */
  lemma ShortTailAddsNoOccurrence(a: string, b: string, pat: string)
    requires HeadIsUnique(pat) && !Contains(a, pat)
    requires b == [] || (b[0] == pat[0] && |b| < |pat|)
    ensures !Contains(a + b, pat)
  {
    var s := a + b;
    forall k | 0 <= k <= |s| && k + |pat| <= |s|
      ensures !OccursAt(s, pat, k)
    {
      if k + |pat| <= |a| {
        assert a[k..k + |pat|] == s[k..k + |pat|];
        assert !OccursAt(a, pat, k);
      } else {
        var i := |a| - k;
        assert s[k..k + |pat|][i] == b[0];
        assert pat[i] != pat[0];
      }
    }
  }

  /** ASCII-only `toLowerCase` of one character. */
  function LowerChar(c: char): (r: char)
    ensures 'A' <= c <= 'Z' ==> 'a' <= r <= 'z' && r as int - c as int == 32
    ensures !('A' <= c <= 'Z') ==> r == c
  {
    if 'A' <= c <= 'Z' then (c as int + 32) as char else c
  }

  function Lower(s: string): (r: string)
    ensures |r| == |s|
    ensures forall k :: 0 <= k < |s| ==> r[k] == LowerChar(s[k])
  {
    seq(|s|, k requires 0 <= k < |s| => LowerChar(s[k]))
  }

  /** `String.prototype.repeat` of a one-character string with a
      non-negative count. */
  function Repeat(c: char, n: nat): (r: string)
    ensures |r| == n
    ensures forall k :: 0 <= k < n ==> r[k] == c
  {
    if n == 0 then "" else [c] + Repeat(c, n - 1)
  }
}
