/** The Python string builtins the scraper relies on: `str.strip()`, the
    substring test `sub in s`, `s.split("?")[0]` and `sep.join(xs)`, together
    with `s.split(sep)`, the inverse of the join, which a consumer of the
    joined picture list uses to recover the images. */
module Text {
  import opened Wrappers

  /** The characters for which Python's `str.isspace()` holds, i.e. those
      `str.strip()` removes. */
  predicate IsSpace(c: char) {
    || c == ' '
    || '\U{9}' <= c <= '\U{D}'
    || '\U{1C}' <= c <= '\U{1F}'
    || c == '\U{85}' || c == '\U{A0}' || c == '\U{1680}'
    || '\U{2000}' <= c <= '\U{200A}'
    || c == '\U{2028}' || c == '\U{2029}' || c == '\U{202F}' || c == '\U{205F}'
    || c == '\U{3000}'
  }

  /** Number of whitespace characters at the front of `s`. */
  function LeadingSpaces(s: string): (n: nat)
    ensures n <= |s|
    ensures forall k | 0 <= k < n :: IsSpace(s[k])
    ensures n < |s| ==> !IsSpace(s[n])
  {
    if s == [] || !IsSpace(s[0]) then 0 else 1 + LeadingSpaces(s[1..])
  }

  /** Number of whitespace characters at the back of `s`. */
  function TrailingSpaces(s: string): (n: nat)
    ensures n <= |s|
    ensures forall k | |s| - n <= k < |s| :: IsSpace(s[k])
    ensures n < |s| ==> !IsSpace(s[|s| - 1 - n])
  {
    if s == [] || !IsSpace(s[|s| - 1]) then 0 else 1 + TrailingSpaces(s[..|s| - 1])
  }

  /** Python's `s.strip()`: `s` without its leading and trailing whitespace.
      The result is the slice of `s` starting at `LeadingSpaces(s)`, everything
      of `s` around that slice is whitespace, and the slice neither starts nor
      ends with whitespace. */
  function Strip(s: string): (r: string)
    ensures LeadingSpaces(s) + |r| <= |s| && s[LeadingSpaces(s)..LeadingSpaces(s) + |r|] == r
    ensures forall k | 0 <= k < |s| && (k < LeadingSpaces(s) || LeadingSpaces(s) + |r| <= k) :: IsSpace(s[k])
    ensures r == [] || (!IsSpace(r[0]) && !IsSpace(r[|r| - 1]))
  {
    var t := s[LeadingSpaces(s)..];
    t[..|t| - TrailingSpaces(t)]
  }

  /** A string with no surrounding whitespace is left as it is. */
  lemma StripFixesUnspaced(s: string)
    requires s == [] || (!IsSpace(s[0]) && !IsSpace(s[|s| - 1]))
    ensures Strip(s) == s
  {
    assert LeadingSpaces(s) == 0;
    assert TrailingSpaces(s) == 0;
  }

  /** Stripping is idempotent. */
  lemma StripIdempotent(s: string)
    ensures Strip(Strip(s)) == Strip(s)
  {
    StripFixesUnspaced(Strip(s));
  }

  /** A string made only of whitespace strips to the empty string, and only such a string does. */
  lemma StripEmptyIff(s: string)
    ensures Strip(s) == [] <==> forall k | 0 <= k < |s| :: IsSpace(s[k])
  {
    if Strip(s) != [] {
      assert s[LeadingSpaces(s)] == Strip(s)[0];
    }
  }

  predicate StartsWith(s: string, prefix: string) {
    |prefix| <= |s| && s[..|prefix|] == prefix
  }

  /** `sep` occurs in `s` at position `i`. */
  predicate OccursAt(s: string, sep: string, i: nat) {
    i + |sep| <= |s| && s[i..i + |sep|] == sep
  }

  /** Python's `sub in s`. */
  predicate Contains(s: string, sub: string)
    ensures sub == [] ==> Contains(s, sub)
    ensures Contains(s, sub) ==> |sub| <= |s|
    decreases |s|
  {
    StartsWith(s, sub) || (s != [] && Contains(s[1..], sub))
  }

  /** `Contains` holds exactly when `sub` occurs at some position of `s`. */
  lemma ContainsAt(s: string, sub: string)
    ensures Contains(s, sub) <==> exists i | 0 <= i <= |s| :: OccursAt(s, sub, i)
  {
    if Contains(s, sub) {
      var i := OccurrenceOf(s, sub);
    }
    if exists i | 0 <= i <= |s| :: OccursAt(s, sub, i) {
      var i :| 0 <= i <= |s| && OccursAt(s, sub, i);
      ContainsFrom(s, sub, i);
    }
  }

  /** A position where a contained `sub` occurs. */
  lemma {:induction false} OccurrenceOf(s: string, sub: string) returns (i: nat)
    requires Contains(s, sub)
    ensures i <= |s| && OccursAt(s, sub, i)
    decreases |s|
  {
    if StartsWith(s, sub) {
      i := 0;
    } else {
      var j := OccurrenceOf(s[1..], sub);
      assert s[j + 1..j + 1 + |sub|] == s[1..][j..j + |sub|];
      i := j + 1;
    }
  }

  /** An occurrence at any position makes `sub` contained. */
  lemma {:induction false} ContainsFrom(s: string, sub: string, i: nat)
    requires OccursAt(s, sub, i)
    ensures Contains(s, sub)
    decreases i
  {
    if i > 0 {
      assert s[1..][i - 1..i - 1 + |sub|] == s[i..i + |sub|];
      ContainsFrom(s[1..], sub, i - 1);
    }
  }

  /** Python's `s.split("?")[0]`: the part of `s` before its first '?'.
      The result holds no '?', is a prefix of `s`, and is followed in `s`
      by a '?' unless it is the whole of `s`. */
  function BeforeQuery(s: string): (r: string)
    ensures '?' !in r
    ensures StartsWith(s, r)
    ensures |r| < |s| ==> s[|r|] == '?'
  {
    if s == [] || s[0] == '?' then [] else [s[0]] + BeforeQuery(s[1..])
  }

  /** A string without '?' is its own query-free part. */
  lemma BeforeQueryFixes(s: string)
    requires '?' !in s
    ensures BeforeQuery(s) == s
  {
  }

  /** Cutting at the first '?' twice cuts nothing more. */
  lemma BeforeQueryIdempotent(s: string)
    ensures BeforeQuery(BeforeQuery(s)) == BeforeQuery(s)
  {
    BeforeQueryFixes(BeforeQuery(s));
  }

  /** Python's `sep.join(xs)`. */
  function Join(xs: seq<string>, sep: string): (r: string)
    ensures xs == [] ==> r == []
    ensures xs != [] ==> StartsWith(r, xs[0])
    ensures |xs| > 1 ==> OccursAt(r, sep, |xs[0]|)
  {
    if xs == [] then [] else if |xs| == 1 then xs[0] else xs[0] + sep + Join(xs[1..], sep)
  }

  /** With a non-empty separator the joined string is empty exactly when there
      is nothing to join or the one entry is itself empty. */
  lemma JoinEmptyIff(xs: seq<string>, sep: string)
    requires sep != []
    ensures Join(xs, sep) == [] <==> xs == [] || xs == [[]]
  {
    if |xs| > 1 {
      assert |Join(xs, sep)| >= |sep|;
    }
  }

  /** The first position at or after `from` where `sep` occurs in `s`. */
  function FindFrom(s: string, sep: string, from: nat): (r: Option<nat>)
    requires from <= |s|
    ensures r.Some? ==> from <= r.value && OccursAt(s, sep, r.value)
    ensures r.Some? ==> forall j | from <= j < r.value :: !OccursAt(s, sep, j)
    ensures r.None? ==> forall j | from <= j <= |s| :: !OccursAt(s, sep, j)
    decreases |s| - from
  {
    if OccursAt(s, sep, from) then Some(from)
    else if from == |s| then None
    else FindFrom(s, sep, from + 1)
  }

  /** Python's `s.split(sep)` for a non-empty separator: the pieces between
      the leftmost non-overlapping occurrences of `sep`. */
  function Split(s: string, sep: string): (r: seq<string>)
    requires sep != []
    ensures |r| > 0
    decreases |s|
  {
    match FindFrom(s, sep, 0)
    case None => [s]
    case Some(i) => [s[..i]] + Split(s[i + |sep|..], sep)
  }

  /** The separator of the picture list written by the scraper. */
  const PictureSeparator: string := " | "

  /** A string without '|' holds no " | " at any position. */
  lemma NoSeparatorIn(x: string)
    requires '|' !in x
    ensures forall j | 0 <= j <= |x| :: !OccursAt(x, PictureSeparator, j)
  {
    forall j | 0 <= j <= |x|
      ensures !OccursAt(x, PictureSeparator, j)
    {
      if j + |PictureSeparator| <= |x| {
        assert x[j..j + |PictureSeparator|][1] == x[j + 1];
        assert x[j + 1] in x;
      }
    }
  }

  /** In `x + " | " + rest`, with no '|' in `x`, the separator does not start before `|x|`. */
  lemma NoSeparatorBefore(x: string, rest: string, j: nat)
    requires '|' !in x
    requires j < |x|
    ensures !OccursAt(x + PictureSeparator + rest, PictureSeparator, j)
  {
    var s := x + PictureSeparator + rest;
    if j + 1 < |x| {
      assert s[j + 1] == x[j + 1];
      assert x[j + 1] in x;
    } else {
      assert s[j + 1] == PictureSeparator[0];
    }
    assert s[j..j + |PictureSeparator|][1] == s[j + 1];
  }

  /** In `x + " | " + rest`, with no '|' in `x`, the first separator is the one after `x`. */
  lemma FirstSeparator(x: string, rest: string)
    requires '|' !in x
    ensures FindFrom(x + PictureSeparator + rest, PictureSeparator, 0) == Some(|x|)
  {
    var s := x + PictureSeparator + rest;
    assert OccursAt(s, PictureSeparator, |x|) by {
      assert s[|x|..|x| + |PictureSeparator|] == PictureSeparator;
    }
    forall j | 0 <= j < |x|
      ensures !OccursAt(s, PictureSeparator, j)
    {
      NoSeparatorBefore(x, rest, j);
    }
  }

  /** Splitting on " | " undoes joining with " | " whenever there is at least
      one entry and no entry holds a '|'. */
  lemma {:induction false} SplitJoin(xs: seq<string>)
    requires |xs| > 0
    requires forall k | 0 <= k < |xs| :: '|' !in xs[k]
    ensures Split(Join(xs, PictureSeparator), PictureSeparator) == xs
    decreases |xs|
  {
    if |xs| == 1 {
      NoSeparatorIn(xs[0]);
    } else {
      SplitJoinStep(xs);
      assert forall k | 0 <= k < |xs| - 1 :: xs[1..][k] == xs[k + 1];
      SplitJoin(xs[1..]);
      assert xs == [xs[0]] + xs[1..];
    }
  }

  /** Splitting a join of two or more entries peels off the first entry, when
      that entry holds no '|'. */
  lemma SplitJoinStep(xs: seq<string>)
    requires |xs| > 1 && '|' !in xs[0]
    ensures Split(Join(xs, PictureSeparator), PictureSeparator) ==
      [xs[0]] + Split(Join(xs[1..], PictureSeparator), PictureSeparator)
  {
    var sep := PictureSeparator;
    var s := Join(xs, sep);
    var x, rest := xs[0], Join(xs[1..], sep);
    assert s == x + sep + rest;
    FirstSeparator(x, rest);
    assert s[..|x|] == x;
    assert s[|x| + |sep|..] == rest;
  }
}
