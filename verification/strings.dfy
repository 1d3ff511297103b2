/** The Python `str` operations the scraper relies on, over `seq<char>`.
    Character classes are restricted to ASCII: non-ASCII characters are
    never whitespace, never word characters and are left alone by case
    conversion. */
module Strings {

  /** The ASCII characters for which Python's `str.isspace()` holds; the
      `\s` class of a `str` regex and `str.strip()` use the same test. */
  predicate IsSpace(c: char) {
    c == ' ' || c == '\t' || c == '\n' || c == '\r' || c == '\U{0B}' || c == '\U{0C}'
    || ('\U{1C}' <= c <= '\U{1F}')
  }

  /** The ASCII part of the regex class `\w`. */
  predicate IsWordChar(c: char) {
    ('a' <= c <= 'z') || ('A' <= c <= 'Z') || ('0' <= c <= '9') || c == '_'
  }

  predicate IsUpper(c: char) { 'A' <= c <= 'Z' }

  predicate IsLower(c: char) { 'a' <= c <= 'z' }

  function ToUpper(c: char): (r: char)
    ensures !IsLower(r)
    ensures IsLower(c) ==> IsUpper(r)
    ensures !IsLower(c) ==> r == c
  {
    if IsLower(c) then (c as int - 'a' as int + 'A' as int) as char else c
  }

  function ToLower(c: char): (r: char)
    ensures !IsUpper(r)
    ensures IsUpper(c) ==> IsLower(r)
    ensures !IsUpper(c) ==> r == c
  {
    if IsUpper(c) then (c as int - 'A' as int + 'a' as int) as char else c
  }

  predicate AllSpace(s: string) {
    forall i :: 0 <= i < |s| ==> IsSpace(s[i])
  }

  /** `p` occurs in `s` starting at index `i`. */
  predicate OccursAt(s: string, p: string, i: nat) {
    i + |p| <= |s| && s[i..i + |p|] == p
  }

  /** An occurrence fixes the characters it covers. */
  lemma OccursAtChar(s: string, p: string, i: nat, j: nat)
    requires j < |p|
    ensures OccursAt(s, p, i) ==> i + j < |s| && s[i + j] == p[j]
  {
    if OccursAt(s, p, i) {
      assert s[i..i + |p|][j] == s[i + j];
    }
  }

  /** Python's `p in s`. */
  predicate Contains(s: string, p: string) {
    exists i: nat | i <= |s| :: OccursAt(s, p, i)
  }

  function IndexFrom(s: string, p: string, i: nat): (r: int)
    requires i <= |s|
    ensures r == -1 || (i <= r <= |s| && OccursAt(s, p, r))
    ensures r == -1 ==> forall j: nat :: i <= j ==> !OccursAt(s, p, j)
    ensures r != -1 ==> forall j: nat :: i <= j < r ==> !OccursAt(s, p, j)
    decreases |s| - i
  {
    if OccursAt(s, p, i) then i
    else if i + |p| >= |s| then -1
    else IndexFrom(s, p, i + 1)
  }

  /** Python's `s.find(p)`: the first index where `p` occurs, or -1. */
  function IndexOf(s: string, p: string): (r: int)
    ensures r == -1 <==> !Contains(s, p)
    ensures r != -1 ==> 0 <= r <= |s| && OccursAt(s, p, r)
    ensures r != -1 ==> forall j: nat :: j < r ==> !OccursAt(s, p, j)
  {
    IndexFrom(s, p, 0)
  }

  /** The end of the whitespace run that starts at `i`: how a greedy `\s*`
      advances, and where `str.lstrip()` cuts. */
  function SkipSpaces(s: string, i: nat): (j: nat)
    requires i <= |s|
    ensures i <= j <= |s|
    ensures forall k :: i <= k < j ==> IsSpace(s[k])
    ensures j < |s| ==> !IsSpace(s[j])
    decreases |s| - i
  {
    if i < |s| && IsSpace(s[i]) then SkipSpaces(s, i + 1) else i
  }

  /** The end of `s[lo..hi]` once its trailing whitespace is dropped. */
  function TrimEnd(s: string, lo: nat, hi: nat): (r: nat)
    requires lo <= hi <= |s|
    ensures lo <= r <= hi
    ensures forall k :: r <= k < hi ==> IsSpace(s[k])
    ensures r > lo ==> !IsSpace(s[r - 1])
    decreases hi
  {
    if hi > lo && IsSpace(s[hi - 1]) then TrimEnd(s, lo, hi - 1) else hi
  }

  /** Python's `s.strip()`: `s` without its leading and trailing whitespace. */
  function Strip(s: string): (r: string)
    ensures |r| <= |s|
    ensures |r| > 0 ==> !IsSpace(r[0]) && !IsSpace(r[|r| - 1])
    ensures exists lo: nat :: OccursAt(s, r, lo) && AllSpace(s[..lo]) && AllSpace(s[lo + |r|..])
  {
    var lo := SkipSpaces(s, 0);
    var hi := TrimEnd(s, lo, |s|);
    assert OccursAt(s, s[lo..hi], lo);
    assert AllSpace(s[..lo]);
    assert AllSpace(s[hi..]);
    s[lo..hi]
  }

  /** Every character of the stripped text is a character of the original. */
  lemma StripChars(s: string, c: char)
    requires c in Strip(s)
    ensures c in s
  {
    var r := Strip(s);
    var lo: nat :| OccursAt(s, r, lo) && AllSpace(s[..lo]) && AllSpace(s[lo + |r|..]);
    var k :| 0 <= k < |r| && r[k] == c;
    assert s[lo + k] == c;
  }

  /** Python's `s.replace(pat, rep)`: leftmost, non-overlapping occurrences
      of `pat` are replaced by `rep`; an empty `pat` inserts `rep` before
      every character and at the end. */
  function ReplaceAll(s: string, pat: string, rep: string): string
    decreases |s|
  {
    if |pat| == 0 then
      if |s| == 0 then rep else rep + [s[0]] + ReplaceAll(s[1..], pat, rep)
    else if OccursAt(s, pat, 0) then rep + ReplaceAll(s[|pat|..], pat, rep)
    else if |s| == 0 then []
    else [s[0]] + ReplaceAll(s[1..], pat, rep)
  }

  /** The text before the first occurrence is copied unchanged. */
  lemma {:induction false} ReplaceAllKeepsPrefix(a: string, rest: string, pat: string, rep: string)
    requires |pat| > 0
    requires forall j: nat :: j < |a| ==> !OccursAt(a + rest, pat, j)
    ensures ReplaceAll(a + rest, pat, rep) == a + ReplaceAll(rest, pat, rep)
    decreases |a|
  {
    if |a| == 0 {
      assert a + rest == rest;
    } else {
      var t := a[1..] + rest;
      NoOccurrenceInTail(a, rest, pat);
      ReplaceAllKeepsPrefix(a[1..], rest, pat, rep);
      ReplaceAllCopies(a + rest, pat, rep);
      assert (a + rest)[1..] == t;
      assert [a[0]] + a[1..] == a;
    }
  }

  lemma NoOccurrenceInTail(a: string, rest: string, pat: string)
    requires |a| > 0
    requires forall j: nat :: j < |a| ==> !OccursAt(a + rest, pat, j)
    ensures forall j: nat :: j < |a| - 1 ==> !OccursAt(a[1..] + rest, pat, j)
  {
    var s := a + rest;
    assert s[1..] == a[1..] + rest;
    forall j: nat | j < |a| - 1
      ensures !OccursAt(a[1..] + rest, pat, j)
    {
      OccursShift(s, pat, j);
    }
  }

  /** Where `pat` does not start, the first character is copied. */
  lemma ReplaceAllCopies(s: string, pat: string, rep: string)
    requires |pat| > 0 && |s| > 0 && !OccursAt(s, pat, 0)
    ensures ReplaceAll(s, pat, rep) == [s[0]] + ReplaceAll(s[1..], pat, rep)
  {
  }

  /** Where `pat` starts, it is replaced and the scan resumes after it. */
  lemma {:induction false} ReplaceAllAtOccurrence(s: string, pat: string, rep: string)
    requires |pat| > 0 && OccursAt(s, pat, 0)
    ensures ReplaceAll(s, pat, rep) == rep + ReplaceAll(s[|pat|..], pat, rep)
  {
  }

  /** Text without an occurrence of `pat` is left unchanged. */
  lemma ReplaceAllNoOccurrence(s: string, pat: string, rep: string)
    requires |pat| > 0 && !Contains(s, pat)
    ensures ReplaceAll(s, pat, rep) == s
  {
    assert forall j: nat :: j < |s| ==> !OccursAt(s + [], pat, j) by {
      assert s + [] == s;
    }
    ReplaceAllKeepsPrefix(s, [], pat, rep);
    assert s + [] == s;
  }

  /** An occurrence in the tail `s[1..]` is an occurrence in `s`, one further on. */
  lemma OccursShift(s: string, p: string, j: nat)
    requires |s| > 0
    ensures OccursAt(s[1..], p, j) <==> OccursAt(s, p, j + 1)
  {
    if j + |p| <= |s[1..]| {
      assert s[1..][j..j + |p|] == s[j + 1..j + 1 + |p|];
    }
  }

  /** Python's `s.capitalize()` on ASCII: the first character upper-cased,
      the rest lower-cased. */
  function Capitalize(s: string): (r: string)
    ensures |r| == |s|
    ensures |s| > 0 ==> r[0] == ToUpper(s[0])
    ensures forall i :: 1 <= i < |s| ==> r[i] == ToLower(s[i])
  {
    if |s| == 0 then []
    else [ToUpper(s[0])] + seq(|s| - 1, i requires 0 <= i < |s| - 1 => ToLower(s[i + 1]))
  }

  /** Only the first character of a capitalised text may be upper case. */
  predicate NoUpperAfterFirst(s: string) {
    forall i :: 1 <= i < |s| ==> !IsUpper(s[i])
  }

  /** Capitalising yields the capitalised shape, and a capitalised text is
      left alone. */
  lemma CapitalizeShape(s: string)
    ensures NoUpperAfterFirst(Capitalize(s))
    ensures |s| > 0 ==> !IsLower(Capitalize(s)[0])
    ensures Capitalize(Capitalize(s)) == Capitalize(s)
  {
  }

  /** Python's `s[:n] + "..." if len(s) > n else s`. */
  function Truncate(s: string, n: nat): (r: string)
    ensures |r| <= n + 3
    ensures |s| <= n ==> r == s
    ensures |s| > n ==> |r| == n + 3 && r[..n] == s[..n] && r[n..] == "..."
  {
    if |s| > n then s[..n] + "..." else s
  }

  /** Capping at `m` and then at a smaller `n` is the same as capping at `n`:
      the first cap's ellipsis never survives the second. */
  lemma TruncateCompose(s: string, m: nat, n: nat)
    requires n <= m
    ensures Truncate(Truncate(s, m), n) == Truncate(s, n)
  {
    if |s| > m {
      assert Truncate(s, m)[..n] == s[..n];
    }
  }
}
