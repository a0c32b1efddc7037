/**
 * The handful of Python `str` operations that the asset migrator relies on,
 * with Python's semantics: the tail slice `s[-k:]`, `s.replace(old, new)`,
 * `s.split(sep)`, `sep.join(parts)` and `s.lower()` (ASCII letters only),
 * plus prefix, suffix and first-character searches used to state them.
 */
module Strings {

  predicate StartsWith(s: string, prefix: string) {
    |prefix| <= |s| && s[..|prefix|] == prefix
  }

  predicate EndsWith(s: string, suffix: string) {
    |suffix| <= |s| && s[|s| - |suffix|..] == suffix
  }

  /** `pattern` occurs somewhere in `s` as a contiguous slice. */
  ghost predicate OccursIn(pattern: string, s: string) {
    exists i :: OccursAt(pattern, s, i)
  }

  predicate OccursAt(pattern: string, s: string, i: int) {
    0 <= i <= |s| - |pattern| && s[i..i + |pattern|] == pattern
  }

  predicate NoNewline(s: string) {
    forall i :: 0 <= i < |s| ==> s[i] != '\n'
  }

  /** The slice `s[-k:]` of Python: the whole string when `k` is 0 or at least `|s|`. */
  function TailSlice(s: string, k: nat): string {
    if k == 0 || k >= |s| then s else s[|s| - k..]
  }

  /** Position of the first `c` in `s`, or `|s|` when there is none. */
  function IndexOf(s: string, c: char): (k: nat)
    ensures k <= |s|
    ensures k < |s| ==> s[k] == c
    ensures forall i :: 0 <= i < k ==> s[i] != c
  {
    if s == [] then 0
    else if s[0] == c then 0
    else 1 + IndexOf(s[1..], c)
  }

  /** The first occurrence is the only position with `c` and no `c` before it. */
  lemma IndexOfIs(s: string, c: char, k: nat)
    requires k <= |s|
    requires k < |s| ==> s[k] == c
    requires forall i :: 0 <= i < k ==> s[i] != c
    ensures IndexOf(s, c) == k
  {
  }

  /**
   * `s.replace(target, replacement)`: every non-overlapping occurrence of
   * `target`, found scanning from the left, is replaced.
   */
  function ReplaceAll(s: string, target: string, replacement: string): string
    requires |target| > 0
    decreases |s|
  {
    if |s| < |target| then s
    else if s[..|target|] == target then replacement + ReplaceAll(s[|target|..], target, replacement)
    else [s[0]] + ReplaceAll(s[1..], target, replacement)
  }

  /** A string in which `target` does not occur is left unchanged. */
  lemma {:induction false} ReplaceAllWithoutOccurrence(s: string, target: string, replacement: string)
    requires |target| > 0
    requires !OccursIn(target, s)
    ensures ReplaceAll(s, target, replacement) == s
    decreases |s|
  {
    if |s| >= |target| {
      assert !OccursAt(target, s, 0);
      assert s[0..|target|] == s[..|target|];
      assert !OccursIn(target, s[1..]) by {
        forall i | 0 <= i <= |s[1..]| - |target|
          ensures !OccursAt(target, s[1..], i)
        {
          assert s[1..][i..i + |target|] == s[i + 1..i + 1 + |target|];
          assert !OccursAt(target, s, i + 1);
        }
      }
      ReplaceAllWithoutOccurrence(s[1..], target, replacement);
    }
  }

  /**
   * Replacing in `target + rest` rewrites the leading occurrence, and
   * nothing else when `target` does not occur in `rest`.
   */
  lemma ReplaceAllLeading(rest: string, target: string, replacement: string)
    requires |target| > 0
    requires !OccursIn(target, rest)
    ensures ReplaceAll(target + rest, target, replacement) == replacement + rest
  {
    var s := target + rest;
    assert s[..|target|] == target;
    assert s[|target|..] == rest;
    ReplaceAllWithoutOccurrence(rest, target, replacement);
  }

  /** A string without `c` has no occurrence of any pattern containing `c`. */
  lemma NoOccurrenceWithoutChar(s: string, pattern: string, c: char)
    requires forall i :: 0 <= i < |s| ==> s[i] != c
    requires exists k :: 0 <= k < |pattern| && pattern[k] == c
    ensures !OccursIn(pattern, s)
  {
    var k :| 0 <= k < |pattern| && pattern[k] == c;
    forall i | 0 <= i <= |s| - |pattern|
      ensures !OccursAt(pattern, s, i)
    {
      assert s[i..i + |pattern|][k] == s[i + k];
    }
  }

  /** `s.split(sep)`: the pieces between separators, empty pieces included. */
  function Split(s: string, sep: char): (parts: seq<string>)
    ensures |parts| >= 1
    decreases |s|
  {
    var k := IndexOf(s, sep);
    if k == |s| then [s] else [s[..k]] + Split(s[k + 1..], sep)
  }

  /** `sep.join(parts)`. */
  function Join(sep: string, parts: seq<string>): string {
    if |parts| == 0 then ""
    else if |parts| == 1 then parts[0]
    else parts[0] + sep + Join(sep, parts[1..])
  }

  /** `s` with every `c` changed to `d`, character by character. */
  function ReplaceChar(s: string, c: char, d: char): string {
    seq(|s|, i requires 0 <= i < |s| => if s[i] == c then d else s[i])
  }

  /** Splitting at `c` and joining with `d` is replacing each `c` by `d`. */
  lemma {:induction false} JoinSplit(s: string, c: char, d: char)
    ensures Join([d], Split(s, c)) == ReplaceChar(s, c, d)
    decreases |s|
  {
    var k := IndexOf(s, c);
    if k < |s| {
      var rest := s[k + 1..];
      JoinSplit(rest, c, d);
      var parts := Split(rest, c);
      assert Split(s, c) == [s[..k]] + parts;
      assert ([s[..k]] + parts)[1..] == parts;
      assert Join([d], Split(s, c)) == s[..k] + [d] + ReplaceChar(rest, c, d);
      assert s == s[..k] + [s[k]] + rest;
    }
  }

  function LowerChar(c: char): char {
    if 'A' <= c <= 'Z' then (c as int + 32) as char else c
  }

  /** `s.lower()` restricted to the ASCII letters. */
  function Lower(s: string): string {
    seq(|s|, i requires 0 <= i < |s| => LowerChar(s[i]))
  }

  /** Exactly two answers lower-case to "y". */
  lemma LowerIsY(s: string)
    ensures Lower(s) == "y" <==> s == "y" || s == "Y"
  {
    if Lower(s) == "y" {
      assert |s| == |Lower(s)| == 1;
      assert Lower(s)[0] == LowerChar(s[0]) == 'y';
      assert s == [s[0]];
    }
    if s == "Y" {
      assert Lower(s) == [LowerChar('Y')];
    }
  }
}
