/** The few .NET string operations the content-disposition scraper relies on:
    case-insensitive first-index-of, ordinal first-index-of a character,
    `Substring` with its range checks, and `Replace(c, "")`.
    Strings are sequences of Unicode scalar values (Dafny's `char`), where
    .NET strings hold UTF-16 code units; positions here count scalar values. */
module Strings {

  /** The one exception the scraper can raise: `Substring` called with a
      start or length outside the string. */
  datatype Error = ArgumentOutOfRange

  datatype Result<T> = Ok(value: T) | Err(error: Error)

  /** Invariant ASCII case folding: `A`..`Z` map to `a`..`z`, every other
      character is left as it is. */
  function FoldCase(c: char): (d: char)
    ensures 'A' <= c <= 'Z' ==> 'a' <= d <= 'z' && d as int - c as int == 'a' as int - 'A' as int
    ensures !('A' <= c <= 'Z') ==> d == c
  {
    if 'A' <= c <= 'Z' then (c as int - 'A' as int + 'a' as int) as char else c
  }

  /** `pat` occurs in `s` at position `i`, comparing characters case-insensitively. */
  predicate OccursAt(s: string, pat: string, i: int)
  {
    0 <= i && i + |pat| <= |s| &&
    forall k :: 0 <= k < |pat| ==> FoldCase(s[i + k]) == FoldCase(pat[k])
  }

  /** `i` is the smallest position at which `pat` occurs in `s`. */
  ghost predicate IsFirstOccurrence(s: string, pat: string, i: int)
  {
    OccursAt(s, pat, i) && forall j :: 0 <= j < i ==> !OccursAt(s, pat, j)
  }

  /** `pat` occurs nowhere in `s`. */
  ghost predicate NoOccurrence(s: string, pat: string)
  {
    forall j :: !OccursAt(s, pat, j)
  }

  /** First case-insensitive occurrence of `pat` in `s` at or after `from`, or -1. */
  function IndexOfIgnoreCaseFrom(s: string, pat: string, from: nat): (r: int)
    requires from <= |s|
    ensures r == -1 || from <= r <= |s|
    ensures r >= 0 ==> OccursAt(s, pat, r)
    ensures r >= 0 ==> forall j :: from <= j < r ==> !OccursAt(s, pat, j)
    ensures r < 0 ==> forall j :: from <= j ==> !OccursAt(s, pat, j)
    decreases |s| - from
  {
    if OccursAt(s, pat, from) then from
    else if from == |s| then -1
    else IndexOfIgnoreCaseFrom(s, pat, from + 1)
  }

  /** `s.IndexOf(pat, StringComparison.CurrentCultureIgnoreCase)`, with ASCII
      case folding standing in for the culture's: the first position of
      `pat` in `s`, or -1 when there is none. */
  function IndexOfIgnoreCase(s: string, pat: string): (r: int)
    ensures r == -1 || 0 <= r <= |s|
    ensures r >= 0 ==> IsFirstOccurrence(s, pat, r)
    ensures r < 0 ==> NoOccurrence(s, pat)
  {
    IndexOfIgnoreCaseFrom(s, pat, 0)
  }

  /** The index the search returns is exactly the first occurrence, in both
      directions, and -1 exactly when there is none. */
  lemma IndexOfIgnoreCaseExact(s: string, pat: string, i: int)
    ensures IndexOfIgnoreCase(s, pat) == i <==> IsFirstOccurrence(s, pat, i) || (i == -1 && NoOccurrence(s, pat))
  {
  }

  /** `s.IndexOf(c)`: the first position of `c` in `s`, or -1. */
  function IndexOfChar(s: string, c: char): (r: int)
    ensures r == -1 || 0 <= r < |s|
    ensures r >= 0 ==> s[r] == c && c !in s[..r]
    ensures r < 0 ==> c !in s
  {
    if s == [] then -1
    else if s[0] == c then 0
    else
      var r := IndexOfChar(s[1..], c);
      assert s == [s[0]] + s[1..];
      if r < 0 then -1
      else
        assert s[..r + 1] == [s[0]] + s[1..][..r];
        r + 1
  }

  /** The index the search returns is the first position of `c`. */
  lemma IndexOfCharExact(s: string, c: char, k: int)
    requires 0 <= k < |s| && s[k] == c && c !in s[..k]
    ensures IndexOfChar(s, c) == k
  {
  }

  /** `s.Substring(start, length)`: fails exactly when .NET throws
      `ArgumentOutOfRangeException`, otherwise the `length` characters of `s`
      from `start` on. */
  function Substring(s: string, start: int, length: int): (r: Result<string>)
    ensures r.Ok? <==> 0 <= start && 0 <= length && start + length <= |s|
    ensures r.Ok? ==> |r.value| == length && forall k :: 0 <= k < length ==> r.value[k] == s[start + k]
  {
    if 0 <= start && 0 <= length && start + length <= |s| then Ok(s[start..start + length])
    else Err(ArgumentOutOfRange)
  }

  /** `s.Substring(start)`: fails exactly when `start` is outside `0..|s|`,
      otherwise the suffix of `s` from `start`. */
  function SubstringFrom(s: string, start: int): (r: Result<string>)
    ensures r.Ok? <==> 0 <= start <= |s|
    ensures r.Ok? ==> |r.value| == |s| - start && forall k :: 0 <= k < |r.value| ==> r.value[k] == s[start + k]
  {
    if 0 <= start <= |s| then Ok(s[start..]) else Err(ArgumentOutOfRange)
  }

  /** `s.Replace(c.ToString(), "")`: `s` with every `c` deleted and the other
      characters kept, each as often as in `s`. */
  function RemoveAll(s: string, c: char): (r: string)
    ensures c !in r
    ensures |r| <= |s|
    ensures multiset(r) == multiset(s)[c := 0]
  {
    if s == [] then []
    else
      assert s == [s[0]] + s[1..];
      if s[0] == c then RemoveAll(s[1..], c) else [s[0]] + RemoveAll(s[1..], c)
  }

  /** Deletion works character by character, so it keeps the order of the
      remaining characters and distributes over concatenation. */
  lemma {:induction false} RemoveAllAppend(a: string, b: string, c: char)
    ensures RemoveAll(a + b, c) == RemoveAll(a, c) + RemoveAll(b, c)
  {
    if a == [] {
      assert a + b == b;
    } else {
      assert (a + b)[0] == a[0];
      assert (a + b)[1..] == a[1..] + b;
      RemoveAllAppend(a[1..], b, c);
    }
  }

  /** A string without `c` is left unchanged; in particular deletion is idempotent. */
  lemma {:induction false} RemoveAllAbsent(s: string, c: char)
    requires c !in s
    ensures RemoveAll(s, c) == s
  {
    if s != [] {
      assert c !in s[1..] by { assert forall k :: 0 <= k < |s| - 1 ==> s[1..][k] == s[k + 1]; }
      RemoveAllAbsent(s[1..], c);
    }
  }

  /** Deleting from a prefix gives a prefix of deleting from the whole. */
  lemma RemoveAllPrefix(s: string, n: nat, c: char)
    requires n <= |s|
    ensures RemoveAll(s[..n], c) <= RemoveAll(s, c)
  {
    assert s == s[..n] + s[n..];
    RemoveAllAppend(s[..n], s[n..], c);
  }
}
