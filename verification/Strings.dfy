/** C strings and the few library functions the handlers call. One `char` stands for one
    byte; a C string is the part of a buffer before its first NUL.
 */
module Strings {

  datatype Option<+T> = None | Some(value: T)
  {
    function GetOr(default: T): T {
      if Some? then value else default
    }
  }

  const NUL := '\0'

  predicate NulFree(s: string) {
    NUL !in s
  }

  /** The number of leading characters of `s` that are not `c` (strcspn). */
  function SpanUntil(s: string, c: char): (n: nat)
    ensures n <= |s|
    ensures forall i | 0 <= i < n :: s[i] != c
    ensures n < |s| ==> s[n] == c
  {
    if s == "" || s[0] == c then 0 else 1 + SpanUntil(s[1..], c)
  }

  /** The number of leading characters of `s` that are `c` (strspn). */
  function SpanOf(s: string, c: char): (n: nat)
    ensures n <= |s|
    ensures forall i | 0 <= i < n :: s[i] == c
    ensures n < |s| ==> s[n] != c
  {
    if s == "" || s[0] != c then 0 else 1 + SpanOf(s[1..], c)
  }

  lemma SpanUntilIs(s: string, c: char, n: nat)
    requires n <= |s| && forall i | 0 <= i < n :: s[i] != c
    requires n < |s| ==> s[n] == c
    ensures SpanUntil(s, c) == n
  {
  }

  function CString(buffer: string): (s: string)
    ensures NulFree(s)
  {
    buffer[..SpanUntil(buffer, NUL)]
  }

  lemma CStringOfTerminated(s: string)
    requires NulFree(s)
    ensures CString(s + [NUL]) == s
  {
    SpanUntilIs(s + [NUL], NUL, |s|);
  }

  /** Does `pat` occur in `s` at position `i`? */
  predicate OccursAt(s: string, pat: string, i: nat) {
    i + |pat| <= |s| && s[i..i + |pat|] == pat
  }

  predicate NoneBefore(s: string, pat: string, n: nat) {
    forall i | 0 <= i < n :: !OccursAt(s, pat, i)
  }

  /** The first occurrence of `pat` in `s` (strstr). */
  function Find(s: string, pat: string): (r: Option<nat>)
    ensures r.Some? ==> OccursAt(s, pat, r.value) && forall i | 0 <= i < r.value :: !OccursAt(s, pat, i)
    ensures r.None? ==> forall i: nat :: !OccursAt(s, pat, i)
  {
    FindFrom(s, pat, 0)
  }

  function FindFrom(s: string, pat: string, from: nat): (r: Option<nat>)
    requires from <= |s|
    ensures r.Some? ==> from <= r.value && OccursAt(s, pat, r.value)
    ensures r.Some? ==> forall i | from <= i < r.value :: !OccursAt(s, pat, i)
    ensures r.None? ==> forall i | from <= i :: !OccursAt(s, pat, i)
    decreases |s| - from
  {
    if OccursAt(s, pat, from) then Some(from)
    else if from == |s| then None
    else FindFrom(s, pat, from + 1)
  }

  lemma FindIs(s: string, pat: string, n: nat)
    requires OccursAt(s, pat, n) && forall i | 0 <= i < n :: !OccursAt(s, pat, i)
    ensures Find(s, pat) == Some(n)
  {
  }

  predicate StartsWith(s: string, prefix: string) {
    prefix <= s
  }
}
