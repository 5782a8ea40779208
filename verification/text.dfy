/** The piece of Go's `strings` package that name resolution relies on. */
module Text {

  /** `strings.HasSuffix`: `suffix` is the tail of `s`. */
  predicate HasSuffix(s: string, suffix: string) {
    |suffix| <= |s| && s[|s| - |suffix|..] == suffix
  }

  /** `strings.TrimSuffix`: removes one trailing `suffix` when `s` ends
      with it, and returns `s` unchanged otherwise. */
  function TrimSuffix(s: string, suffix: string): (r: string)
    ensures HasSuffix(s, suffix) ==> r + suffix == s
    ensures !HasSuffix(s, suffix) ==> r == s
    ensures |r| <= |s| && r == s[..|r|]
  {
    if HasSuffix(s, suffix) then s[..|s| - |suffix|] else s
  }

  /** Trimming a suffix that was appended gives back exactly the original
      string: one occurrence is removed, never more. */
  lemma TrimAppended(n: string, suffix: string)
    ensures HasSuffix(n + suffix, suffix)
    ensures TrimSuffix(n + suffix, suffix) == n
  {
    assert (n + suffix)[|n|..] == suffix;
    assert (n + suffix)[..|n|] == n;
  }
}
