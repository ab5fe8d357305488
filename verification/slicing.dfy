/** Truncation of a result list to the configured maximum.

    Both scripts truncate with Python's slice `xs[:max_results]`. For a
    negative bound that slice counts from the END of the list, so a negative
    maximum keeps all but the last few items instead of none. `PyPrefix`
    models the slice as written and is what the saved lists are cut with;
    `Truncate` is the clamped reading, used by the corrected cuts (see
    Findings in README.md). */
module Slicing {
  import opened Wrappers

  /** Python's `s[:n]`, negative `n` included. */
  function PyPrefix<T>(s: seq<T>, n: int): (r: seq<T>)
    ensures r <= s
    ensures 0 <= n ==> |r| == Min(n, |s|)
    ensures n < 0 ==> |r| == Max(0, |s| + n)
  {
    if 0 <= n then
      (if n <= |s| then s[..n] else s)
    else
      (if -n <= |s| then s[..|s| + n] else [])
  }

  /** A negative bound lets the slice return more items than the bound:
      with max_results = -1 three results are cut to two, not to none. */
  lemma NegativeBoundKeepsItems()
    ensures |PyPrefix([10, 20, 30], -1)| == 2
    ensures |PyPrefix([10, 20, 30], -1)| > -1
  {
  }

  /** At most `max(n, 0)` leading items of `s`. */
  function Truncate<T>(s: seq<T>, n: int): (r: seq<T>)
    ensures r <= s
    ensures |r| == Min(Max(n, 0), |s|)
  {
    if n <= 0 then [] else if n <= |s| then s[..n] else s
  }

  /** For the non-negative maxima the scripts are meant for, the clamped
      truncation is exactly Python's slice. */
  lemma TruncateIsSliceForNonNegative<T>(s: seq<T>, n: int)
    requires 0 <= n
    ensures Truncate(s, n) == PyPrefix(s, n)
  {
  }
}
