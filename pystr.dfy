/**
 * The two Python `str` builtins the stemmer relies on: `str.strip()` without
 * arguments and `str.endswith(suffix)`.
 */
module PyStr {

  /**
   * The code points for which Python's `str.isspace()` holds, which are the
   * ones `str.strip()` removes when called without arguments.
   */
  predicate IsSpace(c: char)
  {
    || ('\t' <= c <= '\r')                // tab, line feed, vertical tab, form feed, carriage return
    || ('\U{001C}' <= c <= '\U{001F}')    // file, group, record and unit separators
    || c == ' '
    || c == '\U{0085}'                    // next line
    || c == '\U{00A0}'                    // no-break space
    || c == '\U{1680}'                    // ogham space mark
    || ('\U{2000}' <= c <= '\U{200A}')    // en quad .. hair space
    || c == '\U{2028}' || c == '\U{2029}' // line and paragraph separators
    || c == '\U{202F}'                    // narrow no-break space
    || c == '\U{205F}'                    // medium mathematical space
    || c == '\U{3000}'                    // ideographic space
  }

  /** Every character of `s` at an index from `lo` up to `hi` is whitespace. */
  predicate SpaceBetween(s: string, lo: nat, hi: nat)
    requires lo <= hi <= |s|
  {
    forall i :: lo <= i < hi ==> IsSpace(s[i])
  }

  /**
   * The scan of `str.strip()` from the left: the index of the first
   * non-whitespace character at or after `from`, or `|s|` when there is none.
   */
  function SkipSpaceForward(s: string, from: nat): (n: nat)
    requires from <= |s|
    ensures from <= n <= |s| && SpaceBetween(s, from, n)
    ensures n == |s| || !IsSpace(s[n])
    decreases |s| - from
  {
    if from < |s| && IsSpace(s[from]) then SkipSpaceForward(s, from + 1) else from
  }

  /**
   * The scan of `str.strip()` from the right, stopping at `lo`: the index just
   * after the last non-whitespace character before `hi`, or `lo` when the
   * characters from `lo` up to `hi` are all whitespace.
   */
  function SkipSpaceBackward(s: string, lo: nat, hi: nat): (n: nat)
    requires lo <= hi <= |s|
    ensures lo <= n <= hi && SpaceBetween(s, n, hi)
    ensures n == lo || !IsSpace(s[n - 1])
    decreases hi
  {
    if lo < hi && IsSpace(s[hi - 1]) then SkipSpaceBackward(s, lo, hi - 1) else hi
  }

  /** `r` is the slice `s[i..i + |r|]` and everything of `s` around it is whitespace. */
  predicate TrimmedAt(s: string, r: string, i: nat)
  {
    && i + |r| <= |s|
    && r == s[i..i + |r|]
    && SpaceBetween(s, 0, i)
    && SpaceBetween(s, i + |r|, |s|)
  }

  /**
   * `s.strip()`: `s` without its leading and its trailing whitespace. The
   * result neither starts nor ends with whitespace; `StripKeepsSlice` says
   * it is a slice of `s` with only whitespace around it.
   */
  function Strip(s: string): (r: string)
    ensures |r| <= |s|
    ensures r == [] || (!IsSpace(r[0]) && !IsSpace(r[|r| - 1]))
  {
    var i := SkipSpaceForward(s, 0);
    var j := SkipSpaceBackward(s, i, |s|);
    s[i..j]
  }

  /** `s.strip()` is a slice of `s`, and everything of `s` around that slice is whitespace. */
  lemma StripKeepsSlice(s: string)
    ensures exists i: nat :: TrimmedAt(s, Strip(s), i)
  {
    var i := SkipSpaceForward(s, 0);
    var j := SkipSpaceBackward(s, i, |s|);
    assert Strip(s) == s[i..j];
    assert TrimmedAt(s, Strip(s), i);
  }

  /** `s.endswith(suffix)`: `s` is what comes before the suffix followed by the suffix. */
  predicate EndsWith(s: string, suffix: string)
    ensures EndsWith(s, suffix) ==> |suffix| <= |s| && s == s[..|s| - |suffix|] + suffix
  {
    |suffix| <= |s| && s[|s| - |suffix|..] == suffix
  }

  /** Conversely, any word made of some text followed by `suffix` ends with `suffix`. */
  lemma EndsWithConcat(p: string, suffix: string)
    ensures EndsWith(p + suffix, suffix)
  {
    assert (p + suffix)[|p|..] == suffix;
  }
}
