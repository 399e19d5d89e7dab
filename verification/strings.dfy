/** Python's string slicing and `str.endswith`, as they are applied to column
    labels. Slices with a negative bound clamp at the start of the string
    instead of failing, and that clamping is what the column tests rely on. */
module Strings {

  /** `s[-k:]`: the last `k` characters of `s`, or the whole of `s` when it is
      shorter than `k`. Python reads `-0` as `0`, so `s[-0:]` is all of `s`. */
  function TailSlice(s: string, k: nat): (t: string)
    ensures |t| == if k == 0 || |s| < k then |s| else k
    ensures s[..|s| - |t|] + t == s
  {
    if k == 0 || |s| < k then s else s[|s| - k..]
  }

  /** `s[:-k]`: everything but the last `k` characters, or "" when `s` is
      shorter than `k`. Python reads `-0` as `0`, so `s[:-0]` is "" as well. */
  function DropLast(s: string, k: nat): (t: string)
    ensures |t| == if k == 0 || |s| < k then 0 else |s| - k
    ensures t <= s
  {
    if k == 0 || |s| < k then "" else s[..|s| - k]
  }

  /** `s.endswith(suffix)`. */
  predicate EndsWith(s: string, suffix: string) {
    |suffix| <= |s| && s[|s| - |suffix|..] == suffix
  }

  /** Comparing the last `|suffix|` characters is the same test as `endswith`
      for every non-empty suffix, including on strings shorter than the
      suffix: the slice is then the whole (shorter) string, which cannot equal
      the suffix. With the empty suffix the two differ: `s[-0:] == ""` holds
      only for the empty string, while every string ends with "". */
  lemma TailSliceIsEndsWith(s: string, suffix: string)
    ensures TailSlice(s, |suffix|) == suffix <==> EndsWith(s, suffix) && (suffix != [] || s == [])
  {
    if |s| < |suffix| {
      assert |TailSlice(s, |suffix|)| < |suffix|;
    }
  }

  /** Stripping a non-empty suffix that is present leaves exactly the part in
      front of it. */
  lemma DropLastOfEndsWith(s: string, suffix: string)
    requires EndsWith(s, suffix) && |suffix| > 0
    ensures DropLast(s, |suffix|) + suffix == s
    ensures |DropLast(s, |suffix|)| + |suffix| == |s|
  {
    assert s[..|s| - |suffix|] + s[|s| - |suffix|..] == s;
  }
}
