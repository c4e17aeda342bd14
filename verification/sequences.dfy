/** Sequence facts shared by the text and the byte views of the model. */
module Sequences {
  /** Python's `s.endswith(suffix)`, for `str` and `bytes` alike. */
  predicate EndsWith<T(==)>(s: seq<T>, suffix: seq<T>) {
    |suffix| <= |s| && s[|s| - |suffix|..] == suffix
  }

  /** A sequence ends with `suffix` exactly when it is some stem followed by
      `suffix`. */
  lemma EndsWithConcat<T>(s: seq<T>, suffix: seq<T>)
    ensures EndsWith(s, suffix) <==> exists stem :: s == stem + suffix
  {
    if EndsWith(s, suffix) {
      assert s == s[..|s| - |suffix|] + suffix;
    }
    if exists stem :: s == stem + suffix {
      var stem :| s == stem + suffix;
      assert s[|s| - |suffix|..] == suffix;
    }
  }
}
