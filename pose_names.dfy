/**
 * The pose-name suffix helpers: a pose that has a thumbnail carries a
 * configurable suffix (an add-on preference) at the end of its name.
 * The suffix is an explicit parameter here.
 */
module PoseNames {

  /** Python's `str.endswith`. */
  predicate EndsWith(s: string, suffix: string) {
    |suffix| <= |s| && s[|s| - |suffix|..] == suffix
  }

  /**
   * Python's slice `s[:stop]` for any integer `stop`: a negative stop counts
   * from the end and is clamped at 0; note that `-0` is `0`, so `s[:-0]` is
   * the empty string.
   */
  function SliceTo(s: string, stop: int): (r: string)
    ensures r <= s
    ensures 0 <= stop <= |s| ==> |r| == stop
    ensures -|s| <= stop < 0 ==> |r| == |s| + stop
  {
    if stop >= 0 then s[..if stop <= |s| then stop else |s|]
    else s[..if |s| + stop >= 0 then |s| + stop else 0]
  }

  /** `clean_pose_name`: the pose name without the thumbnail suffix. */
  function CleanPoseName(name: string, suffix: string): (r: string)
    ensures !EndsWith(name, suffix) ==> r == name
    ensures EndsWith(name, suffix) && suffix != [] ==> r + suffix == name
    ensures suffix == [] ==> r == []
  {
    if EndsWith(name, suffix) then SliceTo(name, -|suffix|) else name
  }

  /** `suffix_pose_name`: the pose name with the thumbnail suffix. */
  function SuffixPoseName(name: string, suffix: string): (r: string)
    ensures EndsWith(r, suffix)
    ensures r == name <==> EndsWith(name, suffix)
    ensures name <= r && |r| <= |name| + |suffix|
  {
    if EndsWith(name, suffix) then name else name + suffix
  }

  lemma SuffixPoseNameIdempotent(name: string, suffix: string)
    ensures SuffixPoseName(SuffixPoseName(name, suffix), suffix) == SuffixPoseName(name, suffix)
  {
  }

  /** With a non-empty suffix, cleaning undoes suffixing an unsuffixed name. */
  lemma CleanUndoesSuffix(name: string, suffix: string)
    requires suffix != [] && !EndsWith(name, suffix)
    ensures CleanPoseName(SuffixPoseName(name, suffix), suffix) == name
  {
    var s := name + suffix;
    assert s[|s| - |suffix|..] == suffix;
    assert SliceTo(s, -|suffix|) == s[..|name|] == name;
  }

  /**
   * The binder stores `CleanPoseName(n)` in the record and renames the pose to
   * `SuffixPoseName(n)`; with a non-empty suffix the new pose name is always
   * the record name followed by the suffix.
   */
  lemma SuffixIsCleanPlusSuffix(name: string, suffix: string)
    requires suffix != []
    ensures SuffixPoseName(name, suffix) == CleanPoseName(name, suffix) + suffix
  {
  }

  /** With an empty suffix, every name "ends with" it and cleans to "". */
  lemma CleanWithEmptySuffix(name: string)
    ensures CleanPoseName(name, "") == ""
    ensures SuffixPoseName(name, "") == name
  {
  }

  /** Cleaning is not idempotent: "a_t_t" cleans to "a_t", which cleans to "a". */
  lemma CleanNotIdempotent()
    ensures CleanPoseName("a_t_t", "_t") == "a_t"
    ensures CleanPoseName(CleanPoseName("a_t_t", "_t"), "_t") == "a"
  {
    assert EndsWith("a_t_t", "_t") by { assert "a_t_t"[3..] == "_t"; }
    assert SliceTo("a_t_t", -2) == "a_t_t"[..3] == "a_t";
    assert EndsWith("a_t", "_t") by { assert "a_t"[1..] == "_t"; }
    assert SliceTo("a_t", -2) == "a_t"[..1] == "a";
  }
}
