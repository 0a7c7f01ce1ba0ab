/** The list edit the dashboard performs on its cached name list when a sample is deleted. */
module Lists {

  /**
   * `s.filter((_, i) => i !== k)`: the elements of `s` at every position other than `k`,
   * defined by recursion on the last element.
   */
  function FilterOutIndex<T>(s: seq<T>, k: nat): (r: seq<T>)
    ensures k < |s| ==> r == s[..k] + s[k + 1..]
    ensures |s| <= k ==> r == s
  {
    if s == [] then []
    else
      var front := s[..|s| - 1];
      var rest := FilterOutIndex(front, k);
      if |s| - 1 == k then
        assert front == s[..k];
        rest
      else
        assert k < |front| ==> front[..k] == s[..k] && front[k + 1..] + [s[|s| - 1]] == s[k + 1..];
        assert |front| <= k ==> front + [s[|s| - 1]] == s;
        rest + [s[|s| - 1]]
  }
}
