/** Searching a sequence for its first element that satisfies a test. */
module SeqSearch {
  import opened Wrappers

  /** The index of the first element of `s` that satisfies `p`, or None when
      no element does. Both the page lookup and the scan of a note's children
      for its text label stop at the first match. */
  function IndexOfFirst<T>(s: seq<T>, p: T -> bool): (r: Option<nat>)
    ensures r.Some? ==> r.value < |s| && p(s[r.value])
    ensures r.Some? ==> forall j :: 0 <= j < r.value ==> !p(s[j])
    ensures r.None? <==> forall j :: 0 <= j < |s| ==> !p(s[j])
  {
    if |s| == 0 then None
    else if p(s[0]) then Some(0)
    else
      match IndexOfFirst(s[1..], p)
      case None => None
      case Some(k) => Some(k + 1)
  }
}
