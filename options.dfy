/** The optional value used wherever the system returns `std::optional` or a
    query that may find no row. */
module Options {

  datatype Option<+T> = None | Some(value: T)

  /** Index of the first element of `s` satisfying `p` (a `LIMIT 1` over rows
      in table order). */
  function FirstIndex<T>(s: seq<T>, p: T -> bool): (r: Option<nat>)
    ensures r.Some? ==> r.value < |s| && p(s[r.value])
    ensures r.Some? ==> forall k :: 0 <= k < r.value ==> !p(s[k])
    ensures r.None? <==> forall k :: 0 <= k < |s| ==> !p(s[k])
  {
    if s == [] then None
    else if p(s[0]) then Some(0)
    else match FirstIndex(s[1..], p)
      case None => None
      case Some(i) => Some(i + 1)
  }

  /** Index of the last element of `s` satisfying `p` (an `ORDER BY created_at
      DESC LIMIT 1` when rows are kept in creation order). */
  function LastIndex<T>(s: seq<T>, p: T -> bool): (r: Option<nat>)
    ensures r.Some? ==> r.value < |s| && p(s[r.value])
    ensures r.Some? ==> forall k :: r.value < k < |s| ==> !p(s[k])
    ensures r.None? <==> forall k :: 0 <= k < |s| ==> !p(s[k])
  {
    if s == [] then None
    else if p(s[|s| - 1]) then Some(|s| - 1)
    else LastIndex(s[..|s| - 1], p)
  }
}
