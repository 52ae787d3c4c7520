/** Sequence helpers that the SQL queries are made of: `WHERE` is a filter,
    `ORDER BY created_at DESC` a reversal of a table kept in creation order,
    `LIMIT n` a prefix. */
module Seqs {

  function Filter<T>(s: seq<T>, p: T -> bool): (r: seq<T>)
    ensures |r| <= |s|
    ensures forall x :: x in r ==> x in s && p(x)
    ensures forall x :: x in s && p(x) ==> x in r
  {
    if s == [] then []
    else Filter(s[..|s| - 1], p) + (if p(s[|s| - 1]) then [s[|s| - 1]] else [])
  }

  function Reverse<T>(s: seq<T>): (r: seq<T>)
    ensures |r| == |s|
    ensures forall k :: 0 <= k < |s| ==> r[k] == s[|s| - 1 - k]
  {
    if s == [] then [] else [s[|s| - 1]] + Reverse(s[..|s| - 1])
  }

  function Take<T>(s: seq<T>, n: nat): (r: seq<T>)
    ensures |r| == if |s| <= n then |s| else n
    ensures |s| <= n ==> r == s
    ensures r == s[..|r|]
  {
    if |s| <= n then s else s[..n]
  }

  /** The `n` newest rows of a creation-ordered table, newest first. */
  function NewestFirst<T>(s: seq<T>, n: nat): (r: seq<T>)
    ensures |r| == if |s| <= n then |s| else n
    ensures forall k :: 0 <= k < |r| ==> r[k] == s[|s| - 1 - k]
  {
    Take(Reverse(s), n)
  }

  /** One result per row, in the rows' order (a row-by-row `while
      (query.next())` that builds a value from each row). */
  function Map<A, B>(s: seq<A>, f: A -> B): (r: seq<B>)
    ensures |r| == |s|
    ensures forall k :: 0 <= k < |s| ==> r[k] == f(s[k])
  {
    if s == [] then [] else Map(s[..|s| - 1], f) + [f(s[|s| - 1])]
  }

  /** Taking one more row appends its result. */
  lemma MapSnoc<A, B>(s: seq<A>, k: nat, f: A -> B)
    requires k < |s|
    ensures Map(s[..k + 1], f) == Map(s[..k], f) + [f(s[k])]
  {
    assert s[..k + 1][..k] == s[..k];
  }

  /** A `WHERE` over a table with one more row. */
  lemma FilterAppend<T>(s: seq<T>, x: T, p: T -> bool)
    ensures Filter(s + [x], p) == Filter(s, p) + (if p(x) then [x] else [])
  {
    assert (s + [x])[..|s|] == s;
  }

  /** A `WHERE` that no row satisfies selects nothing. */
  lemma {:induction false} FilterNone<T>(s: seq<T>, p: T -> bool)
    requires forall k :: 0 <= k < |s| ==> !p(s[k])
    ensures Filter(s, p) == []
  {
    if s != [] {
      FilterNone(s[..|s| - 1], p);
    }
  }
}
