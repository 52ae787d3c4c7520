/** SQLite's BINARY collation (code-point order, a proper prefix first) and
    the `ORDER BY name` sort built on it. */
module Collation {

  /** `a` sorts no later than `b`. */
  predicate LexLe(a: string, b: string)
    decreases |a|
  {
    a == [] || (b != [] && (a[0] < b[0] || (a[0] == b[0] && LexLe(a[1..], b[1..]))))
  }

  lemma {:induction false} LexLeTotal(a: string, b: string)
    ensures LexLe(a, b) || LexLe(b, a)
    decreases |a|
  {
    if a != [] && b != [] && a[0] == b[0] {
      LexLeTotal(a[1..], b[1..]);
    }
  }

  lemma {:induction false} LexLeTransitive(a: string, b: string, c: string)
    requires LexLe(a, b) && LexLe(b, c)
    ensures LexLe(a, c)
    decreases |a|
  {
    if a != [] && b != [] && c != [] && a[0] == b[0] == c[0] {
      LexLeTransitive(a[1..], b[1..], c[1..]);
    }
  }

  predicate SortedBy<T>(s: seq<T>, key: T -> string) {
    forall i, j :: 0 <= i < j < |s| ==> LexLe(key(s[i]), key(s[j]))
  }

  /** Places `x` before the first element that does not sort before it. */
  function InsertSorted<T>(s: seq<T>, x: T, key: T -> string): seq<T>
    decreases |s|
  {
    if s == [] || LexLe(key(x), key(s[0])) then [x] + s
    else [s[0]] + InsertSorted(s[1..], x, key)
  }

  lemma {:induction false} InsertSortedProperties<T>(s: seq<T>, x: T, key: T -> string)
    requires SortedBy(s, key)
    ensures SortedBy(InsertSorted(s, x, key), key)
    ensures multiset(InsertSorted(s, x, key)) == multiset(s) + multiset{x}
    decreases |s|
  {
    var r := InsertSorted(s, x, key);
    if s == [] {
    } else if LexLe(key(x), key(s[0])) {
      forall j | 1 <= j < |r| ensures LexLe(key(r[0]), key(r[j])) {
        if j > 1 { LexLeTransitive(key(x), key(s[0]), key(s[j - 1])); }
      }
    } else {
      var tail := s[1..];
      InsertSortedProperties(tail, x, key);
      var r' := InsertSorted(tail, x, key);
      assert r == [s[0]] + r';
      assert s == [s[0]] + tail;
      LexLeTotal(key(x), key(s[0]));
      forall j | 0 <= j < |r'| ensures LexLe(key(s[0]), key(r'[j])) {
        assert r'[j] in multiset(r');
        if r'[j] != x {
          assert r'[j] in multiset(tail);
          var i :| 0 <= i < |tail| && tail[i] == r'[j];
          assert tail[i] == s[i + 1];
        }
      }
    }
  }

  /** An insertion sort of `s` by `key`. */
  function SortBy<T>(s: seq<T>, key: T -> string): seq<T>
    decreases |s|
  {
    if s == [] then [] else InsertSorted(SortBy(s[..|s| - 1], key), s[|s| - 1], key)
  }

  /** `ORDER BY` really orders: the result is sorted by `key` and holds
      exactly the input's elements. */
  lemma {:induction false} SortByProperties<T>(s: seq<T>, key: T -> string)
    ensures SortedBy(SortBy(s, key), key)
    ensures multiset(SortBy(s, key)) == multiset(s)
    decreases |s|
  {
    if s != [] {
      SortByProperties(s[..|s| - 1], key);
      InsertSortedProperties(SortBy(s[..|s| - 1], key), s[|s| - 1], key);
      assert s == s[..|s| - 1] + [s[|s| - 1]];
    }
  }
}
