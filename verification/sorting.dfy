/** `sort_by_key` on a list of (temperature, value) pairs: a stable sort by the
    temperature. Equal temperatures are allowed and keep their order. */
module Sorting {

  predicate SortedByKey<T>(s: seq<(int, T)>) {
    forall i, j :: 0 <= i < j < |s| ==> s[i].0 <= s[j].0
  }

  /** Places `x` after every element whose key is not greater than its own. */
  function InsertByKey<T(==)>(s: seq<(int, T)>, x: (int, T)): (r: seq<(int, T)>)
    requires SortedByKey(s)
    ensures SortedByKey(r)
    ensures multiset(r) == multiset(s) + multiset{x}
    ensures |r| == |s| + 1
    ensures r[0] == x || (|s| > 0 && r[0] == s[0])
  {
    if |s| == 0 then [x]
    else if x.0 < s[0].0 then [x] + s
    else
      var rest := InsertByKey(s[1..], x);
      assert s == [s[0]] + s[1..];
      assert s[0].0 <= rest[0].0;
      [s[0]] + rest
  }

  /** Sorts by key; the result holds the same pairs, each as often. */
  function SortByKey<T(==)>(s: seq<(int, T)>): (r: seq<(int, T)>)
    ensures SortedByKey(r)
    ensures multiset(r) == multiset(s)
    ensures |r| == |s|
  {
    if |s| == 0 then []
    else
      assert s == s[..|s| - 1] + [s[|s| - 1]];
      InsertByKey(SortByKey(s[..|s| - 1]), s[|s| - 1])
  }

  /** A list that is already sorted is left as it is. */
  lemma {:induction false} SortSortedIsIdentity<T>(s: seq<(int, T)>)
    requires SortedByKey(s)
    ensures SortByKey(s) == s
  {
    if |s| > 0 {
      var init := s[..|s| - 1];
      assert SortedByKey(init);
      SortSortedIsIdentity(init);
      InsertAtEnd(init, s[|s| - 1]);
      assert init + [s[|s| - 1]] == s;
    }
  }

  /** An element whose key is not below any key of a sorted list goes last. */
  lemma {:induction false} InsertAtEnd<T>(s: seq<(int, T)>, x: (int, T))
    requires SortedByKey(s)
    requires forall i :: 0 <= i < |s| ==> s[i].0 <= x.0
    ensures InsertByKey(s, x) == s + [x]
  {
    if |s| > 0 {
      assert SortedByKey(s[1..]);
      InsertAtEnd(s[1..], x);
      assert s == [s[0]] + s[1..];
    }
  }
}
