/** The two orderings the runner sorts by: distinct group numbers ascending, and
    image numbers by the tuple (group index, image number). */
module Sorting {

  ghost predicate StrictlyIncreasing(s: seq<int>) {
    forall i, j :: 0 <= i < j < |s| ==> s[i] < s[j]
  }

  /** Python's tuple order on `(index[a], a)` and `(index[b], b)`. */
  predicate IndexLe(index: map<int, int>, a: int, b: int) {
    a in index && b in index && (index[a] < index[b] || (index[a] == index[b] && a <= b))
  }

  ghost predicate SortedByIndex(s: seq<int>, index: map<int, int>) {
    forall i, j :: 0 <= i < j < |s| ==> IndexLe(index, s[i], s[j])
  }

  /** A value below every element of an increasing sequence may be put in front. */
  lemma ConsIncreasing(x: int, s: seq<int>)
    requires StrictlyIncreasing(s)
    requires forall j :: 0 <= j < |s| ==> x < s[j]
    ensures StrictlyIncreasing([x] + s)
  {
    var r := [x] + s;
    forall i, j | 0 <= i < j < |r| ensures r[i] < r[j] {
      assert r[j] == s[j - 1];
      if i > 0 {
        assert r[i] == s[i - 1];
      }
    }
  }

  function InsertDistinct(x: int, s: seq<int>): (r: seq<int>)
    requires StrictlyIncreasing(s)
    ensures StrictlyIncreasing(r)
    ensures forall y :: y in r <==> y == x || y in s
  {
    if |s| == 0 then [x]
    else if x < s[0] then
      ConsIncreasing(x, s);
      [x] + s
    else if x == s[0] then s
    else
      var rest := InsertDistinct(x, s[1..]);
      assert s == [s[0]] + s[1..];
      assert forall j :: 0 <= j < |rest| ==> s[0] < rest[j] by {
        forall j | 0 <= j < |rest| ensures s[0] < rest[j] {
          assert rest[j] in rest;
          if rest[j] != x {
            var k :| 0 <= k < |s[1..]| && s[1..][k] == rest[j];
            assert s[k + 1] == rest[j];
          }
        }
      }
      ConsIncreasing(s[0], rest);
      [s[0]] + rest
  }

  /** `sorted(set(s))`: each value of `s` once, ascending. */
  function SortDistinct(s: seq<int>): (r: seq<int>)
    ensures StrictlyIncreasing(r)
    ensures forall y :: y in r <==> y in s
  {
    if |s| == 0 then []
    else
      assert s == [s[0]] + s[1..];
      InsertDistinct(s[0], SortDistinct(s[1..]))
  }

  lemma IndexLeTransitive(index: map<int, int>, a: int, b: int, c: int)
    requires IndexLe(index, a, b) && IndexLe(index, b, c)
    ensures IndexLe(index, a, c)
  {
  }

  /** A value ordered before every element of a sorted sequence may be put in front. */
  lemma ConsSorted(x: int, s: seq<int>, index: map<int, int>)
    requires SortedByIndex(s, index)
    requires forall j :: 0 <= j < |s| ==> IndexLe(index, x, s[j])
    ensures SortedByIndex([x] + s, index)
  {
    var r := [x] + s;
    forall i, j | 0 <= i < j < |r| ensures IndexLe(index, r[i], r[j]) {
      assert r[j] == s[j - 1];
      if i > 0 {
        assert r[i] == s[i - 1];
      }
    }
  }

  /** The head of a sorted sequence is ordered before every element. */
  lemma HeadFirst(s: seq<int>, index: map<int, int>, j: int)
    requires SortedByIndex(s, index)
    requires |s| > 0 && s[0] in index
    requires 0 <= j < |s|
    ensures IndexLe(index, s[0], s[j])
  {
    if j > 0 {
      assert IndexLe(index, s[0], s[j]);
    }
  }

  function InsertByIndex(x: int, s: seq<int>, index: map<int, int>): (r: seq<int>)
    requires x in index
    requires SortedByIndex(s, index)
    requires forall y :: y in s ==> y in index
    ensures SortedByIndex(r, index)
    ensures multiset(r) == multiset(s) + multiset{x}
  {
    if |s| == 0 then [x]
    else if IndexLe(index, x, s[0]) then
      assert forall j :: 0 <= j < |s| ==> IndexLe(index, x, s[j]) by {
        forall j | 0 <= j < |s| ensures IndexLe(index, x, s[j]) {
          HeadFirst(s, index, j);
          IndexLeTransitive(index, x, s[0], s[j]);
        }
      }
      ConsSorted(x, s, index);
      [x] + s
    else
      assert s == [s[0]] + s[1..];
      var rest := InsertByIndex(x, s[1..], index);
      assert forall j :: 0 <= j < |rest| ==> IndexLe(index, s[0], rest[j]) by {
        forall j | 0 <= j < |rest| ensures IndexLe(index, s[0], rest[j]) {
          assert rest[j] in multiset(rest);
          if rest[j] != x {
            var k :| 0 <= k < |s[1..]| && s[1..][k] == rest[j];
            HeadFirst(s, index, k + 1);
          }
        }
      }
      ConsSorted(s[0], rest, index);
      [s[0]] + rest
  }

  /** `sorted` on the pairs `(index[n], n)`, keeping only the image numbers. */
  function SortByIndex(s: seq<int>, index: map<int, int>): (r: seq<int>)
    requires forall y :: y in s ==> y in index
    ensures SortedByIndex(r, index)
    ensures multiset(r) == multiset(s)
  {
    if |s| == 0 then []
    else
      assert s == [s[0]] + s[1..];
      var sorted := SortByIndex(s[1..], index);
      assert forall y :: y in sorted ==> y in index by {
        forall y | y in sorted ensures y in index {
          assert y in multiset(sorted);
        }
      }
      InsertByIndex(s[0], sorted, index)
  }
}
