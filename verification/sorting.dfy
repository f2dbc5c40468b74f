/** Sorting day numbers newest first, as `Array.prototype.sort` does with the comparator
    `(a, b) => b - a`. */
module Sorting {

  predicate SortedDesc(s: seq<int>) {
    forall i, j :: 0 <= i < j < |s| ==> s[i] >= s[j]
  }

  /** The largest element of a non-empty sequence. */
  function Latest(s: seq<int>): (m: int)
    requires |s| > 0
    ensures m in s
    ensures forall i :: 0 <= i < |s| ==> s[i] <= m
  {
    if |s| == 1 then s[0]
    else if s[0] >= Latest(s[1..]) then s[0]
    else Latest(s[1..])
  }

  function Insert(x: int, s: seq<int>): (r: seq<int>)
    requires SortedDesc(s)
    ensures |r| == |s| + 1
    ensures SortedDesc(r)
    ensures multiset(r) == multiset(s) + multiset{x}
  {
    if |s| == 0 then [x]
    else if x >= s[0] then
      PrependSorted(x, s);
      [x] + s
    else
      var t := Insert(x, s[1..]);
      InsertBelowHead(x, s, t);
      [s[0]] + t
  }

  /** A number at least as new as the head of a sorted sequence can go in front. */
  lemma PrependSorted(x: int, s: seq<int>)
    requires SortedDesc(s)
    requires |s| > 0 ==> x >= s[0]
    ensures SortedDesc([x] + s)
  {
    var r := [x] + s;
    assert forall k :: 0 < k < |r| ==> r[k] == s[k - 1];
  }

  /** The step of `Insert` that keeps the head and inserts into the rest. */
  lemma InsertBelowHead(x: int, s: seq<int>, t: seq<int>)
    requires SortedDesc(s) && |s| > 0 && x < s[0]
    requires SortedDesc(t) && multiset(t) == multiset(s[1..]) + multiset{x}
    ensures SortedDesc([s[0]] + t)
    ensures multiset([s[0]] + t) == multiset(s) + multiset{x}
  {
    assert s == [s[0]] + s[1..];
    forall k | 0 <= k < |t|
      ensures t[k] <= s[0]
    {
      assert t[k] in multiset(t);
      if t[k] != x {
        assert t[k] in s[1..];
      }
    }
    PrependSorted(s[0], t);
  }

  /** Insertion sort, newest first. */
  function SortDesc(s: seq<int>): (r: seq<int>)
    ensures SortedDesc(r)
    ensures multiset(r) == multiset(s)
  {
    if |s| == 0 then []
    else
      assert s == s[..|s| - 1] + [s[|s| - 1]];
      Insert(s[|s| - 1], SortDesc(s[..|s| - 1]))
  }

  /** Only one arrangement of a multiset of numbers is sorted newest first, so every
      correct sort, stable or not, returns what `SortDesc` returns. */
  lemma {:induction false} SortedUnique(a: seq<int>, b: seq<int>)
    requires SortedDesc(a) && SortedDesc(b)
    requires multiset(a) == multiset(b)
    ensures a == b
    decreases |a|
  {
    if |a| > 0 {
      assert |b| == |a| by {
        assert |multiset(a)| == |multiset(b)|;
      }
      assert a[0] in multiset(b);
      assert b[0] in multiset(a);
      assert a[0] == b[0];
      assert a == [a[0]] + a[1..];
      assert b == [b[0]] + b[1..];
      assert multiset(a) == multiset{a[0]} + multiset(a[1..]);
      assert multiset(b) == multiset{b[0]} + multiset(b[1..]);
      assert multiset(a[1..]) == multiset(a) - multiset{a[0]};
      assert multiset(b[1..]) == multiset(b) - multiset{b[0]};
      SortedUnique(a[1..], b[1..]);
    }
  }

  /** Any arrangement of `s` sorted newest first has as many elements as `s` and is
      headed by its newest element. */
  lemma SortedHead(s: seq<int>, sorted: seq<int>)
    requires |s| > 0
    requires SortedDesc(sorted) && multiset(sorted) == multiset(s)
    ensures |sorted| == |s|
    ensures sorted[0] == Latest(s)
  {
    assert |multiset(sorted)| == |multiset(s)|;
    assert sorted[0] in multiset(s);
    assert Latest(s) in multiset(sorted);
  }
}
