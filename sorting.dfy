/** Sorting of integer vectors, standing in for std::sort with std::less, and
    counting facts about sorted vectors used by the coverage sweep. */
module Sorting {

  ghost predicate Sorted(s: seq<int>)
  {
    forall i, j :: 0 <= i < j < |s| ==> s[i] <= s[j]
  }

  /** Inserts x before the first element that is not smaller. */
  function Insert(x: int, s: seq<int>): (r: seq<int>)
    ensures multiset(r) == multiset(s) + multiset{x}
    ensures |r| == |s| + 1 && r[0] == if s == [] || x <= s[0] then x else s[0]
  {
    if s == [] || x <= s[0] then [x] + s
    else
      assert s == [s[0]] + s[1..];
      [s[0]] + Insert(x, s[1..])
  }

  /** Inserting into a sorted vector keeps it sorted. */
  lemma {:induction false} InsertSorted(x: int, s: seq<int>)
    requires Sorted(s)
    ensures Sorted(Insert(x, s))
  {
    if s != [] && x > s[0] {
      var t := Insert(x, s[1..]);
      InsertSorted(x, s[1..]);
      assert Sorted([s[0]] + t) by {
        forall i, j | 0 <= i < j < |t| + 1
          ensures ([s[0]] + t)[i] <= ([s[0]] + t)[j]
        {
          if i == 0 && j > 1 {
            assert t[0] <= t[j - 1];
          }
        }
      }
    }
  }

  /** The elements of s in nondecreasing order. */
  function Sort(s: seq<int>): (r: seq<int>)
    ensures Sorted(r)
    ensures multiset(r) == multiset(s) && |r| == |s|
  {
    if s == [] then []
    else
      assert s == [s[0]] + s[1..];
      InsertSorted(s[0], Sort(s[1..]));
      Insert(s[0], Sort(s[1..]))
  }

  /** Sorting keeps the elements within any bounds the input respects. */
  lemma {:induction false} SortBounded(s: seq<int>, lo: int, hi: int)
    requires forall i :: 0 <= i < |s| ==> lo <= s[i] <= hi
    ensures forall k :: 0 <= k < |Sort(s)| ==> lo <= Sort(s)[k] <= hi
  {
    var r := Sort(s);
    forall k | 0 <= k < |r|
      ensures lo <= r[k] <= hi
    {
      assert r[k] in multiset(r);
      assert r[k] in multiset(s);
      var j :| 0 <= j < |s| && s[j] == r[k];
    }
  }

  /** The number of elements of s that are at most x. */
  function CountLe(s: seq<int>, x: int): (c: nat)
    ensures c <= |s|
  {
    if s == [] then 0 else (if s[0] <= x then 1 else 0) + CountLe(s[1..], x)
  }

  lemma {:induction false} CountLeInsert(y: int, s: seq<int>, x: int)
    ensures CountLe(Insert(y, s), x) == CountLe(s, x) + (if y <= x then 1 else 0)
  {
    if s == [] || y <= s[0] {
      assert ([y] + s)[1..] == s;
    } else {
      assert ([s[0]] + Insert(y, s[1..]))[1..] == Insert(y, s[1..]);
      CountLeInsert(y, s[1..], x);
    }
  }

  /** Sorting does not change how many elements are at most x. */
  lemma {:induction false} CountLeSort(s: seq<int>, x: int)
    ensures CountLe(Sort(s), x) == CountLe(s, x)
  {
    if s != [] {
      CountLeSort(s[1..], x);
      CountLeInsert(s[0], Sort(s[1..]), x);
    }
  }

  /** In a sorted vector at least k + 1 elements are at most s[k]. */
  lemma {:induction false} CountLeSortedAtLeast(s: seq<int>, k: nat, x: int)
    requires Sorted(s) && k < |s| && s[k] <= x
    ensures CountLe(s, x) >= k + 1
  {
    if k > 0 {
      CountLeSortedAtLeast(s[1..], k - 1, x);
    }
  }

  /** In a sorted vector whose element k exceeds x at most k elements are at
      most x. */
  lemma {:induction false} CountLeSortedAtMost(s: seq<int>, k: nat, x: int)
    requires Sorted(s) && k < |s| && s[k] > x
    ensures CountLe(s, x) <= k
  {
    if k > 0 {
      CountLeSortedAtMost(s[1..], k - 1, x);
    } else if |s| > 1 {
      CountLeSortedAtMost(s[1..], 0, x);
    }
  }
}
