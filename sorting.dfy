/**
 * The ascending numeric sort that the optimal-time calculator applies to the
 * crossing times, given as an insertion sort on
 * sequences together with the facts the calculator relies on: the output is
 * sorted, it is a permutation of the input, and it is the only sorted
 * permutation, so it depends on the multiset of the input alone.
 */
module Sorting {

  predicate IsSorted(s: seq<int>) {
    forall i, j :: 0 <= i < j < |s| ==> s[i] <= s[j]
  }

  /** Putting a value no larger than the head in front keeps a sequence sorted. */
  lemma ConsSorted(h: int, s: seq<int>)
    requires IsSorted(s)
    requires s != [] ==> h <= s[0]
    ensures IsSorted([h] + s)
  {
    forall i, j | 0 <= i < j < |s| + 1 ensures ([h] + s)[i] <= ([h] + s)[j] {
      if i == 0 && j > 1 { assert s[0] <= s[j - 1]; }
    }
  }

  /** Inserts `x` into the sorted sequence `s`, before the first element not smaller. */
  function Insert(x: int, s: seq<int>): (r: seq<int>)
    requires IsSorted(s)
    ensures IsSorted(r)
    ensures multiset(r) == multiset(s) + multiset{x}
    ensures r[0] == x || (s != [] && r[0] == s[0])
  {
    if s == [] || x <= s[0] then
      ConsSorted(x, s);
      [x] + s
    else
      var rest := Insert(x, s[1..]);
      ConsSorted(s[0], rest);
      assert s == [s[0]] + s[1..];
      [s[0]] + rest
  }

  function SortAscending(s: seq<int>): (r: seq<int>)
    ensures IsSorted(r)
    ensures multiset(r) == multiset(s)
  {
    if s == [] then []
    else
      assert s == [s[0]] + s[1..];
      Insert(s[0], SortAscending(s[1..]))
  }

  lemma HeadIsLeast(a: seq<int>, x: int)
    requires IsSorted(a) && x in multiset(a)
    ensures a[0] <= x
  {
    var i :| 0 <= i < |a| && a[i] == x;
  }

  lemma SortedTail(a: seq<int>)
    requires IsSorted(a) && a != []
    ensures IsSorted(a[1..])
  {
  }

  lemma DropHead(a: seq<int>)
    requires a != []
    ensures multiset(a[1..]) == multiset(a) - multiset{a[0]}
  {
    assert a == [a[0]] + a[1..];
  }

  /** Two non-empty sorted sequences with the same multiset share their head, and so the multiset of their tails. */
  lemma SameHead(a: seq<int>, b: seq<int>)
    requires IsSorted(a) && IsSorted(b) && a != []
    requires multiset(a) == multiset(b)
    ensures b != [] && a[0] == b[0]
    ensures multiset(a[1..]) == multiset(b[1..])
  {
    assert a[0] in multiset(b);
    HeadIsLeast(b, a[0]);
    HeadIsLeast(a, b[0]);
    DropHead(a);
    DropHead(b);
  }

  /** Two sorted sequences holding the same multiset of values are equal. */
  lemma {:induction false} SortedUnique(a: seq<int>, b: seq<int>)
    requires IsSorted(a) && IsSorted(b)
    requires multiset(a) == multiset(b)
    ensures a == b
  {
    if a == [] {
      assert |b| == |multiset(b)| == 0;
    } else {
      SameHead(a, b);
      SortedTail(a);
      SortedTail(b);
      SortedUnique(a[1..], b[1..]);
      assert a == [a[0]] + a[1..];
      assert b == [b[0]] + b[1..];
    }
  }

  /** Sorting changes nothing in an already sorted sequence. */
  lemma SortOfSorted(s: seq<int>)
    requires IsSorted(s)
    ensures SortAscending(s) == s
  {
    SortedUnique(SortAscending(s), s);
  }

  /** Sorting gives equal results exactly when the inputs are permutations of each other. */
  lemma SortDependsOnMultisetOnly(a: seq<int>, b: seq<int>)
    ensures SortAscending(a) == SortAscending(b) <==> multiset(a) == multiset(b)
  {
    if multiset(a) == multiset(b) {
      SortedUnique(SortAscending(a), SortAscending(b));
    }
  }

  /** Appending a value at least as large as every element appends it to the sorted result. */
  lemma SortAppendLargest(s: seq<int>, x: int)
    requires forall y :: y in s ==> y <= x
    ensures SortAscending(s + [x]) == SortAscending(s) + [x]
  {
    var t := SortAscending(s);
    forall i | 0 <= i < |t| ensures t[i] <= x {
      assert t[i] in multiset(t);
      assert t[i] in s;
    }
    assert multiset(t + [x]) == multiset(s + [x]);
    SortedUnique(SortAscending(s + [x]), t + [x]);
  }
}
