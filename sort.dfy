/** The numeric `sort((a, b) => a - b)` the merge finder applies to each group of cell
    indices, as an insertion sort: the result is ordered and a permutation of the input. */
module Sorting {

  ghost predicate NonDecreasing(s: seq<nat>)
  {
    forall a, b :: 0 <= a < b < |s| ==> s[a] <= s[b]
  }

  ghost predicate Ascending(s: seq<nat>)
  {
    forall a, b :: 0 <= a < b < |s| ==> s[a] < s[b]
  }

  ghost predicate Distinct(s: seq<nat>)
  {
    forall a, b :: 0 <= a < b < |s| ==> s[a] != s[b]
  }

  function Insert(x: nat, s: seq<nat>): (r: seq<nat>)
    requires NonDecreasing(s)
    ensures NonDecreasing(r)
    ensures multiset(r) == multiset(s) + multiset{x}
  {
    if s == [] || x <= s[0] then
      ConsSorted(x, s);
      [x] + s
    else
      var t := Insert(x, s[1..]);
      assert s == [s[0]] + s[1..];
      LowerBound(s[0], t, s[1..], x);
      ConsSorted(s[0], t);
      [s[0]] + t
  }

  /** Putting a lower bound in front of an ordered list keeps it ordered. */
  lemma ConsSorted(x: nat, s: seq<nat>)
    requires NonDecreasing(s) && forall k :: 0 <= k < |s| ==> x <= s[k]
    ensures NonDecreasing([x] + s)
  {
    var r := [x] + s;
    forall a, b | 0 <= a < b < |r|
      ensures r[a] <= r[b]
    {
      if a > 0 {
        assert r[a] == s[a - 1] && r[b] == s[b - 1];
      }
    }
  }

  /** A list with the members of `rest` and `x`, all at least b, has only members at least b. */
  lemma LowerBound(b: nat, t: seq<nat>, rest: seq<nat>, x: nat)
    requires b <= x && forall k :: 0 <= k < |rest| ==> b <= rest[k]
    requires multiset(t) == multiset(rest) + multiset{x}
    ensures forall k :: 0 <= k < |t| ==> b <= t[k]
  {
    forall k | 0 <= k < |t|
      ensures b <= t[k]
    {
      assert t[k] in multiset(t);
      if t[k] != x {
        assert t[k] in multiset(rest);
        assert t[k] in rest;
      }
    }
  }

  /** Sort: ordered, and the same multiset of indices. */
  function Sort(s: seq<nat>): (r: seq<nat>)
    ensures NonDecreasing(r)
    ensures multiset(r) == multiset(s)
  {
    if s == [] then []
    else
      assert s == [s[0]] + s[1..];
      Insert(s[0], Sort(s[1..]))
  }

  lemma {:induction false} InsertAscending(x: nat, s: seq<nat>)
    requires Ascending(s) && x !in s
    ensures Ascending(Insert(x, s))
  {
    if s != [] && x > s[0] {
      InsertAscending(x, s[1..]);
      var t := Insert(x, s[1..]);
      forall k | 0 <= k < |t|
        ensures s[0] < t[k]
      {
        assert t[k] in multiset(s[1..]) + multiset{x};
        if t[k] != x {
          assert t[k] in s[1..];
        }
      }
    }
  }

  /** Sorting indices that are pairwise different gives a strictly ascending list. */
  lemma {:induction false} SortDistinct(s: seq<nat>)
    requires Distinct(s)
    ensures Ascending(Sort(s))
    ensures |Sort(s)| == |s|
    ensures forall x :: x in Sort(s) <==> x in s
  {
    var r := Sort(s);
    assert |r| == |multiset(r)| == |multiset(s)| == |s|;
    forall x
      ensures x in r <==> x in s
    {
      assert x in r <==> x in multiset(r);
    }
    if s != [] {
      SortDistinct(s[1..]);
      assert s[0] !in s[1..];
      InsertAscending(s[0], Sort(s[1..]));
    }
  }

  /** The indices a list holds. */
  function Members(s: seq<nat>): (m: set<nat>)
    ensures forall x :: x in m <==> x in s
  {
    set x | x in s
  }

  /** A list without repetitions has as many members as entries. */
  lemma {:induction false} DistinctCardinality(s: seq<nat>)
    requires Distinct(s)
    ensures |Members(s)| == |s|
  {
    if s != [] {
      var k := |s| - 1;
      var front := s[..k];
      assert Distinct(front);
      DistinctCardinality(front);
      assert s == front + [s[k]];
      assert Members(s) == Members(front) + {s[k]};
    }
  }

  lemma DistinctAppend(s: seq<nat>, x: nat)
    requires Distinct(s) && x !in s
    ensures Distinct(s + [x])
  {
    var t := s + [x];
    forall a, b | 0 <= a < b < |t|
      ensures t[a] != t[b]
    {
      if b == |s| {
        assert t[a] == s[a];
      }
    }
  }

  lemma DistinctTail(s: seq<nat>)
    requires Distinct(s) && s != []
    ensures Distinct(s[1..]) && s[0] !in s[1..]
  {
  }

  /** Removing the entry at position k (Array.prototype.splice(k, 1)) from a list without
      repetitions removes exactly that member. */
  lemma DistinctRemove(s: seq<nat>, k: nat)
    requires Distinct(s) && k < |s|
    ensures Distinct(s[..k] + s[k + 1..])
    ensures forall x :: x in s[..k] + s[k + 1..] <==> x in s && x != s[k]
    ensures |s[..k] + s[k + 1..]| == |s| - 1
  {
    var t := s[..k] + s[k + 1..];
    assert forall j :: 0 <= j < |t| ==> t[j] == if j < k then s[j] else s[j + 1];
    forall x | x in s && x != s[k]
      ensures x in t
    {
      var p :| 0 <= p < |s| && s[p] == x;
      if p < k {
        assert t[p] == x;
      } else {
        assert t[p - 1] == x;
      }
    }
  }
}
