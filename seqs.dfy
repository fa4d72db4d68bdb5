/** Filtering and partitioning lists, as the Go code does with loops that append the kept elements. */
module Seqs {

  /** Every element that is not `x`, in order. */
  function Without<T(==,!new)>(s: seq<T>, x: T): (r: seq<T>)
    ensures forall y :: y in r <==> y in s && y != x
    ensures |r| <= |s|
  {
    if |s| == 0 then []
    else
      var last := s[|s| - 1];
      Without(s[..|s| - 1], x) + (if last == x then [] else [last])
  }

  /** `Without` keeps the order: it distributes over concatenation. */
  lemma {:induction false} WithoutConcat<T(!new)>(a: seq<T>, b: seq<T>, x: T)
    ensures Without(a + b, x) == Without(a, x) + Without(b, x)
    decreases |b|
  {
    if |b| == 0 {
      assert a + b == a;
    } else {
      assert (a + b)[..|a + b| - 1] == a + b[..|b| - 1];
      WithoutConcat(a, b[..|b| - 1], x);
    }
  }

  /** Nothing changes when the value does not occur. */
  lemma {:induction false} WithoutAbsent<T(!new)>(s: seq<T>, x: T)
    requires x !in s
    ensures Without(s, x) == s
  {
    if |s| > 0 {
      WithoutAbsent(s[..|s| - 1], x);
      assert s == s[..|s| - 1] + [s[|s| - 1]];
    }
  }

  /** `f` applied to every element, in order. */
  function MapSeq<T, U>(s: seq<T>, f: T -> U): (r: seq<U>)
    ensures |r| == |s|
  {
    if |s| == 0 then [] else MapSeq(s[..|s| - 1], f) + [f(s[|s| - 1])]
  }

  lemma {:induction false} MapSeqAt<T, U>(s: seq<T>, f: T -> U)
    ensures forall i :: 0 <= i < |s| ==> MapSeq(s, f)[i] == f(s[i])
  {
    if |s| > 0 {
      var init := s[..|s| - 1];
      MapSeqAt(init, f);
      assert forall i :: 0 <= i < |init| ==> init[i] == s[i];
    }
  }

  /** The elements that `keep` accepts, in order. */
  function Filter<T>(s: seq<T>, keep: T -> bool): seq<T>
  {
    if |s| == 0 then [] else Filter(s[..|s| - 1], keep) + (if keep(s[|s| - 1]) then [s[|s| - 1]] else [])
  }

  /** A filter keeps each accepted element as often as it occurs, and nothing else. */
  lemma {:induction false} FilterContent<T>(s: seq<T>, keep: T -> bool)
    ensures forall x :: multiset(Filter(s, keep))[x] == if keep(x) then multiset(s)[x] else 0
  {
    if |s| > 0 {
      FilterContent(s[..|s| - 1], keep);
      assert s == s[..|s| - 1] + [s[|s| - 1]];
    }
  }

  lemma {:induction false} FilterAll<T>(s: seq<T>, keep: T -> bool)
    ensures forall i :: 0 <= i < |Filter(s, keep)| ==> keep(Filter(s, keep)[i])
  {
    if |s| > 0 {
      FilterAll(s[..|s| - 1], keep);
    }
  }

  /** Filtering a concatenation filters each part. */
  lemma {:induction false} FilterConcat<T>(a: seq<T>, b: seq<T>, keep: T -> bool)
    ensures Filter(a + b, keep) == Filter(a, keep) + Filter(b, keep)
  {
    if |b| > 0 {
      assert (a + b)[..|a + b| - 1] == a + b[..|b| - 1];
      FilterConcat(a, b[..|b| - 1], keep);
    } else {
      assert a + b == a;
    }
  }

  /** A filter that accepts every element keeps the list. */
  lemma {:induction false} FilterKeepsAll<T>(s: seq<T>, keep: T -> bool)
    requires forall i :: 0 <= i < |s| ==> keep(s[i])
    ensures Filter(s, keep) == s
  {
    if |s| > 0 {
      var p := s[..|s| - 1];
      assert forall i :: 0 <= i < |p| ==> p[i] == s[i];
      FilterKeepsAll(p, keep);
      assert s == p + [s[|s| - 1]];
    }
  }

  /** A filter that accepts no element empties the list. */
  lemma {:induction false} FilterDropsAll<T>(s: seq<T>, keep: T -> bool)
    requires forall i :: 0 <= i < |s| ==> !keep(s[i])
    ensures Filter(s, keep) == []
  {
    if |s| > 0 {
      var p := s[..|s| - 1];
      assert forall i :: 0 <= i < |p| ==> p[i] == s[i];
      FilterDropsAll(p, keep);
    }
  }

  /** Every element `first` accepts comes before every element it rejects. */
  predicate Partitioned<T(!new)>(s: seq<T>, first: T -> bool)
  {
    forall i, j :: 0 <= i < j < |s| && first(s[j]) ==> first(s[i])
  }

  /** A stable sort on the key `first`: the accepted elements, then the rest, each in their order. */
  function StablePartition<T(!new)>(s: seq<T>, first: T -> bool): seq<T>
  {
    Filter(s, first) + Filter(s, Negate(first))
  }

  function Negate<T(!new)>(p: T -> bool): (q: T -> bool)
    ensures forall x :: q(x) == !p(x)
  {
    x => !p(x)
  }

  /** A stable partition keeps every element, as often as it occurs. */
  lemma StablePartitionPermutes<T(!new)>(s: seq<T>, first: T -> bool)
    ensures multiset(StablePartition(s, first)) == multiset(s)
  {
    var a := Filter(s, first);
    var b := Filter(s, Negate(first));
    FilterContent(s, first);
    FilterContent(s, Negate(first));
    assert multiset(a + b) == multiset(a) + multiset(b);
    forall x ensures multiset(a + b)[x] == multiset(s)[x] {
    }
  }

  /** A stable partition puts the accepted elements first. */
  lemma StablePartitionOrders<T(!new)>(s: seq<T>, first: T -> bool)
    ensures Partitioned(StablePartition(s, first), first)
  {
    var a := Filter(s, first);
    var b := Filter(s, Negate(first));
    FilterAll(s, first);
    FilterAll(s, Negate(first));
    var r := a + b;
    assert forall k :: |a| <= k < |r| ==> r[k] == b[k - |a|];
  }
}
