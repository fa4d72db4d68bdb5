/**
 * Go's ordering of strings (`a < b`, byte-wise lexicographic; for the characters modelled this
 * is the lexicographic order of code points) and `sort.Strings`.
 */
module GoSort {

  /** Go's `a < b` on strings. */
  predicate Less(a: string, b: string)
    decreases |a|
  {
    if |a| == 0 then |b| > 0
    else if |b| == 0 then false
    else a[0] < b[0] || (a[0] == b[0] && Less(a[1..], b[1..]))
  }

  lemma {:induction false} LessIrreflexive(a: string)
    ensures !Less(a, a)
    decreases |a|
  {
    if |a| > 0 {
      LessIrreflexive(a[1..]);
    }
  }

  lemma {:induction false} LessTransitive(a: string, b: string, c: string)
    requires Less(a, b) && Less(b, c)
    ensures Less(a, c)
    decreases |a|
  {
    if |a| > 0 && |b| > 0 && |c| > 0 && a[0] == b[0] == c[0] {
      LessTransitive(a[1..], b[1..], c[1..]);
    }
  }

  lemma {:induction false} LessTotal(a: string, b: string)
    ensures a == b || Less(a, b) || Less(b, a)
    decreases |a|
  {
    if |a| > 0 && |b| > 0 && a[0] == b[0] {
      LessTotal(a[1..], b[1..]);
      if a[1..] == b[1..] {
        assert a == [a[0]] + a[1..] && b == [b[0]] + b[1..];
      }
    }
  }

  lemma LessAsymmetric(a: string, b: string)
    requires Less(a, b)
    ensures !Less(b, a)
  {
    if Less(b, a) {
      LessTransitive(a, b, a);
      LessIrreflexive(a);
    }
  }

  /** `!(b < a)`: the order `sort.Strings` establishes between neighbours. */
  predicate LessEq(a: string, b: string)
  {
    !Less(b, a)
  }

  lemma LessEqTransitive(a: string, b: string, c: string)
    requires LessEq(a, b) && LessEq(b, c)
    ensures LessEq(a, c)
  {
    LessTotal(a, b);
    LessTotal(b, c);
    if Less(c, a) {
      if a == b {
      } else if b == c {
      } else {
        LessTransitive(a, b, c);
        LessAsymmetric(a, c);
      }
    }
  }

  predicate Sorted(s: seq<string>)
  {
    forall i, j :: 0 <= i < j < |s| ==> LessEq(s[i], s[j])
  }

  predicate StrictlySorted(s: seq<string>)
  {
    forall i, j :: 0 <= i < j < |s| ==> Less(s[i], s[j])
  }

  /** Inserts `x` into a sorted sequence before the first element not smaller than it. */
  method InsertSorted(r: seq<string>, x: string) returns (t: seq<string>)
    requires Sorted(r)
    ensures Sorted(t) && multiset(t) == multiset(r) + multiset{x}
  {
    var p := 0;
    while p < |r| && Less(r[p], x)
      invariant 0 <= p <= |r|
      invariant forall k :: 0 <= k < p ==> Less(r[k], x)
    {
      p := p + 1;
    }
    t := r[..p] + [x] + r[p..];
    assert r == r[..p] + r[p..];
    InsertKeepsSorted(r, p, x);
  }

  /** Putting `x` before the first element not smaller than it keeps a sorted sequence sorted. */
  lemma InsertKeepsSorted(r: seq<string>, p: nat, x: string)
    requires Sorted(r) && p <= |r|
    requires forall k :: 0 <= k < p ==> Less(r[k], x)
    requires p == |r| || !Less(r[p], x)
    ensures Sorted(r[..p] + [x] + r[p..])
  {
    var t := r[..p] + [x] + r[p..];
    forall i, j | 0 <= i < j < |t| ensures LessEq(t[i], t[j]) {
      if j < p {
        assert t[i] == r[i] && t[j] == r[j];
      } else if j == p {
        assert t[i] == r[i];
        LessAsymmetric(r[i], x);
      } else if i == p {
        assert t[j] == r[j - 1];
        if j - 1 > p {
          assert LessEq(r[p], r[j - 1]);
          LessEqTransitive(x, r[p], r[j - 1]);
        }
      } else if i < p {
        assert t[i] == r[i] && t[j] == r[j - 1];
      } else {
        assert t[i] == r[i - 1] && t[j] == r[j - 1];
      }
    }
  }

  /** sort.Strings: sorts into non-decreasing order, keeping every element. */
  method SortStrings(a: seq<string>) returns (r: seq<string>)
    ensures Sorted(r) && multiset(r) == multiset(a)
  {
    r := [];
    var i := 0;
    while i < |a|
      invariant 0 <= i <= |a|
      invariant Sorted(r) && multiset(r) == multiset(a[..i])
    {
      r := InsertSorted(r, a[i]);
      assert a[..i + 1] == a[..i] + [a[i]];
      i := i + 1;
    }
    assert a[..i] == a;
  }

  /** A sorted sequence without repeated elements is strictly increasing. */
  lemma SortedDistinct(s: seq<string>)
    requires Sorted(s)
    requires forall i, j :: 0 <= i < j < |s| ==> s[i] != s[j]
    ensures StrictlySorted(s)
  {
    forall i, j | 0 <= i < j < |s| ensures Less(s[i], s[j]) {
      LessTotal(s[i], s[j]);
    }
  }

  /** Two strictly increasing sequences with the same elements are equal. */
  lemma {:induction false} StrictlySortedUnique(a: seq<string>, b: seq<string>)
    requires StrictlySorted(a) && StrictlySorted(b)
    requires forall x :: x in a <==> x in b
    ensures a == b
    decreases |a|
  {
    if |a| > 0 { assert a[0] in a; }
    if |b| > 0 { assert b[0] in b; }
    if |a| > 0 && |b| > 0 {
      assert a[0] in b;
      assert b[0] in a;
      if a[0] != b[0] {
        var i :| 0 <= i < |b| && b[i] == a[0];
        var j :| 0 <= j < |a| && a[j] == b[0];
        assert i > 0 && j > 0;
        assert Less(b[0], a[0]) && Less(a[0], b[0]);
        LessAsymmetric(a[0], b[0]);
      }
      forall x ensures x in a[1..] <==> x in b[1..] {
        if x in a[1..] {
          var k :| 1 <= k < |a| && a[k] == x;
          assert Less(a[0], x);
          LessIrreflexive(x);
          assert x in b && x != b[0];
          var l :| 0 <= l < |b| && b[l] == x;
          assert l > 0;
          assert b[1..][l - 1] == x;
        }
        if x in b[1..] {
          var k :| 1 <= k < |b| && b[k] == x;
          assert Less(b[0], x);
          LessIrreflexive(x);
          assert x in a && x != a[0];
          var l :| 0 <= l < |a| && a[l] == x;
          assert l > 0;
          assert a[1..][l - 1] == x;
        }
      }
      StrictlySortedUnique(a[1..], b[1..]);
      assert a == [a[0]] + a[1..] && b == [b[0]] + b[1..];
    }
  }

  predicate IsMinimum(m: string, s: set<string>)
  {
    m in s && forall x :: x in s ==> LessEq(m, x)
  }

  lemma {:induction false} MinimumExists(s: set<string>)
    requires s != {}
    ensures exists m :: IsMinimum(m, s)
    decreases s
  {
    var y :| y in s;
    if s - {y} == {} {
      assert s == {y};
      LessIrreflexive(y);
      assert IsMinimum(y, s);
    } else {
      MinimumExists(s - {y});
      var m :| IsMinimum(m, s - {y});
      if Less(y, m) {
        forall x | x in s ensures LessEq(y, x) {
          if x == y {
            LessIrreflexive(y);
          } else if Less(x, y) {
            assert LessEq(m, x);
            LessTransitive(x, y, m);
          }
        }
        assert IsMinimum(y, s);
      } else {
        assert IsMinimum(m, s);
      }
    }
  }

  /** The elements of a set in increasing order: what sorting them in any enumeration order yields. */
  ghost function SortedElements(s: set<string>): (r: seq<string>)
    ensures StrictlySorted(r) && forall x :: x in r <==> x in s
    decreases s
  {
    if s == {} then []
    else
      MinimumExists(s);
      var m :| IsMinimum(m, s);
      var rest := SortedElements(s - {m});
      assert forall k :: 0 <= k < |rest| ==> Less(m, rest[k]) by {
        forall k | 0 <= k < |rest| ensures Less(m, rest[k]) {
          assert rest[k] in s - {m};
          LessTotal(m, rest[k]);
        }
      }
      [m] + rest
  }
}
