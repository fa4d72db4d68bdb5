/**
 * The key de-duplication of the error logger in `pkg/log/emperror.go`. A log call carries a flat
 * list of alternating keys and values; before it is handed on, every later pair whose key is a
 * string already used by an earlier pair is spliced out, so the first pair for each key wins.
 * Keys that are not strings are never compared.
 */
module LogKeys {
  import opened Wrappers

  /** A logged key or value: a string, or any other value, told apart by an identity. */
  datatype Value = Str(s: string) | Other(id: int)

  /** The runtime error of a slice expression whose start lies past the end. */
  const SliceOutOfRange := "slice bounds out of range"

  /** The string keys kept so far, after the pair keyed by `x`. */
  function Next(seen: set<string>, x: Value): (r: set<string>)
    ensures seen <= r && (x.Str? ==> x.s in r)
  {
    if x.Str? then seen + {x.s} else seen
  }

  /**
   * The intended result: pairs are kept in order, except a pair whose string key is already in
   * `seen` (a key kept before it); a dangling last key that repeats a kept key goes as well.
   */
  function Uniq(s: seq<Value>, seen: set<string>): (r: seq<Value>)
    ensures |r| <= |s|
    decreases |s|
  {
    if |s| == 0 then []
    else if |s| == 1 then (if s[0].Str? && s[0].s in seen then [] else s)
    else if s[0].Str? && s[0].s in seen then Uniq(s[2..], seen)
    else s[..2] + Uniq(s[2..], Next(seen, s[0]))
  }

  /** Whether the splice as written runs past the end: the dangling last key repeats a kept key. */
  predicate Panics(s: seq<Value>, seen: set<string>)
    decreases |s|
  {
    if |s| == 0 then false
    else if |s| == 1 then s[0].Str? && s[0].s in seen
    else Panics(s[2..], Next(seen, s[0]))
  }

  /** The smaller of a loop index and a length. */
  function Upto(i: nat, n: nat): (r: nat)
    ensures r <= n && r <= i && (r == i || r == n)
  {
    if i <= n then i else n
  }

  /** A dangling last key that repeats a kept key is dropped by the intended result and panics as written. */
  lemma {:induction false} DanglingKept(a: seq<Value>, v: string, seen: set<string>)
    requires |a| % 2 == 0 && v in seen
    ensures Uniq(a + [Str(v)], seen) == Uniq(a, seen)
    ensures Panics(a + [Str(v)], seen)
    decreases |a|
  {
    var t := a + [Str(v)];
    if |a| > 0 {
      assert t[0] == a[0] && t[..2] == a[..2] && t[2..] == a[2..] + [Str(v)];
      DanglingKept(a[2..], v, Next(seen, a[0]));
      if a[0].Str? && a[0].s in seen {
        assert Next(seen, a[0]) == seen;
      }
    }
  }

  /** The first pair of the rest at `i`, when its key is not a kept one, starts what the rest becomes. */
  lemma UniqAt(kv: seq<Value>, i: nat, seen: set<string>)
    requires i < |kv| && !(kv[i].Str? && kv[i].s in seen)
    ensures |kv| == i + 1 ==> Uniq(kv[i..], seen) == kv[i..] && !Panics(kv[i..], seen)
    ensures |kv| >= i + 2 ==> Uniq(kv[i..], seen) == kv[i..i + 2] + Uniq(kv[i + 2..], Next(seen, kv[i]))
    ensures |kv| >= i + 2 ==> Panics(kv[i..], seen) == Panics(kv[i + 2..], Next(seen, kv[i]))
  {
    if |kv| >= i + 2 {
      assert kv[i..][..2] == kv[i..i + 2] && kv[i..][2..] == kv[i + 2..];
    }
  }

  /** The pairs of `s` whose key is not the string `v`, in order; a dangling `v` goes too. */
  function Without(s: seq<Value>, v: string): (r: seq<Value>)
    ensures |r| <= |s|
    decreases |s|
  {
    if |s| == 0 then []
    else if |s| == 1 then (if s[0] == Str(v) then [] else s)
    else (if s[0] == Str(v) then [] else s[..2]) + Without(s[2..], v)
  }

  /** One more pair at the end of an even-length list. */
  lemma {:induction false} WithoutPair(a: seq<Value>, x: Value, y: Value, v: string)
    requires |a| % 2 == 0
    ensures Without(a + [x, y], v) == Without(a, v) + (if x == Str(v) then [] else [x, y])
    decreases |a|
  {
    var t := a + [x, y];
    if |a| == 0 {
      assert t[..2] == [x, y] && t[2..] == [];
    } else {
      assert t[..2] == a[..2] && t[2..] == a[2..] + [x, y];
      WithoutPair(a[2..], x, y, v);
    }
  }

  /** One more dangling element at the end of an even-length list. */
  lemma {:induction false} WithoutLast(a: seq<Value>, x: Value, v: string)
    requires |a| % 2 == 0
    ensures Without(a + [x], v) == Without(a, v) + (if x == Str(v) then [] else [x])
    decreases |a|
  {
    var t := a + [x];
    if |a| > 0 {
      assert t[..2] == a[..2] && t[2..] == a[2..] + [x];
      WithoutLast(a[2..], x, v);
    }
  }

  /** Taking out the pairs of a kept key changes nothing about the intended result. */
  lemma {:induction false} UniqWithout(t: seq<Value>, v: string, seen: set<string>)
    requires v in seen
    ensures Uniq(Without(t, v), seen) == Uniq(t, seen)
    decreases |t|
  {
    if |t| >= 2 {
      var next := Next(seen, t[0]);
      var w := Without(t[2..], v);
      if t[0] == Str(v) || (t[0].Str? && t[0].s in seen) {
        assert next == seen;
        UniqWithout(t[2..], v, seen);
        if t[0] == Str(v) {
          assert Without(t, v) == w;
        } else {
          WithoutKeeps(t, v);
        }
      } else {
        UniqWithout(t[2..], v, next);
        WithoutKeeps(t, v);
      }
    }
  }

  /** The first pair of a list, kept when its key is not `v`. */
  lemma WithoutKeeps(t: seq<Value>, v: string)
    requires |t| >= 2 && t[0] != Str(v)
    ensures var r := Without(t, v);
      r == t[..2] + Without(t[2..], v) && r[..2] == t[..2] && r[0] == t[0] && r[2..] == Without(t[2..], v)
  {
  }

  /** Away from a dangling `v`, taking out the pairs of a kept key changes nothing about a panic. */
  lemma {:induction false} PanicsWithout(t: seq<Value>, v: string, seen: set<string>)
    requires v in seen && !(|t| % 2 == 1 && t[|t| - 1] == Str(v))
    ensures Panics(Without(t, v), seen) == Panics(t, seen)
    decreases |t|
  {
    if |t| >= 2 {
      var next := Next(seen, t[0]);
      if |t| > 2 {
        assert t[2..][|t| - 3] == t[|t| - 1];
      }
      PanicsWithout(t[2..], v, next);
      if t[0] == Str(v) {
        assert next == seen && Without(t, v) == Without(t[2..], v);
      } else {
        WithoutKeeps(t, v);
      }
    }
  }

  /** Taking out the pairs of `v` leaves no key `v` and no key that was to be avoided. */
  lemma {:induction false} WithoutAvoids(t: seq<Value>, v: string, seen: set<string>)
    requires KeysAvoid(t, seen)
    ensures KeysAvoid(Without(t, v), seen + {v})
    decreases |t|
  {
    if |t| >= 2 {
      KeysAvoidTail(t, seen);
      WithoutAvoids(t[2..], v, seen);
      var w := Without(t[2..], v);
      if t[0] != Str(v) {
        var r := t[..2] + w;
        assert forall j :: 2 <= j < |r| ==> r[j] == w[j - 2];
        assert forall j :: 2 <= j < |r| && j % 2 == 0 ==> (j - 2) % 2 == 0;
      }
    }
  }

  /** Dropping the first pair keeps the keys to be avoided away. */
  lemma KeysAvoidTail(t: seq<Value>, seen: set<string>)
    requires KeysAvoid(t, seen) && |t| >= 2
    ensures KeysAvoid(t[2..], seen)
  {
    assert forall j :: 0 <= j < |t| - 2 ==> t[2..][j] == t[j + 2] && ((j % 2 == 0) == ((j + 2) % 2 == 0));
  }

  /** The list after the inner loop for the key position `i`: the later pairs of a string key there are gone. */
  function AfterStep(kv: seq<Value>, i: nat): (r: seq<Value>)
    requires i < |kv|
    ensures |r| <= |kv|
  {
    if kv[i].Str? && |kv| >= i + 2 then kv[..i + 2] + Without(kv[i + 2..], kv[i].s) else kv
  }

  /** The last element dangles after the pair at `i` and is the key `v`. */
  predicate DanglesAfter(kv: seq<Value>, i: nat, v: string)
  {
    |kv| % 2 == 1 && i + 1 < |kv| && kv[|kv| - 1] == Str(v)
  }

  /** The rest from a string key not kept before: its pair, then the rest without that key. */
  lemma UniqStepStr(t: seq<Value>, seen: set<string>)
    requires |t| >= 2 && t[0].Str? && KeysAvoid(t, seen)
    ensures Uniq(t, seen) == t[..2] + Uniq(Without(t[2..], t[0].s), Next(seen, t[0]))
    ensures KeysAvoid(Without(t[2..], t[0].s), Next(seen, t[0]))
  {
    KeysAvoidTail(t, seen);
    UniqWithout(t[2..], t[0].s, Next(seen, t[0]));
    WithoutAvoids(t[2..], t[0].s, seen);
  }

  /** The rest from a key that is not a string: its pair, then the rest. */
  lemma UniqStepOther(t: seq<Value>, seen: set<string>)
    requires |t| >= 2 && !t[0].Str? && KeysAvoid(t, seen)
    ensures Uniq(t, seen) == t[..2] + Uniq(t[2..], seen) && KeysAvoid(t[2..], seen)
    ensures Panics(t, seen) == Panics(t[2..], seen)
  {
    KeysAvoidTail(t, seen);
  }

  /** Away from a dangling repeat of a string key, the rest panics as the rest without that key does. */
  lemma PanicsStepStr(t: seq<Value>, seen: set<string>)
    requires |t| >= 2 && t[0].Str? && KeysAvoid(t, seen) && !(|t| % 2 == 1 && t[|t| - 1] == t[0])
    ensures Panics(t, seen) == Panics(Without(t[2..], t[0].s), Next(seen, t[0]))
  {
    if |t| > 2 {
      assert t[2..][|t| - 3] == t[|t| - 1];
    }
    PanicsWithout(t[2..], t[0].s, Next(seen, t[0]));
  }

  /** A dangling repeat of the first key makes the rest panic. */
  lemma PanicsStepDangling(t: seq<Value>, seen: set<string>)
    requires |t| >= 3 && t[0].Str? && t[0].s !in seen && |t| % 2 == 1 && t[|t| - 1] == t[0]
    ensures Panics(t, seen)
  {
    var v := t[0].s;
    assert t[2..] == t[2..|t| - 1] + [Str(v)];
    DanglingKept(t[2..|t| - 1], v, seen + {v});
  }

  /**
   * One outer step at the key position `i` carries the loop's account of the intended result
   * and of the keys already kept over to the next key position.
   */
  lemma AfterStepUniq(kv: seq<Value>, i: nat, seen: set<string>)
    requires i % 2 == 0 && i < |kv| && KeysAvoid(kv[i..], seen)
    ensures var after := AfterStep(kv, i); var m := Upto(i + 2, |after|);
      kv[..i] + Uniq(kv[i..], seen) == after[..m] + Uniq(after[m..], Next(seen, kv[i]))
      && KeysAvoid(after[m..], Next(seen, kv[i]))
  {
    var t := kv[i..];
    assert t[0] == kv[i];
    if |kv| == i + 1 {
      assert kv[..i] + t == kv && kv[|kv|..] == [];
    } else {
      assert t[..2] == kv[i..i + 2] && t[2..] == kv[i + 2..];
      assert kv[..i + 2] == kv[..i] + kv[i..i + 2];
      if kv[i].Str? {
        UniqStepStr(t, seen);
      } else {
        UniqStepOther(t, seen);
      }
    }
  }

  /** Outside a dangling repeat of its key, one outer step leaves whether the rest panics as written. */
  lemma AfterStepPanics(kv: seq<Value>, i: nat, seen: set<string>)
    requires i % 2 == 0 && i < |kv| && KeysAvoid(kv[i..], seen)
    ensures kv[i].Str? && DanglesAfter(kv, i, kv[i].s) ==> Panics(kv[i..], seen)
    ensures !(kv[i].Str? && DanglesAfter(kv, i, kv[i].s)) ==>
      var after := AfterStep(kv, i);
      Panics(kv[i..], seen) == Panics(after[Upto(i + 2, |after|)..], Next(seen, kv[i]))
  {
    var t := kv[i..];
    assert t[0] == kv[i];
    if |kv| >= i + 2 {
      assert t[2..] == kv[i + 2..] && t[|t| - 1] == kv[|kv| - 1];
      if !kv[i].Str? {
        UniqStepOther(t, seen);
      } else if DanglesAfter(kv, i, kv[i].s) {
        PanicsStepDangling(t, seen);
      } else {
        PanicsStepStr(t, seen);
      }
    }
  }

  /**
   * The state of the inner loop for the key `v` at `i`, `m` elements of the original list in: the
   * front up to the key's pair, then what is left of the pairs passed, then the rest unread, with
   * `n` at the first unread element (or past the end once a dangling element has been read).
   */
  predicate Dropping(kv0: seq<Value>, i: nat, v: string, m: nat, kv: seq<Value>, n: nat)
  {
    i % 2 == 0 && i + 2 <= m <= |kv0| && kv0[i] == Str(v) && ((m - i) % 2 == 0 || m == |kv0|)
    && kv == kv0[..i + 2] + Without(kv0[i + 2..m], v) + kv0[m..]
    && (n == i + 2 + |Without(kv0[i + 2..m], v)| || (n == |kv| + 1 && m == |kv0|))
  }

  lemma DroppingStart(kv0: seq<Value>, i: nat, v: string)
    requires i % 2 == 0 && i + 2 <= |kv0| && kv0[i] == Str(v)
    ensures Dropping(kv0, i, v, i + 2, kv0, i + 2)
  {
    assert kv0[i + 2..i + 2] == [] && kv0 == kv0[..i + 2] + [] + kv0[i + 2..];
  }

  /** The element at `n` is the unread one at `m`. */
  lemma DroppingAt(kv0: seq<Value>, i: nat, v: string, m: nat, kv: seq<Value>, n: nat)
    requires Dropping(kv0, i, v, m, kv, n) && n < |kv|
    ensures n == i + 2 + |Without(kv0[i + 2..m], v)| && m < |kv0| && kv[n] == kv0[m] && m % 2 == 0
    ensures n + 2 <= |kv| <==> m + 2 <= |kv0|
  {
    var p := kv0[..i + 2] + Without(kv0[i + 2..m], v);
    assert kv == p + kv0[m..];
  }

  /** Splicing out a repeat at `n` that has a value after it. */
  lemma DroppingSplice(kv0: seq<Value>, i: nat, v: string, m: nat, kv: seq<Value>, n: nat)
    requires Dropping(kv0, i, v, m, kv, n) && n + 2 <= |kv| && kv[n] == Str(v)
    ensures Dropping(kv0, i, v, m + 2, kv[..n] + kv[n + 2..], n) && n >= i + 2
    ensures m + 2 < |kv0| || !DanglesAfter(kv0, i, v)
  {
    DroppingAt(kv0, i, v, m, kv, n);
    var w := Without(kv0[i + 2..m], v);
    var p := kv0[..i + 2] + w;
    assert kv == p + kv0[m..];
    assert kv0[i + 2..m + 2] == kv0[i + 2..m] + [kv0[m], kv0[m + 1]];
    WithoutPair(kv0[i + 2..m], kv0[m], kv0[m + 1], v);
    assert kv[..n] == p && kv[n + 2..] == kv0[m + 2..];
  }

  /** Cutting off a dangling repeat at `n`. */
  lemma DroppingCut(kv0: seq<Value>, i: nat, v: string, m: nat, kv: seq<Value>, n: nat)
    requires Dropping(kv0, i, v, m, kv, n) && n < |kv| < n + 2 && kv[n] == Str(v)
    ensures Dropping(kv0, i, v, m + 1, kv[..n], n) && m + 1 == |kv0| && n >= i + 2
    ensures DanglesAfter(kv0, i, v)
  {
    DroppingAt(kv0, i, v, m, kv, n);
    var w := Without(kv0[i + 2..m], v);
    var p := kv0[..i + 2] + w;
    assert kv == p + kv0[m..];
    assert kv0[i + 2..m + 1] == kv0[i + 2..m] + [kv0[m]];
    WithoutLast(kv0[i + 2..m], kv0[m], v);
    assert kv[..n] == p && kv0[m + 1..] == [];
  }

  /** Removing a repeat at `n`: the pair, or the dangling key when no value follows it. */
  lemma DroppingRemove(kv0: seq<Value>, i: nat, v: string, m: nat, kv: seq<Value>, n: nat)
    requires Dropping(kv0, i, v, m, kv, n) && n < |kv| && kv[n] == Str(v)
    ensures var end := if n + 2 <= |kv| then n + 2 else |kv|;
      Dropping(kv0, i, v, m + end - n, kv[..n] + kv[end..], n) && n >= i + 2
  {
    if n + 2 <= |kv| {
      DroppingSplice(kv0, i, v, m, kv, n);
    } else {
      DroppingCut(kv0, i, v, m, kv, n);
      assert kv[..n] + kv[|kv|..] == kv[..n];
    }
  }

  /** Passing over a pair, or a dangling element, whose key is not `v`. */
  lemma DroppingPass(kv0: seq<Value>, i: nat, v: string, m: nat, kv: seq<Value>, n: nat)
    requires Dropping(kv0, i, v, m, kv, n) && n < |kv| && kv[n] != Str(v)
    ensures Dropping(kv0, i, v, Upto(m + 2, |kv0|), kv, n + 2)
    ensures DanglesAfter(kv0, i, v) ==> m + 2 < |kv0|
  {
    DroppingAt(kv0, i, v, m, kv, n);
    if m + 2 <= |kv0| {
      DroppingPassPair(kv0, i, v, m, kv);
    } else {
      DroppingPassLast(kv0, i, v, m, kv);
    }
  }

  lemma DroppingPassPair(kv0: seq<Value>, i: nat, v: string, m: nat, kv: seq<Value>)
    requires i + 2 <= m && m + 2 <= |kv0| && kv0[m] != Str(v)
    requires kv == kv0[..i + 2] + Without(kv0[i + 2..m], v) + kv0[m..] && (m - i) % 2 == 0
    ensures kv == kv0[..i + 2] + Without(kv0[i + 2..m + 2], v) + kv0[m + 2..]
    ensures |Without(kv0[i + 2..m + 2], v)| == |Without(kv0[i + 2..m], v)| + 2
  {
    var w := Without(kv0[i + 2..m], v);
    assert kv0[i + 2..m + 2] == kv0[i + 2..m] + [kv0[m], kv0[m + 1]];
    WithoutPair(kv0[i + 2..m], kv0[m], kv0[m + 1], v);
    assert kv0[m..] == [kv0[m], kv0[m + 1]] + kv0[m + 2..];
    assert kv == kv0[..i + 2] + (w + [kv0[m], kv0[m + 1]]) + kv0[m + 2..];
  }

  lemma DroppingPassLast(kv0: seq<Value>, i: nat, v: string, m: nat, kv: seq<Value>)
    requires i + 2 <= m && m + 1 == |kv0| && kv0[m] != Str(v)
    requires kv == kv0[..i + 2] + Without(kv0[i + 2..m], v) + kv0[m..] && (m - i) % 2 == 0
    ensures kv == kv0[..i + 2] + Without(kv0[i + 2..|kv0|], v) + kv0[|kv0|..]
    ensures |kv| == i + 2 + |Without(kv0[i + 2..m], v)| + 1
  {
    var w := Without(kv0[i + 2..m], v);
    assert kv0[i + 2..|kv0|] == kv0[i + 2..m] + [kv0[m]];
    WithoutLast(kv0[i + 2..m], kv0[m], v);
    assert kv0[m..] == [kv0[m]] && kv0[|kv0|..] == [];
  }

  /** Once `n` has run past the end, the whole rest has been read. */
  lemma DroppingDone(kv0: seq<Value>, i: nat, v: string, m: nat, kv: seq<Value>, n: nat)
    requires Dropping(kv0, i, v, m, kv, n) && n >= |kv|
    ensures m == |kv0| && kv == AfterStep(kv0, i)
  {
    var p := kv0[..i + 2] + Without(kv0[i + 2..m], v);
    assert kv == p + kv0[m..];
    assert kv0[m..] == [] && kv0[i + 2..m] == kv0[i + 2..];
  }

  /**
   * The inner loop of `uniqueKeys` as written, for the key at `i`: every later pair with that
   * string key is spliced out with `kv[n+2:]`, which panics when the key repeats as the dangling
   * last element.
   */
  method DropRepeatsAsWritten(kv0: seq<Value>, i: nat, v: string) returns (r: Result<seq<Value>>)
    requires i % 2 == 0 && i < |kv0| && kv0[i] == Str(v)
    ensures r.Err? <==> DanglesAfter(kv0, i, v)
    ensures r.Err? ==> r.error == SliceOutOfRange
    ensures r.Ok? ==> r.value == AfterStep(kv0, i)
  {
    var kv := kv0;
    ghost var m: nat := i + 2;
    var n: nat := i + 2;
    if i + 2 <= |kv0| {
      DroppingStart(kv0, i, v);
    }
    while n < |kv|
      invariant |kv0| < i + 2 ==> kv == kv0
      invariant |kv0| >= i + 2 ==> Dropping(kv0, i, v, m, kv, n)
      invariant DanglesAfter(kv0, i, v) ==> m < |kv0|
      decreases |kv| - n
    {
      if kv[n].Str? && kv[n].s == v {
        if n + 2 > |kv| {
          DroppingCut(kv0, i, v, m, kv, n);
          return Err(SliceOutOfRange);
        }
        DroppingSplice(kv0, i, v, m, kv, n);
        kv := kv[..n] + kv[n + 2..];
        m := m + 2;
        n := n - 2;
      } else {
        DroppingPass(kv0, i, v, m, kv, n);
        m := Upto(m + 2, |kv0|);
      }
      n := n + 2;
    }
    if |kv0| >= i + 2 {
      DroppingDone(kv0, i, v, m, kv, n);
    }
    return Ok(kv);
  }

  /**
   * The outer loop's account at the key position `i`: the list up to there is the start of the
   * intended result, the rest becomes the remainder of it, and no key of the rest was kept before.
   */
  predicate Accounts(kv0: seq<Value>, kv: seq<Value>, i: nat, seen: set<string>)
  {
    var u := Upto(i, |kv|);
    i % 2 == 0 && i <= |kv| + 1 && Uniq(kv0, {}) == kv[..u] + Uniq(kv[u..], seen) && KeysAvoid(kv[u..], seen)
  }

  /** The outer loop's account of a panic to come. */
  predicate PanicAccounts(kv0: seq<Value>, kv: seq<Value>, i: nat, seen: set<string>)
  {
    Panics(kv0, {}) == Panics(kv[Upto(i, |kv|)..], seen)
  }

  lemma AccountsStep(kv0: seq<Value>, kv: seq<Value>, i: nat, seen: set<string>)
    requires i < |kv| && Accounts(kv0, kv, i, seen)
    ensures Accounts(kv0, AfterStep(kv, i), i + 2, Next(seen, kv[i]))
  {
    AfterStepUniq(kv, i, seen);
  }

  lemma PanicAccountsStep(kv0: seq<Value>, kv: seq<Value>, i: nat, seen: set<string>)
    requires i < |kv| && Accounts(kv0, kv, i, seen) && PanicAccounts(kv0, kv, i, seen)
    ensures kv[i].Str? && DanglesAfter(kv, i, kv[i].s) ==> Panics(kv0, {})
    ensures !(kv[i].Str? && DanglesAfter(kv, i, kv[i].s)) ==> PanicAccounts(kv0, AfterStep(kv, i), i + 2, Next(seen, kv[i]))
  {
    AfterStepPanics(kv, i, seen);
  }

  /**
   * `uniqueKeys` as written: for each string key, the later pairs with that key are spliced out;
   * a dangling last key that repeats one makes the splice start past the end, which is a runtime
   * panic, here an `Err`.
   */
  method UniqueKeysAsWritten(kv0: seq<Value>) returns (r: Result<seq<Value>>)
    ensures r.Err? <==> Panics(kv0, {})
    ensures r.Err? ==> r.error == SliceOutOfRange
    ensures r.Ok? ==> r.value == Uniq(kv0, {})
  {
    var kv := kv0;
    ghost var seen: set<string> := {};
    var i := 0;
    assert kv[..0] == [] && kv[0..] == kv;
    while i < |kv|
      invariant Accounts(kv0, kv, i, seen) && PanicAccounts(kv0, kv, i, seen)
      decreases |kv| + 1 - i
    {
      AccountsStep(kv0, kv, i, seen);
      PanicAccountsStep(kv0, kv, i, seen);
      var after := kv;
      if kv[i].Str? {
        var dropped := DropRepeatsAsWritten(kv, i, kv[i].s);
        if dropped.Err? {
          return Err(dropped.error);
        }
        after := dropped.value;
      }
      seen := Next(seen, kv[i]);
      kv := after;
      i := i + 2;
    }
    assert kv[..|kv|] == kv && kv[|kv|..] == [];
    return Ok(kv);
  }

  /**
   * The inner loop with its bound corrected: a dangling last key that repeats the key at `i` is
   * cut off instead of being spliced past the end.
   */
  method DropRepeats(kv0: seq<Value>, i: nat, v: string) returns (kv: seq<Value>)
    requires i % 2 == 0 && i < |kv0| && kv0[i] == Str(v)
    ensures kv == AfterStep(kv0, i)
  {
    kv := kv0;
    ghost var m: nat := i + 2;
    var n: nat := i + 2;
    if i + 2 <= |kv0| {
      DroppingStart(kv0, i, v);
    }
    while n < |kv|
      invariant |kv0| < i + 2 ==> kv == kv0
      invariant |kv0| >= i + 2 ==> Dropping(kv0, i, v, m, kv, n)
      decreases |kv| - n
    {
      if kv[n].Str? && kv[n].s == v {
        var end := if n + 2 <= |kv| then n + 2 else |kv|;
        DroppingRemove(kv0, i, v, m, kv, n);
        m := m + end - n;
        kv := kv[..n] + kv[end..];
        n := n - 2;
      } else {
        DroppingPass(kv0, i, v, m, kv, n);
        m := Upto(m + 2, |kv0|);
      }
      n := n + 2;
    }
    if |kv0| >= i + 2 {
      DroppingDone(kv0, i, v, m, kv, n);
    }
  }

  /**
   * `uniqueKeys` with the corrected inner loop: the first pair of every string key is kept, later
   * ones and a repeated dangling key go, and nothing panics.
   */
  method UniqueKeys(kv0: seq<Value>) returns (kv: seq<Value>)
    ensures kv == Uniq(kv0, {})
  {
    kv := kv0;
    ghost var seen: set<string> := {};
    var i := 0;
    assert kv[..0] == [] && kv[0..] == kv;
    while i < |kv|
      invariant Accounts(kv0, kv, i, seen)
      decreases |kv| + 1 - i
    {
      AccountsStep(kv0, kv, i, seen);
      var after := kv;
      if kv[i].Str? {
        after := DropRepeats(kv, i, kv[i].s);
      }
      seen := Next(seen, kv[i]);
      kv := after;
      i := i + 2;
    }
    assert kv[..|kv|] == kv && kv[|kv|..] == [];
  }

  /** The logged list `"a", x, "a"`: a repeated key left without a value panics as written, and the corrected splice keeps the first pair. */
  lemma UniqueKeysPanicsOnDanglingRepeat()
    ensures Panics([Str("a"), Other(1), Str("a")], {})
    ensures Uniq([Str("a"), Other(1), Str("a")], {}) == [Str("a"), Other(1)]
  {
    var s := [Str("a"), Other(1), Str("a")];
    assert s[2..] == [Str("a")] && s[..2] == [Str("a"), Other(1)];
    assert Next({}, s[0]) == {"a"};
  }

  /** No string key at an even position belongs to `seen`. */
  predicate KeysAvoid(t: seq<Value>, seen: set<string>)
  {
    forall j :: 0 <= j < |t| && j % 2 == 0 && t[j].Str? ==> t[j].s !in seen
  }

  /** No two even positions hold the same string key. */
  predicate DistinctKeys(t: seq<Value>)
  {
    forall j, k :: 0 <= j < k < |t| && j % 2 == 0 && k % 2 == 0 && t[j].Str? ==> t[j] != t[k]
  }

  /** The result never repeats a string key, nor uses one kept before it. */
  lemma {:induction false} UniqDistinct(s: seq<Value>, seen: set<string>)
    ensures KeysAvoid(Uniq(s, seen), seen) && DistinctKeys(Uniq(s, seen))
    decreases |s|
  {
    if |s| >= 2 {
      var next := Next(seen, s[0]);
      UniqDistinct(s[2..], next);
      if s[0].Str? && s[0].s in seen {
        assert next == seen;
      } else {
        var u := Uniq(s[2..], next);
        var r := s[..2] + u;
        assert Uniq(s, seen) == r;
        assert forall j :: 2 <= j < |r| ==> r[j] == u[j - 2];
        assert forall j :: 2 <= j < |r| && j % 2 == 0 ==> (j - 2) % 2 == 0;
      }
    }
  }

  /** The pairs whose key is not a string, in order (a dangling such key included). */
  function Others(s: seq<Value>): (r: seq<Value>)
    ensures |r| <= |s|
    decreases |s|
  {
    if |s| == 0 then []
    else if |s| == 1 then (if s[0].Str? then [] else s)
    else (if s[0].Str? then [] else s[..2]) + Others(s[2..])
  }

  /** Pairs with a non-string key are never removed and keep their order. */
  lemma {:induction false} UniqOthers(s: seq<Value>, seen: set<string>)
    ensures Others(Uniq(s, seen)) == Others(s)
    decreases |s|
  {
    if |s| >= 2 {
      UniqOthers(s[2..], Next(seen, s[0]));
      if s[0].Str? && s[0].s in seen {
        assert Next(seen, s[0]) == seen;
      } else {
        var u := Uniq(s[2..], Next(seen, s[0]));
        var r := s[..2] + u;
        assert r[..2] == s[..2] && r[2..] == u && r[0] == s[0];
      }
    }
  }

  /** The first pair keyed by the string `k`; only the key when it is the dangling last element. */
  function FirstPair(s: seq<Value>, k: string): (r: Option<seq<Value>>)
    ensures r.Some? ==> 0 < |r.value| <= 2 && r.value[0] == Str(k)
    decreases |s|
  {
    if |s| == 0 then None
    else if s[0] == Str(k) then Some(if |s| == 1 then s else s[..2])
    else if |s| == 1 then None
    else FirstPair(s[2..], k)
  }

  /** For every string key not kept before, the first pair it has is kept, value and all. */
  lemma {:induction false} UniqFirstPair(s: seq<Value>, seen: set<string>, k: string)
    requires k !in seen
    ensures FirstPair(Uniq(s, seen), k) == FirstPair(s, k)
    decreases |s|
  {
    if |s| >= 2 {
      if s[0] != Str(k) {
        UniqFirstPair(s[2..], Next(seen, s[0]), k);
      }
      if s[0].Str? && s[0].s in seen {
        assert Next(seen, s[0]) == seen;
      } else {
        var u := Uniq(s[2..], Next(seen, s[0]));
        var r := s[..2] + u;
        assert r[..2] == s[..2] && r[2..] == u && r[0] == s[0];
      }
    }
  }

  /** A list with distinct string keys comes back unchanged. */
  lemma {:induction false} UniqNoop(s: seq<Value>, seen: set<string>)
    requires KeysAvoid(s, seen) && DistinctKeys(s)
    ensures Uniq(s, seen) == s
    decreases |s|
  {
    if |s| >= 2 {
      var t := s[2..];
      assert forall j :: 0 <= j < |t| ==> t[j] == s[j + 2];
      assert forall j :: 0 <= j < |t| && j % 2 == 0 ==> (j + 2) % 2 == 0;
      assert KeysAvoid(t, Next(seen, s[0]));
      UniqNoop(t, Next(seen, s[0]));
      assert s == s[..2] + t;
    }
  }

  /** De-duplicating twice is de-duplicating once. */
  lemma UniqIdempotent(s: seq<Value>)
    ensures Uniq(Uniq(s, {}), {}) == Uniq(s, {})
  {
    UniqDistinct(s, {});
    UniqNoop(Uniq(s, {}), {});
  }

  /**
   * The splice as written panics exactly on a list of odd length whose dangling last element is
   * a string key already kept or used by a pair before it.
   */
  lemma {:induction false} PanicsWhen(s: seq<Value>, seen: set<string>)
    ensures Panics(s, seen) <==> (|s| % 2 == 1 && s[|s| - 1].Str?
      && (s[|s| - 1].s in seen || exists j :: 0 <= j < |s| - 1 && j % 2 == 0 && s[j] == s[|s| - 1]))
    decreases |s|
  {
    if |s| >= 2 {
      var t := s[2..];
      var next := Next(seen, s[0]);
      PanicsWhen(t, next);
      assert |t| > 0 ==> t[|t| - 1] == s[|s| - 1];
      if Panics(s, seen) {
        assert Panics(t, next);
        var last := s[|s| - 1];
        if last.s !in seen {
          if last.s in next {
            assert s[0] == last;
          } else {
            var j :| 0 <= j < |t| - 1 && j % 2 == 0 && t[j] == t[|t| - 1];
            assert s[j + 2] == last && (j + 2) % 2 == 0;
          }
        }
      } else if |s| % 2 == 1 && s[|s| - 1].Str? {
        var last := s[|s| - 1];
        assert !Panics(t, next);
        assert last.s !in next;
        forall j | 0 <= j < |s| - 1 && j % 2 == 0
          ensures s[j] != last
        {
          if j >= 2 {
            assert t[j - 2] == s[j] && (j - 2) % 2 == 0;
          }
        }
      }
    }
  }
}
