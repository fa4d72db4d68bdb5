/**
 * The end-to-end suites' "stable in series" matcher (`stableCountMatcher`, defined identically in
 * `e2e/verify/deployment.go` and `e2e/e2e_verifications.go`). It wraps another matcher and succeeds
 * only once the wrapped matcher has matched a given number of times in a row; it remembers whether
 * a run of matches was ever broken. The wrapped matcher is opaque here: each call of `Match` takes its
 * verdict as a parameter.
 */
module StableCount {
  import opened Wrappers
  import opened GoStrings

  const Int32Min := -0x8000_0000
  const Int32Max := 0x7fff_ffff

  predicate IsInt32(x: int)
  {
    Int32Min <= x <= Int32Max
  }

  /** Go's `x++` on an `int32`, which wraps around past the largest value. */
  function Inc32(x: int): (r: int)
    requires IsInt32(x)
    ensures IsInt32(r)
  {
    if x == Int32Max then Int32Min else x + 1
  }

  /** The counter's value after the wrapped matcher gave the verdicts `h`, starting from zero. */
  function Counter(h: seq<bool>): (c: int)
    ensures IsInt32(c)
  {
    if |h| == 0 then 0 else if !h[|h| - 1] then 0 else Inc32(Counter(h[..|h| - 1]))
  }

  /** The flag's value after the verdicts `h`: set by a mismatch while the counter was positive. */
  function Flipping(h: seq<bool>): bool
  {
    if |h| == 0 then false else Flipping(h[..|h| - 1]) || (!h[|h| - 1] && Counter(h[..|h| - 1]) > 0)
  }

  /** The number of matches at the end of `h`. */
  function Streak(h: seq<bool>): (n: nat)
    ensures n <= |h|
  {
    if |h| == 0 || !h[|h| - 1] then 0 else Streak(h[..|h| - 1]) + 1
  }

  /** The error the matcher returns while the run is still too short. */
  function NotEnough(count: int, occurrences: int): string
  {
    "not enough matches in sequence yet [" + FormatInt(count) + "/" + FormatInt(occurrences) + "]"
  }

  /** The matcher object; `results` records, for the proofs, the wrapped matcher's verdicts so far. */
  class StableCountMatcher {
    const subsequentOccurrences: int
    var matchCount: int
    var flipping: bool
    ghost var results: seq<bool>

    ghost predicate Valid()
      reads this
    {
      IsInt32(subsequentOccurrences) && matchCount == Counter(results) && flipping == Flipping(results)
    }

    /** `beStableInSeries`: no match counted yet and not flipping. */
    constructor (occurrences: int)
      requires IsInt32(occurrences)
      ensures Valid() && subsequentOccurrences == occurrences
      ensures matchCount == 0 && !flipping && results == []
    {
      subsequentOccurrences := occurrences;
      matchCount := 0;
      flipping := false;
      results := [];
    }

    /**
     * `Match`, given the wrapped matcher's verdict `matched` and error `delegateErr` for the same
     * value: a mismatch resets the count (recording the flip when a run was under way) and fails
     * with the wrapped error; a match extends the run and succeeds once it is long enough.
     */
    method Match(matched: bool, delegateErr: Option<string>) returns (success: bool, err: Option<string>)
      requires Valid()
      modifies this
      ensures Valid() && results == old(results) + [matched]
      ensures !matched ==> (matchCount == 0 && flipping == (old(flipping) || old(matchCount) > 0)
        && !success && err == delegateErr)
      ensures matched ==> (matchCount == Inc32(old(matchCount)) && flipping == old(flipping)
        && (success <==> matchCount >= subsequentOccurrences))
      ensures matched && matchCount < subsequentOccurrences ==> err == Some(NotEnough(matchCount, subsequentOccurrences))
      ensures matched && matchCount >= subsequentOccurrences ==> err == delegateErr
    {
      results := results + [matched];
      assert results[..|results| - 1] == old(results);
      if !matched {
        if matchCount > 0 {
          flipping := true;
        }
        matchCount := 0;
        return false, delegateErr;
      }
      matchCount := Inc32(matchCount);
      if matchCount < subsequentOccurrences {
        return false, Some(NotEnough(matchCount, subsequentOccurrences));
      }
      return matched, delegateErr;
    }
  }

  /** Below 2^31 verdicts the counter does not wrap: it is the number of matches in a row at the end. */
  lemma {:induction false} CounterIsStreak(h: seq<bool>)
    requires |h| <= Int32Max
    ensures Counter(h) == Streak(h)
  {
    if |h| > 0 {
      CounterIsStreak(h[..|h| - 1]);
    }
  }

  /** A run of at least `n` matches at the end is the same as the last `n` verdicts all being matches. */
  lemma {:induction false} StreakCovers(h: seq<bool>, n: nat)
    requires n <= |h|
    ensures Streak(h) >= n <==> forall k :: |h| - n <= k < |h| ==> h[k]
  {
    if n > 0 {
      var p := h[..|h| - 1];
      StreakCovers(p, n - 1);
      assert forall k :: |h| - n <= k < |h| - 1 ==> p[k] == h[k];
    }
  }

  /**
   * Below 2^31 verdicts, `Match` succeeds exactly when the wrapped matcher matched on this call and on
   * the calls just before it, `subsequentOccurrences` times in all.
   */
  lemma StableInSeries(h: seq<bool>, occurrences: int)
    requires 0 < |h| <= Int32Max
    ensures (h[|h| - 1] && Counter(h) >= occurrences) <==>
      (h[|h| - 1] && occurrences <= |h| && forall k :: 0 <= k < |h| && |h| - occurrences <= k ==> h[k])
  {
    CounterIsStreak(h);
    if 0 <= occurrences <= |h| {
      StreakCovers(h, occurrences);
    }
  }

  /**
   * Below 2^31 verdicts, the matcher is flipping exactly when some match was later followed by a
   * mismatch; it is never reset.
   */
  lemma {:induction false} FlippingWhen(h: seq<bool>)
    requires |h| <= Int32Max
    ensures Flipping(h) <==> exists i, j :: 0 <= i < j < |h| && h[i] && !h[j]
  {
    if |h| > 0 {
      var p := h[..|h| - 1];
      FlippingWhen(p);
      CounterIsStreak(p);
      if Flipping(h) {
        if Flipping(p) {
          var i, j :| 0 <= i < j < |p| && p[i] && !p[j];
          assert h[i] && !h[j];
        } else {
          assert h[|h| - 2] && !h[|h| - 1];
        }
      }
      if exists i, j :: 0 <= i < j < |h| && h[i] && !h[j] {
        var i, j :| 0 <= i < j < |h| && h[i] && !h[j];
        if j < |h| - 1 {
          assert p[i] && !p[j];
        } else if i < |p| - 1 && !p[|p| - 1] {
          assert p[i] && !p[|p| - 1];
        }
      }
    }
  }
}
