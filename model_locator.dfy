/**
 * The locator store of `pkg/model/locator.go`: a table of locator reports keyed by name, kind and
 * action, queried by kind with undo actions first.
 */
module ModelLocator {
  import opened GoStrings
  import opened ModelTypes
  import opened Seqs

  /** Deletes and reverts undo an earlier change; they are handed out before everything else. */
  predicate IsUndo(s: LocatorStatus)
  {
    s.Action == ActionDelete || s.Action == ActionRevert
  }

  /** The order `sort.SliceStable` with the undo-first comparator gives: all undo entries, then the rest. */
  function UndoFirst(s: seq<LocatorStatus>): seq<LocatorStatus>
  {
    StablePartition(s, IsUndo)
  }

  /** Sorting keeps every entry and puts every undo entry before every other entry. */
  lemma UndoFirstPartition(s: seq<LocatorStatus>)
    ensures multiset(UndoFirst(s)) == multiset(s)
    ensures forall i, j :: 0 <= i < j < |UndoFirst(s)| && IsUndo(UndoFirst(s)[j]) ==> IsUndo(UndoFirst(s)[i])
  {
    StablePartitionPermutes(s, IsUndo);
    StablePartitionOrders(s, IsUndo);
  }

  /** Whether `kind` equals one of `kinds`, ignoring case. */
  predicate MatchesAny(kind: string, kinds: seq<string>)
  {
    exists k :: k in kinds && EqualFold(kind, k)
  }

  /** The entries of the requested kinds, compared ignoring case, in stored order. */
  function FilterKinds(s: seq<LocatorStatus>, kinds: seq<string>): seq<LocatorStatus>
  {
    Filter(s, (l: LocatorStatus) => MatchesAny(l.Kind(), kinds))
  }

  /** `Store(kinds)` hands out exactly the entries whose kind equals a requested kind ignoring case. */
  lemma FilterKindsContent(s: seq<LocatorStatus>, kinds: seq<string>)
    ensures forall x :: multiset(FilterKinds(s, kinds))[x] == if MatchesAny(x.Kind(), kinds) then multiset(s)[x] else 0
  {
    FilterContent(s, (l: LocatorStatus) => MatchesAny(l.Kind(), kinds));
  }

  /** `Report` stamps a report with the current time only when it has none. */
  function Stamped(status: LocatorStatus, now: Time): (r: LocatorStatus)
    ensures r.TimeStamp == (if status.TimeStamp == 0 then now else status.TimeStamp)
    ensures r.(TimeStamp := status.TimeStamp) == status
  {
    if status.TimeStamp == 0 then status.(TimeStamp := now) else status
  }

  /** Two reports about the same name, kind and action. */
  predicate SameEntry(a: LocatorStatus, b: LocatorStatus)
  {
    a.Name() == b.Name() && a.Kind() == b.Kind() && a.Action == b.Action
  }

  predicate HasEntry(s: seq<LocatorStatus>, status: LocatorStatus)
  {
    exists i :: 0 <= i < |s| && SameEntry(s[i], status)
  }

  /** The table after a report: every entry with the same key replaced, or the report appended. */
  function Reported(s: seq<LocatorStatus>, status: LocatorStatus): (r: seq<LocatorStatus>)
    ensures |s| <= |r| <= |s| + 1
    ensures forall x :: x in r ==> x in s || x == status
  {
    if HasEntry(s, status) then seq(|s|, i requires 0 <= i < |s| => if SameEntry(s[i], status) then status else s[i])
    else s + [status]
  }

  /** A report is in the table afterwards, and the table grows only when its key was new. */
  lemma ReportedContains(s: seq<LocatorStatus>, status: LocatorStatus)
    ensures status in Reported(s, status)
    ensures |Reported(s, status)| == if HasEntry(s, status) then |s| else |s| + 1
  {
    if HasEntry(s, status) {
      var i :| 0 <= i < |s| && SameEntry(s[i], status);
      assert Reported(s, status)[i] == status;
    }
  }

  /** Entries with another key are kept in place, and no entry with the report's key but other data survives. */
  lemma ReportedKeepsOthers(s: seq<LocatorStatus>, status: LocatorStatus)
    ensures forall i :: 0 <= i < |s| && !SameEntry(s[i], status) ==> Reported(s, status)[i] == s[i]
    ensures forall x :: x in Reported(s, status) && SameEntry(x, status) ==> x == status
  {
  }

  /** Reporting the same status twice leaves the table as reporting it once. */
  lemma ReportedIdempotent(s: seq<LocatorStatus>, status: LocatorStatus)
    ensures Reported(Reported(s, status), status) == Reported(s, status)
  {
    var r := Reported(s, status);
    ReportedContains(s, status);
    var i :| 0 <= i < |r| && r[i] == status;
    assert SameEntry(r[i], status);
    assert HasEntry(r, status);
  }

  /** The store of one session: the reports of all locators so far. */
  class LocatorStore {
    var stored: seq<LocatorStatus>

    constructor ()
      ensures stored == []
    {
      stored := [];
    }

    /**
     * The reports of the given kinds, undo actions first. Without kinds the whole table is
     * returned, and the table itself is left reordered.
     */
    method Store(kinds: seq<string>) returns (f: seq<LocatorStatus>)
      modifies this
      ensures |kinds| == 0 ==> stored == UndoFirst(old(stored)) && f == stored
      ensures |kinds| > 0 ==> stored == old(stored) && f == UndoFirst(FilterKinds(stored, kinds))
    {
      if |kinds| == 0 {
        stored := UndoFirst(stored);
        return stored;
      }
      var matched: seq<LocatorStatus> := [];
      var i := 0;
      while i < |stored|
        invariant 0 <= i <= |stored|
        invariant matched == FilterKinds(stored[..i], kinds)
      {
        var loc := stored[i];
        var found := false;
        var j := 0;
        while j < |kinds| && !found
          invariant 0 <= j <= |kinds|
          invariant found <==> exists k :: 0 <= k < j && EqualFold(loc.Kind(), kinds[k])
        {
          if EqualFold(loc.Kind(), kinds[j]) {
            found := true;
          }
          j := j + 1;
        }
        assert found <==> MatchesAny(loc.Kind(), kinds);
        if found {
          matched := matched + [loc];
        }
        assert stored[..i + 1][..i] == stored[..i];
        i := i + 1;
      }
      assert stored[..i] == stored;
      f := UndoFirst(matched);
    }

    /** Records a report; a report without a time stamp is stamped with `now`. */
    method Report(status: LocatorStatus, now: Time)
      modifies this
      ensures stored == Reported(old(stored), Stamped(status, now))
    {
      var st := Stamped(status, now);
      var replaced := false;
      var i := 0;
      while i < |stored|
        invariant 0 <= i <= |stored| && |stored| == |old(stored)|
        invariant forall k :: 0 <= k < i ==> stored[k] == if SameEntry(old(stored)[k], st) then st else old(stored)[k]
        invariant forall k :: i <= k < |stored| ==> stored[k] == old(stored)[k]
        invariant replaced <==> exists k :: 0 <= k < i && SameEntry(old(stored)[k], st)
      {
        if stored[i].Name() == st.Name() && stored[i].Kind() == st.Kind() && stored[i].Action == st.Action {
          stored := stored[i := st];
          replaced := true;
        }
        i := i + 1;
      }
      if !replaced {
        stored := stored + [st];
      }
    }

    method Clear()
      modifies this
      ensures stored == []
    {
      stored := [];
    }
  }
}
