/**
 * The bookkeeping of the session controller, `controllers/session/session_controller.go`: the
 * overall session state, whether a ref succeeded, dropping the conditions of a removed ref, the
 * condition recorded for a modification, the refs to reconcile and de-duplication.
 */
module SessionController {
  import opened Wrappers
  import opened GoStrings
  import opened Seqs
  import opened SessionApi
  import M = ModelTypes

  predicate IsFailed(c: Condition)
  {
    c.Status == Some(StatusFailed)
  }

  /** Whether some condition has the failed status. */
  predicate AnyFailed(conditions: seq<Condition>)
  {
    |conditions| > 0 && (IsFailed(conditions[0]) || AnyFailed(conditions[1..]))
  }

  lemma {:induction false} AnyFailedIff(conditions: seq<Condition>)
    ensures AnyFailed(conditions) <==> exists i :: 0 <= i < |conditions| && IsFailed(conditions[i])
  {
    if |conditions| > 0 {
      AnyFailedIff(conditions[1..]);
      if !IsFailed(conditions[0]) && exists i :: 0 <= i < |conditions| && IsFailed(conditions[i]) {
        var i :| 0 <= i < |conditions| && IsFailed(conditions[i]);
        assert conditions[1..][i - 1] == conditions[i];
      }
    }
  }

  /** Failed as soon as one condition failed, Success otherwise. */
  function CalculateSessionState(conditions: seq<Condition>): (state: string)
    ensures state == StateFailed <==> exists i :: 0 <= i < |conditions| && IsFailed(conditions[i])
    ensures state == StateSuccess <==> !exists i :: 0 <= i < |conditions| && IsFailed(conditions[i])
  {
    AnyFailedIff(conditions);
    if AnyFailed(conditions) then StateFailed else StateSuccess
  }

  /** The scan of `refSuccessful`: stops at the first failed condition recorded for `refName`. */
  predicate RefFailed(refName: string, conditions: seq<Condition>)
  {
    |conditions| > 0
    && ((conditions[0].Source.Ref == refName && IsFailed(conditions[0])) || RefFailed(refName, conditions[1..]))
  }

  lemma {:induction false} RefFailedIff(refName: string, conditions: seq<Condition>)
    ensures RefFailed(refName, conditions) <==>
      exists i :: 0 <= i < |conditions| && conditions[i].Source.Ref == refName && IsFailed(conditions[i])
  {
    if |conditions| > 0 {
      RefFailedIff(refName, conditions[1..]);
      if exists i :: 0 <= i < |conditions| && conditions[i].Source.Ref == refName && IsFailed(conditions[i]) {
        var i :| 0 <= i < |conditions| && conditions[i].Source.Ref == refName && IsFailed(conditions[i]);
        if i > 0 {
          assert conditions[1..][i - 1] == conditions[i];
        }
      }
    }
  }

  /** A ref succeeded unless some condition recorded for it failed. */
  function RefSuccessful(ref: M.Ref, conditions: seq<Condition>): (ok: bool)
    ensures !ok <==> exists i :: 0 <= i < |conditions| && conditions[i].Source.Ref == ref.KindName.String() && IsFailed(conditions[i])
  {
    RefFailedIff(ref.KindName.String(), conditions);
    !RefFailed(ref.KindName.String(), conditions)
  }

  /** In a successful session every ref is successful: no failed condition is sourced from it. */
  lemma SuccessfulStateKeepsRefs(conditions: seq<Condition>, ref: M.Ref)
    requires CalculateSessionState(conditions) == StateSuccess
    ensures RefSuccessful(ref, conditions)
  {
  }

  /** The conditions recorded for other refs, in order. */
  function ConditionsNotOf(conditions: seq<Condition>, refName: string): seq<Condition>
  {
    Filter(conditions, (c: Condition) => c.Source.Ref != refName)
  }

  /** Exactly the conditions of other refs survive, each as often as before. */
  lemma ConditionsNotOfContent(conditions: seq<Condition>, refName: string)
    ensures forall c :: multiset(ConditionsNotOf(conditions, refName))[c] == if c.Source.Ref != refName then multiset(conditions)[c] else 0
    ensures forall c :: c in ConditionsNotOf(conditions, refName) ==> c.Source.Ref != refName
  {
    FilterContent(conditions, (c: Condition) => c.Source.Ref != refName);
    FilterAll(conditions, (c: Condition) => c.Source.Ref != refName);
  }

  /**
   * Once a deleted ref has been removed without failures, the conditions recorded for it are
   * dropped; otherwise they are kept so the failure stays visible.
   */
  method CleanupRelatedConditionsOnRemoval(ref: M.Ref, session: Session)
    modifies session
    ensures ref.Deleted && RefSuccessful(ref, old(session.Conditions)) ==>
      session.Conditions == ConditionsNotOf(old(session.Conditions), ref.KindName.String())
    ensures !(ref.Deleted && RefSuccessful(ref, old(session.Conditions))) ==> session.Conditions == old(session.Conditions)
    ensures unchanged(session`Finalizers) && unchanged(session`StatusRefs) && unchanged(session`SpecRefs)
  {
    if ref.Deleted && RefSuccessful(ref, session.Conditions) {
      var refName := ref.KindName.String();
      var others: seq<Condition> := [];
      var i := 0;
      while i < |session.Conditions|
        invariant 0 <= i <= |session.Conditions|
        invariant others == ConditionsNotOf(session.Conditions[..i], refName)
      {
        var condition := session.Conditions[i];
        if condition.Source.Ref != refName {
          others := others + [condition];
        }
        assert session.Conditions[..i + 1][..i] == session.Conditions[..i];
        i := i + 1;
      }
      assert session.Conditions[..i] == session.Conditions;
      session.Conditions := others;
    }
  }

  /** After the cleanup the session state no longer reflects the removed ref. */
  lemma CleanupKeepsState(conditions: seq<Condition>, ref: M.Ref)
    requires RefSuccessful(ref, conditions)
    ensures CalculateSessionState(ConditionsNotOf(conditions, ref.KindName.String())) == CalculateSessionState(conditions)
  {
    var refName := ref.KindName.String();
    var kept := ConditionsNotOf(conditions, refName);
    ConditionsNotOfContent(conditions, refName);
    if exists i :: 0 <= i < |conditions| && IsFailed(conditions[i]) {
      var i :| 0 <= i < |conditions| && IsFailed(conditions[i]);
      assert conditions[i].Source.Ref != refName;
      assert multiset(kept)[conditions[i]] > 0;
      assert conditions[i] in kept;
      var k :| 0 <= k < |kept| && kept[k] == conditions[i];
    }
    if exists i :: 0 <= i < |kept| && IsFailed(kept[i]) {
      var i :| 0 <= i < |kept| && IsFailed(kept[i]);
      assert multiset(kept)[kept[i]] > 0;
      assert kept[i] in conditions;
    }
  }

  /** What the controller reads of a modificator's report. */
  datatype Modified = Modified(
    Kind: string, Name: string, Action: M.StatusAction, Error: Option<string>, Success: bool, Target: Option<Target>)

  /** The reason of a condition: the kind of change an action makes. */
  function ReasonFor(action: M.StatusAction): string
  {
    if action == M.ActionCreate || action == M.ActionDelete || action == M.ActionLocated then "Handled"
    else if action == M.ActionModify || action == M.ActionRevert then "Configured"
    else ""
  }

  /** Undoing an action is the same kind of change as the action. */
  lemma ReasonForFlip(action: M.StatusAction)
    requires M.IsKnownAction(action)
    ensures ReasonFor(M.Flip(action)) == ReasonFor(action)
    ensures ReasonFor(action) != ""
  {
  }

  /** "kind/name modified to satisfy ref: " followed by the error or "ok". */
  function ModifiedMessage(refName: string, modified: Modified): (m: string)
    ensures modified.Error.Some? ==> HasSuffix(m, ": " + modified.Error.value)
    ensures modified.Error.None? ==> HasSuffix(m, ": ok")
    ensures HasPrefix(m, modified.Kind + "/" + modified.Name + " modified to satisfy " + refName)
  {
    var head := modified.Kind + "/" + modified.Name + " modified to satisfy " + refName + ": ";
    var m := head + if modified.Error.Some? then modified.Error.value else "ok";
    assert m[..|modified.Kind + "/" + modified.Name + " modified to satisfy " + refName|]
      == modified.Kind + "/" + modified.Name + " modified to satisfy " + refName;
    m
  }

  /** The condition `addCondition` records for a modification. */
  function ModifiedCondition(ref: M.Ref, modified: Modified): (c: Condition)
    ensures c.Source == Source(modified.Kind, modified.Name, ref.KindName.String())
    ensures c.Reason == Some(ReasonFor(modified.Action)) && c.Type == Some(modified.Action)
    ensures c.Status == Some(FormatBool(modified.Success))
    ensures c.Message == Some(ModifiedMessage(ref.KindName.String(), modified))
    ensures c.Target == modified.Target
  {
    Condition(
      Source(modified.Kind, modified.Name, ref.KindName.String()),
      modified.Target,
      Some(ModifiedMessage(ref.KindName.String(), modified)),
      Some(ReasonFor(modified.Action)),
      Some(FormatBool(modified.Success)),
      Some(modified.Action))
  }

  method AddCondition(session: Session, ref: M.Ref, modified: Modified)
    modifies session
    ensures session.Conditions == old(session.Conditions) + [ModifiedCondition(ref, modified)]
    ensures unchanged(session`Finalizers) && unchanged(session`StatusRefs) && unchanged(session`SpecRefs)
  {
    session.AddCondition(ModifiedCondition(ref, modified));
  }

  /** A failed modification, and only a failed one, turns the session state to Failed. */
  lemma ModifiedConditionState(conditions: seq<Condition>, ref: M.Ref, modified: Modified)
    ensures CalculateSessionState(conditions + [ModifiedCondition(ref, modified)]) == StateFailed
      <==> CalculateSessionState(conditions) == StateFailed || !modified.Success
  {
    var cs := conditions + [ModifiedCondition(ref, modified)];
    assert cs[|conditions|] == ModifiedCondition(ref, modified);
    assert forall i :: 0 <= i < |conditions| ==> cs[i] == conditions[i];
  }

  predicate IsDeleted(r: M.Ref)
  {
    r.Deleted
  }

  /** The ref reconstructed from a condition's ref name, for a ref that left the spec. */
  function DeletedRef(name: string): (r: M.Ref)
    ensures r.Deleted && r.KindName == M.ParseRefKindName(name)
  {
    M.Ref(M.ParseRefKindName(name), true, "", "", map[])
  }

  /** The ref names of the recorded conditions. */
  function ConditionRefs(conditions: seq<Condition>): set<string>
  {
    set c | c in conditions :: c.Source.Ref
  }

  /** No ref of the list is written `key`. */
  predicate Orphan(key: string, live: seq<M.Ref>)
  {
    forall j :: 0 <= j < |live| ==> live[j].KindName.String() != key
  }

  /** A ref added for a condition ref that no spec ref is written as. */
  predicate IsAdded(r: M.Ref, keys: set<string>, live: seq<M.Ref>)
  {
    exists key :: key in keys && r == DeletedRef(key) && Orphan(key, live)
  }

  /** Some ref of the list stands for the condition ref `key`. */
  predicate Covered(key: string, refs: seq<M.Ref>)
  {
    exists r :: r in refs && (r.KindName.String() == key || r == DeletedRef(key))
  }

  /** The spec refs as model refs, each marked deleted when the session is being deleted. */
  function LiveRefs(specRefs: seq<Ref>, deleting: bool, convert: Ref -> M.Ref): (live: seq<M.Ref>)
    ensures |live| == |specRefs|
    ensures forall k :: 0 <= k < |specRefs| ==> live[k] == convert(specRefs[k]).(Deleted := deleting)
  {
    if |specRefs| == 0 then []
    else LiveRefs(specRefs[..|specRefs| - 1], deleting, convert) + [convert(specRefs[|specRefs| - 1]).(Deleted := deleting)]
  }

  /** The controller's loop over the spec refs. */
  method ConvertSpecRefs(specRefs: seq<Ref>, deleting: bool, convert: Ref -> M.Ref) returns (live: seq<M.Ref>)
    ensures live == LiveRefs(specRefs, deleting, convert)
  {
    live := [];
    var i := 0;
    while i < |specRefs|
      invariant 0 <= i <= |specRefs| && |live| == i
      invariant live == LiveRefs(specRefs[..i], deleting, convert)
    {
      assert specRefs[..i + 1][..i] == specRefs[..i];
      live := live + [convert(specRefs[i]).(Deleted := deleting)];
      i := i + 1;
    }
    assert specRefs[..i] == specRefs;
  }

  /** Whether some ref of the list is written `key`: the inner scan of the controller. */
  method FindWritten(refs: seq<M.Ref>, key: string) returns (found: bool)
    ensures found <==> exists r :: r in refs && r.KindName.String() == key
  {
    found := false;
    var j := 0;
    while j < |refs| && !found
      invariant 0 <= j <= |refs|
      invariant found <==> exists k :: 0 <= k < j && refs[k].KindName.String() == key
    {
      if refs[j].KindName.String() == key {
        found := true;
      }
      j := j + 1;
    }
    if found {
      var k :| 0 <= k < j && refs[k].KindName.String() == key;
      assert refs[k] in refs;
    }
  }

  /** Appending keeps every key covered and every appended ref accounted for. */
  lemma AppendDeleted(all: seq<M.Ref>, live: seq<M.Ref>, keys: set<string>, done: set<string>, key: string)
    requires |live| <= |all| && all[..|live|] == live
    requires forall k :: |live| <= k < |all| ==> IsAdded(all[k], keys, live)
    requires forall d :: d in done ==> Covered(d, all)
    requires key in keys && Orphan(key, live)
    ensures var all' := all + [DeletedRef(key)];
      all'[..|live|] == live
      && (forall k :: |live| <= k < |all'| ==> IsAdded(all'[k], keys, live))
      && forall d :: d in done + {key} ==> Covered(d, all')
  {
    var all' := all + [DeletedRef(key)];
    assert all'[..|all|] == all;
    assert all'[|all|] in all';
    forall d | d in done ensures Covered(d, all') {
      var r :| r in all && (r.KindName.String() == d || r == DeletedRef(d));
      assert r in all';
    }
  }

  /** Appends a deleted ref for each key, in arbitrary order, unless some ref so far is written as it. */
  method AddDeletedRefs(live: seq<M.Ref>, keys: set<string>) returns (all: seq<M.Ref>)
    ensures |live| <= |all| && all[..|live|] == live && |all| <= |live| + |keys|
    ensures forall k :: |live| <= k < |all| ==> IsAdded(all[k], keys, live)
    ensures forall key :: key in keys ==> Covered(key, all)
  {
    var remaining := keys;
    ghost var done: set<string> := {};
    all := live;
    while remaining != {}
      invariant remaining + done == keys && remaining !! done
      invariant |live| <= |all| && all[..|live|] == live
      invariant |all| - |live| <= |done|
      invariant forall k :: |live| <= k < |all| ==> IsAdded(all[k], keys, live)
      invariant forall d :: d in done ==> Covered(d, all)
      decreases remaining
    {
      var key :| key in remaining;
      var found := FindWritten(all, key);
      if !found {
        assert Orphan(key, live) by {
          forall j | 0 <= j < |live| ensures live[j].KindName.String() != key {
            assert live[j] == all[j] && all[j] in all;
          }
        }
        AppendDeleted(all, live, keys, done, key);
        all := all + [DeletedRef(key)];
      }
      remaining := remaining - {key};
      done := done + {key};
    }
  }

  /**
   * The refs to reconcile: every spec ref, marked deleted when the session is being deleted, and a
   * deleted ref for every condition ref no ref in the list has yet; deleted refs come first.
   * `convert` is the conversion of a spec ref into a model ref.
   */
  method CalculateReferences(specRefs: seq<Ref>, deleting: bool, conditions: seq<Condition>, convert: Ref -> M.Ref)
    returns (refs: seq<M.Ref>)
    ensures forall r :: r in LiveRefs(specRefs, deleting, convert) ==> r in refs
    ensures forall r :: r in refs ==>
      r in LiveRefs(specRefs, deleting, convert) || IsAdded(r, ConditionRefs(conditions), LiveRefs(specRefs, deleting, convert))
    ensures forall key :: key in ConditionRefs(conditions) ==> Covered(key, refs)
    ensures |refs| <= |specRefs| + |ConditionRefs(conditions)|
    ensures Partitioned(refs, IsDeleted)
  {
    var live := ConvertSpecRefs(specRefs, deleting, convert);
    var all := AddDeletedRefs(live, ConditionRefs(conditions));
    refs := StablePartition(all, IsDeleted);
    SameElements(all, refs, live, ConditionRefs(conditions));
  }

  lemma SameElements(all: seq<M.Ref>, refs: seq<M.Ref>, live: seq<M.Ref>, keys: set<string>)
    requires refs == StablePartition(all, IsDeleted)
    requires |live| <= |all| && all[..|live|] == live
    requires forall k :: |live| <= k < |all| ==> IsAdded(all[k], keys, live)
    requires forall key :: key in keys ==> Covered(key, all)
    ensures Partitioned(refs, IsDeleted) && |refs| == |all|
    ensures forall r :: r in live ==> r in refs
    ensures forall r :: r in refs ==> r in live || IsAdded(r, keys, live)
    ensures forall key :: key in keys ==> Covered(key, refs)
  {
    StablePartitionPermutes(all, IsDeleted);
    StablePartitionOrders(all, IsDeleted);
    assert forall r :: r in refs <==> r in all by {
      forall r ensures r in refs <==> r in all {
        assert r in refs <==> r in multiset(refs);
        assert r in all <==> r in multiset(all);
      }
    }
    assert |refs| == |all| by {
      assert |multiset(refs)| == |multiset(all)|;
    }
    forall r | r in live ensures r in all {
      var k :| 0 <= k < |live| && live[k] == r;
      assert all[k] == r;
    }
    assert forall k :: 0 <= k < |live| ==> all[k] in live;
    forall r | r in all && r !in live ensures IsAdded(r, keys, live) {
      var k :| 0 <= k < |all| && all[k] == r;
    }
    forall key | key in keys ensures Covered(key, refs) {
      assert Covered(key, all);
    }
  }

  /** The distinct entries of a list, in the arbitrary order Go iterates a map in. */
  method Unique(s: seq<string>) returns (r: seq<string>)
    ensures forall x :: x in r <==> x in s
    ensures forall i, j :: 0 <= i < j < |r| ==> r[i] != r[j]
  {
    var entries := set x | x in s;
    r := [];
    var rest := entries;
    while rest != {}
      invariant rest <= entries
      invariant forall x :: x in r <==> x in entries - rest
      invariant forall i, j :: 0 <= i < j < |r| ==> r[i] != r[j]
      decreases rest
    {
      var k :| k in rest;
      assert k !in r;
      r := r + [k];
      rest := rest - {k};
    }
  }
}
