/**
 * The conditions the session controller records, `controllers/session/conditions.go`: one for a
 * located resource and one for a modified resource, each typed by its action and its kind.
 */
module Conditions {
  import opened Wrappers
  import opened GoStrings
  import opened SessionApi
  import M = ModelTypes
  import SC = SessionController

  /** The type of a condition: the action and the kind, each title-cased, e.g. "CreatedDeployment". */
  function CreateType(action: M.StatusAction, kind: string): (t: string)
    ensures |t| == |action| + |kind|
    ensures t[..|action|] == Title(action) && t[|action|..] == Title(kind)
    ensures |kind| > 0 && 'a' <= kind[0] <= 'z' ==> t[|action|] == UpperChar(kind[0])
  {
    var t := Title(action) + Title(kind);
    assert t[..|action|] == Title(action) && t[|action|..] == Title(kind);
    t
  }

  /** Title-casing the parts first yields the same type. */
  lemma CreateTypeTitled(action: M.StatusAction, kind: string)
    ensures CreateType(Title(action), Title(kind)) == CreateType(action, kind)
  {
    TitleIdempotent(action);
    TitleIdempotent(kind);
  }

  /** The message of a located resource: "kind/name status ref: ". */
  function LocatedMessage(refName: string, located: M.LocatorStatus): (m: string)
    ensures HasPrefix(m, located.Kind() + "/" + located.Name())
    ensures HasSuffix(m, " status " + refName + ": ")
  {
    var head := located.Kind() + "/" + located.Name();
    var tail := " status " + refName + ": ";
    var m := head + tail;
    assert m[..|head|] == head && m[|m| - |tail|..] == tail;
    m
  }

  /** The condition recorded when a resource was located for a ref: scheduled, never a failure. */
  function ConditionForLocatedRef(ref: M.Ref, located: M.LocatorStatus): (c: Condition)
    ensures c.Source == Source(located.Kind(), located.Name(), ref.KindName.String())
    ensures c.Target == None
    ensures c.Reason == Some("Scheduled") && c.Status == Some("true")
    ensures c.Type == Some(CreateType(located.Action, located.Kind()))
    ensures c.Message == Some(LocatedMessage(ref.KindName.String(), located))
    ensures !SC.IsFailed(c)
  {
    Condition(
      Source(located.Kind(), located.Name(), ref.KindName.String()),
      None,
      Some(LocatedMessage(ref.KindName.String(), located)),
      Some("Scheduled"),
      Some("true"),
      Some(CreateType(located.Action, located.Kind())))
  }

  /**
   * The condition recorded when a resource was modified for a ref: applied, with the outcome as
   * status, the error or "ok" in the message, and the target when the modification names one.
   */
  function ConditionForModifiedRef(ref: M.Ref, modified: SC.Modified): (c: Condition)
    ensures c.Source == Source(modified.Kind, modified.Name, ref.KindName.String())
    ensures c.Target.Some? <==> modified.Target.Some?
    ensures c.Target.Some? ==> c.Target.value.Kind == modified.Target.value.Kind && c.Target.value.Name == modified.Target.value.Name
    ensures c.Reason == Some("Applied")
    ensures c.Type == Some(CreateType(modified.Action, modified.Kind))
    ensures c.Message == Some(SC.ModifiedMessage(ref.KindName.String(), modified))
    ensures SC.IsFailed(c) <==> !modified.Success
  {
    var target := if modified.Target.Some? then Some(Target(modified.Target.value.Kind, modified.Target.value.Name)) else None;
    Condition(
      Source(modified.Kind, modified.Name, ref.KindName.String()),
      target,
      Some(SC.ModifiedMessage(ref.KindName.String(), modified)),
      Some("Applied"),
      Some(FormatBool(modified.Success)),
      Some(CreateType(modified.Action, modified.Kind)))
  }

  /** Recording a located resource leaves the session state as it was. */
  lemma {:induction false} LocatedKeepsState(conditions: seq<Condition>, ref: M.Ref, located: M.LocatorStatus)
    ensures SC.CalculateSessionState(conditions + [ConditionForLocatedRef(ref, located)]) == SC.CalculateSessionState(conditions)
  {
    var cs := conditions + [ConditionForLocatedRef(ref, located)];
    assert forall i :: 0 <= i < |conditions| ==> cs[i] == conditions[i];
    assert !SC.IsFailed(cs[|conditions|]);
  }

  /** Recording a modification fails the session exactly when it failed or the session had already. */
  lemma {:induction false} ModifiedState(conditions: seq<Condition>, ref: M.Ref, modified: SC.Modified)
    ensures SC.CalculateSessionState(conditions + [ConditionForModifiedRef(ref, modified)]) == StateFailed
      <==> SC.CalculateSessionState(conditions) == StateFailed || !modified.Success
  {
    var cs := conditions + [ConditionForModifiedRef(ref, modified)];
    assert cs[|conditions|] == ConditionForModifiedRef(ref, modified);
    assert forall i :: 0 <= i < |conditions| ==> cs[i] == conditions[i];
  }

  /** A failed modification makes its ref unsuccessful, so its conditions survive the cleanup. */
  lemma {:induction false} FailedModificationBlocksCleanup(conditions: seq<Condition>, ref: M.Ref, modified: SC.Modified)
    requires !modified.Success
    ensures !SC.RefSuccessful(ref, conditions + [ConditionForModifiedRef(ref, modified)])
  {
    var cs := conditions + [ConditionForModifiedRef(ref, modified)];
    assert cs[|conditions|].Source.Ref == ref.KindName.String() && SC.IsFailed(cs[|conditions|]);
  }
}
