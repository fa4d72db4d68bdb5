/**
 * The validations the session controller runs before modifying anything,
 * `controllers/session/validation.go`: each validator looks into the located resources and
 * names a condition type and, when it fails, an error; the chain records one condition per
 * validator and lets the modifications go ahead only when none failed.
 */
module Validation {
  import opened Wrappers
  import opened GoStrings
  import opened SessionApi
  import M = ModelTypes
  import SC = SessionController

  /** What a validator returns: a condition type and possibly an error message. */
  datatype Outcome = Outcome(TypeName: string, Error: Option<string>)

  type Validator = M.StoreView -> Outcome

  /** There is a located resource of the kind. */
  function ResourceFound(kind: string, store: M.StoreView): (o: Outcome)
    ensures o.TypeName == kind + "Found"
    ensures o.Error.None? <==> |store([kind])| > 0
    ensures o.Error.Some? ==> o.Error.value == "no " + kind + " found"
  {
    if |store([kind])| == 0 then Outcome(kind + "Found", Some("no " + kind + " found"))
    else Outcome(kind + "Found", None)
  }

  /** There is a located Deployment or DeploymentConfig. */
  function TargetFound(store: M.StoreView): (o: Outcome)
    ensures o.TypeName == "TargetFound"
    ensures o.Error.None? <==> |store(["DeploymentConfig"])| > 0 || |store(["Deployment"])| > 0
  {
    if |store(["DeploymentConfig"])| == 0 && |store(["Deployment"])| == 0 then
      Outcome("TargetFound", Some("no target Deployment or DeploymentConfig found"))
    else Outcome("TargetFound", None)
  }

  /** A target is found exactly when one of the two resource checks passes. */
  lemma TargetFoundEither(store: M.StoreView)
    ensures TargetFound(store).Error.None?
      <==> ResourceFound("DeploymentConfig", store).Error.None? || ResourceFound("Deployment", store).Error.None?
  {
  }

  /** The condition recorded for one validation of a ref of the named session. */
  function ValidationCondition(sessionName: string, ref: M.Ref, o: Outcome): (c: Condition)
    ensures c.Source == Source("Session", sessionName, ref.KindName.String())
    ensures c.Reason == Some("Validation") && c.Type == Some(o.TypeName)
    ensures SC.IsFailed(c) <==> o.Error.Some?
    ensures c.Message == Some(if o.Error.Some? then o.Error.value else "")
  {
    Condition(
      Source("Session", sessionName, ref.KindName.String()),
      None,
      Some(if o.Error.Some? then o.Error.value else ""),
      Some("Validation"),
      Some(FormatBool(o.Error.None?)),
      Some(o.TypeName))
  }

  /** The conditions recorded for the validators, in order. */
  function ValidationConditions(sessionName: string, ref: M.Ref, validators: seq<Validator>, store: M.StoreView): (cs: seq<Condition>)
    ensures |cs| == |validators|
    ensures forall i :: 0 <= i < |validators| ==> cs[i] == ValidationCondition(sessionName, ref, validators[i](store))
  {
    if |validators| == 0 then []
    else
      ValidationConditions(sessionName, ref, validators[..|validators| - 1], store)
      + [ValidationCondition(sessionName, ref, validators[|validators| - 1](store))]
  }

  /**
   * Runs every validator, records a condition for each and answers whether the modifications may
   * go ahead: exactly when no validator reported an error.
   */
  method ChainValidator(sessionName: string, ref: M.Ref, session: Session, validators: seq<Validator>, store: M.StoreView)
    returns (ok: bool)
    modifies session
    ensures session.Conditions == old(session.Conditions) + ValidationConditions(sessionName, ref, validators, store)
    ensures ok <==> forall i :: 0 <= i < |validators| ==> validators[i](store).Error.None?
    ensures unchanged(session`Finalizers) && unchanged(session`StatusRefs) && unchanged(session`SpecRefs)
  {
    var hasError := false;
    var i := 0;
    ghost var before := session.Conditions;
    while i < |validators|
      invariant 0 <= i <= |validators|
      invariant session.Conditions == before + ValidationConditions(sessionName, ref, validators[..i], store)
      invariant hasError <==> exists k :: 0 <= k < i && validators[k](store).Error.Some?
      invariant unchanged(session`Finalizers) && unchanged(session`StatusRefs) && unchanged(session`SpecRefs)
    {
      var o := validators[i](store);
      if o.Error.Some? {
        hasError := true;
      }
      session.AddCondition(ValidationCondition(sessionName, ref, o));
      ConditionsStep(before, sessionName, ref, validators, i, store);
      i := i + 1;
    }
    assert validators[..i] == validators;
    ok := !hasError;
  }

  lemma ConditionsStep(before: seq<Condition>, sessionName: string, ref: M.Ref, validators: seq<Validator>, i: nat, store: M.StoreView)
    requires i < |validators|
    ensures before + ValidationConditions(sessionName, ref, validators[..i], store) + [ValidationCondition(sessionName, ref, validators[i](store))]
      == before + ValidationConditions(sessionName, ref, validators[..i + 1], store)
  {
    assert validators[..i + 1][..i] == validators[..i];
  }

  /**
   * After the chain the session is failed exactly when it was before or the chain refused: the
   * gate and the recorded state agree.
   */
  lemma {:induction false} ChainState(conditions: seq<Condition>, sessionName: string, ref: M.Ref, validators: seq<Validator>, store: M.StoreView)
    ensures SC.CalculateSessionState(conditions + ValidationConditions(sessionName, ref, validators, store)) == StateFailed
      <==> SC.CalculateSessionState(conditions) == StateFailed || exists i :: 0 <= i < |validators| && validators[i](store).Error.Some?
  {
    var added := ValidationConditions(sessionName, ref, validators, store);
    var cs := conditions + added;
    assert forall i :: 0 <= i < |conditions| ==> cs[i] == conditions[i];
    assert forall i :: 0 <= i < |added| ==> cs[|conditions| + i] == added[i];
    if exists i :: 0 <= i < |validators| && validators[i](store).Error.Some? {
      var i :| 0 <= i < |validators| && validators[i](store).Error.Some?;
      assert SC.IsFailed(cs[|conditions| + i]);
    }
    if exists j :: 0 <= j < |cs| && SC.IsFailed(cs[j]) {
      var j :| 0 <= j < |cs| && SC.IsFailed(cs[j]);
      if j >= |conditions| {
        assert SC.IsFailed(added[j - |conditions|]);
      }
    }
  }
}
