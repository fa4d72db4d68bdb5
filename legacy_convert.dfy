/**
 * The older conversions of `pkg/controller/session/model_convert.go`. They store and remove a
 * ref's status record exactly as the newer ones do, but record only the kind, name and action of
 * each target and resource, read only those back, and add nothing to the conditions. The route
 * default and `RefUpdated` are the same code as in the newer file and are shared with it.
 */
module LegacyConvert {
  import opened Wrappers
  import opened SessionApi
  import MC = ModelConvert

  /** A located target as recorded in the older status: kind, name, action and labels. */
  function ConvertTarget(t: MC.LocatedResourceStatus): (l: LabeledRefResource)
    ensures l.Resource.Kind == Some(t.Status.Kind) && l.Resource.Name == Some(t.Status.Name)
    ensures l.Resource.Action == Some(t.Status.Action) && l.Labels == t.Labels
    ensures l.Resource.LastTransitionTime.None? && l.Resource.Prop == map[]
    ensures l.Resource.Message.None? && l.Resource.Reason.None? && l.Resource.Status.None? && l.Resource.Type.None?
    ensures MC.Complete(l.Resource)
  {
    LabeledRefResource(RefResource(Some(t.Status.Kind), Some(t.Status.Name), Some(t.Status.Action), None, map[], None, None, None, None), t.Labels)
  }

  /** A touched resource as recorded in the older status: name, kind and action only. */
  function ConvertResource(rs: MC.ResourceStatus): (r: RefResource)
    ensures r.Kind == Some(rs.Kind) && r.Name == Some(rs.Name) && r.Action == Some(rs.Action)
    ensures r.LastTransitionTime.None? && r.Prop == map[]
    ensures r.Message.None? && r.Reason.None? && r.Status.None? && r.Type.None?
    ensures MC.Complete(r)
  {
    RefResource(Some(rs.Kind), Some(rs.Name), Some(rs.Action), None, map[], None, None, None, None)
  }

  function StatusOf(ref: MC.ModelRef): (sr: RefStatus)
    ensures sr.Ref == Ref(ref.Name, ref.Strategy, ref.Args)
    ensures |sr.Targets| == |ref.Targets| && forall i :: 0 <= i < |ref.Targets| ==> sr.Targets[i] == ConvertTarget(ref.Targets[i])
    ensures |sr.Resources| == |ref.ResourceStatuses|
    ensures forall i :: 0 <= i < |ref.ResourceStatuses| ==> sr.Resources[i] == ConvertResource(ref.ResourceStatuses[i])
  {
    RefStatus(
      Ref(ref.Name, ref.Strategy, ref.Args),
      seq(|ref.Targets|, i requires 0 <= i < |ref.Targets| => ConvertTarget(ref.Targets[i])),
      seq(|ref.ResourceStatuses|, i requires 0 <= i < |ref.ResourceStatuses| => ConvertResource(ref.ResourceStatuses[i])))
  }

  /** What the older reading keeps of a resource status: kind, name and action. */
  function Strip(rs: MC.ResourceStatus): MC.ResourceStatus
  {
    MC.ResourceStatus(rs.Kind, rs.Name, rs.Action, 0, map[])
  }

  /** A model ref with every status stripped to what the older code records. */
  function StripRef(ref: MC.ModelRef): (r: MC.ModelRef)
    ensures r.Name == ref.Name && r.Namespace == ref.Namespace && r.Strategy == ref.Strategy && r.Args == ref.Args
    ensures |r.Targets| == |ref.Targets| && |r.ResourceStatuses| == |ref.ResourceStatuses|
    ensures forall i :: 0 <= i < |ref.Targets| ==>
      r.Targets[i].Labels == ref.Targets[i].Labels && r.Targets[i].Status == Strip(ref.Targets[i].Status)
  {
    ref.(
      Targets := seq(|ref.Targets|, i requires 0 <= i < |ref.Targets| => ref.Targets[i].(Status := Strip(ref.Targets[i].Status))),
      ResourceStatuses := seq(|ref.ResourceStatuses|, i requires 0 <= i < |ref.ResourceStatuses| => Strip(ref.ResourceStatuses[i])))
  }

  /** The model ref the older code reads from a status record. */
  function ModelRefOf(refs: seq<RefStatus>, namespace: string, sr: RefStatus): (r: MC.ModelRef)
    requires MC.AllComplete(refs)
    ensures r.Name == sr.Ref.Name && r.Namespace == namespace && r.Strategy == sr.Ref.Strategy && r.Args == sr.Ref.Args
  {
    StripRef(MC.ModelRefOf(refs, namespace, sr))
  }

  /** Records a ref in the older status; the conditions are left alone. */
  method ConvertModelRefToAPIStatus(ref: MC.ModelRef, session: MC.SessionStatus)
    modifies session
    ensures session.Refs == MC.Upserted(old(session.Refs), StatusOf(ref))
    ensures session.Conditions == old(session.Conditions)
  {
    var targets: seq<LabeledRefResource> := [];
    var i := 0;
    while i < |ref.Targets|
      invariant 0 <= i <= |ref.Targets| && |targets| == i
      invariant forall k :: 0 <= k < i ==> targets[k] == ConvertTarget(ref.Targets[k])
    {
      targets := targets + [ConvertTarget(ref.Targets[i])];
      i := i + 1;
    }
    var resources: seq<RefResource> := [];
    i := 0;
    while i < |ref.ResourceStatuses|
      invariant 0 <= i <= |ref.ResourceStatuses| && |resources| == i
      invariant forall k :: 0 <= k < i ==> resources[k] == ConvertResource(ref.ResourceStatuses[k])
    {
      resources := resources + [ConvertResource(ref.ResourceStatuses[i])];
      i := i + 1;
    }
    var statusRef := RefStatus(Ref(ref.Name, ref.Strategy, ref.Args), targets, resources);
    assert statusRef == StatusOf(ref);
    session.UpsertRef(statusRef);
  }

  /** One model ref per status record, in order, each in the session's namespace. */
  method ConvertAPIStatusesToModelRefs(namespace: string, statusRefs: seq<RefStatus>) returns (refs: seq<MC.ModelRef>)
    requires MC.AllComplete(statusRefs)
    ensures |refs| == |statusRefs|
    ensures forall i :: 0 <= i < |statusRefs| ==> refs[i] == ModelRefOf(statusRefs, namespace, statusRefs[i])
  {
    refs := [];
    var i := 0;
    while i < |statusRefs|
      invariant 0 <= i <= |statusRefs| && |refs| == i
      invariant forall k :: 0 <= k < i ==> refs[k] == ModelRefOf(statusRefs, namespace, statusRefs[k])
    {
      refs := refs + [ModelRefOf(statusRefs, namespace, statusRefs[i])];
      i := i + 1;
    }
  }

  /**
   * Storing a ref that has resources and reading the older status back gives the ref back with
   * times and properties dropped, as long as the names were unique.
   */
  lemma RoundTrip(refs: seq<RefStatus>, ref: MC.ModelRef)
    requires MC.AllComplete(refs) && MC.UniqueNames(refs)
    requires |ref.ResourceStatuses| > 0
    ensures MC.AllComplete(MC.Upserted(refs, StatusOf(ref)))
    ensures MC.Named(MC.Upserted(refs, StatusOf(ref)), ref.Name) == Some(StatusOf(ref))
    ensures ModelRefOf(MC.Upserted(refs, StatusOf(ref)), ref.Namespace, StatusOf(ref)) == StripRef(ref)
  {
    var sr := StatusOf(ref);
    var r := MC.Upserted(refs, sr);
    MC.UpsertedNamed(refs, sr, ref.Name);
    MC.UpsertedUnique(refs, sr);
    assert MC.AllComplete(r) by {
      forall i | 0 <= i < |r| ensures r[i] in refs || r[i] == sr {
        assert r[i] in r;
      }
    }
    var j := MC.FirstNamed(r, ref.Name).value;
    MC.NamedOnce(r, j);
    var m := MC.ModelRefOf(r, ref.Namespace, sr);
    assert |m.Targets| == |ref.Targets| && |m.ResourceStatuses| == |ref.ResourceStatuses|;
    var back := StripRef(m);
    var want := StripRef(ref);
    assert back.Targets == want.Targets;
    assert back.ResourceStatuses == want.ResourceStatuses;
  }

  /** A ref that already carries only what the older code records comes back unchanged. */
  lemma StrippedRoundTrip(refs: seq<RefStatus>, ref: MC.ModelRef)
    requires MC.AllComplete(refs) && MC.UniqueNames(refs)
    requires |ref.ResourceStatuses| > 0 && StripRef(ref) == ref
    ensures ModelRefOf(MC.Upserted(refs, StatusOf(ref)), ref.Namespace, StatusOf(ref)) == ref
  {
    RoundTrip(refs, ref);
  }
}
