/**
 * The conversions between the model's refs and the Session's status,
 * `controllers/session/model_convert.go`: a ref's located targets and touched resources become a
 * status record that is added to, replaces or is removed from the session's list, and the list
 * is read back into model refs. The model ref of this revision keeps the statuses of its targets
 * and resources; its own type is not part of this model and is declared here with the fields the
 * conversions use.
 */
module ModelConvert {
  import opened Wrappers
  import opened GoStrings
  import opened SessionApi
  import M = ModelTypes

  const DefaultRouteHeaderName := "x-workspace-route"
  const RouteStrategyHeader := "header"

  /** The action a failed resource status carries. */
  const ActionFailed := "failed"

  /** A clock reading; 0 is Go's zero time. */
  type Time = int

  /** What happened to one resource on behalf of a ref. */
  datatype ResourceStatus = ResourceStatus(Kind: string, Name: string, Action: string, TimeStamp: Time, Prop: map<string, string>)

  /** A located target with its labels. */
  datatype LocatedResourceStatus = LocatedResourceStatus(Status: ResourceStatus, Labels: map<string, string>)

  /** A model ref of this revision. */
  datatype ModelRef = ModelRef(
    Name: string, Namespace: string, Strategy: string, Args: RefArgs,
    Targets: seq<LocatedResourceStatus>, ResourceStatuses: seq<ResourceStatus>)

  /** A located target as recorded in the status: kind, name, action, time and labels. */
  function ConvertTarget(t: LocatedResourceStatus): (l: LabeledRefResource)
    ensures l.Resource.Kind == Some(t.Status.Kind) && l.Resource.Name == Some(t.Status.Name)
    ensures l.Resource.Action == Some(t.Status.Action) && l.Resource.LastTransitionTime == Some(t.Status.TimeStamp)
    ensures l.Labels == t.Labels && l.Resource.Prop == map[]
    ensures Complete(l.Resource)
  {
    LabeledRefResource(
      RefResource(Some(t.Status.Kind), Some(t.Status.Name), Some(t.Status.Action), Some(t.Status.TimeStamp), map[], None, None, None, None),
      t.Labels)
  }

  /**
   * A touched resource as recorded in the status: its status is "true" unless the action failed,
   * its reason the kind followed by the title-cased action, its type the kind.
   */
  function ConvertResource(rs: ResourceStatus): (r: RefResource)
    ensures r.Kind == Some(rs.Kind) && r.Name == Some(rs.Name) && r.Action == Some(rs.Action)
    ensures r.Prop == rs.Prop && r.LastTransitionTime == Some(rs.TimeStamp)
    ensures r.Status == Some("true") <==> rs.Action != ActionFailed
    ensures r.Status == Some("false") <==> rs.Action == ActionFailed
    ensures r.Reason == Some(rs.Kind + Title(rs.Action)) && r.Type == Some(rs.Kind)
    ensures r.Message == Some("Because we needed to " + rs.Action + " on a " + rs.Kind)
    ensures Complete(r)
  {
    RefResource(
      Some(rs.Kind), Some(rs.Name), Some(rs.Action), Some(rs.TimeStamp), rs.Prop,
      Some("Because we needed to " + rs.Action + " on a " + rs.Kind),
      Some(rs.Kind + Title(rs.Action)),
      Some(FormatBool(rs.Action != ActionFailed)),
      Some(rs.Kind))
  }

  /** The status record of a ref: its name, strategy and arguments, its targets and its resources. */
  function StatusOf(ref: ModelRef): (sr: RefStatus)
    ensures sr.Ref == Ref(ref.Name, ref.Strategy, ref.Args)
    ensures |sr.Targets| == |ref.Targets| && forall i :: 0 <= i < |ref.Targets| ==> sr.Targets[i] == ConvertTarget(ref.Targets[i])
    ensures |sr.Resources| == |ref.ResourceStatuses|
    ensures forall i :: 0 <= i < |ref.ResourceStatuses| ==> sr.Resources[i] == ConvertResource(ref.ResourceStatuses[i])
  {
    RefStatus(
      Ref(ref.Name, ref.Strategy, ref.Args),
      seq(|ref.Targets|, i requires 0 <= i < |ref.Targets| => ConvertTarget(ref.Targets[i])),
      seq(|ref.ResourceStatuses|, i requires 0 <= i < |ref.ResourceStatuses| => ConvertResource(ref.ResourceStatuses[i])))
  }

  /** The fields the reading side dereferences are set. */
  predicate Complete(r: RefResource)
  {
    r.Kind.Some? && r.Name.Some? && r.Action.Some?
  }

  predicate AllComplete(refs: seq<RefStatus>)
  {
    forall i :: 0 <= i < |refs| ==>
      (forall j :: 0 <= j < |refs[i].Targets| ==> Complete(refs[i].Targets[j].Resource))
      && (forall j :: 0 <= j < |refs[i].Resources| ==> Complete(refs[i].Resources[j]))
  }

  function TimeOf(r: RefResource): Time
  {
    if r.LastTransitionTime.Some? then r.LastTransitionTime.value else 0
  }

  /** A status target read back; the properties are not read. */
  function TargetToModel(l: LabeledRefResource): (t: LocatedResourceStatus)
    requires Complete(l.Resource)
  {
    LocatedResourceStatus(ResourceStatus(l.Resource.Kind.value, l.Resource.Name.value, l.Resource.Action.value, TimeOf(l.Resource), map[]), l.Labels)
  }

  /** A status resource read back. */
  function ResourceToModel(r: RefResource): (rs: ResourceStatus)
    requires Complete(r)
  {
    ResourceStatus(r.Kind.value, r.Name.value, r.Action.value, TimeOf(r), r.Prop)
  }

  /** Writing a resource into the status and reading it back gives it back. */
  lemma ResourceRoundTrip(rs: ResourceStatus)
    ensures ResourceToModel(ConvertResource(rs)) == rs
  {
  }

  /** A target without properties survives the same round trip. */
  lemma TargetRoundTrip(t: LocatedResourceStatus)
    requires t.Status.Prop == map[]
    ensures TargetToModel(ConvertTarget(t)) == t
  {
  }

  /** The position of the first status ref with the name. */
  function FirstNamed(refs: seq<RefStatus>, name: string): (k: Option<nat>)
    ensures k.Some? ==>
      k.value < |refs| && refs[k.value].Ref.Name == name
      && forall j :: 0 <= j < k.value ==> refs[j].Ref.Name != name
    ensures k.None? ==> forall j :: 0 <= j < |refs| ==> refs[j].Ref.Name != name
  {
    if |refs| == 0 then None
    else if refs[0].Ref.Name == name then Some(0)
    else
      match FirstNamed(refs[1..], name)
      case None => None
      case Some(k) => Some(k + 1)
  }

  /** The first status ref with the name. */
  function Named(refs: seq<RefStatus>, name: string): Option<RefStatus>
  {
    match FirstNamed(refs, name)
    case None => None
    case Some(k) => Some(refs[k])
  }

  predicate UniqueNames(refs: seq<RefStatus>)
  {
    forall i, j :: 0 <= i < j < |refs| ==> refs[i].Ref.Name != refs[j].Ref.Name
  }

  /** With unique names, the record found by a name is the one record carrying it. */
  lemma NamedUnique(refs: seq<RefStatus>, j: nat)
    requires UniqueNames(refs) && j < |refs|
    ensures Named(refs, refs[j].Ref.Name) == Some(refs[j])
  {
  }

  /**
   * The list after storing `sr`: the first record with its name is replaced, or removed when `sr`
   * has no resources; without such a record `sr` is appended.
   */
  function Upserted(refs: seq<RefStatus>, sr: RefStatus): (r: seq<RefStatus>)
    ensures forall x :: x in r ==> x in refs || x == sr
    ensures |refs| - 1 <= |r| <= |refs| + 1
  {
    match FirstNamed(refs, sr.Ref.Name)
    case None => refs + [sr]
    case Some(i) => if |sr.Resources| == 0 then refs[..i] + refs[i + 1..] else refs[i := sr]
  }

  /**
   * Storing a ref's status keeps every target and resource complete, so the records this code
   * writes can always be read back.
   */
  lemma WrittenComplete(refs: seq<RefStatus>, ref: ModelRef)
    requires AllComplete(refs)
    ensures AllComplete(Upserted(refs, StatusOf(ref)))
  {
    var sr := StatusOf(ref);
    var r := Upserted(refs, sr);
    forall i | 0 <= i < |r|
      ensures (forall j :: 0 <= j < |r[i].Targets| ==> Complete(r[i].Targets[j].Resource))
        && (forall j :: 0 <= j < |r[i].Resources| ==> Complete(r[i].Resources[j]))
    {
      assert r[i] in r;
      if r[i] != sr {
        var k :| 0 <= k < |refs| && refs[k] == r[i];
      }
    }
  }

  /** Storing keeps the names unique. */
  lemma UpsertedUnique(refs: seq<RefStatus>, sr: RefStatus)
    requires UniqueNames(refs)
    ensures UniqueNames(Upserted(refs, sr))
  {
    var r := Upserted(refs, sr);
    match FirstNamed(refs, sr.Ref.Name)
    case None =>
    case Some(i) =>
      if |sr.Resources| == 0 {
        assert forall k :: 0 <= k < |r| ==> r[k] == if k < i then refs[k] else refs[k + 1];
      }
  }

  /**
   * With unique names, storing behaves as a keyed upsert: the name now finds `sr`, or nothing when
   * an existing record was dropped for lack of resources, and every other name finds what it did.
   */
  lemma {:induction false} UpsertedNamed(refs: seq<RefStatus>, sr: RefStatus, n: string)
    requires UniqueNames(refs)
    ensures n == sr.Ref.Name ==>
      Named(Upserted(refs, sr), n) == if Named(refs, n).Some? && |sr.Resources| == 0 then None else Some(sr)
    ensures n != sr.Ref.Name ==> Named(Upserted(refs, sr), n) == Named(refs, n)
  {
    var r := Upserted(refs, sr);
    UpsertedUnique(refs, sr);
    match FirstNamed(refs, sr.Ref.Name)
    case None =>
      assert r[|refs|] == sr;
      NamedUnique(r, |refs|);
      if n != sr.Ref.Name {
        UnchangedNamed(refs, r, n);
      }
    case Some(i) =>
      if |sr.Resources| == 0 {
        assert forall k :: 0 <= k < |r| ==> r[k] == if k < i then refs[k] else refs[k + 1];
        assert forall k :: 0 <= k < |r| ==> r[k].Ref.Name != sr.Ref.Name;
        if n != sr.Ref.Name {
          RemovedNamed(refs, i, n);
        }
      } else {
        NamedUnique(r, i);
        if n != sr.Ref.Name {
          ReplacedNamed(refs, i, sr, n);
        }
      }
  }

  lemma UnchangedNamed(refs: seq<RefStatus>, r: seq<RefStatus>, n: string)
    requires UniqueNames(refs) && UniqueNames(r)
    requires |refs| < |r| && r[..|refs|] == refs && forall k :: |refs| <= k < |r| ==> r[k].Ref.Name != n
    ensures Named(r, n) == Named(refs, n)
  {
    assert forall k :: 0 <= k < |refs| ==> r[k] == refs[k];
    if exists k :: 0 <= k < |refs| && refs[k].Ref.Name == n {
      var k :| 0 <= k < |refs| && refs[k].Ref.Name == n;
      NamedUnique(refs, k);
      NamedUnique(r, k);
    }
  }

  lemma RemovedNamed(refs: seq<RefStatus>, i: nat, n: string)
    requires UniqueNames(refs) && i < |refs| && refs[i].Ref.Name != n
    ensures Named(refs[..i] + refs[i + 1..], n) == Named(refs, n)
  {
    var r := refs[..i] + refs[i + 1..];
    assert forall k :: 0 <= k < |r| ==> r[k] == if k < i then refs[k] else refs[k + 1];
    assert UniqueNames(r);
    if exists k :: 0 <= k < |refs| && refs[k].Ref.Name == n {
      var k :| 0 <= k < |refs| && refs[k].Ref.Name == n;
      NamedUnique(refs, k);
      var k' := if k < i then k else k - 1;
      assert r[k'] == refs[k];
      NamedUnique(r, k');
    }
  }

  lemma ReplacedNamed(refs: seq<RefStatus>, i: nat, sr: RefStatus, n: string)
    requires UniqueNames(refs) && i < |refs| && refs[i].Ref.Name == sr.Ref.Name && sr.Ref.Name != n
    requires UniqueNames(refs[i := sr])
    ensures Named(refs[i := sr], n) == Named(refs, n)
  {
    var r := refs[i := sr];
    if exists k :: 0 <= k < |refs| && refs[k].Ref.Name == n {
      var k :| 0 <= k < |refs| && refs[k].Ref.Name == n;
      NamedUnique(refs, k);
      assert r[k] == refs[k];
      NamedUnique(r, k);
    }
  }

  /** The status part of a Session of this revision: the ref records and the resource conditions. */
  class SessionStatus {
    var Refs: seq<RefStatus>
    var Conditions: seq<RefResource>

    constructor (refs: seq<RefStatus>, conditions: seq<RefResource>)
      ensures Refs == refs && Conditions == conditions
    {
      Refs := refs;
      Conditions := conditions;
    }

    /** The search of the converters: replace or drop the first record with the name, else append. */
    method UpsertRef(sr: RefStatus)
      modifies this
      ensures Refs == Upserted(old(Refs), sr)
      ensures Conditions == old(Conditions)
    {
      var existsInStatus := false;
      var i := 0;
      while i < |Refs|
        invariant 0 <= i <= |Refs| && Refs == old(Refs)
        invariant forall k :: 0 <= k < i ==> Refs[k].Ref.Name != sr.Ref.Name
      {
        if Refs[i].Ref.Name == sr.Ref.Name {
          assert FirstNamed(Refs, sr.Ref.Name) == Some(i);
          if |sr.Resources| == 0 {
            Refs := Refs[..i] + Refs[i + 1..];
          } else {
            Refs := Refs[i := sr];
          }
          existsInStatus := true;
          break;
        }
        i := i + 1;
      }
      if !existsInStatus {
        Refs := Refs + [sr];
      }
    }

    /**
     * Records a ref in the status: its record is stored as `Upserted` says and its resources are
     * appended to the conditions.
     */
    method ConvertModelRefToAPIStatus(ref: ModelRef)
      modifies this
      ensures Refs == Upserted(old(Refs), StatusOf(ref))
      ensures Conditions == old(Conditions) + StatusOf(ref).Resources
    {
      var targets: seq<LabeledRefResource> := [];
      var i := 0;
      while i < |ref.Targets|
        invariant 0 <= i <= |ref.Targets| && |targets| == i
        invariant forall k :: 0 <= k < i ==> targets[k] == ConvertTarget(ref.Targets[k])
      {
        targets := targets + [ConvertTarget(ref.Targets[i])];
        i := i + 1;
      }
      var resources: seq<RefResource> := [];
      i := 0;
      while i < |ref.ResourceStatuses|
        invariant 0 <= i <= |ref.ResourceStatuses| && |resources| == i
        invariant forall k :: 0 <= k < i ==> resources[k] == ConvertResource(ref.ResourceStatuses[k])
      {
        resources := resources + [ConvertResource(ref.ResourceStatuses[i])];
        i := i + 1;
      }
      var statusRef := RefStatus(Ref(ref.Name, ref.Strategy, ref.Args), targets, resources);
      assert statusRef == StatusOf(ref);
      UpsertRef(statusRef);
      Conditions := Conditions + statusRef.Resources;
    }
  }

  /** The targets of every record with the name, read back, in order. */
  function TargetsNamed(refs: seq<RefStatus>, name: string): seq<LocatedResourceStatus>
    requires AllComplete(refs)
  {
    if |refs| == 0 then []
    else
      var rest := TargetsNamed(refs[1..], name);
      if refs[0].Ref.Name == name then
        seq(|refs[0].Targets|, j requires 0 <= j < |refs[0].Targets| => TargetToModel(refs[0].Targets[j])) + rest
      else rest
  }

  /** The resources of every record with the name, read back, in order. */
  function ResourcesNamed(refs: seq<RefStatus>, name: string): seq<ResourceStatus>
    requires AllComplete(refs)
  {
    if |refs| == 0 then []
    else
      var rest := ResourcesNamed(refs[1..], name);
      if refs[0].Ref.Name == name then
        seq(|refs[0].Resources|, j requires 0 <= j < |refs[0].Resources| => ResourceToModel(refs[0].Resources[j])) + rest
      else rest
  }

  /**
   * The model ref read from a status record: name, strategy and arguments from the record, the
   * session's namespace, and the targets and resources of every record with that name, in the
   * order they are handed to the ref.
   */
  function ModelRefOf(refs: seq<RefStatus>, namespace: string, sr: RefStatus): (r: ModelRef)
    requires AllComplete(refs)
    ensures r.Name == sr.Ref.Name && r.Namespace == namespace && r.Strategy == sr.Ref.Strategy && r.Args == sr.Ref.Args
  {
    ModelRef(sr.Ref.Name, namespace, sr.Ref.Strategy, sr.Ref.Args, TargetsNamed(refs, sr.Ref.Name), ResourcesNamed(refs, sr.Ref.Name))
  }

  /** One model ref per status record, in order, each in the session's namespace. */
  method ConvertAPIStatusesToModelRefs(namespace: string, statusRefs: seq<RefStatus>) returns (refs: seq<ModelRef>)
    requires AllComplete(statusRefs)
    ensures |refs| == |statusRefs|
    ensures forall i :: 0 <= i < |statusRefs| ==> refs[i] == ModelRefOf(statusRefs, namespace, statusRefs[i])
  {
    refs := [];
    var i := 0;
    while i < |statusRefs|
      invariant 0 <= i <= |statusRefs| && |refs| == i
      invariant forall k :: 0 <= k < i ==> refs[k] == ModelRefOf(statusRefs, namespace, statusRefs[k])
    {
      refs := refs + [ModelRefOf(statusRefs, namespace, statusRefs[i])];
      i := i + 1;
    }
  }

  /** When one record carries the name, reading back yields exactly its targets and resources. */
  lemma {:induction false} NamedOnce(refs: seq<RefStatus>, j: nat)
    requires AllComplete(refs) && UniqueNames(refs) && j < |refs|
    ensures TargetsNamed(refs, refs[j].Ref.Name)
      == seq(|refs[j].Targets|, k requires 0 <= k < |refs[j].Targets| => TargetToModel(refs[j].Targets[k]))
    ensures ResourcesNamed(refs, refs[j].Ref.Name)
      == seq(|refs[j].Resources|, k requires 0 <= k < |refs[j].Resources| => ResourceToModel(refs[j].Resources[k]))
  {
    var name := refs[j].Ref.Name;
    assert AllComplete(refs[1..]) by {
      forall i | 0 <= i < |refs[1..]| ensures refs[1..][i] == refs[i + 1] {
      }
    }
    if j == 0 {
      NamedNowhere(refs[1..], name);
    } else {
      assert refs[1..][j - 1] == refs[j];
      NamedOnce(refs[1..], j - 1);
    }
  }

  lemma {:induction false} NamedNowhere(refs: seq<RefStatus>, name: string)
    requires AllComplete(refs) && forall i :: 0 <= i < |refs| ==> refs[i].Ref.Name != name
    ensures TargetsNamed(refs, name) == [] && ResourcesNamed(refs, name) == []
  {
    if |refs| > 0 {
      assert AllComplete(refs[1..]) by {
        forall i | 0 <= i < |refs[1..]| ensures refs[1..][i] == refs[i + 1] {
        }
      }
      NamedNowhere(refs[1..], name);
    }
  }

  /**
   * Storing a ref that has resources and reading the status back gives the ref back, targets and
   * resources included, as long as the names were unique and the targets carry no properties.
   */
  lemma RoundTrip(refs: seq<RefStatus>, ref: ModelRef)
    requires AllComplete(refs) && UniqueNames(refs)
    requires |ref.ResourceStatuses| > 0
    requires forall i :: 0 <= i < |ref.Targets| ==> ref.Targets[i].Status.Prop == map[]
    ensures AllComplete(Upserted(refs, StatusOf(ref)))
    ensures Named(Upserted(refs, StatusOf(ref)), ref.Name) == Some(StatusOf(ref))
    ensures ModelRefOf(Upserted(refs, StatusOf(ref)), ref.Namespace, StatusOf(ref)) == ref
  {
    var sr := StatusOf(ref);
    var r := Upserted(refs, sr);
    UpsertedNamed(refs, sr, ref.Name);
    UpsertedUnique(refs, sr);
    assert AllComplete(r) by {
      forall i | 0 <= i < |r| ensures r[i] in refs || r[i] == sr {
        assert r[i] in r;
      }
    }
    var j := FirstNamed(r, ref.Name).value;
    NamedOnce(r, j);
    forall k | 0 <= k < |ref.Targets| ensures TargetToModel(sr.Targets[k]) == ref.Targets[k] {
      TargetRoundTrip(ref.Targets[k]);
    }
    forall k | 0 <= k < |ref.ResourceStatuses| ensures ResourceToModel(sr.Resources[k]) == ref.ResourceStatuses[k] {
      ResourceRoundTrip(ref.ResourceStatuses[k]);
    }
  }

  /** The route of the spec, or a header route named after the session when the spec sets none. */
  function ConvertAPIRouteToModelRoute(spec: Route, sessionName: string): (r: M.Route)
    ensures spec.Type == "" ==> r == M.Route(RouteStrategyHeader, DefaultRouteHeaderName, sessionName)
    ensures spec.Type != "" ==> r == M.Route(spec.Type, spec.Name, spec.Value)
    ensures r.Type != ""
  {
    if spec.Type == "" then M.Route(RouteStrategyHeader, DefaultRouteHeaderName, sessionName)
    else M.Route(spec.Type, spec.Name, spec.Value)
  }

  /**
   * Whether the record differs from the ref in strategy or arguments, compared as
   * `reflect.DeepEqual` does: a nil map differs from an empty one.
   */
  predicate Differs(sr: RefStatus, strategy: string, args: RefArgs)
  {
    sr.Ref.Strategy != strategy || sr.Ref.Args != args
  }

  /** The scan of `RefUpdated`: some record with the ref's name differs from it. */
  function RefUpdated(statusRefs: seq<RefStatus>, name: string, strategy: string, args: RefArgs): (updated: bool)
    ensures updated <==> exists i :: 0 <= i < |statusRefs| && statusRefs[i].Ref.Name == name && Differs(statusRefs[i], strategy, args)
  {
    if |statusRefs| == 0 then false
    else if statusRefs[0].Ref.Name == name && Differs(statusRefs[0], strategy, args) then true
    else
      var rest := RefUpdated(statusRefs[1..], name, strategy, args);
      assert forall i :: 1 <= i < |statusRefs| ==> statusRefs[i] == statusRefs[1..][i - 1];
      rest
  }

  /** Right after a ref with resources was stored, it is not reported as updated. */
  lemma StoredNotUpdated(refs: seq<RefStatus>, ref: ModelRef)
    requires UniqueNames(refs) && |ref.ResourceStatuses| > 0
    ensures !RefUpdated(Upserted(refs, StatusOf(ref)), ref.Name, ref.Strategy, ref.Args)
  {
    var sr := StatusOf(ref);
    var r := Upserted(refs, sr);
    UpsertedNamed(refs, sr, ref.Name);
    UpsertedUnique(refs, sr);
    forall i | 0 <= i < |r| && r[i].Ref.Name == ref.Name ensures !Differs(r[i], ref.Strategy, ref.Args) {
      NamedUnique(r, i);
    }
  }

  /** A status record as the API server hands it back: empty arguments are read as a nil map. */
  function Persisted(sr: RefStatus): RefStatus
  {
    sr.(Ref := sr.Ref.(Args := OmitEmpty(sr.Ref.Args)))
  }

  /**
   * Once the stored record has been read back from the API server, a ref whose arguments are an
   * empty, non-nil map is reported as updated on every pass; any other ref is not.
   */
  lemma PersistedUpdatedIffEmptyArgs(refs: seq<RefStatus>, ref: ModelRef)
    requires UniqueNames(refs) && |ref.ResourceStatuses| > 0
    ensures RefUpdated(Upserted(refs, Persisted(StatusOf(ref))), ref.Name, ref.Strategy, ref.Args)
      <==> ref.Args == Some(map[])
  {
    var sr := Persisted(StatusOf(ref));
    var r := Upserted(refs, sr);
    UpsertedNamed(refs, sr, ref.Name);
    UpsertedUnique(refs, sr);
    var j := FirstNamed(r, ref.Name).value;
    assert r[j] == sr;
    forall i | 0 <= i < |r| && r[i].Ref.Name == ref.Name ensures r[i] == sr {
      NamedUnique(r, i);
    }
  }
}
