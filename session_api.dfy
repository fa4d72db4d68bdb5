/**
 * The Session resource of `api/maistra/v1alpha1/session_types.go`: routes, refs, their status
 * records and the session's finalizer list. Optional Go `*string` fields become `Option<string>`.
 * The controller code reads conditions with a source and a target, which the revision of the
 * type file at hand does not declare; `Condition` carries the fields the controller uses.
 */
module SessionApi {
  import opened Wrappers
  import opened GoStrings
  import opened Seqs

  /** How traffic is routed to a session: e.g. header `x-workspace-route` with a value. */
  datatype Route = Route(Type: string, Name: string, Value: string)
  {
    /** The route expression "type:name=value". */
    function String(): (s: string)
      ensures Count(s, ':') == Count(Type, ':') + 1 + Count(Name, ':') + Count(Value, ':')
    {
      CountConcat(Type + [':'] + Name + ['='], Value, ':');
      CountConcat(Type + [':'] + Name, ['='], ':');
      CountConcat(Type + [':'], Name, ':');
      CountConcat(Type, [':'], ':');
      assert [':'][1..] == [] && ['='][1..] == [];
      Type + [':'] + Name + ['='] + Value
    }
  }

  /**
   * A ref's arguments. `None` is Go's nil map: the field is absent from the resource, and
   * `reflect.DeepEqual` tells it apart from an empty map.
   */
  type RefArgs = Option<map<string, string>>

  /** A deployment taking part in a session, optionally written "kind/name". */
  datatype Ref = Ref(Name: string, Strategy: string, Args: RefArgs)

  /**
   * The arguments as read back after the resource went through JSON: `omitempty` leaves an empty
   * map out, and a missing field decodes to a nil map.
   */
  function OmitEmpty(args: RefArgs): (a: RefArgs)
    ensures a.None? <==> args.None? || args.value == map[]
    ensures a.Some? ==> a == args
  {
    if args.Some? && args.value == map[] then None else args
  }

  /** A resource touched for a ref; the transition time is a clock reading, 0 being Go's zero time. */
  datatype RefResource = RefResource(
    Kind: Option<string>, Name: Option<string>, Action: Option<string>, LastTransitionTime: Option<int>, Prop: map<string, string>,
    Message: Option<string>, Reason: Option<string>, Status: Option<string>, Type: Option<string>)

  datatype LabeledRefResource = LabeledRefResource(Resource: RefResource, Labels: map<string, string>)

  /** What a session knows about one of its refs: the located targets and the touched resources. */
  datatype RefStatus = RefStatus(Ref: Ref, Targets: seq<LabeledRefResource>, Resources: seq<RefResource>)
  {
    /** The comma-split "hosts" property of the first resource that has one, or no hosts. */
    function GetHostNames(): (hosts: seq<string>)
      ensures (forall i :: 0 <= i < |Resources| ==> "hosts" !in Resources[i].Prop) ==> hosts == []
      ensures forall i ::
        (0 <= i < |Resources| && "hosts" in Resources[i].Prop && forall j :: 0 <= j < i ==> "hosts" !in Resources[j].Prop)
        ==> hosts == Split(Resources[i].Prop["hosts"], ',')
    {
      HostsOf(Resources)
    }
  }

  /** The position of the first resource with a "hosts" property. */
  function FirstWithHosts(resources: seq<RefResource>): (k: Option<nat>)
    ensures k.Some? ==>
      k.value < |resources| && "hosts" in resources[k.value].Prop
      && forall j :: 0 <= j < k.value ==> "hosts" !in resources[j].Prop
    ensures k.None? ==> forall j :: 0 <= j < |resources| ==> "hosts" !in resources[j].Prop
  {
    if |resources| == 0 then None
    else if "hosts" in resources[0].Prop then Some(0)
    else
      match FirstWithHosts(resources[1..])
      case None => None
      case Some(k) => Some(k + 1)
  }

  function HostsOf(resources: seq<RefResource>): (hosts: seq<string>)
    ensures (forall i :: 0 <= i < |resources| ==> "hosts" !in resources[i].Prop) ==> hosts == []
    ensures forall i ::
      (0 <= i < |resources| && "hosts" in resources[i].Prop && forall j :: 0 <= j < i ==> "hosts" !in resources[j].Prop)
      ==> hosts == Split(resources[i].Prop["hosts"], ',')
  {
    FirstWithHostsUnique(resources);
    match FirstWithHosts(resources)
    case None => []
    case Some(k) => Split(resources[k].Prop["hosts"], ',')
  }

  /** The first resource with a "hosts" property is the only one that no earlier resource precedes. */
  lemma FirstWithHostsUnique(resources: seq<RefResource>)
    ensures forall i ::
      (0 <= i < |resources| && "hosts" in resources[i].Prop && forall j :: 0 <= j < i ==> "hosts" !in resources[j].Prop)
      ==> FirstWithHosts(resources) == Some(i)
  {
    forall i | 0 <= i < |resources| && "hosts" in resources[i].Prop && forall j :: 0 <= j < i ==> "hosts" !in resources[j].Prop
      ensures FirstWithHosts(resources) == Some(i)
    {
      var k := FirstWithHosts(resources);
      assert k.Some?;
      assert !(k.value < i);
      assert !(i < k.value);
    }
  }

  /** The empty status record. */
  const EmptyRefStatus := RefStatus(Ref("", "", None), [], [])

  /** The resource (and the ref) a condition was recorded for. */
  datatype Source = Source(Kind: string, Name: string, Ref: string)

  datatype Target = Target(Kind: string, Name: string)

  datatype Condition = Condition(
    Source: Source, Target: Option<Target>,
    Message: Option<string>, Reason: Option<string>, Status: Option<string>, Type: Option<string>)

  /** The values a condition's status and the session's overall state take. */
  const StatusFailed := "false"
  const StateSuccess := "Success"
  const StateFailed := "Failed"

  /** A Session resource, with the parts the controller and the CLI read and write. */
  class Session {
    var Name: string
    var Namespace: string
    var Deleting: bool
    var Finalizers: seq<string>
    var SpecRoute: Route
    var SpecRefs: seq<Ref>
    var State: Option<string>
    var StatusRoute: Option<Route>
    var StatusRefs: seq<RefStatus>
    var Conditions: seq<Condition>

    constructor (name: string, namespace: string, route: Route, refs: seq<Ref>)
      ensures Name == name && Namespace == namespace && !Deleting && Finalizers == []
      ensures SpecRoute == route && SpecRefs == refs
      ensures State == None && StatusRoute == None && StatusRefs == [] && Conditions == []
    {
      Name := name;
      Namespace := namespace;
      Deleting := false;
      Finalizers := [];
      SpecRoute := route;
      SpecRefs := refs;
      State := None;
      StatusRoute := None;
      StatusRefs := [];
      Conditions := [];
    }

    /** Whether the finalizer is attached. */
    predicate HasFinalizer(finalizer: string)
      reads this
    {
      Listed(Finalizers, finalizer)
    }

    /** Attaches a finalizer; it is appended even when already present. */
    method AddFinalizer(finalizer: string)
      modifies this
      ensures Finalizers == old(Finalizers) + [finalizer]
      ensures HasFinalizer(finalizer)
      ensures unchanged(this`Conditions) && unchanged(this`StatusRefs) && unchanged(this`SpecRefs)
    {
      Finalizers := Finalizers + [finalizer];
      ListedIff(Finalizers, finalizer);
    }

    /** Detaches every copy of a finalizer, keeping the others in order. */
    method RemoveFinalizer(finalizer: string)
      modifies this
      ensures Finalizers == Without(old(Finalizers), finalizer)
      ensures !HasFinalizer(finalizer)
      ensures unchanged(this`Conditions) && unchanged(this`StatusRefs) && unchanged(this`SpecRefs)
    {
      var finalizers: seq<string> := [];
      var i := 0;
      while i < |Finalizers|
        invariant 0 <= i <= |Finalizers|
        invariant finalizers == Without(Finalizers[..i], finalizer)
      {
        if Finalizers[i] != finalizer {
          finalizers := finalizers + [Finalizers[i]];
        }
        assert Finalizers[..i + 1][..i] == Finalizers[..i];
        i := i + 1;
      }
      assert Finalizers[..i] == Finalizers;
      Finalizers := finalizers;
      ListedIff(Finalizers, finalizer);
    }

    /** Records a condition. */
    method AddCondition(condition: Condition)
      modifies this
      ensures Conditions == old(Conditions) + [condition]
      ensures unchanged(this`Finalizers) && unchanged(this`StatusRefs) && unchanged(this`SpecRefs)
    {
      Conditions := Conditions + [condition];
    }
  }

  /** The scan of `HasFinalizer`: stops at the first equal entry. */
  predicate Listed(finalizers: seq<string>, finalizer: string)
  {
    |finalizers| > 0 && (finalizers[0] == finalizer || Listed(finalizers[1..], finalizer))
  }

  /** `HasFinalizer(f)` holds exactly when `f` is one of the finalizers. */
  lemma {:induction false} ListedIff(finalizers: seq<string>, finalizer: string)
    ensures Listed(finalizers, finalizer) <==> finalizer in finalizers
  {
    if |finalizers| > 0 {
      ListedIff(finalizers[1..], finalizer);
      assert finalizers == [finalizers[0]] + finalizers[1..];
    }
  }
}
