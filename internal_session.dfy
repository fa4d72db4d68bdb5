/**
 * The pure helpers of the CLI's session handler, `pkg/internal/session/session.go`: route
 * expressions, the ref of the current deployment, the wait condition and the session name.
 */
module InternalSession {
  import opened Wrappers
  import opened GoStrings
  import opened SessionApi

  const RouteFormatError := "route in wrong format. expected type:name=value"

  /**
   * Reads "type:name=value". The empty expression means no route; anything without exactly one
   * ':', or whose part after it lacks exactly one '=', is refused.
   */
  function ParseRoute(route: string): (r: Result<Option<Route>>)
    ensures route == "" ==> r == Ok(None)
    ensures route != "" && Count(route, ':') != 1 ==> r == Err(RouteFormatError)
    ensures route != "" && Count(route, ':') == 1 ==>
      var typed := Split(route, ':');
      (Count(typed[1], '=') != 1 ==> r == Err(RouteFormatError))
      && (Count(typed[1], '=') == 1 ==> r.Ok? && r.value.Some?)
    ensures r.Ok? && r.value.Some? ==>
      var rt := r.value.value;
      rt.String() == route && ':' !in rt.Type && ':' !in rt.Name && ':' !in rt.Value
      && '=' !in rt.Name && '=' !in rt.Value
  {
    if route == "" then Ok(None)
    else
      var typed := Split(route, ':');
      if |typed| != 2 then Err(RouteFormatError)
      else
        var pair := Split(typed[1], '=');
        if |pair| != 2 then Err(RouteFormatError)
        else
          JoinSplit(route, ':');
          JoinSplit(typed[1], '=');
          assert ':' !in typed[1];
          assert ':' !in pair[0] && ':' !in pair[1] by {
            assert typed[1] == pair[0] + "=" + pair[1];
          }
          Ok(Some(Route(typed[0], pair[0], pair[1])))
  }

  /** `ParseRoute` reads back the expression of a route whose fields hold no separators. */
  lemma ParseRouteString(rt: Route)
    requires ':' !in rt.Type && ':' !in rt.Name && ':' !in rt.Value
    requires '=' !in rt.Name && '=' !in rt.Value
    ensures ParseRoute(rt.String()) == Ok(Some(rt))
  {
    var rest := rt.Name + "=" + rt.Value;
    assert ':' !in rest;
    assert rt.String() == rt.Type + [':'] + rest;
    SplitAtSep(rt.Type, ':', rest);
    SplitNoSep(rest, ':');
    SplitAtSep(rt.Name, '=', rt.Value);
    SplitNoSep(rt.Value, '=');
  }

  /** The status of the first ref named `deploymentName`, or an empty status. */
  function GetCurrentRef(deploymentName: string, refs: seq<RefStatus>): (r: RefStatus)
    ensures (forall i :: 0 <= i < |refs| ==> refs[i].Ref.Name != deploymentName) ==> r == EmptyRefStatus
    ensures forall i ::
      (0 <= i < |refs| && refs[i].Ref.Name == deploymentName && forall j :: 0 <= j < i ==> refs[j].Ref.Name != deploymentName)
      ==> r == refs[i]
  {
    if |refs| == 0 then EmptyRefStatus
    else if refs[0].Ref.Name == deploymentName then refs[0]
    else
      assert forall i :: 1 <= i < |refs| ==> refs[i] == refs[1..][i - 1];
      GetCurrentRef(deploymentName, refs[1..])
  }

  /** Dereferencing a nil pointer panics with this message. */
  const NilDereference := "invalid memory address or nil pointer dereference"

  /**
   * The default wait condition: the resource is a Deployment or a DeploymentConfig. It
   * dereferences the kind, so a resource without one panics.
   */
  function DefaultWaitCondition(res: RefResource): (r: Result<bool>)
    ensures r.Err? <==> res.Kind.None?
    ensures r.Err? ==> r.error == NilDereference
    ensures r.Ok? ==> (r.value <==> res.Kind.value in {"Deployment", "DeploymentConfig"})
  {
    if res.Kind.None? then Err(NilDereference)
    else Ok(res.Kind.value == "Deployment" || res.Kind.value == "DeploymentConfig")
  }

  /**
   * The options of a session handler that carry state: the wait condition. A wait condition is
   * a Go function that answers or panics; `Err` stands for its panic.
   */
  class Options {
    var WaitCondition: Option<RefResource --> Result<bool>>

    constructor (waitCondition: Option<RefResource --> Result<bool>>)
      ensures WaitCondition == waitCondition
    {
      WaitCondition := waitCondition;
    }

    /** Applies the wait condition, installing the default one first when none is set. */
    method ConditionFound(res: RefResource) returns (found: Result<bool>)
      modifies this
      requires WaitCondition.Some? ==> WaitCondition.value.requires(res)
      ensures old(WaitCondition).Some? ==> WaitCondition == old(WaitCondition) && found == WaitCondition.value(res)
      ensures old(WaitCondition).None? ==> WaitCondition.Some? && found == DefaultWaitCondition(res)
      ensures old(WaitCondition).None? ==>
        forall r :: WaitCondition.value.requires(r) && WaitCondition.value(r) == DefaultWaitCondition(r)
    {
      if WaitCondition.None? {
        WaitCondition := Some(DefaultWaitCondition);
      }
      found := WaitCondition.value(res);
    }
  }

  /**
   * A given session name is kept. Otherwise the name is made of the current user's name, when it
   * can be found, and a random suffix; both are inputs here.
   */
  function GetOrCreateSessionName(sessionName: string, random: string, user: Option<string>): (r: string)
    ensures sessionName != "" ==> r == sessionName
    ensures sessionName == "" ==> HasSuffix(r, random)
  {
    if sessionName != "" then sessionName
    else if user.None? then random
    else user.value + "-" + random
  }
}
