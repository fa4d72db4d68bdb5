/**
 * The VirtualService handling of `pkg/istio/virtualservice.go`: deciding whether a VirtualService
 * routes to the target, rewriting the routes that do so that a header-matched copy sends the
 * session's traffic to the new version, and reverting that change.
 */
module IstioVirtualService {
  import opened Wrappers
  import opened GoStrings
  import opened Seqs
  import M = ModelTypes
  import MV = ModelVersioning

  const VirtualServiceKind := "VirtualService"
  const GatewayKind := "Gateway"
  const LabelIkeMutated := "ike.mutated"
  const LabelIkeMutatedValue := "true"
  const LabelIkeHosts := "ike.hosts"
  const RouteNotFound := "route not found"
  /** The run-time panics of the code, reported as errors. */
  const NilMapAssignment := "assignment to entry in nil map"
  const NilDereference := "invalid memory address or nil pointer dereference"
  const SliceOutOfRange := "slice bounds out of range"

  datatype Destination = Destination(Host: string, Subset: string, Port: nat)

  /** A weighted destination of an HTTP route; Go's nil destination is `None`. */
  datatype RouteDestination = RouteDestination(Destination: Option<Destination>, Weight: int)

  datatype StringMatch = Exact(Value: string) | Prefix(Value: string) | Regex(Value: string)

  datatype MatchRequest = MatchRequest(Headers: map<string, StringMatch>, Uri: Option<StringMatch>)

  /** Header edits of a route; Go's nil `Add` map is `None`. */
  datatype HeaderOperations = HeaderOperations(Set: map<string, string>, Add: Option<map<string, string>>, Remove: seq<string>)

  datatype Headers = Headers(Request: Option<HeaderOperations>, Response: Option<HeaderOperations>)

  datatype HTTPRoute = HTTPRoute(
    Name: string, Match: seq<MatchRequest>, Route: seq<RouteDestination>,
    Mirror: Option<Destination>, Redirect: Option<string>, Headers: Option<Headers>)

  datatype VirtualService = VirtualService(
    Name: string, Namespace: string, Labels: map<string, string>,
    Hosts: seq<string>, Gateways: seq<string>, Http: seq<HTTPRoute>)

  /** The destination goes to the host, unversioned or at the version. */
  predicate Targets(d: RouteDestination, host: M.HostName, version: string)
  {
    d.Destination.Some? && host.Match(d.Destination.value.Host)
    && (d.Destination.value.Subset == "" || d.Destination.value.Subset == version)
  }

  /** The destination goes to the host at exactly the version. */
  predicate AtVersion(d: RouteDestination, host: M.HostName, version: string)
  {
    d.Destination.Some? && host.Match(d.Destination.value.Host) && d.Destination.value.Subset == version
  }

  /** Whether some destination of the routes satisfies `p`: the nested scan of the two checks. */
  function AnyDestination(http: seq<HTTPRoute>, p: RouteDestination -> bool): (found: bool)
    ensures found <==> exists i, j :: 0 <= i < |http| && 0 <= j < |http[i].Route| && p(http[i].Route[j])
  {
    if |http| == 0 then false
    else
      var rest := AnyDestination(http[1..], p);
      assert forall i :: 1 <= i < |http| ==> http[i] == http[1..][i - 1];
      AnyIn(http[0].Route, p) || rest
  }

  function AnyIn(route: seq<RouteDestination>, p: RouteDestination -> bool): (found: bool)
    ensures found <==> exists j :: 0 <= j < |route| && p(route[j])
  {
    if |route| == 0 then false
    else
      var rest := AnyIn(route[1..], p);
      assert forall j :: 1 <= j < |route| ==> route[j] == route[1..][j - 1];
      p(route[0]) || rest
  }

  /** The VirtualService routes to the host unversioned or at the target version. */
  function MutationRequired(vs: VirtualService, host: M.HostName, targetVersion: string): (r: bool)
    ensures r <==> exists i, j :: 0 <= i < |vs.Http| && 0 <= j < |vs.Http[i].Route| && Targets(vs.Http[i].Route[j], host, targetVersion)
  {
    AnyDestination(vs.Http, d => Targets(d, host, targetVersion))
  }

  /** The VirtualService already routes to the host at exactly the version. */
  function VsAlreadyMutated(vs: VirtualService, host: M.HostName, targetVersion: string): (r: bool)
    ensures r <==> exists i, j :: 0 <= i < |vs.Http| && 0 <= j < |vs.Http[i].Route| && AtVersion(vs.Http[i].Route[j], host, targetVersion)
  {
    AnyDestination(vs.Http, d => AtVersion(d, host, targetVersion))
  }

  /** A VirtualService that already routes to a version also calls for a mutation at that version. */
  lemma AlreadyMutatedRequires(vs: VirtualService, host: M.HostName, version: string)
    requires VsAlreadyMutated(vs, host, version)
    ensures MutationRequired(vs, host, version)
  {
    var i, j :| 0 <= i < |vs.Http| && 0 <= j < |vs.Http[i].Route| && AtVersion(vs.Http[i].Route[j], host, version);
    assert Targets(vs.Http[i].Route[j], host, version);
  }

  /** The number of destinations of a route that go to the host, unversioned or at the version. */
  function TargetCount(route: seq<RouteDestination>, host: M.HostName, version: string): nat
  {
    if |route| == 0 then 0 else (if Targets(route[0], host, version) then 1 else 0) + TargetCount(route[1..], host, version)
  }

  lemma {:induction false} TargetCountPositive(route: seq<RouteDestination>, host: M.HostName, version: string)
    ensures TargetCount(route, host, version) > 0 <==> exists j :: 0 <= j < |route| && Targets(route[j], host, version)
  {
    if |route| > 0 {
      TargetCountPositive(route[1..], host, version);
      assert forall j :: 1 <= j < |route| ==> route[j] == route[1..][j - 1];
    }
  }

  function Repeat<T>(x: T, n: nat): (r: seq<T>)
    ensures |r| == n && forall i :: 0 <= i < n ==> r[i] == x
  {
    if n == 0 then [] else [x] + Repeat(x, n - 1)
  }

  /** The routes with a destination to the host, unversioned or at the version, once per such destination. */
  function FindRoutes(http: seq<HTTPRoute>, host: M.HostName, version: string): (r: seq<HTTPRoute>)
    ensures forall x :: x in r ==> x in http && TargetCount(x.Route, host, version) > 0
    ensures forall x :: x in http && TargetCount(x.Route, host, version) > 0 ==> x in r
  {
    if |http| == 0 then []
    else
      var rest := FindRoutes(http[1..], host, version);
      assert forall x :: x in http[1..] ==> x in http;
      assert forall x :: x in http && x != http[0] ==> x in http[1..];
      var here := Repeat(http[0], TargetCount(http[0].Route, host, version));
      assert TargetCount(http[0].Route, host, version) > 0 ==> http[0] in here;
      here + rest
  }

  /** Routes are found in the order of the VirtualService. */
  lemma {:induction false} FindRoutesConcat(a: seq<HTTPRoute>, b: seq<HTTPRoute>, host: M.HostName, version: string)
    ensures FindRoutes(a + b, host, version) == FindRoutes(a, host, version) + FindRoutes(b, host, version)
  {
    if |a| > 0 {
      assert (a + b)[1..] == a[1..] + b;
      FindRoutesConcat(a[1..], b, host, version);
    } else {
      assert a + b == b;
    }
  }

  /** No route is found exactly when no mutation is required. */
  lemma {:induction false} FindRoutesEmpty(vs: VirtualService, host: M.HostName, version: string)
    ensures FindRoutes(vs.Http, host, version) == [] <==> !MutationRequired(vs, host, version)
  {
    var r := FindRoutes(vs.Http, host, version);
    if MutationRequired(vs, host, version) {
      var i, j :| 0 <= i < |vs.Http| && 0 <= j < |vs.Http[i].Route| && Targets(vs.Http[i].Route[j], host, version);
      TargetCountPositive(vs.Http[i].Route, host, version);
      assert vs.Http[i] in vs.Http;
      assert vs.Http[i] in r;
    }
    if r != [] {
      assert r[0] in r;
      TargetCountPositive(r[0].Route, host, version);
      var i :| 0 <= i < |vs.Http| && vs.Http[i] == r[0];
    }
  }

  /**
   * `removeOtherRoutes` as written: it deletes from the destination list while ranging over it.
   * The range reads the shared backing array, of fixed length, at each index; a deletion shifts
   * the later elements down and shortens the slice by one. The result is the backing array and
   * the final length; `None` is the panic of slicing past the shortened length.
   */
  function RangeDelete<T>(arr: seq<T>, n: nat, i: nat, keep: T -> bool): (r: Option<(seq<T>, nat)>)
    requires n <= |arr|
    ensures r.Some? ==> |r.value.0| == |arr| && r.value.1 <= n && forall x :: x in r.value.0 ==> x in arr
    decreases |arr| - i
  {
    if i >= |arr| then Some((arr, n))
    else if keep(arr[i]) then RangeDelete(arr, n, i + 1, keep)
    else if i + 1 > n then None
    else
      var next := arr[..i] + arr[i + 1..n] + arr[n - 1..];
      assert forall x :: x in next ==> x in arr;
      RangeDelete(next, n - 1, i + 1, keep)
  }

  /** `removeOtherRoutes` as written on a list of its own: what is left of the list, or the panic. */
  function RemoveOtherRoutesAsWritten(route: seq<RouteDestination>, host: M.HostName, version: string): (r: Option<seq<RouteDestination>>)
    ensures r.Some? ==> |r.value| <= |route| && forall d :: d in r.value ==> d in route
  {
    var d := RangeDelete(route, |route|, 0, d => Targets(d, host, version));
    if d.None? then None else Some(d.value.0[..d.value.1])
  }

  const Reviews := M.HostName("reviews", "")
  const ToReviews := RouteDestination(Some(Destination("reviews", "", 9080)), 0)
  const ToRatings := RouteDestination(Some(Destination("ratings", "", 9080)), 50)
  const ToDetails := RouteDestination(Some(Destination("details", "", 9080)), 50)

  /** Two other hosts before the target: the second one escapes the deletion. */
  lemma RemoveOtherRoutesKeepsStray()
    ensures RemoveOtherRoutesAsWritten([ToRatings, ToDetails, ToReviews], Reviews, "v1") == Some([ToDetails, ToReviews])
    ensures !Targets(ToDetails, Reviews, "v1")
  {
    var keep := (d: RouteDestination) => Targets(d, Reviews, "v1");
    var a := [ToRatings, ToDetails, ToReviews];
    assert !keep(ToRatings) && !keep(ToDetails) && keep(ToReviews);
    var a1 := a[..0] + a[1..3] + a[2..];
    assert a1 == [ToDetails, ToReviews, ToReviews];
    assert RangeDelete(a, 3, 0, keep) == RangeDelete(a1, 2, 1, keep);
    assert RangeDelete(a1, 2, 1, keep) == RangeDelete(a1, 2, 2, keep);
    assert RangeDelete(a1, 2, 2, keep) == RangeDelete(a1, 2, 3, keep) == Some((a1, 2));
    assert a1[..2] == [ToDetails, ToReviews];
  }

  /** The target followed by two other hosts: the second deletion slices past the end. */
  lemma RemoveOtherRoutesPanics()
    ensures RemoveOtherRoutesAsWritten([ToReviews, ToRatings, ToDetails], Reviews, "v1") == None
  {
    var keep := (d: RouteDestination) => Targets(d, Reviews, "v1");
    var a := [ToReviews, ToRatings, ToDetails];
    assert keep(ToReviews) && !keep(ToRatings) && !keep(ToDetails);
    var a1 := a[..1] + a[2..3] + a[2..];
    assert a1 == [ToReviews, ToDetails, ToDetails];
    assert RangeDelete(a, 3, 0, keep) == RangeDelete(a, 3, 1, keep);
    assert RangeDelete(a, 3, 1, keep) == RangeDelete(a1, 2, 2, keep);
  }

  /** The intended `removeOtherRoutes`: keep exactly the destinations to the host, unversioned or at the version. */
  function RemoveOtherRoutes(http: HTTPRoute, host: M.HostName, version: string): (r: HTTPRoute)
    ensures forall j :: 0 <= j < |r.Route| ==> Targets(r.Route[j], host, version)
    ensures r.(Route := http.Route) == http
  {
    FilterAll(http.Route, d => Targets(d, host, version));
    http.(Route := Filter(http.Route, d => Targets(d, host, version)))
  }

  /** Every destination to the host is kept, as often as it occurred; every other one is dropped, in order. */
  lemma RemoveOtherRoutesContent(http: HTTPRoute, host: M.HostName, version: string)
    ensures var r := RemoveOtherRoutes(http, host, version);
      forall d :: multiset(r.Route)[d] == if Targets(d, host, version) then multiset(http.Route)[d] else 0
  {
    FilterContent(http.Route, d => Targets(d, host, version));
  }

  /** The as-written removal, when it neither panics nor keeps a stray destination, agrees with the intended one. */
  lemma RemoveOtherRoutesAgreesWhenAllKept(route: seq<RouteDestination>, host: M.HostName, version: string)
    requires forall j :: 0 <= j < |route| ==> Targets(route[j], host, version)
    ensures RemoveOtherRoutesAsWritten(route, host, version) == Some(route)
    ensures RemoveOtherRoutes(HTTPRoute("", [], route, None, None, None), host, version).Route == route
  {
    var keep := (d: RouteDestination) => Targets(d, host, version);
    AllKept(route, 0, keep);
    assert route[..|route|] == route;
    FilterKeepsAll(route, keep);
  }

  lemma {:induction false} AllKept(arr: seq<RouteDestination>, i: nat, keep: RouteDestination -> bool)
    requires forall j :: 0 <= j < |arr| ==> keep(arr[j])
    ensures RangeDelete(arr, |arr|, i, keep) == Some((arr, |arr|))
    decreases |arr| - i
  {
    if i < |arr| {
      AllKept(arr, i + 1, keep);
    }
  }

  predicate AllSet(route: seq<RouteDestination>)
  {
    forall j :: 0 <= j < |route| ==> route[j].Destination.Some?
  }

  /** Every destination is sent to the subset; hosts, ports and weights stay. */
  function UpdateSubset(http: HTTPRoute, subset: string): (r: HTTPRoute)
    requires AllSet(http.Route)
    ensures |r.Route| == |http.Route| && AllSet(r.Route)
    ensures forall j :: 0 <= j < |r.Route| ==>
      r.Route[j].Destination.value == http.Route[j].Destination.value.(Subset := subset) && r.Route[j].Weight == http.Route[j].Weight
    ensures r.(Route := http.Route) == http
  {
    http.(Route := seq(|http.Route|, j requires 0 <= j < |http.Route| =>
      http.Route[j].(Destination := Some(http.Route[j].Destination.value.(Subset := subset)))))
  }

  /** Every destination loses its weight. */
  function RemoveWeight(http: HTTPRoute): (r: HTTPRoute)
    ensures |r.Route| == |http.Route|
    ensures forall j :: 0 <= j < |r.Route| ==> r.Route[j].Weight == 0 && r.Route[j].Destination == http.Route[j].Destination
    ensures r.(Route := http.Route) == http
  {
    http.(Route := seq(|http.Route|, j requires 0 <= j < |http.Route| => http.Route[j].(Weight := 0)))
  }

  function AddHeader(m: MatchRequest, route: M.Route): MatchRequest
  {
    if route.Type == "header" then m.(Headers := m.Headers[route.Name := Exact(route.Value)]) else m
  }

  /**
   * For a header route, every match also requires the route's header to equal its value; a route
   * without matches gets exactly one.
   */
  function AddHeaderMatch(http: HTTPRoute, route: M.Route): (r: HTTPRoute)
    ensures |r.Match| == if |http.Match| > 0 then |http.Match| else 1
    ensures route.Type == "header" ==>
      forall i :: 0 <= i < |r.Match| ==> route.Name in r.Match[i].Headers && r.Match[i].Headers[route.Name] == Exact(route.Value)
    ensures forall i :: 0 <= i < |http.Match| ==>
      r.Match[i].Headers - {route.Name} == http.Match[i].Headers - {route.Name} && r.Match[i].Uri == http.Match[i].Uri
    ensures |http.Match| == 0 ==> r.Match[0].Uri.None? && r.Match[0].Headers.Keys <= {route.Name}
    ensures route.Type != "header" && |http.Match| > 0 ==> r == http
    ensures r.(Match := http.Match) == http
  {
    if |http.Match| > 0 then
      http.(Match := seq(|http.Match|, i requires 0 <= i < |http.Match| => AddHeader(http.Match[i], route)))
    else
      http.(Match := [AddHeader(MatchRequest(map[], None), route)])
  }

  /** Adding the header match twice is adding it once. */
  lemma AddHeaderMatchIdempotent(http: HTTPRoute, route: M.Route)
    ensures AddHeaderMatch(AddHeaderMatch(http, route), route) == AddHeaderMatch(http, route)
  {
    var once := AddHeaderMatch(http, route);
    var twice := AddHeaderMatch(once, route);
    assert |twice.Match| == |once.Match|;
    forall i | 0 <= i < |once.Match| ensures twice.Match[i] == once.Match[i] {
      if route.Type == "header" {
        assert twice.Match[i].Headers == once.Match[i].Headers;
      }
    }
  }

  /** The request header operations of the route, when it has any. */
  function RequestOps(http: HTTPRoute): Option<HeaderOperations>
  {
    if http.Headers.Some? then http.Headers.value.Request else None
  }

  /** The headers the route's requests already add; nothing when there are no request operations. */
  function RequestAdd(http: HTTPRoute): map<string, string>
  {
    if RequestOps(http).Some? && RequestOps(http).value.Add.Some? then RequestOps(http).value.Add.value else map[]
  }

  /**
   * The request headers of the route also add the route's header with its value. Missing
   * headers or request operations are created with an empty add map; request operations that
   * exist with a nil add map make the assignment panic.
   */
  function AddHeaderRequest(http: HTTPRoute, route: M.Route): (r: Result<HTTPRoute>)
    ensures r.Err? <==> RequestOps(http).Some? && RequestOps(http).value.Add.None?
    ensures r.Err? ==> r.error == NilMapAssignment
    ensures r.Ok? ==>
      r.value.Headers.Some? && r.value.Headers.value.Request.Some?
      && r.value.Headers.value.Request.value.Add == Some(RequestAdd(http)[route.Name := route.Value])
    ensures r.Ok? && http.Headers.Some? ==> r.value.Headers.value.Response == http.Headers.value.Response
    ensures r.Ok? && RequestOps(http).Some? ==>
      r.value.Headers.value.Request.value.Set == RequestOps(http).value.Set
      && r.value.Headers.value.Request.value.Remove == RequestOps(http).value.Remove
    ensures r.Ok? ==> r.value.(Headers := http.Headers) == http
  {
    var headers := if http.Headers.Some? then http.Headers.value else Headers(Some(HeaderOperations(map[], Some(map[]), [])), None);
    var request := if headers.Request.Some? then headers.Request.value else HeaderOperations(map[], Some(map[]), []);
    if request.Add.None? then Err(NilMapAssignment)
    else Ok(http.(Headers := Some(headers.(Request := Some(request.(Add := Some(request.Add.value[route.Name := route.Value])))))))
  }

  /** Adding the request header twice is adding it once. */
  lemma AddHeaderRequestIdempotent(http: HTTPRoute, route: M.Route)
    requires AddHeaderRequest(http, route).Ok?
    ensures AddHeaderRequest(AddHeaderRequest(http, route).value, route) == AddHeaderRequest(http, route)
  {
    var once := AddHeaderRequest(http, route).value;
    var add := RequestAdd(once);
    assert add[route.Name := route.Value] == add;
  }

  /**
   * The route of the session, made from a route that reaches the target: only the destinations
   * to the target remain, sent to the new version without weights, mirror or redirect; with
   * `withMatch` it also requires the session's header.
   */
  function SimplifyTargetRoute(http: HTTPRoute, host: M.HostName, version: string, newVersion: string, route: M.Route, withMatch: bool)
    : (r: HTTPRoute)
    ensures r.Mirror.None? && r.Redirect.None?
    ensures r.Name == http.Name && r.Headers == http.Headers
  {
    var only := RemoveOtherRoutes(http, host, version);
    var updated := UpdateSubset(only, newVersion);
    var matched := if withMatch then AddHeaderMatch(updated, route) else updated;
    RemoveWeight(matched).(Mirror := None, Redirect := None)
  }

  /**
   * The destinations of a simplified route are those to the target, each at the new version and
   * without weight; the matches gain the session's header exactly when `withMatch`.
   */
  lemma SimplifyTargetRouteSpec(http: HTTPRoute, host: M.HostName, version: string, newVersion: string, route: M.Route, withMatch: bool)
    ensures var r := SimplifyTargetRoute(http, host, version, newVersion, route, withMatch);
      var kept := Filter(http.Route, d => Targets(d, host, version));
      AllSet(kept) && |r.Route| == |kept|
      && (forall j :: 0 <= j < |kept| ==>
        r.Route[j] == RouteDestination(Some(kept[j].Destination.value.(Subset := newVersion)), 0))
      && (withMatch ==> r.Match == AddHeaderMatch(http, route).Match)
      && (!withMatch ==> r.Match == http.Match)
  {
    FilterAll(http.Route, d => Targets(d, host, version));
  }

  /** A simplified route of a found route keeps at least one destination, all at the new version. */
  lemma SimplifiedAtVersion(http: HTTPRoute, host: M.HostName, version: string, newVersion: string, route: M.Route, withMatch: bool)
    requires TargetCount(http.Route, host, version) > 0
    ensures var r := SimplifyTargetRoute(http, host, version, newVersion, route, withMatch);
      |r.Route| > 0 && forall j :: 0 <= j < |r.Route| ==> r.Route[j].Destination.Some? && r.Route[j].Destination.value.Subset == newVersion
  {
    SimplifyTargetRouteSpec(http, host, version, newVersion, route, withMatch);
    TargetCountPositive(http.Route, host, version);
    var j :| 0 <= j < |http.Route| && Targets(http.Route[j], host, version);
    FilterContent(http.Route, d => Targets(d, host, version));
    assert multiset(http.Route)[http.Route[j]] > 0;
    assert |Filter(http.Route, d => Targets(d, host, version))| > 0;
  }

  /** The simplified routes of the found routes, last found first, ahead of the original routes. */
  function Prepended(found: seq<HTTPRoute>, http: seq<HTTPRoute>, host: M.HostName, version: string, newVersion: string, route: M.Route, withMatch: bool)
    : (r: seq<HTTPRoute>)
    ensures |r| == |found| + |http|
  {
    if |found| == 0 then http
    else [SimplifyTargetRoute(found[|found| - 1], host, version, newVersion, route, withMatch)] + Prepended(found[..|found| - 1], http, host, version, newVersion, route, withMatch)
  }

  /** The routes as they were come after the copies. */
  lemma {:induction false} PrependedKeeps(found: seq<HTTPRoute>, http: seq<HTTPRoute>, host: M.HostName, version: string, newVersion: string, route: M.Route, withMatch: bool)
    ensures Prepended(found, http, host, version, newVersion, route, withMatch)[|found|..] == http
  {
    if |found| > 0 {
      var init := found[..|found| - 1];
      PrependedKeeps(init, http, host, version, newVersion, route, withMatch);
      var rest := Prepended(init, http, host, version, newVersion, route, withMatch);
      var r := Prepended(found, http, host, version, newVersion, route, withMatch);
      assert r[1..] == rest;
      assert r[|found|..] == rest[|init|..];
    }
  }

  /** The simplified copies of the found routes come first, the last found one in front. */
  lemma {:induction false} PrependedAt(found: seq<HTTPRoute>, http: seq<HTTPRoute>, host: M.HostName, version: string, newVersion: string, route: M.Route, withMatch: bool)
    ensures forall i :: 0 <= i < |found| ==>
      Prepended(found, http, host, version, newVersion, route, withMatch)[i] == SimplifyTargetRoute(found[|found| - 1 - i], host, version, newVersion, route, withMatch)
  {
    if |found| > 0 {
      var init := found[..|found| - 1];
      PrependedAt(init, http, host, version, newVersion, route, withMatch);
      var rest := Prepended(init, http, host, version, newVersion, route, withMatch);
      var r := Prepended(found, http, host, version, newVersion, route, withMatch);
      assert r == [SimplifyTargetRoute(found[|found| - 1], host, version, newVersion, route, withMatch)] + rest;
      forall i | 1 <= i < |found|
        ensures r[i] == SimplifyTargetRoute(found[|found| - 1 - i], host, version, newVersion, route, withMatch)
      {
        var k := i - 1;
        assert 0 <= k < |init|;
        assert rest[k] == SimplifyTargetRoute(init[|init| - 1 - k], host, version, newVersion, route, withMatch);
        assert r[i] == rest[k] && init[|init| - 1 - k] == found[|found| - 1 - i];
      }
    }
  }

  /** Prepending one more found route puts its simplified copy first. */
  lemma PrependedStep(found: seq<HTTPRoute>, i: nat, http: seq<HTTPRoute>, host: M.HostName, version: string, newVersion: string, route: M.Route, withMatch: bool)
    requires i < |found|
    ensures Prepended(found[..i + 1], http, host, version, newVersion, route, withMatch)
      == [SimplifyTargetRoute(found[i], host, version, newVersion, route, withMatch)] + Prepended(found[..i], http, host, version, newVersion, route, withMatch)
  {
    assert found[..i + 1][..i] == found[..i];
  }

  /**
   * The mutation of a VirtualService the session modifies: fails with "route not found" when no
   * route reaches the target; otherwise every found route's simplified, header-matched copy is
   * put in front. The versions come from the located resources.
   */
  method MutateVirtualService(store: M.StoreView, sessionName: string, sha256: string -> M.Sum256, route: M.Route, host: M.HostName, source: VirtualService)
    returns (r: Result<VirtualService>)
    ensures var version := MV.GetVersion(store);
      FindRoutes(source.Http, host, version) == [] ==> r == Err(RouteNotFound)
    ensures var version := MV.GetVersion(store);
      var found := FindRoutes(source.Http, host, version);
      found != [] ==>
        r == Ok(source.(Http := Prepended(found, source.Http, host, version, MV.GetCreatedVersion(store, sessionName, sha256), route, true)))
  {
    var version := MV.GetVersion(store);
    var newVersion := MV.GetCreatedVersion(store, sessionName, sha256);
    var target := source;
    var targetsHTTP := FindRoutes(source.Http, host, version);
    if |targetsHTTP| == 0 {
      return Err(RouteNotFound);
    }
    var i := 0;
    while i < |targetsHTTP|
      invariant 0 <= i <= |targetsHTTP|
      invariant target == source.(Http := Prepended(targetsHTTP[..i], source.Http, host, version, newVersion, route, true))
    {
      PrependedStep(targetsHTTP, i, source.Http, host, version, newVersion, route, true);
      target := target.(Http := [SimplifyTargetRoute(targetsHTTP[i], host, version, newVersion, route, true)] + target.Http);
      i := i + 1;
    }
    assert targetsHTTP[..i] == targetsHTTP;
    r := Ok(target);
  }

  /** The hosts `sessionName.host` of every located gateway the names refer to, from its "ike.hosts" label. */
  function GetHostsFromGateway(sessionName: string, located: seq<M.LocatorStatus>, gateways: seq<string>): (hosts: seq<string>)
    ensures forall h :: h in hosts ==> HasPrefix(h, sessionName + ".")
    ensures forall h :: h in hosts <==> exists g, s, x ::
      g in gateways && s in located && GatewayNamed(s, g)
      && x in Split(Lookup(s.Labels, LabelIkeHosts), ',') && h == sessionName + "." + x
  {
    if |gateways| == 0 then []
    else
      var here := HostsOfNamed(sessionName, located, gateways[0]);
      var rest := GetHostsFromGateway(sessionName, located, gateways[1..]);
      assert forall g :: g in gateways <==> g == gateways[0] || g in gateways[1..];
      here + rest
  }

  /** A located gateway answers to "namespace/name" or to its bare name. */
  predicate GatewayNamed(s: M.LocatorStatus, gatewayName: string)
  {
    s.Namespace() + "/" + s.Name() == gatewayName || s.Name() == gatewayName
  }

  function HostsOfNamed(sessionName: string, located: seq<M.LocatorStatus>, gatewayName: string): (hosts: seq<string>)
    ensures forall h :: h in hosts ==> HasPrefix(h, sessionName + ".")
    ensures forall h :: h in hosts <==> exists s, x ::
      s in located && GatewayNamed(s, gatewayName)
      && x in Split(Lookup(s.Labels, LabelIkeHosts), ',') && h == sessionName + "." + x
  {
    if |located| == 0 then []
    else
      var s := located[0];
      var here := if GatewayNamed(s, gatewayName) then Qualified(sessionName, Split(Lookup(s.Labels, LabelIkeHosts), ',')) else [];
      var rest := HostsOfNamed(sessionName, located[1..], gatewayName);
      assert forall t :: t in located <==> t == s || t in located[1..];
      here + rest
  }

  function Qualified(sessionName: string, names: seq<string>): (hosts: seq<string>)
    ensures |hosts| == |names|
    ensures forall i :: 0 <= i < |names| ==> hosts[i] == sessionName + "." + names[i]
    ensures forall h :: h in hosts ==> HasPrefix(h, sessionName + ".")
    ensures forall h :: h in hosts <==> exists x :: x in names && h == sessionName + "." + x
  {
    var hosts := seq(|names|, i requires 0 <= i < |names| => sessionName + "." + names[i]);
    assert forall i :: 0 <= i < |names| ==> hosts[i][..|sessionName + "."|] == sessionName + ".";
    hosts
  }

  /** The routes of the connected copy before the request header is added: the simplified found routes without matching, in front. */
  function ConnectedRoutes(store: M.StoreView, sessionName: string, sha256: string -> M.Sum256, route: M.Route, host: M.HostName, source: VirtualService)
    : seq<HTTPRoute>
  {
    var version := MV.GetVersion(store);
    Prepended(FindRoutes(source.Http, host, version), source.Http, host, version, MV.GetCreatedVersion(store, sessionName, sha256), route, false)
  }

  /**
   * The VirtualService a session creates next to one bound to a gateway: named after the
   * session, serving the session's gateway hosts, marked as mutated, with the simplified copies
   * of the found routes in front, and every route adding the session's request header.
   */
  method MutateConnectedVirtualService(
    store: M.StoreView, sessionName: string, sha256: string -> M.Sum256, route: M.Route, host: M.HostName, source: VirtualService)
    returns (r: Result<VirtualService>)
    ensures var http := ConnectedRoutes(store, sessionName, sha256, route, host, source);
      r.Err? <==> exists i :: 0 <= i < |http| && AddHeaderRequest(http[i], route).Err?
    ensures r.Err? ==> r.error == NilMapAssignment
    ensures r.Ok? ==>
      r.value.Name == source.Name + "-" + sessionName && r.value.Namespace == source.Namespace
      && r.value.Hosts == GetHostsFromGateway(sessionName, store([GatewayKind]), source.Gateways)
      && r.value.Labels == source.Labels[LabelIkeMutated := LabelIkeMutatedValue]
      && r.value.Gateways == source.Gateways
    ensures var http := ConnectedRoutes(store, sessionName, sha256, route, host, source);
      r.Ok? ==> |r.value.Http| == |http| && forall i :: 0 <= i < |http| ==> AddHeaderRequest(http[i], route) == Ok(r.value.Http[i])
  {
    var version := MV.GetVersion(store);
    var newVersion := MV.GetCreatedVersion(store, sessionName, sha256);
    var hosts := GetHostsFromGateway(sessionName, store([GatewayKind]), source.Gateways);
    var targetsHTTP := FindRoutes(source.Http, host, version);
    var http := source.Http;
    var i := 0;
    while i < |targetsHTTP|
      invariant 0 <= i <= |targetsHTTP|
      invariant http == Prepended(targetsHTTP[..i], source.Http, host, version, newVersion, route, false)
    {
      PrependedStep(targetsHTTP, i, source.Http, host, version, newVersion, route, false);
      http := [SimplifyTargetRoute(targetsHTTP[i], host, version, newVersion, route, false)] + http;
      i := i + 1;
    }
    assert targetsHTTP[..i] == targetsHTTP;
    assert http == ConnectedRoutes(store, sessionName, sha256, route, host, source);
    var withHeader := AddHeaderRequests(http, route);
    if withHeader.Err? {
      return Err(withHeader.error);
    }
    r := Ok(source.(Name := source.Name + "-" + sessionName, Hosts := hosts,
      Labels := source.Labels[LabelIkeMutated := LabelIkeMutatedValue], Http := withHeader.value));
  }

  /**
   * Every route also adds the session's request header, in order; the first route whose request
   * operations have a nil add map stops the loop with the panic.
   */
  method AddHeaderRequests(http: seq<HTTPRoute>, route: M.Route) returns (r: Result<seq<HTTPRoute>>)
    ensures r.Err? <==> exists k :: 0 <= k < |http| && AddHeaderRequest(http[k], route).Err?
    ensures r.Err? ==> r.error == NilMapAssignment
    ensures r.Ok? ==> |r.value| == |http| && forall k :: 0 <= k < |http| ==> AddHeaderRequest(http[k], route) == Ok(r.value[k])
    ensures r.Ok? ==> forall k :: 0 <= k < |http| ==>
      r.value[k].Headers.Some? && r.value[k].Headers.value.Request.Some? && r.value[k].Headers.value.Request.value.Add.Some?
      && route.Name in r.value[k].Headers.value.Request.value.Add.value
      && r.value[k].Headers.value.Request.value.Add.value[route.Name] == route.Value
  {
    var out := http;
    var i := 0;
    while i < |out|
      invariant 0 <= i <= |out| == |http|
      invariant forall k :: 0 <= k < i ==> AddHeaderRequest(http[k], route) == Ok(out[k])
      invariant forall k :: i <= k < |http| ==> out[k] == http[k]
    {
      var added := AddHeaderRequest(out[i], route);
      if added.Err? {
        return Err(added.error);
      }
      out := out[i := added.value];
      i := i + 1;
    }
    r := Ok(out);
  }

  /**
   * The destination list of one route of the copied source, as the copies made from that route
   * share it: a backing array of slots, each naming one of the destination objects. The copies
   * share the objects, so a rewrite made for one copy is seen by the others.
   */
  datatype Backing = Backing(Slots: seq<nat>, Objects: seq<RouteDestination>)

  predicate WellFormed(b: Backing)
  {
    forall k :: 0 <= k < |b.Slots| ==> b.Slots[k] < |b.Objects|
  }

  /** The destinations the slots name. */
  function Resolve(ids: seq<nat>, objs: seq<RouteDestination>): (r: seq<RouteDestination>)
    requires forall k :: 0 <= k < |ids| ==> ids[k] < |objs|
    ensures |r| == |ids|
  {
    seq(|ids|, k requires 0 <= k < |ids| => objs[ids[k]])
  }

  /** The object sent to the new version without weight, as `updateSubset` and `removeWeight` leave it. */
  function Retargeted(d: RouteDestination, newVersion: string): RouteDestination
    requires d.Destination.Some?
  {
    RouteDestination(Some(d.Destination.value.(Subset := newVersion)), 0)
  }

  /**
   * `updateSubset` and `removeWeight` through the shared objects: every object a slot names is
   * sent to the new version without weight, the others stay; a nil destination is dereferenced.
   */
  function {:induction false} Rewrite(ids: seq<nat>, objs: seq<RouteDestination>, newVersion: string): (r: Result<seq<RouteDestination>>)
    requires forall k :: 0 <= k < |ids| ==> ids[k] < |objs|
    ensures r.Ok? <==> forall k :: 0 <= k < |ids| ==> objs[ids[k]].Destination.Some?
    ensures r.Err? ==> r.error == NilDereference
    ensures r.Ok? ==>
      |r.value| == |objs|
      && forall m :: 0 <= m < |objs| ==> r.value[m] == if m in ids then Retargeted(objs[m], newVersion) else objs[m]
  {
    if |ids| == 0 then Ok(objs)
    else if objs[ids[0]].Destination.None? then Err(NilDereference)
    else
      var next := objs[ids[0] := Retargeted(objs[ids[0]], newVersion)];
      var rest := Rewrite(ids[1..], next, newVersion);
      assert forall k :: 1 <= k < |ids| ==> ids[k] == ids[1..][k - 1];
      assert forall m :: m in ids <==> m == ids[0] || m in ids[1..];
      rest
  }

  /**
   * One `simplifyTargetRoute` on the shared list: the deletion of the destinations that do not
   * reach the target, over the backing array at its full length, then the rewrite of what is
   * left. The result is the new backing and the length of this copy's list.
   */
  function SharedPass(b: Backing, host: M.HostName, version: string, newVersion: string): (r: Result<(Backing, nat)>)
    requires WellFormed(b)
    ensures r.Ok? ==>
      WellFormed(r.value.0) && |r.value.0.Slots| == |b.Slots| && |r.value.0.Objects| == |b.Objects|
      && r.value.1 <= |b.Slots|
  {
    var d := RangeDelete(b.Slots, |b.Slots|, 0, (k: nat) => k < |b.Objects| && Targets(b.Objects[k], host, version));
    if d.None? then Err(SliceOutOfRange)
    else
      var slots := d.value.0;
      assert forall k :: 0 <= k < |slots| ==> slots[k] in b.Slots;
      var objs := Rewrite(slots[..d.value.1], b.Objects, newVersion);
      if objs.Err? then Err(objs.error) else Ok((Backing(slots, objs.value), d.value.1))
  }

  /** `c` passes in a row: the final backing and the length each pass left, in pass order. */
  function SharedPasses(b: Backing, c: nat, host: M.HostName, version: string, newVersion: string): (r: Result<(Backing, seq<nat>)>)
    requires WellFormed(b)
    ensures r.Ok? ==>
      WellFormed(r.value.0) && |r.value.0.Slots| == |b.Slots| && |r.value.1| == c
      && forall k :: 0 <= k < c ==> r.value.1[k] <= |b.Slots|
    decreases c
  {
    if c == 0 then Ok((b, []))
    else
      var p := SharedPass(b, host, version, newVersion);
      if p.Err? then Err(p.error)
      else
        var rest := SharedPasses(p.value.0, c - 1, host, version, newVersion);
        if rest.Err? then Err(rest.error) else Ok((rest.value.0, [p.value.1] + rest.value.1))
  }

  /** A copy of the route whose destinations are the first `n` slots of the final backing. */
  function SharedCopy(http: HTTPRoute, b: Backing, n: nat, route: M.Route, withMatch: bool): HTTPRoute
    requires WellFormed(b) && n <= |b.Slots|
  {
    http.(Route := Resolve(b.Slots[..n], b.Objects), Match := if withMatch then AddHeaderMatch(http, route).Match else http.Match,
      Mirror := None, Redirect := None)
  }

  /**
   * The copies `mutateVirtualService` (with matching) and `mutateConnectedVirtualService`
   * (without) make of one route, as written: one pass per destination that reaches the target,
   * all passes on the same shared list, and every copy read once all passes are done; the copy
   * of the last pass comes first.
   */
  function SharedCopies(http: HTTPRoute, host: M.HostName, version: string, newVersion: string, route: M.Route, withMatch: bool)
    : (r: Result<seq<HTTPRoute>>)
    ensures r.Ok? ==> |r.value| == TargetCount(http.Route, host, version)
  {
    var c := TargetCount(http.Route, host, version);
    var p := SharedPasses(Backing(seq(|http.Route|, k => k), http.Route), c, host, version, newVersion);
    if p.Err? then Err(p.error)
    else Ok(seq(c, j requires 0 <= j < c => SharedCopy(http, p.value.0, p.value.1[c - 1 - j], route, withMatch)))
  }

  /**
   * The routes of the mutated VirtualService as written: the copies of each route of the source,
   * routes taken in order and each one's copies put in front, ahead of the original routes; the
   * first panic ends the mutation.
   */
  function PrependedAsWritten(http: seq<HTTPRoute>, original: seq<HTTPRoute>, host: M.HostName, version: string, newVersion: string,
    route: M.Route, withMatch: bool): (r: Result<seq<HTTPRoute>>)
    ensures r.Ok? ==> |r.value| == |FindRoutes(http, host, version)| + |original|
  {
    if |http| == 0 then Ok(original)
    else
      var init := http[..|http| - 1];
      var last := http[|http| - 1];
      FindRoutesConcat(init, [last], host, version);
      assert init + [last] == http;
      var front := PrependedAsWritten(init, original, host, version, newVersion, route, withMatch);
      if front.Err? then front
      else
        var copies := SharedCopies(last, host, version, newVersion, route, withMatch);
        if copies.Err? then Err(copies.error) else Ok(copies.value + front.value)
  }

  /** `mutateVirtualService` as written, sharing the destinations between the copies. */
  function MutateVirtualServiceAsWritten(version: string, newVersion: string, route: M.Route, host: M.HostName, source: VirtualService)
    : (r: Result<VirtualService>)
    ensures FindRoutes(source.Http, host, version) == [] ==> r == Err(RouteNotFound)
    ensures r.Ok? ==> r.value.(Http := source.Http) == source
  {
    if FindRoutes(source.Http, host, version) == [] then Err(RouteNotFound)
    else
      var http := PrependedAsWritten(source.Http, source.Http, host, version, newVersion, route, true);
      if http.Err? then Err(http.error) else Ok(source.(Http := http.value))
  }

  /** The one pass over a list of one target destination keeps it and sends it to the new version. */
  lemma SinglePass(d: RouteDestination, host: M.HostName, version: string, newVersion: string)
    requires Targets(d, host, version)
    ensures SharedPasses(Backing([0], [d]), 1, host, version, newVersion) == Ok((Backing([0], [Retargeted(d, newVersion)]), [1]))
  {
    var s0: seq<nat> := [0];
    var b0 := Backing(s0, [d]);
    assert s0[..1] == s0 && s0[1..] == [];
    var k0 := (k: nat) => k < |b0.Objects| && Targets(b0.Objects[k], host, version);
    assert RangeDelete(s0, 1, 0, k0) == RangeDelete(s0, 1, 1, k0) == Some((s0, 1));
    var objs1 := [Retargeted(d, newVersion)];
    assert Rewrite([], objs1, newVersion) == Ok(objs1);
    assert [d][0 := Retargeted(d, newVersion)] == objs1;
    assert Rewrite(s0, [d], newVersion) == Ok(objs1);
    var b1 := Backing(s0, objs1);
    assert SharedPass(b0, host, version, newVersion) == Ok((b1, 1));
    assert SharedPasses(b1, 0, host, version, newVersion) == Ok((b1, []));
    var ones: seq<nat> := [1];
    assert ones == [1] + [];
  }

  /** The copy read from that pass is the corrected simplified route. */
  lemma SingleCopy(http: HTTPRoute, host: M.HostName, version: string, newVersion: string, route: M.Route, withMatch: bool)
    requires |http.Route| == 1 && Targets(http.Route[0], host, version)
    ensures SharedCopy(http, Backing([0], [Retargeted(http.Route[0], newVersion)]), 1, route, withMatch)
      == SimplifyTargetRoute(http, host, version, newVersion, route, withMatch)
  {
    SimplifyTargetRouteSpec(http, host, version, newVersion, route, withMatch);
    FilterKeepsAll(http.Route, d => Targets(d, host, version));
    var s0: seq<nat> := [0];
    assert s0[..1] == s0;
  }

  /** A route with at most one destination is copied as intended: no other copy shares its list. */
  lemma SharedCopiesSingle(http: HTTPRoute, host: M.HostName, version: string, newVersion: string, route: M.Route, withMatch: bool)
    requires |http.Route| <= 1
    ensures SharedCopies(http, host, version, newVersion, route, withMatch)
      == Ok(if TargetCount(http.Route, host, version) == 0 then [] else [SimplifyTargetRoute(http, host, version, newVersion, route, withMatch)])
  {
    var c := TargetCount(http.Route, host, version);
    if c > 0 {
      TargetCountPositive(http.Route, host, version);
      var d := http.Route[0];
      assert http.Route == [d];
      assert c == 1 by {
        assert http.Route[1..] == [];
      }
      assert seq(|http.Route|, k => k) == [0];
      SinglePass(d, host, version, newVersion);
      SingleCopy(http, host, version, newVersion, route, withMatch);
      var b1 := Backing([0], [Retargeted(d, newVersion)]);
      var ones: seq<nat> := [1];
      assert seq(1, j requires 0 <= j < 1 => SharedCopy(http, b1, ones[1 - 1 - j], route, withMatch))
        == [SharedCopy(http, b1, 1, route, withMatch)];
    }
  }

  /**
   * When no route has more than one destination, the mutation as written agrees with the
   * intended one: the same copies, in the same order, ahead of the original routes.
   */
  lemma {:induction false} PrependedAsWrittenAgrees(http: seq<HTTPRoute>, original: seq<HTTPRoute>, host: M.HostName, version: string,
    newVersion: string, route: M.Route, withMatch: bool)
    requires forall i :: 0 <= i < |http| ==> |http[i].Route| <= 1
    ensures PrependedAsWritten(http, original, host, version, newVersion, route, withMatch)
      == Ok(Prepended(FindRoutes(http, host, version), original, host, version, newVersion, route, withMatch))
  {
    if |http| > 0 {
      var init := http[..|http| - 1];
      var last := http[|http| - 1];
      var c := TargetCount(last.Route, host, version);
      PrependedAsWrittenAgrees(init, original, host, version, newVersion, route, withMatch);
      SharedCopiesSingle(last, host, version, newVersion, route, withMatch);
      var found := FindRoutes(init, host, version);
      var front := Prepended(found, original, host, version, newVersion, route, withMatch);
      var copies := if c == 0 then [] else [SimplifyTargetRoute(last, host, version, newVersion, route, withMatch)];
      assert PrependedAsWritten(http, original, host, version, newVersion, route, withMatch) == Ok(copies + front);
      FindRoutesConcat(init, [last], host, version);
      assert init + [last] == http;
      FindRoutesSingle(last, host, version);
      PrependedSnoc(found, last, c, original, host, version, newVersion, route, withMatch);
    }
  }

  lemma FindRoutesSingle(http: HTTPRoute, host: M.HostName, version: string)
    ensures FindRoutes([http], host, version) == Repeat(http, TargetCount(http.Route, host, version))
  {
    assert [http][1..] == [];
  }

  /** Prepending no copy, or one more copy of a route, to the found routes. */
  lemma PrependedSnoc(found: seq<HTTPRoute>, x: HTTPRoute, c: nat, original: seq<HTTPRoute>, host: M.HostName, version: string,
    newVersion: string, route: M.Route, withMatch: bool)
    requires c <= 1
    ensures Prepended(found + Repeat(x, c), original, host, version, newVersion, route, withMatch)
      == (if c == 0 then [] else [SimplifyTargetRoute(x, host, version, newVersion, route, withMatch)])
        + Prepended(found, original, host, version, newVersion, route, withMatch)
  {
    if c == 0 {
      assert found + Repeat(x, c) == found;
    } else {
      assert Repeat(x, c) == [x];
      assert (found + [x])[..|found|] == found;
    }
  }

  const ToReviewsHalf := RouteDestination(Some(Destination("reviews", "", 9080)), 50)
  const ToReviewsV1Half := RouteDestination(Some(Destination("reviews", "v1", 9080)), 50)

  /** The split route of `SharedDestinationsPanic`. */
  const SplitRoute := HTTPRoute("", [], [ToReviewsHalf, ToReviewsV1Half], None, None, None)

  /** The first pass keeps both destinations and sends both shared objects to the new version. */
  lemma SplitFirstPass(newVersion: string)
    ensures SharedPass(Backing([0, 1], SplitRoute.Route), Reviews, "v1", newVersion)
      == Ok((Backing([0, 1], [Retargeted(ToReviewsHalf, newVersion), Retargeted(ToReviewsV1Half, newVersion)]), 2))
  {
    var s01: seq<nat> := [0, 1];
    var b0 := Backing(s01, SplitRoute.Route);
    var k0 := (k: nat) => k < |b0.Objects| && Targets(b0.Objects[k], Reviews, "v1");
    assert k0(0) && k0(1);
    assert RangeDelete(s01, 2, 0, k0) == RangeDelete(s01, 2, 1, k0) == RangeDelete(s01, 2, 2, k0) == Some((s01, 2));
    assert s01[..2] == s01 && s01[1..] == [1] && s01[1..][1..] == [];
    var objs1 := [Retargeted(ToReviewsHalf, newVersion), Retargeted(ToReviewsV1Half, newVersion)];
    var half := SplitRoute.Route[0 := Retargeted(ToReviewsHalf, newVersion)];
    assert Rewrite([], objs1, newVersion) == Ok(objs1);
    assert half[1 := Retargeted(ToReviewsV1Half, newVersion)] == objs1;
    assert Rewrite([1], half, newVersion) == Rewrite([], objs1, newVersion);
    assert Rewrite(s01, SplitRoute.Route, newVersion) == Rewrite([1], half, newVersion);
  }

  /** The second pass finds neither object reaching "v1", deletes the first slot and slices past the end. */
  lemma SplitSecondPass(newVersion: string)
    requires newVersion != "" && newVersion != "v1"
    ensures SharedPass(Backing([0, 1], [Retargeted(ToReviewsHalf, newVersion), Retargeted(ToReviewsV1Half, newVersion)]), Reviews, "v1", newVersion)
      == Err(SliceOutOfRange)
  {
    var s01: seq<nat> := [0, 1];
    var b1 := Backing(s01, [Retargeted(ToReviewsHalf, newVersion), Retargeted(ToReviewsV1Half, newVersion)]);
    var k1 := (k: nat) => k < |b1.Objects| && Targets(b1.Objects[k], Reviews, "v1");
    assert !k1(0) && !k1(1);
    var arr2 := s01[..0] + s01[1..2] + s01[1..];
    assert arr2 == [1, 1];
    assert RangeDelete(s01, 2, 0, k1) == RangeDelete(arr2, 1, 1, k1) == None;
  }

  /**
   * A route splitting its traffic between unversioned reviews and reviews at "v1", mutated at
   * "v1": the first copy sends both destinations to the new version through the shared objects,
   * so the second copy finds none of them reaching the target, deletes the first and slices past
   * the shortened end. The corrected mutation makes two copies, each with both destinations.
   */
  lemma SharedDestinationsPanic(newVersion: string, route: M.Route, withMatch: bool)
    requires newVersion != "" && newVersion != "v1"
    ensures PrependedAsWritten([SplitRoute], [SplitRoute], Reviews, "v1", newVersion, route, withMatch) == Err(SliceOutOfRange)
    ensures var p := Prepended(FindRoutes([SplitRoute], Reviews, "v1"), [SplitRoute], Reviews, "v1", newVersion, route, withMatch);
      |p| == 3 && |p[0].Route| == 2 && |p[1].Route| == 2
  {
    var h := SplitRoute;
    SplitRouteCount();
    var s01: seq<nat> := [0, 1];
    assert seq(2, k => k) == s01;
    SplitFirstPass(newVersion);
    SplitSecondPass(newVersion);
    var b1 := Backing(s01, [Retargeted(ToReviewsHalf, newVersion), Retargeted(ToReviewsV1Half, newVersion)]);
    assert SharedPasses(b1, 1, Reviews, "v1", newVersion) == Err(SliceOutOfRange);
    assert SharedPasses(Backing(s01, h.Route), 2, Reviews, "v1", newVersion) == Err(SliceOutOfRange);
    assert SharedCopies(h, Reviews, "v1", newVersion, route, withMatch) == Err(SliceOutOfRange);
    assert [h][..0] == [];
    SplitCorrected(newVersion, route, withMatch);
  }

  lemma SplitRouteCount()
    ensures TargetCount(SplitRoute.Route, Reviews, "v1") == 2
  {
    var r := SplitRoute.Route;
    assert Targets(ToReviewsHalf, Reviews, "v1") && Targets(ToReviewsV1Half, Reviews, "v1");
    assert r[1..] == [ToReviewsV1Half] && r[1..][1..] == [];
    assert TargetCount([], Reviews, "v1") == 0;
    assert TargetCount([ToReviewsV1Half], Reviews, "v1") == 1 + TargetCount([], Reviews, "v1");
  }

  lemma SplitCorrected(newVersion: string, route: M.Route, withMatch: bool)
    ensures var p := Prepended(FindRoutes([SplitRoute], Reviews, "v1"), [SplitRoute], Reviews, "v1", newVersion, route, withMatch);
      |p| == 3 && |p[0].Route| == 2 && |p[1].Route| == 2
  {
    var h := SplitRoute;
    SplitRouteCount();
    FindRoutesSingle(h, Reviews, "v1");
    assert FindRoutes([h], Reviews, "v1") == [h, h];
    var c := SimplifyTargetRoute(h, Reviews, "v1", newVersion, route, withMatch);
    assert [h, h][..1] == [h] && [h][..0] == [];
    assert Prepended([h], [h], Reviews, "v1", newVersion, route, withMatch) == [c] + [h];
    assert Prepended([h, h], [h], Reviews, "v1", newVersion, route, withMatch) == [c] + ([c] + [h]);
    SplitSimplified(newVersion, route, withMatch);
  }

  /** The corrected simplified copy of the split route keeps both destinations. */
  lemma SplitSimplified(newVersion: string, route: M.Route, withMatch: bool)
    ensures |SimplifyTargetRoute(SplitRoute, Reviews, "v1", newVersion, route, withMatch).Route| == 2
  {
    var h := SplitRoute;
    SimplifyTargetRouteSpec(h, Reviews, "v1", newVersion, route, withMatch);
    var keep0 := (d: RouteDestination) => Targets(d, Reviews, "v1");
    assert keep0(ToReviewsHalf) && keep0(ToReviewsV1Half);
    FilterKeepsAll(h.Route, keep0);
  }

  /** Some destination of the route has a subset containing the name. */
  predicate UsesSubset(http: HTTPRoute, subsetName: string)
  {
    exists n :: 0 <= n < |http.Route| && http.Route[n].Destination.Some? && Contains(http.Route[n].Destination.value.Subset, subsetName)
  }

  predicate AllDestinationsSet(vs: VirtualService)
  {
    forall i :: 0 <= i < |vs.Http| ==> AllSet(vs.Http[i].Route)
  }

  /** Whether some destination of the route has a subset containing the name: the inner scan. */
  method RouteUsesSubset(http: HTTPRoute, subsetName: string) returns (found: bool)
    requires AllSet(http.Route)
    ensures found <==> UsesSubset(http, subsetName)
  {
    found := false;
    var n := 0;
    while n < |http.Route|
      invariant 0 <= n <= |http.Route|
      invariant !exists k :: 0 <= k < n && Contains(http.Route[k].Destination.value.Subset, subsetName)
    {
      if Contains(http.Route[n].Destination.value.Subset, subsetName) {
        found := true;
        return;
      }
      n := n + 1;
    }
  }

  /** Reverting drops every route with a destination whose subset contains the name, keeping the rest in order. */
  method RevertVirtualService(subsetName: string, vs: VirtualService) returns (r: VirtualService)
    requires AllDestinationsSet(vs)
    ensures r == vs.(Http := Filter(vs.Http, h => !UsesSubset(h, subsetName)))
  {
    r := vs;
    var i := 0;
    ghost var done := 0;
    while i < |r.Http|
      invariant 0 <= i <= |r.Http| && 0 <= done <= |vs.Http|
      invariant r.Http[..i] == Filter(vs.Http[..done], h => !UsesSubset(h, subsetName))
      invariant r.Http[i..] == vs.Http[done..]
      invariant r == vs.(Http := r.Http)
      decreases |vs.Http| - done
    {
      assert r.Http[i] == vs.Http[done];
      assert vs.Http[..done + 1][..done] == vs.Http[..done];
      var http := r.Http[i];
      var hit := RouteUsesSubset(http, subsetName);
      if hit {
        r := r.(Http := r.Http[..i] + r.Http[i + 1..]);
      } else {
        i := i + 1;
      }
      done := done + 1;
    }
    assert vs.Http[..done] == vs.Http;
  }

  /**
   * Reverting at the new version undoes a mutation: the added routes all go to the new version
   * and are dropped, the original ones stay when none of them uses a subset containing it.
   */
  lemma RevertUndoesMutate(found: seq<HTTPRoute>, http: seq<HTTPRoute>, host: M.HostName, version: string, newVersion: string, route: M.Route, withMatch: bool)
    requires forall i :: 0 <= i < |found| ==> TargetCount(found[i].Route, host, version) > 0
    requires forall i :: 0 <= i < |http| ==> !UsesSubset(http[i], newVersion)
    ensures Filter(Prepended(found, http, host, version, newVersion, route, withMatch), h => !UsesSubset(h, newVersion)) == http
  {
    var p := Prepended(found, http, host, version, newVersion, route, withMatch);
    var keep := (h: HTTPRoute) => !UsesSubset(h, newVersion);
    PrependedAt(found, http, host, version, newVersion, route, withMatch);
    PrependedKeeps(found, http, host, version, newVersion, route, withMatch);
    assert p == p[..|found|] + http;
    forall i | 0 <= i < |found| ensures !keep(p[..|found|][i]) {
      var f := found[|found| - 1 - i];
      SimplifiedAtVersion(f, host, version, newVersion, route, withMatch);
      var s := SimplifyTargetRoute(f, host, version, newVersion, route, withMatch);
      assert s == p[i];
      ContainsItself(newVersion);
      assert s.Route[0].Destination.Some? && Contains(s.Route[0].Destination.value.Subset, newVersion);
    }
    FilterConcat(p[..|found|], http, keep);
    FilterDropsAll(p[..|found|], keep);
    FilterKeepsAll(http, keep);
  }

  lemma ContainsItself(s: string)
    ensures Contains(s, s)
  {
    assert s == "" + s + "";
    ContainsConcat("", s, "");
  }
}
