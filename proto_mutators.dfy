/**
 * The first prototype mutators of `pkg/controller/session`: the VirtualService one puts a copy of
 * the first route in front that sends the header-matched user "jason" to the "-test" subsets,
 * and the DestinationRule one adds the "v1-test" subset; each undoes its change by dropping the
 * first route or subset marked "-test".
 */
module ProtoMutators {
  import opened Wrappers
  import opened GoStrings
  import VS = IstioVirtualService

  const TestSuffix := "-test"

  /** The match of the added route: header "end-user" exactly "jason". */
  const JasonMatch := VS.MatchRequest(map["end-user" := VS.Exact("jason")], None)

  /** The destination of the added route for a destination of the first route: same host and port, subset marked "-test". */
  function TestDestination(d: VS.Destination): (t: VS.Destination)
    ensures t.Host == d.Host && t.Port == d.Port && t.Subset == d.Subset + TestSuffix
  {
    VS.Destination(d.Host, d.Subset + TestSuffix, d.Port)
  }

  /**
   * Puts the test route in front of the routes. The first route must exist and name every
   * destination, as the code reads them without checking.
   */
  method VirtualServiceAdd(vs: VS.VirtualService) returns (r: VS.VirtualService)
    requires |vs.Http| > 0 && VS.AllSet(vs.Http[0].Route)
    ensures |r.Http| == |vs.Http| + 1 && r.Http[1..] == vs.Http
    ensures r == vs.(Http := r.Http)
    ensures var source := vs.Http[0]; var added := r.Http[0];
      added.Match == [JasonMatch] && |added.Route| == |source.Route|
      && added.Redirect == source.Redirect && added.Headers == source.Headers && added.Mirror == source.Mirror
      && added.Name == ""
      && forall j :: 0 <= j < |source.Route| ==>
        added.Route[j] == VS.RouteDestination(Some(TestDestination(source.Route[j].Destination.value)), 0)
  {
    var source := vs.Http[0];
    var sourceRoutes: seq<VS.RouteDestination> := [];
    var i := 0;
    while i < |source.Route|
      invariant 0 <= i <= |source.Route| && |sourceRoutes| == i
      invariant forall j :: 0 <= j < i ==> sourceRoutes[j] == VS.RouteDestination(Some(TestDestination(source.Route[j].Destination.value)), 0)
    {
      var d := source.Route[i].Destination.value;
      sourceRoutes := sourceRoutes + [VS.RouteDestination(Some(VS.Destination(d.Host, d.Subset + TestSuffix, d.Port)), 0)];
      i := i + 1;
    }
    var route := VS.HTTPRoute("", [JasonMatch], sourceRoutes, source.Mirror, source.Redirect, source.Headers);
    r := vs.(Http := [route] + vs.Http);
  }

  /** The route's first destination is in a "-test" subset. */
  predicate IsTestRoute(h: VS.HTTPRoute)
  {
    |h.Route| > 0 && h.Route[0].Destination.Some? && Contains(h.Route[0].Destination.value.Subset, TestSuffix)
  }

  /** The route has a first destination to look at. */
  predicate HasFirstDestination(h: VS.HTTPRoute)
  {
    |h.Route| > 0 && h.Route[0].Destination.Some?
  }

  /** Every route the removal looks at, those up to the first test route, has a first destination. */
  predicate Scannable(http: seq<VS.HTTPRoute>)
  {
    forall i :: 0 <= i < |http| && !HasFirstDestination(http[i]) ==> exists j :: 0 <= j < i && IsTestRoute(http[j])
  }

  /** The position of the first test route. */
  function FirstTestRoute(http: seq<VS.HTTPRoute>): (k: Option<nat>)
    ensures k.Some? ==> k.value < |http| && IsTestRoute(http[k.value]) && forall j :: 0 <= j < k.value ==> !IsTestRoute(http[j])
    ensures k.None? ==> forall j :: 0 <= j < |http| ==> !IsTestRoute(http[j])
  {
    if |http| == 0 then None
    else if IsTestRoute(http[0]) then Some(0)
    else
      var k := FirstTestRoute(http[1..]);
      if k.Some? then Some(k.value + 1) else None
  }

  /** Drops the first route whose first destination is in a "-test" subset; without one nothing changes. */
  method VirtualServiceRemove(vs: VS.VirtualService) returns (r: VS.VirtualService)
    requires Scannable(vs.Http)
    ensures FirstTestRoute(vs.Http).None? ==> r == vs
    ensures FirstTestRoute(vs.Http).Some? ==>
      var k := FirstTestRoute(vs.Http).value; r == vs.(Http := vs.Http[..k] + vs.Http[k + 1..])
  {
    r := vs;
    var i := 0;
    while i < |r.Http|
      invariant 0 <= i <= |r.Http| && r == vs
      invariant forall j :: 0 <= j < i ==> !IsTestRoute(vs.Http[j])
    {
      assert HasFirstDestination(r.Http[i]);
      if Contains(r.Http[i].Route[0].Destination.value.Subset, TestSuffix) {
        r := r.(Http := r.Http[..i] + r.Http[i + 1..]);
        return;
      }
      i := i + 1;
    }
  }

  /** Removing right after adding gives back the VirtualService: the added route is the first test route. */
  lemma VirtualServiceRoundTrip(vs: VS.VirtualService, added: VS.VirtualService)
    requires |vs.Http| > 0 && VS.AllSet(vs.Http[0].Route) && |vs.Http[0].Route| > 0
    requires |added.Http| == |vs.Http| + 1 && added.Http[1..] == vs.Http && added == vs.(Http := added.Http)
    requires |added.Http[0].Route| > 0 && added.Http[0].Route[0] == VS.RouteDestination(Some(TestDestination(vs.Http[0].Route[0].Destination.value)), 0)
    ensures Scannable(added.Http) && FirstTestRoute(added.Http) == Some(0)
    ensures added.(Http := added.Http[..0] + added.Http[1..]) == vs
  {
    var s := vs.Http[0].Route[0].Destination.value.Subset;
    assert added.Http[0].Route[0].Destination.value.Subset == s + TestSuffix + "";
    ContainsConcat(s, TestSuffix, "");
    assert IsTestRoute(added.Http[0]);
  }

  datatype Subset = Subset(Name: string, Labels: map<string, string>)

  datatype DestinationRule = DestinationRule(Name: string, Namespace: string, Host: string, Subsets: seq<Subset>)

  const TestSubset := Subset("v1-test", map["version" := "v1-test"])

  /** Appends the "v1-test" subset, labelled with version "v1-test". */
  method DestinationRuleAdd(dr: DestinationRule) returns (r: DestinationRule)
    ensures r == dr.(Subsets := dr.Subsets + [TestSubset])
  {
    r := dr.(Subsets := dr.Subsets + [TestSubset]);
  }

  predicate IsTestSubset(s: Subset)
  {
    Contains(s.Name, TestSuffix)
  }

  function FirstTestSubset(subsets: seq<Subset>): (k: Option<nat>)
    ensures k.Some? ==> k.value < |subsets| && IsTestSubset(subsets[k.value]) && forall j :: 0 <= j < k.value ==> !IsTestSubset(subsets[j])
    ensures k.None? ==> forall j :: 0 <= j < |subsets| ==> !IsTestSubset(subsets[j])
  {
    if |subsets| == 0 then None
    else if IsTestSubset(subsets[0]) then Some(0)
    else
      var k := FirstTestSubset(subsets[1..]);
      if k.Some? then Some(k.value + 1) else None
  }

  /** Drops the first subset named with "-test"; without one nothing changes. */
  method DestinationRuleRemove(dr: DestinationRule) returns (r: DestinationRule)
    ensures FirstTestSubset(dr.Subsets).None? ==> r == dr
    ensures FirstTestSubset(dr.Subsets).Some? ==>
      var k := FirstTestSubset(dr.Subsets).value; r == dr.(Subsets := dr.Subsets[..k] + dr.Subsets[k + 1..])
  {
    r := dr;
    var i := 0;
    while i < |r.Subsets|
      invariant 0 <= i <= |r.Subsets| && r == dr
      invariant forall j :: 0 <= j < i ==> !IsTestSubset(dr.Subsets[j])
    {
      if Contains(r.Subsets[i].Name, TestSuffix) {
        r := r.(Subsets := r.Subsets[..i] + r.Subsets[i + 1..]);
        return;
      }
      i := i + 1;
    }
  }

  /** Removing right after adding gives back the DestinationRule when it had no "-test" subset yet. */
  lemma DestinationRuleRoundTrip(dr: DestinationRule)
    requires forall j :: 0 <= j < |dr.Subsets| ==> !IsTestSubset(dr.Subsets[j])
    ensures var added := dr.Subsets + [TestSubset];
      FirstTestSubset(added) == Some(|dr.Subsets|) && added[..|dr.Subsets|] + added[|dr.Subsets| + 1..] == dr.Subsets
  {
    var added := dr.Subsets + [TestSubset];
    assert TestSubset.Name == "v1" + TestSuffix + "";
    ContainsConcat("v1", TestSuffix, "");
    assert IsTestSubset(added[|dr.Subsets|]);
    assert forall j :: 0 <= j < |dr.Subsets| ==> added[j] == dr.Subsets[j];
    assert added[..|dr.Subsets|] == dr.Subsets;
  }
}
