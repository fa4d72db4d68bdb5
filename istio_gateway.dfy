/**
 * The locator of `pkg/istio/virtualservicegateway.go` that finds the Gateways a session's
 * VirtualServices are bound to: already marked Gateways are reported for undoing, and every
 * Gateway a VirtualService names is reported for modification with the hosts it does not serve
 * for another session yet.
 */
module IstioGateway {
  import opened Wrappers
  import opened GoStrings
  import opened Seqs
  import M = ModelTypes
  import R = Reference
  import VS = IstioVirtualService

  datatype Server = Server(Hosts: seq<string>)

  datatype Gateway = Gateway(Namespace: string, Name: string, Labels: map<string, string>, Annotations: map<string, string>, Servers: seq<Server>)

  /** The hosts the Gateway already serves for sessions: the comma-split of its "ike.hosts" annotation, none when it is empty. */
  function ExtractExistingHosts(gw: Gateway): (hosts: seq<string>)
    ensures Lookup(gw.Annotations, VS.LabelIkeHosts) == "" ==> hosts == []
    ensures Lookup(gw.Annotations, VS.LabelIkeHosts) != "" ==>
      |hosts| > 0 && Join(hosts, ",") == Lookup(gw.Annotations, VS.LabelIkeHosts) && forall h :: h in hosts ==> ',' !in h
  {
    var annotated := Lookup(gw.Annotations, VS.LabelIkeHosts);
    if annotated != "" then
      JoinSplit(annotated, ',');
      Split(annotated, ',')
    else []
  }

  /** The hosts of the server that are not served yet, appended in order to those collected so far. */
  method FindNewHosts(server: Server, existingHosts: seq<string>, hosts: seq<string>) returns (r: seq<string>)
    ensures r == hosts + Filter(server.Hosts, h => h !in existingHosts)
  {
    r := hosts;
    var i := 0;
    while i < |server.Hosts|
      invariant 0 <= i <= |server.Hosts|
      invariant r == hosts + Filter(server.Hosts[..i], h => h !in existingHosts)
    {
      assert server.Hosts[..i + 1][..i] == server.Hosts[..i];
      if server.Hosts[i] !in existingHosts {
        r := r + [server.Hosts[i]];
      }
      i := i + 1;
    }
    assert server.Hosts[..i] == server.Hosts;
  }

  /** The new hosts of all servers, server by server. */
  function NewHosts(servers: seq<Server>, existingHosts: seq<string>): (r: seq<string>)
  {
    if |servers| == 0 then []
    else NewHosts(servers[..|servers| - 1], existingHosts) + Filter(servers[|servers| - 1].Hosts, h => h !in existingHosts)
  }

  /** The new hosts are the hosts of some server that the Gateway does not have yet. */
  lemma {:induction false} NewHostsMembers(servers: seq<Server>, existingHosts: seq<string>)
    ensures forall h :: h in NewHosts(servers, existingHosts) <==> h !in existingHosts && exists k :: 0 <= k < |servers| && h in servers[k].Hosts
  {
    if |servers| > 0 {
      var init := servers[..|servers| - 1];
      var last := servers[|servers| - 1].Hosts;
      NewHostsMembers(init, existingHosts);
      var keep := h => h !in existingHosts;
      FilterContent(last, keep);
      forall h
        ensures h in NewHosts(servers, existingHosts) <==> h !in existingHosts && exists k :: 0 <= k < |servers| && h in servers[k].Hosts
      {
        assert h in NewHosts(servers, existingHosts) <==> h in NewHosts(init, existingHosts) || h in Filter(last, keep);
        assert h in Filter(last, keep) <==> h !in existingHosts && h in last by {
          assert h in last <==> multiset(last)[h] > 0;
        }
        if exists k :: 0 <= k < |servers| && h in servers[k].Hosts {
          var k :| 0 <= k < |servers| && h in servers[k].Hosts;
          if k < |init| {
            assert h in init[k].Hosts;
          }
        }
        if exists k :: 0 <= k < |init| && h in init[k].Hosts {
          var k :| 0 <= k < |init| && h in init[k].Hosts;
          assert h in servers[k].Hosts;
        }
      }
    }
  }

  /** Collects the new hosts of every server of the Gateway. */
  method CollectNewHosts(gw: Gateway) returns (hosts: seq<string>)
    ensures hosts == NewHosts(gw.Servers, ExtractExistingHosts(gw))
  {
    var existingHosts := ExtractExistingHosts(gw);
    hosts := [];
    var i := 0;
    while i < |gw.Servers|
      invariant 0 <= i <= |gw.Servers|
      invariant hosts == NewHosts(gw.Servers[..i], existingHosts)
    {
      assert gw.Servers[..i + 1][..i] == gw.Servers[..i];
      hosts := FindNewHosts(gw.Servers[i], existingHosts, hosts);
      i := i + 1;
    }
    assert gw.Servers[..i] == gw.Servers;
  }

  /**
   * The namespace and name a VirtualService's gateway reference means: "namespace/name" is taken
   * apart at the slash, anything after a second slash is ignored, and a bare name is in the
   * VirtualService's own namespace.
   */
  function GatewayNamespaceName(vsNamespace: string, gwName: string): (r: (string, string))
    ensures '/' !in gwName ==> r == (vsNamespace, gwName)
    ensures '/' in gwName ==> '/' !in r.0 && '/' !in r.1 && HasPrefix(gwName, r.0 + "/" + r.1)
  {
    var parts := Split(gwName, '/');
    if |parts| > 1 then
      CountZero(gwName, '/');
      PrefixOfSplit(gwName, '/');
      (parts[0], parts[1])
    else
      CountZero(gwName, '/');
      SplitNoSep(gwName, '/');
      (vsNamespace, gwName)
  }

  /** The first two pieces of a split, with the separator between them, begin the text. */
  lemma PrefixOfSplit(s: string, sep: char)
    requires |Split(s, sep)| > 1
    ensures var p := Split(s, sep); HasPrefix(s, p[0] + [sep] + p[1])
  {
    CountZero(s, sep);
    var i := IndexOf(s, sep);
    var a := s[..i];
    var b := s[i + 1..];
    SplitAtFirst(s, sep);
    R.FirstPiece(b, sep);
    var q := Split(b, sep)[0];
    assert HasPrefix(b, q) by {
      if q != b {
        assert b[..|q|] == b[..|q| + 1][..|q|];
      }
    }
    PrefixAfter(s, i, q);
  }

  /** A prefix of what follows position i, with the character at i before it, continues the text up to i. */
  lemma PrefixAfter(s: string, i: nat, q: string)
    requires i < |s| && HasPrefix(s[i + 1..], q)
    ensures HasPrefix(s, s[..i] + [s[i]] + q)
  {
    assert s[..i + 1 + |q|] == s[..i] + [s[i]] + s[i + 1..][..|q|];
  }

  /** A qualified reference of a namespace and a name without slashes is taken apart into them. */
  lemma QualifiedGatewayName(vsNamespace: string, namespace: string, name: string)
    requires '/' !in namespace && '/' !in name
    ensures GatewayNamespaceName(vsNamespace, namespace + "/" + name) == (namespace, name)
  {
    SplitAtSep(namespace, '/', name);
    SplitNoSep(name, '/');
    assert namespace + "/" + name == namespace + ['/'] + name;
  }

  /** The report that undoes what was done to a marked Gateway: the flip of its recorded action. */
  function UndoStatus(gw: Gateway, labelKey: string): (s: M.LocatorStatus)
    ensures s.Resource == M.Resource(gw.Namespace, VS.GatewayKind, gw.Name) && s.Labels == map[]
    ensures s.Action == M.Flip(R.GetRefMarker(gw.Labels, labelKey).0)
  {
    M.LocatorStatus(M.Resource(gw.Namespace, VS.GatewayKind, gw.Name), 0, map[], M.Flip(R.GetRefMarker(gw.Labels, labelKey).0))
  }

  /** A marked Gateway is reported when removing, or when its marker's hash is not the ref's hash. */
  predicate Stale(gw: Gateway, labelKey: string, refHash: Option<string>)
  {
    refHash.None? || R.GetRefMarker(gw.Labels, labelKey).1 != refHash.value
  }

  /** The undo reports for the marked Gateways, in order; `refHash` is `None` when the ref is removed. */
  function MarkedReports(gws: seq<Gateway>, labelKey: string, refHash: Option<string>): (r: seq<M.LocatorStatus>)
    ensures |r| <= |gws|
  {
    if |gws| == 0 then []
    else
      var last := gws[|gws| - 1];
      MarkedReports(gws[..|gws| - 1], labelKey, refHash) + (if Stale(last, labelKey, refHash) then [UndoStatus(last, labelKey)] else [])
  }

  /** The reports are exactly the undo reports of the stale Gateways. */
  lemma {:induction false} MarkedReportsMembers(gws: seq<Gateway>, labelKey: string, refHash: Option<string>)
    ensures forall s :: s in MarkedReports(gws, labelKey, refHash) <==>
      exists k :: 0 <= k < |gws| && Stale(gws[k], labelKey, refHash) && s == UndoStatus(gws[k], labelKey)
  {
    if |gws| > 0 {
      var init := gws[..|gws| - 1];
      MarkedReportsMembers(init, labelKey, refHash);
      assert forall k :: 0 <= k < |init| ==> gws[k] == init[k];
    }
  }

  /** The undo report of each Gateway. */
  function UndoFor(labelKey: string): (f: Gateway -> M.LocatorStatus)
    ensures forall gw :: f(gw) == UndoStatus(gw, labelKey)
  {
    gw => UndoStatus(gw, labelKey)
  }

  lemma {:induction false} MarkedReportsUndoAll(gws: seq<Gateway>, labelKey: string)
    ensures MarkedReports(gws, labelKey, None) == MapSeq(gws, UndoFor(labelKey))
  {
    if |gws| > 0 {
      MarkedReportsUndoAll(gws[..|gws| - 1], labelKey);
    }
  }

  /** When the ref is removed every marked Gateway is reported, in order. */
  lemma MarkedReportsRemoving(gws: seq<Gateway>, labelKey: string)
    ensures |MarkedReports(gws, labelKey, None)| == |gws|
    ensures forall k :: 0 <= k < |gws| ==> MarkedReports(gws, labelKey, None)[k] == UndoStatus(gws[k], labelKey)
  {
    MarkedReportsUndoAll(gws, labelKey);
    MapSeqAt(gws, UndoFor(labelKey));
  }

  /** The report for a Gateway a VirtualService names: modify it, labelled with the hosts it can take. */
  function ConnectedStatus(namespace: string, name: string, gw: Gateway): (s: M.LocatorStatus)
    ensures s.Resource == M.Resource(namespace, VS.GatewayKind, name) && s.Action == M.ActionModify
    ensures s.Labels == map[VS.LabelIkeHosts := Join(NewHosts(gw.Servers, ExtractExistingHosts(gw)), ",")]
  {
    M.LocatorStatus(M.Resource(namespace, VS.GatewayKind, name), 0,
      map[VS.LabelIkeHosts := Join(NewHosts(gw.Servers, ExtractExistingHosts(gw)), ",")], M.ActionModify)
  }

  type GatewayGetter = (string, string) -> Result<Gateway>

  /** The reports for the Gateways named by one VirtualService that could be fetched, in order. */
  function GatewayReports(vsNamespace: string, gateways: seq<string>, getGateway: GatewayGetter): (r: seq<M.LocatorStatus>)
    ensures |r| <= |gateways|
    ensures forall s :: s in r ==> s.Action == M.ActionModify && s.Resource.Kind == VS.GatewayKind && VS.LabelIkeHosts in s.Labels
  {
    if |gateways| == 0 then []
    else
      var nn := GatewayNamespaceName(vsNamespace, gateways[|gateways| - 1]);
      var rest := GatewayReports(vsNamespace, gateways[..|gateways| - 1], getGateway);
      var got := getGateway(nn.0, nn.1);
      rest + (if got.Ok? then [ConnectedStatus(nn.0, nn.1, got.value)] else [])
  }

  /** One more reference adds the report for its Gateway, when that can be fetched. */
  lemma GatewayReportsStep(vsNamespace: string, gateways: seq<string>, i: nat, getGateway: GatewayGetter)
    requires i < |gateways|
    ensures var nn := GatewayNamespaceName(vsNamespace, gateways[i]);
      var got := getGateway(nn.0, nn.1);
      GatewayReports(vsNamespace, gateways[..i + 1], getGateway)
        == GatewayReports(vsNamespace, gateways[..i], getGateway) + (if got.Ok? then [ConnectedStatus(nn.0, nn.1, got.value)] else [])
  {
    assert gateways[..i + 1][..i] == gateways[..i];
  }

  /** Some Gateway named by the VirtualService could not be fetched. */
  predicate GatewayMissing(vsNamespace: string, gateways: seq<string>, getGateway: GatewayGetter)
  {
    exists k :: 0 <= k < |gateways| && Missing(vsNamespace, gateways[k], getGateway)
  }

  lemma MissingAppend(vsNamespace: string, gateways: seq<string>, gwName: string, getGateway: GatewayGetter)
    ensures GatewayMissing(vsNamespace, gateways + [gwName], getGateway)
      <==> GatewayMissing(vsNamespace, gateways, getGateway) || Missing(vsNamespace, gwName, getGateway)
  {
    var all := gateways + [gwName];
    assert forall k :: 0 <= k < |gateways| ==> all[k] == gateways[k];
    assert all[|gateways|] == gwName;
  }

  /** The Gateway a reference means cannot be fetched. */
  predicate Missing(vsNamespace: string, gwName: string, getGateway: GatewayGetter)
  {
    var nn := GatewayNamespaceName(vsNamespace, gwName);
    getGateway(nn.0, nn.1).Err?
  }

  /** The reports for the Gateways of every VirtualService, VirtualService by VirtualService. */
  function ConnectedReports(vss: seq<VS.VirtualService>, getGateway: GatewayGetter): (r: seq<M.LocatorStatus>)
    ensures forall s :: s in r ==> s.Action == M.ActionModify && s.Resource.Kind == VS.GatewayKind && VS.LabelIkeHosts in s.Labels
  {
    if |vss| == 0 then []
    else
      var last := vss[|vss| - 1];
      ConnectedReports(vss[..|vss| - 1], getGateway) + GatewayReports(last.Namespace, last.Gateways, getGateway)
  }

  /** The reports for the Gateways one VirtualService names, and whether one of them was missing. */
  method LocateConnected(vs: VS.VirtualService, getGateway: GatewayGetter) returns (reports: seq<M.LocatorStatus>, missing: bool)
    ensures reports == GatewayReports(vs.Namespace, vs.Gateways, getGateway)
    ensures missing <==> GatewayMissing(vs.Namespace, vs.Gateways, getGateway)
  {
    reports := [];
    missing := false;
    var i := 0;
    while i < |vs.Gateways|
      invariant 0 <= i <= |vs.Gateways|
      invariant reports == GatewayReports(vs.Namespace, vs.Gateways[..i], getGateway)
      invariant missing <==> GatewayMissing(vs.Namespace, vs.Gateways[..i], getGateway)
    {
      LocateStep(vs.Namespace, vs.Gateways, i, getGateway);
      var nn := GatewayNamespaceName(vs.Namespace, vs.Gateways[i]);
      var got := getGateway(nn.0, nn.1);
      if got.Err? {
        missing := true;
      } else {
        var status := ConnectedFor(nn.0, nn.1, got.value);
        reports := reports + [status];
      }
      i := i + 1;
    }
    assert vs.Gateways[..i] == vs.Gateways;
  }

  /** One more reference: its report when the Gateway can be fetched, and whether it is missing. */
  lemma LocateStep(vsNamespace: string, gateways: seq<string>, i: nat, getGateway: GatewayGetter)
    requires i < |gateways|
    ensures var nn := GatewayNamespaceName(vsNamespace, gateways[i]);
      var got := getGateway(nn.0, nn.1);
      GatewayReports(vsNamespace, gateways[..i + 1], getGateway)
        == GatewayReports(vsNamespace, gateways[..i], getGateway) + (if got.Ok? then [ConnectedStatus(nn.0, nn.1, got.value)] else [])
      && (GatewayMissing(vsNamespace, gateways[..i + 1], getGateway) <==> GatewayMissing(vsNamespace, gateways[..i], getGateway) || got.Err?)
  {
    assert gateways[..i + 1] == gateways[..i] + [gateways[i]];
    MissingAppend(vsNamespace, gateways[..i], gateways[i], getGateway);
    GatewayReportsStep(vsNamespace, gateways, i, getGateway);
  }

  /** The report for one fetched Gateway, with the hosts it can take. */
  method ConnectedFor(namespace: string, name: string, gw: Gateway) returns (status: M.LocatorStatus)
    ensures status == ConnectedStatus(namespace, name, gw)
  {
    var hosts := CollectNewHosts(gw);
    status := M.LocatorStatus(M.Resource(namespace, VS.GatewayKind, name), 0, map[VS.LabelIkeHosts := Join(hosts, ",")], M.ActionModify);
  }

  /** Some VirtualService names a Gateway that cannot be fetched. */
  predicate AnyMissing(vss: seq<VS.VirtualService>, getGateway: GatewayGetter)
  {
    exists k :: 0 <= k < |vss| && GatewayMissing(vss[k].Namespace, vss[k].Gateways, getGateway)
  }

  lemma AnyMissingAppend(vss: seq<VS.VirtualService>, vs: VS.VirtualService, getGateway: GatewayGetter)
    ensures AnyMissing(vss + [vs], getGateway) <==> AnyMissing(vss, getGateway) || GatewayMissing(vs.Namespace, vs.Gateways, getGateway)
  {
    var all := vss + [vs];
    assert forall k :: 0 <= k < |vss| ==> all[k] == vss[k];
    assert all[|vss|] == vs;
  }

  /** The undo reports for the marked Gateways. */
  method ReportMarked(gws: seq<Gateway>, labelKey: string, refHash: Option<string>) returns (reports: seq<M.LocatorStatus>)
    ensures reports == MarkedReports(gws, labelKey, refHash)
  {
    reports := [];
    var i := 0;
    while i < |gws|
      invariant 0 <= i <= |gws|
      invariant reports == MarkedReports(gws[..i], labelKey, refHash)
    {
      assert gws[..i + 1][..i] == gws[..i];
      var undo := UndoReport(gws[i], labelKey, refHash);
      reports := reports + undo;
      i := i + 1;
    }
    assert gws[..i] == gws;
  }

  /** The undo report for one marked Gateway, when it is stale. */
  method UndoReport(gw: Gateway, labelKey: string, refHash: Option<string>) returns (r: seq<M.LocatorStatus>)
    ensures r == if Stale(gw, labelKey, refHash) then [UndoStatus(gw, labelKey)] else []
  {
    var marker := R.GetRefMarker(gw.Labels, labelKey);
    var undo := M.Flip(marker.0);
    if refHash.None? || refHash.value != marker.1 {
      return [M.LocatorStatus(M.Resource(gw.Namespace, VS.GatewayKind, gw.Name), 0, map[], undo)];
    }
    return [];
  }

  /** The reports for the Gateways of every VirtualService, and whether one of them was missing. */
  method LocateAllConnected(vss: seq<VS.VirtualService>, getGateway: GatewayGetter) returns (reports: seq<M.LocatorStatus>, failed: bool)
    ensures reports == ConnectedReports(vss, getGateway)
    ensures failed <==> AnyMissing(vss, getGateway)
  {
    reports := [];
    failed := false;
    var i := 0;
    while i < |vss|
      invariant 0 <= i <= |vss|
      invariant reports == ConnectedReports(vss[..i], getGateway)
      invariant failed <==> AnyMissing(vss[..i], getGateway)
    {
      assert vss[..i + 1][..i] == vss[..i];
      assert vss[..i + 1] == vss[..i] + [vss[i]];
      AnyMissingAppend(vss[..i], vss[i], getGateway);
      var found, missing := LocateConnected(vss[i], getGateway);
      reports := reports + found;
      failed := failed || missing;
      i := i + 1;
    }
    assert vss[..i] == vss;
  }

  /**
   * The locator. `marked` is the listing of the Gateways carrying the session's marker and `vss`
   * the listing of the namespace's VirtualServices; both may fail. A failed marked listing ends
   * the search with nothing reported; when removing, every marked Gateway is reported for
   * undoing; otherwise only those marked by another version of the ref, then every fetched
   * Gateway a VirtualService names. A Gateway that cannot be fetched is skipped and fails the
   * search at the end.
   */
  method VirtualServiceGatewayLocator(
    ref: M.Ref, sha256: string -> M.Sum256, remove: bool, labelKey: string,
    marked: Result<seq<Gateway>>, vss: Result<seq<VS.VirtualService>>, getGateway: GatewayGetter)
    returns (reports: seq<M.LocatorStatus>, failed: bool)
    ensures marked.Err? ==> reports == [] && failed
    ensures marked.Ok? && remove ==> reports == MarkedReports(marked.value, labelKey, None) && !failed
    ensures marked.Ok? && !remove && vss.Err? ==>
      reports == MarkedReports(marked.value, labelKey, Some(M.ShortSha(sha256(ref.Digest())))) && failed
    ensures marked.Ok? && !remove && vss.Ok? ==>
      reports == MarkedReports(marked.value, labelKey, Some(M.ShortSha(sha256(ref.Digest())))) + ConnectedReports(vss.value, getGateway)
      && (failed <==> AnyMissing(vss.value, getGateway))
  {
    if marked.Err? {
      return [], true;
    }
    if remove {
      reports := ReportMarked(marked.value, labelKey, None);
      return reports, false;
    }
    var hash := ref.Hash(sha256);
    reports := ReportMarked(marked.value, labelKey, Some(hash));
    if vss.Err? {
      return reports, true;
    }
    var connected;
    connected, failed := LocateAllConnected(vss.value, getGateway);
    reports := reports + connected;
  }

  /** Otherwise a Gateway marked with the ref's current hash is not reported for undoing. */
  lemma CurrentMarkerNotUndone(gws: seq<Gateway>, labelKey: string, refHash: string, gw: Gateway)
    requires R.GetRefMarker(gw.Labels, labelKey).1 == refHash
    requires forall k :: 0 <= k < |gws| && gws[k].Namespace == gw.Namespace && gws[k].Name == gw.Name ==> gws[k] == gw
    ensures forall s :: s in MarkedReports(gws, labelKey, Some(refHash)) ==> s.Resource != M.Resource(gw.Namespace, VS.GatewayKind, gw.Name)
  {
    MarkedReportsMembers(gws, labelKey, Some(refHash));
  }
}
