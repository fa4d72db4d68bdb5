/**
 * The test-scenario generator's modifiers: each takes the service the generator is working on
 * and one generated Kubernetes or Istio object, and edits that object in place when it is of a
 * kind the modifier handles. The generator of `pkg/generator` is modelled; the copy under
 * `test/cmd/test-scenario/generator` is the same code for services with the default ports
 * (its `HTTP`, `GRPC` and `ConnectToGateway` write 9080 and 9081 literally). The older one
 * under `cmd/test-scenario` has its own `ConnectToGatway`, `Call` and `WithVersion`; its
 * `WithVersion` edits Deployments only, so a DeploymentConfig keeps its name, labels and
 * SERVICE_NAME.
 */
module Generator {
  import opened Wrappers
  import opened GoStrings

  const ServiceNameVar := "SERVICE_NAME"
  const ServiceCallVar := "SERVICE_CALL"
  const TestGateway := "test-gateway"
  const DefaultHTTPPort := 9080
  const DefaultGRPCPort := 9081

  /** `ServiceEntry`: one test service (the ports are `uint32` in the source). */
  datatype ServiceEntry = ServiceEntry(Name: string, DeploymentType: string, Namespace: string, HTTPPort: nat, GRPCPort: nat)

  /** `NewServiceEntry`: a service with the default ports. */
  function NewServiceEntry(name: string, namespace: string, deploymentType: string): (e: ServiceEntry)
    ensures e.Name == name && e.Namespace == namespace && e.DeploymentType == deploymentType
    ensures e.HTTPPort == DefaultHTTPPort && e.GRPCPort == DefaultGRPCPort
  {
    ServiceEntry(name, deploymentType, namespace, DefaultHTTPPort, DefaultGRPCPort)
  }

  /** `HostName`: the cluster-wide host name when a namespace is set, the bare name otherwise. */
  function HostName(e: ServiceEntry): (h: string)
    ensures HasPrefix(h, e.Name)
    ensures h == e.Name <==> e.Namespace == ""
    ensures e.Namespace != "" ==> HasSuffix(h, ".svc.cluster.local") && h[|e.Name|] == '.'
  {
    if e.Namespace != "" then e.Name + "." + e.Namespace + ".svc.cluster.local" else e.Name
  }

  /** The two `Protocol`s a service can be called with. */
  datatype Protocol = HTTP | GRPC

  /** The URL a protocol gives for a target: "http://host:port" for HTTP, "host:port" for gRPC. */
  function Url(p: Protocol, target: ServiceEntry): string
  {
    match p
    case HTTP => "http://" + HostName(target) + ":" + FormatUint(target.HTTPPort)
    case GRPC => HostName(target) + ":" + FormatUint(target.GRPCPort)
  }

  /** The text after the last ':' of `u` (all of `u` when it has none). */
  function AfterLastColon(u: string): string
  {
    if |u| == 0 || u[|u| - 1] == ':' then "" else AfterLastColon(u[..|u| - 1]) + [u[|u| - 1]]
  }

  /** The text before the last ':' of `u` (empty when it has none). */
  function BeforeLastColon(u: string): string
  {
    if |u| == 0 then "" else if u[|u| - 1] == ':' then u[..|u| - 1] else BeforeLastColon(u[..|u| - 1])
  }

  lemma {:induction false} SplitLastColon(a: string, b: string)
    requires ':' !in b
    ensures AfterLastColon(a + ":" + b) == b && BeforeLastColon(a + ":" + b) == a
  {
    if |b| > 0 {
      var u := a + ":" + b;
      assert u[..|u| - 1] == a + ":" + b[..|b| - 1];
      SplitLastColon(a, b[..|b| - 1]);
      assert b == b[..|b| - 1] + [b[|b| - 1]];
    } else {
      assert (a + ":" + b)[..|a|] == a;
    }
  }

  lemma DigitsNoColon(s: string)
    requires IsDigits(s)
    ensures ':' !in s
  {
    forall k | 0 <= k < |s|
      ensures s[k] != ':'
    {
    }
  }

  /** Both protocols put the target's host before the last ':' and its port, readable back, after it. */
  lemma UrlSplits(p: Protocol, target: ServiceEntry)
    ensures BeforeLastColon(Url(p, target)) == (if p == HTTP then "http://" else "") + HostName(target)
    ensures ParseUint(AfterLastColon(Url(p, target))) == Some(if p == HTTP then target.HTTPPort else target.GRPCPort)
  {
    var port := if p == HTTP then target.HTTPPort else target.GRPCPort;
    FormatUintRoundTrip(port);
    var digits := FormatUint(port);
    DigitsNoColon(digits);
    var front := (if p == HTTP then "http://" else "") + HostName(target);
    assert Url(p, target) == front + ":" + digits;
    SplitLastColon(front, digits);
  }

  /** A container environment variable. */
  datatype EnvVar = EnvVar(Name: string, Value: string)

  /** The index of the first variable named `name`. */
  function FirstNamed(vars: seq<EnvVar>, name: string): (k: Option<nat>)
    ensures k.Some? ==> (k.value < |vars| && vars[k.value].Name == name
      && forall j :: 0 <= j < k.value ==> vars[j].Name != name)
    ensures k.None? ==> forall j :: 0 <= j < |vars| ==> vars[j].Name != name
  {
    if |vars| == 0 then None
    else if vars[0].Name == name then Some(0)
    else
      var k := FirstNamed(vars[1..], name);
      if k.Some? then Some(k.value + 1) else None
  }

  /** The value a reader of the environment sees for `name`: that of the first variable with the name. */
  function ValueOf(vars: seq<EnvVar>, name: string): Option<string>
  {
    match FirstNamed(vars, name)
    case Some(k) => Some(vars[k].Value)
    case None => None
  }

  predicate DistinctNames(vars: seq<EnvVar>)
  {
    forall i, j :: 0 <= i < j < |vars| ==> vars[i].Name != vars[j].Name
  }

  /** `appendOrAdd` as a value: the first variable named `name` gets ","+value, or a new variable is appended. */
  function Added(name: string, value: string, vars: seq<EnvVar>): seq<EnvVar>
  {
    match FirstNamed(vars, name)
    case Some(k) => vars[k := EnvVar(name, vars[k].Value + "," + value)]
    case None => vars + [EnvVar(name, value)]
  }

  /** `appendOrAdd`: the loop that looks for the first variable named `name`. */
  method AppendOrAdd(name: string, value: string, vars: seq<EnvVar>) returns (r: seq<EnvVar>)
    ensures r == Added(name, value, vars)
  {
    var found := false;
    r := vars;
    var i := 0;
    while i < |r|
      invariant 0 <= i <= |vars| && |r| == |vars|
      invariant !found ==> r == vars && forall j :: 0 <= j < i ==> vars[j].Name != name
      invariant found ==> r == Added(name, value, vars)
    {
      if r[i].Name == name {
        found := true;
        assert FirstNamed(vars, name) == Some(i);
        r := r[i := EnvVar(r[i].Name, r[i].Value + "," + value)];
        break;
      }
      i := i + 1;
    }
    if !found {
      r := r + [EnvVar(name, value)];
    }
  }

  /** `FirstNamed` is determined by its contract. */
  lemma FirstNamedIs(vars: seq<EnvVar>, name: string, k: nat)
    requires k < |vars| && vars[k].Name == name
    requires forall j :: 0 <= j < k ==> vars[j].Name != name
    ensures FirstNamed(vars, name) == Some(k)
  {
    var f := FirstNamed(vars, name);
    assert f.Some?;
    assert !(f.value < k);
    assert !(f.value > k);
  }

  /**
   * After `appendOrAdd`, a reader sees `value` appended after a comma to the old value of `name`, or
   * `value` alone when there was none; every other name reads as before, and the list only grows
   * when the name was new.
   */
  lemma AddedValue(name: string, value: string, vars: seq<EnvVar>)
    ensures ValueOf(Added(name, value, vars), name) ==
      Some(if ValueOf(vars, name).Some? then ValueOf(vars, name).value + "," + value else value)
    ensures forall n :: n != name ==> ValueOf(Added(name, value, vars), n) == ValueOf(vars, n)
    ensures |Added(name, value, vars)| == |vars| + (if ValueOf(vars, name).Some? then 0 else 1)
  {
    var r := Added(name, value, vars);
    match FirstNamed(vars, name)
    case Some(k) =>
      FirstNamedIs(r, name, k);
      forall n | n != name
        ensures ValueOf(r, n) == ValueOf(vars, n)
      {
        match FirstNamed(vars, n)
        case Some(k') => FirstNamedIs(r, n, k');
        case None => assert FirstNamed(r, n).None?;
      }
    case None =>
      FirstNamedIs(r, name, |vars|);
      forall n | n != name
        ensures ValueOf(r, n) == ValueOf(vars, n)
      {
        match FirstNamed(vars, n)
        case Some(k') => FirstNamedIs(r, n, k');
        case None => assert FirstNamed(r, n).None?;
      }
  }

  /** `appendOrAdd` never introduces a second variable of a name. */
  lemma AddedDistinct(name: string, value: string, vars: seq<EnvVar>)
    requires DistinctNames(vars)
    ensures DistinctNames(Added(name, value, vars))
  {
  }

  /** `UsingImage`'s loop as a value: `appendOrAdd` of every (name, value) pair in order. */
  function AddedAll(vars: seq<EnvVar>, envVars: seq<string>): seq<EnvVar>
    decreases |envVars|
  {
    if |envVars| < 2 then vars else AddedAll(Added(envVars[0], envVars[1], vars), envVars[2..])
  }

  /** Every name of the pairs can be read after `UsingImage`, and the names stay distinct. */
  lemma {:induction false} AddedAllNames(vars: seq<EnvVar>, envVars: seq<string>)
    requires |envVars| % 2 == 0
    ensures forall k :: 0 <= k < |envVars| && k % 2 == 0 ==> ValueOf(AddedAll(vars, envVars), envVars[k]).Some?
    ensures forall n :: ValueOf(vars, n).Some? ==> ValueOf(AddedAll(vars, envVars), n).Some?
    ensures DistinctNames(vars) ==> DistinctNames(AddedAll(vars, envVars))
    decreases |envVars|
  {
    if |envVars| >= 2 {
      var next := Added(envVars[0], envVars[1], vars);
      AddedValue(envVars[0], envVars[1], vars);
      if DistinctNames(vars) {
        AddedDistinct(envVars[0], envVars[1], vars);
      }
      AddedAllNames(next, envVars[2..]);
      forall k | 0 <= k < |envVars| && k % 2 == 0
        ensures ValueOf(AddedAll(vars, envVars), envVars[k]).Some?
      {
        if k >= 2 {
          assert envVars[k] == envVars[2..][k - 2];
        }
      }
    }
  }

  /** `WithVersion`'s loop over the environment: every SERVICE_NAME variable gets "-"+version. */
  function Suffixed(vars: seq<EnvVar>, version: string): (r: seq<EnvVar>)
    ensures |r| == |vars|
  {
    if |vars| == 0 then []
    else
      var last := vars[|vars| - 1];
      Suffixed(vars[..|vars| - 1], version)
        + [if last.Name == ServiceNameVar then EnvVar(last.Name, last.Value + "-" + version) else last]
  }

  lemma {:induction false} SuffixedAt(vars: seq<EnvVar>, version: string)
    ensures |Suffixed(vars, version)| == |vars|
    ensures forall k :: 0 <= k < |vars| ==> (Suffixed(vars, version)[k].Name == vars[k].Name
      && Suffixed(vars, version)[k].Value == (if vars[k].Name == ServiceNameVar then vars[k].Value + "-" + version else vars[k].Value))
  {
    if |vars| > 0 {
      SuffixedAt(vars[..|vars| - 1], version);
    }
  }

  /** An Istio route destination. The generated routes always carry one, so it is not optional here. */
  datatype Destination = Destination(Host: string, Subset: string, Port: Option<nat>)
  datatype HttpRoute = HttpRoute(Route: seq<Destination>)
  datatype Server = Server(Hosts: seq<string>)
  datatype Subset = Subset(Name: string, Labels: map<string, string>)

  /** Every destination of one route sent to `port`. */
  function Ported(route: seq<Destination>, port: nat): (r: seq<Destination>)
    ensures |r| == |route|
  {
    if |route| == 0 then [] else Ported(route[..|route| - 1], port) + [route[|route| - 1].(Port := Some(port))]
  }

  /** Every destination of every route sent to `port`. */
  function WithPort(http: seq<HttpRoute>, port: nat): (r: seq<HttpRoute>)
    ensures |r| == |http|
  {
    if |http| == 0 then [] else WithPort(http[..|http| - 1], port) + [HttpRoute(Ported(http[|http| - 1].Route, port))]
  }

  /** `hostname` added to every server's hosts. */
  function OnHost(servers: seq<Server>, hostname: string): (r: seq<Server>)
    ensures |r| == |servers|
  {
    if |servers| == 0 then [] else OnHost(servers[..|servers| - 1], hostname) + [Server(servers[|servers| - 1].Hosts + [hostname])]
  }

  lemma {:induction false} PortedAt(route: seq<Destination>, port: nat)
    ensures |Ported(route, port)| == |route|
    ensures forall n :: 0 <= n < |route| ==> Ported(route, port)[n] == route[n].(Port := Some(port))
  {
    if |route| > 0 {
      PortedAt(route[..|route| - 1], port);
    }
  }

  lemma {:induction false} WithPortAt(http: seq<HttpRoute>, port: nat)
    ensures |WithPort(http, port)| == |http|
    ensures forall i :: 0 <= i < |http| ==> WithPort(http, port)[i] == HttpRoute(Ported(http[i].Route, port))
  {
    if |http| > 0 {
      WithPortAt(http[..|http| - 1], port);
    }
  }

  lemma {:induction false} OnHostAt(servers: seq<Server>, hostname: string)
    ensures |OnHost(servers, hostname)| == |servers|
    ensures forall i :: 0 <= i < |servers| ==> OnHost(servers, hostname)[i].Hosts == servers[i].Hosts + [hostname]
  {
    if |servers| > 0 {
      OnHostAt(servers[..|servers| - 1], hostname);
    }
  }

  /** The kinds of object the generator produces. */
  datatype Kind = VirtualService | Gateway | DestinationRule | Deployment | DeploymentConfig | Service
  {
    predicate IsWorkload() { this == Deployment || this == DeploymentConfig }
  }

  /**
   * The parts of a generated object that the modifiers read or write: the metadata name, the virtual
   * service's hosts, gateways and HTTP routes, the gateway's servers, the destination rule's subsets,
   * and the pod template's labels and first container's image and environment.
   */
  datatype State = State(
    name: string,
    hosts: seq<string>, gateways: seq<string>, http: seq<HttpRoute>,
    servers: seq<Server>,
    subsets: seq<Subset>,
    labels: map<string, string>, image: string, env: seq<EnvVar>)

  /** The modifiers, as the closures the generator functions return. */
  datatype Modifier =
    | ConnectToGateway(hostname: string)
    | ConnectToGatway
    | GatewayOnHost(hostname: string)
    | Call(proto: Protocol, target: ServiceEntry)
    | CallTarget(targetName: string)
    | ForService(target: ServiceEntry, modifiers: seq<Modifier>)
    | WithVersion(version: string)
    | DeploymentWithVersion(version: string)
    | UsingImage(image: string, envVars: seq<string>)

  /** `UsingImage` reads its (name, value) list two at a time, so the list has even length. */
  predicate WellFormed(m: Modifier)
  {
    match m
    case UsingImage(_, envVars) => |envVars| % 2 == 0
    case ForService(_, mods) => forall k :: 0 <= k < |mods| ==> WellFormed(mods[k])
    case _ => true
  }

  /** What one modifier does to an object of kind `kind` while the generator works on `service`. */
  function Step(m: Modifier, service: ServiceEntry, kind: Kind, s: State): State
  {
    match m
    case ConnectToGateway(hostname) =>
      if kind == VirtualService
      then s.(hosts := [hostname], gateways := s.gateways + [TestGateway], http := WithPort(s.http, service.HTTPPort))
      else s
    case ConnectToGatway =>
      if kind == VirtualService then s.(hosts := ["*"], gateways := s.gateways + [TestGateway]) else s
    case GatewayOnHost(hostname) =>
      if kind == Gateway then s.(servers := OnHost(s.servers, hostname)) else s
    case Call(proto, target) =>
      if kind.IsWorkload() then s.(env := Added(ServiceCallVar, Url(proto, target), s.env)) else s
    case CallTarget(target) =>
      if kind == Deployment then s.(env := s.env + [EnvVar(ServiceCallVar, "http://" + target + ":9080/")]) else s
    case ForService(target, mods) =>
      if target.Name != service.Name then s else StepAll(mods, service, kind, s)
    case WithVersion(version) =>
      if kind == DestinationRule then s.(subsets := s.subsets + [Subset(version, map["version" := version])])
      else if kind == VirtualService then s.(http := s.http + [HttpRoute([Destination(HostName(service), version, None)])])
      else if kind.IsWorkload() then
        s.(labels := s.labels["version" := version], name := s.name + "-" + version, env := Suffixed(s.env, version))
      else s
    case DeploymentWithVersion(version) =>
      if kind == DestinationRule then s.(subsets := s.subsets + [Subset(version, map["version" := version])])
      else if kind == VirtualService then s.(http := s.http + [HttpRoute([Destination(service.Name, version, None)])])
      else if kind == Deployment then
        s.(labels := s.labels["version" := version], name := s.name + "-" + version, env := Suffixed(s.env, version))
      else s
    case UsingImage(image, envVars) =>
      if kind.IsWorkload() then s.(image := image, env := AddedAll(s.env, envVars)) else s
  }

  /** Modifiers applied one after the other, in order. */
  function StepAll(mods: seq<Modifier>, service: ServiceEntry, kind: Kind, s: State): State
  {
    if |mods| == 0 then s else Step(mods[|mods| - 1], service, kind, StepAll(mods[..|mods| - 1], service, kind, s))
  }

  /** A generated object; `kind` is its Go type. */
  class Resource {
    const kind: Kind
    var name: string
    var hosts: seq<string>
    var gateways: seq<string>
    var http: seq<HttpRoute>
    var servers: seq<Server>
    var subsets: seq<Subset>
    var labels: map<string, string>
    var image: string
    var env: seq<EnvVar>

    constructor (kind: Kind, s: State)
      ensures this.kind == kind && Snap() == s
    {
      this.kind := kind;
      name := s.name;
      hosts := s.hosts;
      gateways := s.gateways;
      http := s.http;
      servers := s.servers;
      subsets := s.subsets;
      labels := s.labels;
      image := s.image;
      env := s.env;
    }

    function Snap(): State
      reads this
    {
      State(name, hosts, gateways, http, servers, subsets, labels, image, env)
    }

    /** The first lines of `ConnectToGateway`: the hosts replaced, the test gateway added. */
    method Expose(hostname: string)
      modifies this
      ensures Snap() == old(Snap()).(hosts := [hostname], gateways := old(gateways) + [TestGateway])
    {
      hosts := [hostname];
      gateways := gateways + [TestGateway];
    }

    /** The loops of `ConnectToGateway`: every destination of every HTTP route gets `port`. */
    method SetPorts(port: nat)
      modifies this
      ensures Snap() == old(Snap()).(http := WithPort(old(http), port))
    {
      http := SetAllPorts(http, port);
    }

    /** `GatewayOnHost`: `hostname` added to every server. */
    method AddHost(hostname: string)
      modifies this
      ensures Snap() == old(Snap()).(servers := OnHost(old(servers), hostname))
    {
      servers := AddHostAll(servers, hostname);
    }

    /** `Call`: the environment of the first container through `appendOrAdd`. */
    method SetEnv(name: string, value: string)
      modifies this
      ensures Snap() == old(Snap()).(env := Added(name, value, old(env)))
    {
      env := AppendOrAdd(name, value, env);
    }

    /** `Call` of the older scenario generator: a SERVICE_CALL variable always appended. */
    method AppendEnv(v: EnvVar)
      modifies this
      ensures Snap() == old(Snap()).(env := old(env) + [v])
    {
      env := env + [v];
    }

    /** `WithVersion` on a workload: the version label, the name suffix and the SERVICE_NAME suffix. */
    method Version(version: string)
      modifies this
      ensures Snap() == old(Snap()).(labels := old(labels)["version" := version], name := old(name) + "-" + version,
        env := Suffixed(old(env), version))
    {
      labels := labels["version" := version];
      name := name + "-" + version;
      env := SuffixAll(env, version);
    }

    /** `WithVersion` on a virtual service or destination rule: one route or one subset appended. */
    method AddVersionRoute(host: string, version: string)
      modifies this
      ensures Snap() == old(Snap()).(http := old(http) + [HttpRoute([Destination(host, version, None)])])
    {
      http := http + [HttpRoute([Destination(host, version, None)])];
    }

    method AddSubset(version: string)
      modifies this
      ensures Snap() == old(Snap()).(subsets := old(subsets) + [Subset(version, map["version" := version])])
    {
      subsets := subsets + [Subset(version, map["version" := version])];
    }

    /** `UsingImage`: the image set, then each (name, value) pair through `appendOrAdd`. */
    method UseImage(image: string, envVars: seq<string>)
      requires |envVars| % 2 == 0
      modifies this
      ensures Snap() == old(Snap()).(image := image, env := AddedAll(old(env), envVars))
    {
      this.image := image;
      var i := 0;
      while i < |envVars|
        invariant 0 <= i <= |envVars| && i % 2 == 0
        invariant AddedAll(env, envVars[i..]) == AddedAll(old(env), envVars)
        invariant Snap() == old(Snap()).(image := image, env := env)
      {
        assert envVars[i..][2..] == envVars[i + 2..];
        env := AppendOrAdd(envVars[i], envVars[i + 1], env);
        i := i + 2;
      }
    }
  }

  /** Overwriting the first element not yet visited by a loop. */
  lemma ReplaceAt<T>(done: seq<T>, rest: seq<T>, x: T)
    requires |rest| > 0
    ensures (done + rest)[|done| := x] == done + [x] + rest[1..]
  {
  }

  /** The outer loop of `ConnectToGateway`, over the HTTP routes. */
  method SetAllPorts(http: seq<HttpRoute>, port: nat) returns (h: seq<HttpRoute>)
    ensures h == WithPort(http, port)
  {
    h := http;
    var i := 0;
    while i < |h|
      invariant 0 <= i <= |h| == |http|
      invariant h == WithPort(http[..i], port) + http[i..]
    {
      assert http[..i + 1][..i] == http[..i];
      var route := SetRoutePorts(h[i].Route, port);
      ReplaceAt(WithPort(http[..i], port), http[i..], HttpRoute(route));
      assert http[i..][1..] == http[i + 1..];
      h := h[i := HttpRoute(route)];
      i := i + 1;
    }
    assert http[..i] == http && http[i..] == [];
  }

  /** The loop of `GatewayOnHost` over the servers. */
  method AddHostAll(servers: seq<Server>, hostname: string) returns (s: seq<Server>)
    ensures s == OnHost(servers, hostname)
  {
    s := servers;
    var i := 0;
    while i < |s|
      invariant 0 <= i <= |s| == |servers|
      invariant s == OnHost(servers[..i], hostname) + servers[i..]
    {
      assert servers[..i + 1][..i] == servers[..i];
      ReplaceAt(OnHost(servers[..i], hostname), servers[i..], Server(s[i].Hosts + [hostname]));
      assert servers[i..][1..] == servers[i + 1..];
      s := s[i := Server(s[i].Hosts + [hostname])];
      i := i + 1;
    }
    assert servers[..i] == servers && servers[i..] == [];
  }

  /** The loop of `WithVersion` over the first container's environment. */
  method SuffixAll(env: seq<EnvVar>, version: string) returns (e: seq<EnvVar>)
    ensures e == Suffixed(env, version)
  {
    e := env;
    var index := 0;
    while index < |e|
      invariant 0 <= index <= |e| == |env|
      invariant e == Suffixed(env[..index], version) + env[index..]
    {
      assert env[..index + 1][..index] == env[..index];
      assert env[index..][1..] == env[index + 1..];
      if e[index].Name == ServiceNameVar {
        ReplaceAt(Suffixed(env[..index], version), env[index..], EnvVar(e[index].Name, e[index].Value + "-" + version));
        e := e[index := EnvVar(e[index].Name, e[index].Value + "-" + version)];
      } else {
        ReplaceAt(Suffixed(env[..index], version), env[index..], e[index]);
      }
      index := index + 1;
    }
    assert env[..index] == env && env[index..] == [];
  }

  /** The inner loop of `ConnectToGateway` over one route's destinations. */
  method SetRoutePorts(route: seq<Destination>, port: nat) returns (r: seq<Destination>)
    ensures r == Ported(route, port)
  {
    r := route;
    var n := 0;
    while n < |r|
      invariant 0 <= n <= |r| == |route|
      invariant r == Ported(route[..n], port) + route[n..]
    {
      assert route[..n + 1][..n] == route[..n];
      ReplaceAt(Ported(route[..n], port), route[n..], r[n].(Port := Some(port)));
      assert route[n..][1..] == route[n + 1..];
      r := r[n := r[n].(Port := Some(port))];
      n := n + 1;
    }
    assert route[..n] == route && route[n..] == [];
  }

  /** A modifier run on one object: the closure's type switch, then its edits. */
  method Apply(m: Modifier, service: ServiceEntry, r: Resource)
    requires WellFormed(m)
    modifies r
    ensures r.Snap() == Step(m, service, r.kind, old(r.Snap()))
    decreases m
  {
    match m
    case ConnectToGateway(hostname) =>
      if r.kind == VirtualService {
        r.Expose(hostname);
        r.SetPorts(service.HTTPPort);
      }
    case ConnectToGatway =>
      if r.kind == VirtualService {
        r.Expose("*");
      }
    case GatewayOnHost(hostname) =>
      if r.kind == Gateway {
        r.AddHost(hostname);
      }
    case Call(proto, target) =>
      if r.kind.IsWorkload() {
        r.SetEnv(ServiceCallVar, Url(proto, target));
      }
    case CallTarget(target) =>
      if r.kind == Deployment {
        r.AppendEnv(EnvVar(ServiceCallVar, "http://" + target + ":9080/"));
      }
    case ForService(target, mods) =>
      if target.Name == service.Name {
        var j := 0;
        while j < |mods|
          invariant 0 <= j <= |mods|
          invariant r.Snap() == StepAll(mods[..j], service, r.kind, old(r.Snap()))
        {
          assert mods[..j + 1][..j] == mods[..j];
          Apply(mods[j], service, r);
          j := j + 1;
        }
        assert mods[..j] == mods;
      }
    case WithVersion(version) =>
      if r.kind == DestinationRule {
        r.AddSubset(version);
      } else if r.kind == VirtualService {
        r.AddVersionRoute(HostName(service), version);
      } else if r.kind.IsWorkload() {
        r.Version(version);
      }
    case DeploymentWithVersion(version) =>
      if r.kind == DestinationRule {
        r.AddSubset(version);
      } else if r.kind == VirtualService {
        r.AddVersionRoute(service.Name, version);
      } else if r.kind == Deployment {
        r.Version(version);
      }
    case UsingImage(image, envVars) =>
      if r.kind.IsWorkload() {
        r.UseImage(image, envVars);
      }
  }

  lemma {:induction false} StepAllConcat(a: seq<Modifier>, b: seq<Modifier>, service: ServiceEntry, kind: Kind, s: State)
    ensures StepAll(a + b, service, kind, s) == StepAll(b, service, kind, StepAll(a, service, kind, s))
    decreases |b|
  {
    if |b| == 0 {
      assert a + b == a;
    } else {
      assert (a + b)[..|a + b| - 1] == a + b[..|b| - 1];
      StepAllConcat(a, b[..|b| - 1], service, kind, s);
    }
  }

  /**
   * `ForService` does nothing for another service, and for its own service it runs its modifiers in
   * the order given: splitting the list in two is the same as two `ForService`s.
   */
  lemma ForServiceInOrder(target: ServiceEntry, a: seq<Modifier>, b: seq<Modifier>, service: ServiceEntry, kind: Kind, s: State)
    ensures target.Name != service.Name ==> Step(ForService(target, a + b), service, kind, s) == s
    ensures target.Name == service.Name ==> (Step(ForService(target, a + b), service, kind, s)
      == Step(ForService(target, b), service, kind, Step(ForService(target, a), service, kind, s)))
  {
    StepAllConcat(a, b, service, kind, s);
  }

  /** No modifier touches a Kubernetes service object. */
  lemma {:induction false} ServiceUntouched(m: Modifier, service: ServiceEntry, s: State)
    ensures Step(m, service, Service, s) == s
    decreases m, 1
  {
    if m.ForService? {
      ServiceUntouchedAll(m.modifiers, service, s);
    }
  }

  lemma {:induction false} ServiceUntouchedAll(mods: seq<Modifier>, service: ServiceEntry, s: State)
    ensures StepAll(mods, service, Service, s) == s
    decreases mods, 0
  {
    if |mods| > 0 {
      ServiceUntouchedAll(mods[..|mods| - 1], service, s);
      ServiceUntouched(mods[|mods| - 1], service, s);
    }
  }

  /**
   * `ConnectToGateway` on a virtual service: the hosts become [hostname], the test gateway is added,
   * and every destination of every route keeps its host and subset but goes to the service's HTTP port.
   */
  lemma ConnectToGatewayRoutes(hostname: string, service: ServiceEntry, s: State)
    ensures var r := Step(ConnectToGateway(hostname), service, VirtualService, s);
      r.hosts == [hostname] && r.gateways == s.gateways + [TestGateway]
      && |r.http| == |s.http|
      && (forall i :: 0 <= i < |s.http| ==> |r.http[i].Route| == |s.http[i].Route|)
      && (forall i, n :: 0 <= i < |s.http| && 0 <= n < |s.http[i].Route| ==>
        r.http[i].Route[n].Host == s.http[i].Route[n].Host && r.http[i].Route[n].Subset == s.http[i].Route[n].Subset
        && r.http[i].Route[n].Port == Some(service.HTTPPort))
      && r.(hosts := s.hosts, gateways := s.gateways, http := s.http) == s
  {
    WithPortAt(s.http, service.HTTPPort);
    forall i | 0 <= i < |s.http|
      ensures |Ported(s.http[i].Route, service.HTTPPort)| == |s.http[i].Route|
      ensures forall n :: 0 <= n < |s.http[i].Route| ==>
        Ported(s.http[i].Route, service.HTTPPort)[n] == s.http[i].Route[n].(Port := Some(service.HTTPPort))
    {
      PortedAt(s.http[i].Route, service.HTTPPort);
    }
  }

  /** `GatewayOnHost` on a gateway: every server gets `hostname` after its own hosts, and nothing else changes. */
  lemma GatewayOnHostServers(hostname: string, service: ServiceEntry, s: State)
    ensures var r := Step(GatewayOnHost(hostname), service, Gateway, s);
      |r.servers| == |s.servers|
      && (forall i :: 0 <= i < |s.servers| ==> r.servers[i].Hosts == s.servers[i].Hosts + [hostname])
      && r.(servers := s.servers) == s
  {
    OnHostAt(s.servers, hostname);
  }

  /**
   * `Call` on a workload: SERVICE_CALL reads as the target's URL, after a comma when it was already
   * set; every other variable reads as before, and no variable name is doubled.
   */
  lemma CallSetsServiceCall(proto: Protocol, target: ServiceEntry, service: ServiceEntry, kind: Kind, s: State)
    requires kind.IsWorkload()
    ensures var r := Step(Call(proto, target), service, kind, s);
      ValueOf(r.env, ServiceCallVar) == Some(
        if ValueOf(s.env, ServiceCallVar).Some? then ValueOf(s.env, ServiceCallVar).value + "," + Url(proto, target)
        else Url(proto, target))
      && (forall n :: n != ServiceCallVar ==> ValueOf(r.env, n) == ValueOf(s.env, n))
      && (DistinctNames(s.env) ==> DistinctNames(r.env))
      && r.(env := s.env) == s
  {
    AddedValue(ServiceCallVar, Url(proto, target), s.env);
    if DistinctNames(s.env) {
      AddedDistinct(ServiceCallVar, Url(proto, target), s.env);
    }
  }

  /**
   * `WithVersion` on a workload: the version label is set, the name and every SERVICE_NAME value get
   * "-"+version, and every other variable is kept.
   */
  lemma WithVersionWorkload(version: string, service: ServiceEntry, kind: Kind, s: State)
    requires kind.IsWorkload()
    ensures var r := Step(WithVersion(version), service, kind, s);
      r.labels == s.labels["version" := version] && r.name == s.name + "-" + version
      && |r.env| == |s.env|
      && (forall k :: 0 <= k < |s.env| ==> (r.env[k].Name == s.env[k].Name
        && r.env[k].Value == (if s.env[k].Name == ServiceNameVar then s.env[k].Value + "-" + version else s.env[k].Value)))
      && r.(labels := s.labels, name := s.name, env := s.env) == s
  {
    SuffixedAt(s.env, version);
  }

  /**
   * The older `WithVersion` leaves a DeploymentConfig as it is, where `WithVersion` always changes
   * one, and on every other kind does what `WithVersion` does for a service the older generator
   * names without a namespace.
   */
  lemma DeploymentWithVersionSkipsConfig(version: string, service: ServiceEntry, kind: Kind, s: State)
    ensures Step(DeploymentWithVersion(version), service, DeploymentConfig, s) == s
    ensures kind != DeploymentConfig && service.Namespace == "" ==>
      Step(DeploymentWithVersion(version), service, kind, s) == Step(WithVersion(version), service, kind, s)
    ensures Step(WithVersion(version), service, DeploymentConfig, s) != s
  {
    var r := Step(WithVersion(version), service, DeploymentConfig, s);
    assert |r.name| == |s.name| + 1 + |version|;
  }

  /** `UsingImage` on a workload: the image is set and every listed variable can be read afterwards. */
  lemma UsingImageEnv(image: string, envVars: seq<string>, service: ServiceEntry, kind: Kind, s: State)
    requires kind.IsWorkload() && |envVars| % 2 == 0
    ensures var r := Step(UsingImage(image, envVars), service, kind, s);
      r.image == image
      && (forall k :: 0 <= k < |envVars| && k % 2 == 0 ==> ValueOf(r.env, envVars[k]).Some?)
      && (DistinctNames(s.env) ==> DistinctNames(r.env))
      && r.(image := s.image, env := s.env) == s
  {
    AddedAllNames(s.env, envVars);
  }
}
