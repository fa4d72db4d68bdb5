/**
 * The Service locator of `pkg/k8s/service.go`: every Service of the session's namespace whose
 * selector the labels of a located Deployment or DeploymentConfig satisfy is reported as located.
 * The listing of the namespace's Services is an input that may have failed.
 */
module K8sService {
  import opened Wrappers
  import M = ModelTypes

  const ServiceKind := "Service"

  datatype Service = Service(Name: string, Labels: map<string, string>, Selector: map<string, string>)

  /** A selector made from a set of labels: every one of them must be present with the same value. */
  predicate Selects(selector: map<string, string>, labels: map<string, string>)
  {
    forall k :: k in selector ==> k in labels && labels[k] == selector[k]
  }

  /** The report for a located Service of the namespace. */
  function ServiceStatus(namespace: string, service: Service): (s: M.LocatorStatus)
    ensures s.Resource == M.Resource(namespace, ServiceKind, service.Name)
    ensures s.Action == M.ActionLocated && s.Labels == service.Labels
  {
    M.LocatorStatus(M.Resource(namespace, ServiceKind, service.Name), 0, service.Labels, M.ActionLocated)
  }

  /** The Services selecting one target, in listing order. */
  function SelectingServices(namespace: string, target: M.LocatorStatus, services: seq<Service>): (r: seq<M.LocatorStatus>)
    ensures |r| <= |services|
  {
    if |services| == 0 then []
    else
      var last := services[|services| - 1];
      SelectingServices(namespace, target, services[..|services| - 1]) + (if Selects(last.Selector, target.Labels) then [ServiceStatus(namespace, last)] else [])
  }

  /** The reports for one target are those of the Services selecting it. */
  lemma {:induction false} SelectingServicesMembers(namespace: string, target: M.LocatorStatus, services: seq<Service>)
    ensures forall s :: s in SelectingServices(namespace, target, services) <==>
      exists k :: 0 <= k < |services| && Selects(services[k].Selector, target.Labels) && s == ServiceStatus(namespace, services[k])
  {
    if |services| > 0 {
      var init := services[..|services| - 1];
      SelectingServicesMembers(namespace, target, init);
      assert forall k :: 0 <= k < |init| ==> services[k] == init[k];
    }
  }

  /** The reports for every target, target by target. */
  function ServiceReports(namespace: string, targets: seq<M.LocatorStatus>, services: seq<Service>): (r: seq<M.LocatorStatus>)
  {
    if |targets| == 0 then []
    else ServiceReports(namespace, targets[..|targets| - 1], services) + SelectingServices(namespace, targets[|targets| - 1], services)
  }

  /** A Service is reported exactly when it selects some target. */
  lemma {:induction false} ServiceReportsMembers(namespace: string, targets: seq<M.LocatorStatus>, services: seq<Service>)
    ensures forall s :: s in ServiceReports(namespace, targets, services) <==> exists j, k ::
      0 <= j < |targets| && 0 <= k < |services| && Selects(services[k].Selector, targets[j].Labels) && s == ServiceStatus(namespace, services[k])
  {
    if |targets| > 0 {
      var init := targets[..|targets| - 1];
      ServiceReportsMembers(namespace, init, services);
      SelectingServicesMembers(namespace, targets[|targets| - 1], services);
      assert forall j :: 0 <= j < |init| ==> targets[j] == init[j];
    }
  }

  /** The number of (target, Service) pairs where the Service selects the target. */
  function PairCount(targets: seq<M.LocatorStatus>, services: seq<Service>): nat
  {
    if |targets| == 0 then 0 else PairCount(targets[..|targets| - 1], services) + SelectingCount(targets[|targets| - 1], services)
  }

  function SelectingCount(target: M.LocatorStatus, services: seq<Service>): nat
  {
    if |services| == 0 then 0
    else SelectingCount(target, services[..|services| - 1]) + (if Selects(services[|services| - 1].Selector, target.Labels) then 1 else 0)
  }

  /** Exactly one report per selecting pair. */
  lemma {:induction false} OneReportPerPair(namespace: string, targets: seq<M.LocatorStatus>, services: seq<Service>)
    ensures |ServiceReports(namespace, targets, services)| == PairCount(targets, services)
  {
    if |targets| > 0 {
      OneReportPerPair(namespace, targets[..|targets| - 1], services);
      OnePerService(namespace, targets[|targets| - 1], services);
    }
  }

  lemma {:induction false} OnePerService(namespace: string, target: M.LocatorStatus, services: seq<Service>)
    ensures |SelectingServices(namespace, target, services)| == SelectingCount(target, services)
  {
    if |services| > 0 {
      OnePerService(namespace, target, services[..|services| - 1]);
    }
  }

  /** A Service without a selector is reported once for every target. */
  lemma EmptySelectorSelectsAll(target: M.LocatorStatus, service: Service)
    requires service.Selector == map[]
    ensures Selects(service.Selector, target.Labels)
  {
  }

  /**
   * The locator: with the Services listed, one located report per target and selecting Service,
   * target by target; a failed listing returns its error with nothing reported. Only the located
   * Deployments and DeploymentConfigs are targets.
   */
  method ServiceLocator(namespace: string, store: M.StoreView, services: Result<seq<Service>>)
    returns (reports: seq<M.LocatorStatus>, err: Option<string>)
    ensures services.Err? ==> reports == [] && err == Some(services.error)
    ensures services.Ok? ==> err.None? && reports == ServiceReports(namespace, store(["Deployment", "DeploymentConfig"]), services.value)
  {
    var deployments := store(["Deployment", "DeploymentConfig"]);
    if services.Err? {
      return [], Some(services.error);
    }
    var items := services.value;
    reports := [];
    var i := 0;
    while i < |deployments|
      invariant 0 <= i <= |deployments|
      invariant reports == ServiceReports(namespace, deployments[..i], items)
    {
      assert deployments[..i + 1][..i] == deployments[..i];
      var found := SelectingFor(namespace, deployments[i], items);
      reports := reports + found;
      i := i + 1;
    }
    assert deployments[..i] == deployments;
    err := None;
  }

  /** The inner loop: the reports for the Services selecting one target. */
  method SelectingFor(namespace: string, target: M.LocatorStatus, items: seq<Service>) returns (found: seq<M.LocatorStatus>)
    ensures found == SelectingServices(namespace, target, items)
  {
    found := [];
    var j := 0;
    while j < |items|
      invariant 0 <= j <= |items|
      invariant found == SelectingServices(namespace, target, items[..j])
    {
      assert items[..j + 1][..j] == items[..j];
      if Selects(items[j].Selector, target.Labels) {
        found := found + [M.LocatorStatus(M.Resource(namespace, ServiceKind, items[j].Name), 0, items[j].Labels, M.ActionLocated)];
      }
      j := j + 1;
    }
    assert items[..j] == items;
  }
}
