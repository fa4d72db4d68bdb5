/**
 * The reworked session model of `pkg/model/new/model.go`. Its actions, `Flip`, kind/name
 * expressions, host names and `ParseRefKindName`/`ParseHostName` have the same definitions as in
 * `pkg/model` and are taken from `ModelTypes`; what differs is the store, the version rule and
 * the engine that sequences locators, the gate and the modificators.
 */
module ModelNew {
  import opened Wrappers
  import opened ModelTypes
  import opened Seqs
  import ModelLocator
  import ModelVersioning

  /** The entries whose kind is exactly one of the requested kinds, in stored order. */
  function FilterExact(s: seq<LocatorStatus>, kinds: seq<string>): seq<LocatorStatus>
  {
    Filter(s, (l: LocatorStatus) => l.Kind() in kinds)
  }

  /** Exactly the entries of a requested kind, compared case-sensitively, as often as they are stored. */
  lemma FilterExactContent(s: seq<LocatorStatus>, kinds: seq<string>)
    ensures forall x :: multiset(FilterExact(s, kinds))[x] == if x.Kind() in kinds then multiset(s)[x] else 0
  {
    FilterContent(s, (l: LocatorStatus) => l.Kind() in kinds);
  }

  /**
   * The table after reporting `rs` in order with clock reading `now`: how a locator's reports
   * reach the store.
   */
  function ReportAll(t: seq<LocatorStatus>, rs: seq<LocatorStatus>, now: Time): seq<LocatorStatus>
    decreases |rs|
  {
    if |rs| == 0 then t else ReportAll(ModelLocator.Reported(t, ModelLocator.Stamped(rs[0], now)), rs[1..], now)
  }

  /** A store without sorting: lookups by exact kind in the order of first report. */
  class LocatorStore {
    var stored: seq<LocatorStatus>

    constructor ()
      ensures stored == []
    {
      stored := [];
    }

    /** All reports when no kind is given, otherwise the reports of exactly the given kinds. */
    method Store(kinds: seq<string>) returns (f: seq<LocatorStatus>)
      ensures |kinds| == 0 ==> f == stored
      ensures |kinds| > 0 ==> f == FilterExact(stored, kinds)
    {
      if |kinds| == 0 {
        return stored;
      }
      f := [];
      var i := 0;
      while i < |stored|
        invariant 0 <= i <= |stored|
        invariant f == FilterExact(stored[..i], kinds)
      {
        var loc := stored[i];
        var j := 0;
        while j < |kinds| && loc.Kind() != kinds[j]
          invariant 0 <= j <= |kinds|
          invariant forall k :: 0 <= k < j ==> loc.Kind() != kinds[k]
        {
          j := j + 1;
        }
        if j < |kinds| {
          f := f + [loc];
        }
        assert stored[..i + 1][..i] == stored[..i];
        i := i + 1;
      }
      assert stored[..i] == stored;
    }

    /** Replaces every entry with the report's name, kind and action, or appends the report. */
    method Report(status: LocatorStatus, now: Time)
      modifies this
      ensures stored == ModelLocator.Reported(old(stored), ModelLocator.Stamped(status, now))
    {
      var st := ModelLocator.Stamped(status, now);
      var replaced := false;
      var i := 0;
      while i < |stored|
        invariant 0 <= i <= |stored| && |stored| == |old(stored)|
        invariant forall k :: 0 <= k < i ==> stored[k] == if ModelLocator.SameEntry(old(stored)[k], st) then st else old(stored)[k]
        invariant forall k :: i <= k < |stored| ==> stored[k] == old(stored)[k]
        invariant replaced <==> exists k :: 0 <= k < i && ModelLocator.SameEntry(old(stored)[k], st)
      {
        if stored[i].Name() == st.Name() && stored[i].Kind() == st.Kind() && stored[i].Action == st.Action {
          stored := stored[i := st];
          replaced := true;
        }
        i := i + 1;
      }
      if !replaced {
        stored := stored + [st];
      }
    }

    method Clear()
      modifies this
      ensures stored == []
    {
      stored := [];
    }
  }

  datatype ModificatorStatus = ModificatorStatus(
    Status: LocatorStatus, Error: Option<string>, Success: bool, Prop: map<string, string>)

  /** Collects what the modificators report. */
  class ModificatorStore {
    var Stored: seq<ModificatorStatus>

    constructor ()
      ensures Stored == []
    {
      Stored := [];
    }

    method Report(status: ModificatorStatus)
      modifies this
      ensures Stored == old(Stored) + [status]
    {
      Stored := Stored + [status];
    }
  }

  /** The version label when exactly one Deployment or DeploymentConfig is located, else "unknown". */
  function GetVersion(store: StoreView): (v: string)
  {
    var target := store(ModelVersioning.TargetKinds);
    if |target| == 1 && "version" in target[0].Labels then target[0].Labels["version"] else ModelVersioning.UnknownVersion
  }

  /**
   * With a single live target both revisions agree; with two versioned targets the reworked
   * rule gives up where the earlier one picks the first.
   */
  lemma GetVersionAgainstFirstMatch(store: StoreView)
    ensures var ts := store(ModelVersioning.TargetKinds);
      |ts| == 1 && !ModelVersioning.IsUndoAction(ts[0].Action) ==> GetVersion(store) == ModelVersioning.GetVersion(store)
    ensures var ts := store(ModelVersioning.TargetKinds);
      (|ts| == 2 && ModelVersioning.Versioned(ts[0], false) && ts[0].Labels["version"] != ModelVersioning.UnknownVersion)
        ==> GetVersion(store) != ModelVersioning.GetVersion(store)
  {
  }

  /** The new version: the short hash of the current version, a dash, the session name. */
  function GetNewVersion(store: StoreView, sessionName: string, sha256: string -> Sum256): (v: string)
    ensures |v| == 9 + |sessionName| && v[8] == '-' && v[9..] == sessionName
    ensures forall i :: 0 <= i < 8 ==> v[i] in HexDigits
    ensures v[..8] == ModelVersioning.GetSha(GetVersion(store), sha256)
  {
    ModelVersioning.GetSha(GetVersion(store), sha256) + "-" + sessionName
  }

  /** What a locator does with the store it is handed: the reports it makes and the error it returns. */
  datatype LocatorOutcome = LocatorOutcome(reports: seq<LocatorStatus>, err: Option<string>)

  type Locator = seq<LocatorStatus> -> LocatorOutcome
  type Modificator = seq<LocatorStatus> -> seq<ModificatorStatus>

  /** The observable steps of one engine run, each with the store contents it was handed. */
  datatype Event =
    | LocatorRan(index: nat, view: seq<LocatorStatus>)
    | GateAsked(view: seq<LocatorStatus>)
    | LocatedReported(view: seq<LocatorStatus>)
    | ModificatorRan(index: nat, view: seq<LocatorStatus>)

  /** The store after running the locators in order; their errors are ignored. */
  function Located(locators: seq<Locator>, t: seq<LocatorStatus>, now: Time): seq<LocatorStatus>
    decreases |locators|
  {
    if |locators| == 0 then t else Located(locators[1..], ReportAll(t, locators[0](t).reports, now), now)
  }

  function LocatorEvents(locators: seq<Locator>, from: nat, t: seq<LocatorStatus>, now: Time): seq<Event>
    decreases |locators|
  {
    if |locators| == 0 then []
    else [LocatorRan(from, t)] + LocatorEvents(locators[1..], from + 1, ReportAll(t, locators[0](t).reports, now), now)
  }

  function ModificatorEvents(count: nat, from: nat, t: seq<LocatorStatus>): (r: seq<Event>)
    ensures |r| == count && forall j :: 0 <= j < count ==> r[j] == ModificatorRan(from + j, t)
    decreases count
  {
    if count == 0 then [] else [ModificatorRan(from, t)] + ModificatorEvents(count - 1, from + 1, t)
  }

  function Modifications(modificators: seq<Modificator>, t: seq<LocatorStatus>): seq<ModificatorStatus>
  {
    if |modificators| == 0 then [] else Modifications(modificators[..|modificators| - 1], t) + modificators[|modificators| - 1](t)
  }

  /** Every locator, in order; then the gate; then, only if the gate agrees, the located reporter and every modificator. */
  function EngineTrace(locators: seq<Locator>, modificators: seq<Modificator>, gate: seq<LocatorStatus> -> bool, now: Time): seq<Event>
  {
    var t := Located(locators, [], now);
    LocatorEvents(locators, 0, [], now) + [GateAsked(t)]
      + (if gate(t) then [LocatedReported(t)] + ModificatorEvents(|modificators|, 0, t) else [])
  }

  lemma {:induction false} LocatorEventsShape(locators: seq<Locator>, from: nat, t: seq<LocatorStatus>, now: Time)
    ensures var r := LocatorEvents(locators, from, t, now);
      |r| == |locators| && forall i :: 0 <= i < |r| ==> r[i].LocatorRan? && r[i].index == from + i
    decreases |locators|
  {
    if |locators| > 0 {
      LocatorEventsShape(locators[1..], from + 1, ReportAll(t, locators[0](t).reports, now), now);
    }
  }

  /**
   * Every locator runs once, in order, before the gate is asked; a closed gate stops the run, an
   * open one is followed by one located report and then every modificator once, in order.
   */
  lemma EngineOrder(locators: seq<Locator>, modificators: seq<Modificator>, gate: seq<LocatorStatus> -> bool, now: Time)
    ensures var r := EngineTrace(locators, modificators, gate, now);
      var t := Located(locators, [], now);
      |r| == |locators| + 1 + (if gate(t) then 1 + |modificators| else 0)
    ensures var r := EngineTrace(locators, modificators, gate, now);
      forall i :: 0 <= i < |locators| ==> r[i].LocatorRan? && r[i].index == i
    ensures EngineTrace(locators, modificators, gate, now)[|locators|] == GateAsked(Located(locators, [], now))
    ensures var r := EngineTrace(locators, modificators, gate, now);
      var t := Located(locators, [], now);
      gate(t) ==>
        r[|locators| + 1] == LocatedReported(t)
        && forall j :: 0 <= j < |modificators| ==> r[|locators| + 2 + j] == ModificatorRan(j, t)
  {
    LocatorEventsShape(locators, 0, [], now);
  }

  /** Reports every status of `rs` to the store, in order. */
  method ReportEach(store: LocatorStore, rs: seq<LocatorStatus>, now: Time)
    modifies store
    ensures store.stored == ReportAll(old(store.stored), rs, now)
  {
    ghost var t0 := store.stored;
    var i := 0;
    while i < |rs|
      invariant 0 <= i <= |rs|
      invariant ReportAll(t0, rs, now) == ReportAll(store.stored, rs[i..], now)
    {
      assert rs[i..][1..] == rs[i + 1..];
      store.Report(rs[i], now);
      i := i + 1;
    }
  }

  /** Runs every locator in order on what the store holds so far, and reports what it finds. */
  method RunLocators(located: LocatorStore, locators: seq<Locator>, now: Time) returns (trace: seq<Event>)
    modifies located
    ensures located.stored == Located(locators, old(located.stored), now)
    ensures trace == LocatorEvents(locators, 0, old(located.stored), now)
  {
    ghost var t0 := located.stored;
    trace := [];
    var i := 0;
    while i < |locators|
      invariant 0 <= i <= |locators|
      invariant Located(locators, t0, now) == Located(locators[i..], located.stored, now)
      invariant LocatorEvents(locators, 0, t0, now) == trace + LocatorEvents(locators[i..], i, located.stored, now)
    {
      var view := located.Store([]);
      var outcome := locators[i](view);
      trace := trace + [LocatorRan(i, view)];
      ReportEach(located, outcome.reports, now);
      assert locators[i..][1..] == locators[i + 1..];
      i := i + 1;
    }
  }

  /** Runs every modificator in order on the located store, collecting their reports. */
  method RunModificators(modificators: seq<Modificator>, t: seq<LocatorStatus>) returns (trace: seq<Event>, reports: seq<ModificatorStatus>)
    ensures trace == ModificatorEvents(|modificators|, 0, t)
    ensures reports == Modifications(modificators, t)
  {
    trace := [];
    reports := [];
    var j := 0;
    while j < |modificators|
      invariant 0 <= j <= |modificators|
      invariant trace == ModificatorEvents(j, 0, t)
      invariant reports == Modifications(modificators[..j], t)
    {
      reports := reports + modificators[j](t);
      assert modificators[..j + 1][..j] == modificators[..j];
      trace := trace + [ModificatorRan(j, t)];
      assert trace == ModificatorEvents(j + 1, 0, t);
      j := j + 1;
    }
    assert modificators[..j] == modificators;
  }

  /**
   * `EngineImpl(locators, modificators)` run on a ref: a fresh store, every locator in order with
   * its error ignored, the gate, and then, if it agrees, the located reporter and the modificators.
   * Returns the steps taken and what the modificators reported.
   */
  method Engine(locators: seq<Locator>, modificators: seq<Modificator>, gate: seq<LocatorStatus> -> bool, now: Time)
    returns (trace: seq<Event>, reports: seq<ModificatorStatus>)
    ensures trace == EngineTrace(locators, modificators, gate, now)
    ensures var t := Located(locators, [], now);
      reports == if gate(t) then Modifications(modificators, t) else []
  {
    var located := new LocatorStore();
    trace := RunLocators(located, locators, now);
    var t := located.Store([]);
    trace := trace + [GateAsked(t)];
    reports := [];
    if !gate(t) {
      return;
    }
    trace := trace + [LocatedReported(t)];
    var mods;
    mods, reports := RunModificators(modificators, t);
    trace := trace + mods;
  }
}
