/** Version selection of `pkg/model/versioning.go` over the located Deployment targets. */
module ModelVersioning {
  import opened Wrappers
  import opened ModelTypes

  const UnknownVersion := "unknown"
  const TargetKinds := ["Deployment", "DeploymentConfig"]

  predicate IsUndoAction(a: StatusAction)
  {
    a == ActionDelete || a == ActionRevert
  }

  /** A target that carries a version label and whose action is (undo) or is not (live) an undo. */
  predicate Versioned(t: LocatorStatus, undo: bool)
  {
    IsUndoAction(t.Action) == undo && "version" in t.Labels
  }

  /** The position of the first versioned target of the given sort. */
  function FirstVersioned(ts: seq<LocatorStatus>, undo: bool): (k: Option<nat>)
    ensures k.Some? ==>
      k.value < |ts| && Versioned(ts[k.value], undo) && forall j :: 0 <= j < k.value ==> !Versioned(ts[j], undo)
    ensures k.None? ==> forall j :: 0 <= j < |ts| ==> !Versioned(ts[j], undo)
  {
    if |ts| == 0 then None
    else if Versioned(ts[0], undo) then Some(0)
    else
      match FirstVersioned(ts[1..], undo)
      case None => None
      case Some(k) => Some(k + 1)
  }

  function VersionOf(ts: seq<LocatorStatus>, undo: bool): string
  {
    match FirstVersioned(ts, undo)
    case None => UnknownVersion
    case Some(k) => ts[k].Labels["version"]
  }

  /**
   * The version label of the first Deployment or DeploymentConfig target that is not being
   * deleted or reverted, or "unknown".
   */
  function GetVersion(store: StoreView): (v: string)
    ensures var ts := store(TargetKinds);
      (forall j :: 0 <= j < |ts| ==> !Versioned(ts[j], false)) ==> v == UnknownVersion
    ensures var ts := store(TargetKinds);
      forall i :: 0 <= i < |ts| && Versioned(ts[i], false) && (forall j :: 0 <= j < i ==> !Versioned(ts[j], false))
        ==> v == ts[i].Labels["version"]
  {
    VersionOf(store(TargetKinds), false)
  }

  /** The version label of the first target that is being deleted or reverted, or "unknown". */
  function GetDeletedVersion(store: StoreView): (v: string)
    ensures var ts := store(TargetKinds);
      (forall j :: 0 <= j < |ts| ==> !Versioned(ts[j], true)) ==> v == UnknownVersion
    ensures var ts := store(TargetKinds);
      forall i :: 0 <= i < |ts| && Versioned(ts[i], true) && (forall j :: 0 <= j < i ==> !Versioned(ts[j], true))
        ==> v == ts[i].Labels["version"]
  {
    VersionOf(store(TargetKinds), true)
  }

  /** The short hash of a version. */
  function GetSha(version: string, sha256: string -> Sum256): (r: string)
    ensures |r| == 8
  {
    ShortSha(sha256(version))
  }

  /** The version given to what a session creates: the short hash of the live version, a dash, the session. */
  function GetCreatedVersion(store: StoreView, sessionName: string, sha256: string -> Sum256): (v: string)
    ensures var ts := store(TargetKinds);
      (forall j :: 0 <= j < |ts| ==> !Versioned(ts[j], false)) ==> v == UnknownVersion
    ensures var ts := store(TargetKinds);
      (exists j :: 0 <= j < |ts| && Versioned(ts[j], false))
        ==> v == GetSha(GetVersion(store), sha256) + "-" + sessionName && |v| == 9 + |sessionName|
  {
    var ts := store(TargetKinds);
    match FirstVersioned(ts, false)
    case None => UnknownVersion
    case Some(k) => GetSha(ts[k].Labels["version"], sha256) + "-" + sessionName
  }
}
