# istio-workspace core, modelled in Dafny

istio-workspace is a Kubernetes operator, driven by the `ike` command-line tool, for developing one
service of an Istio service mesh in place. A `Session` names the deployments to work on. For each
one, the operator locates the deployment and the Istio objects that route to it. It creates a
versioned copy and rewrites the VirtualServices and DestinationRules so that requests carrying the
session's route header reach the copy. Removing the session undoes every change.

This project models the deterministic logic underneath the Kubernetes plumbing and proves
properties of it:

- **Session model** (`ModelTypes`, `ModelLocator`, `ModelVersioning`, `ModelNew`): status actions
  and their undo, `kind/name` references, host names, the order-independent reference digest, the
  locator store, version selection, and the locate, gate and modify engine.
- **Reference bookkeeping** (`Reference`): owner lists kept in an annotation, `value-hash` ref
  markers, and session labels.
- **Session status** (`SessionApi`, `InternalSession`, `SessionController`, `Conditions`,
  `Validation`, `ModelConvert`, `LegacyConvert`): finalizers, routes, the overall session state,
  discovery of deleted refs, conditions, the validator chain, and status-ref upserts.
- **Istio rewriting** (`IstioVirtualService`, `IstioGateway`, `K8sService`, `ProtoMutators`): route
  search and rewriting, header injection, revert, gateway host bookkeeping, service matching, and
  the prototype mutators.
- **Text and data transforms** (`PatchTemplate`, `OpenShiftTemplate`, `FilePattern`,
  `LimitedOption`, `LogKeys`, `Generator`): JSON-path lookup and patch variables, OpenShift template
  parameters, watch globs as regular expressions, the limited-choice flag, log key
  de-duplication, and the scenario generator's modifiers.
- **Test matchers** (`StableCount`, `StringMatchers`): the matcher that is "stable in series" and
  the character-class matchers.

`Wrappers`, `GoStrings`, `GoSort` and `Seqs` are helpers. They model the Go library functions the
code calls: `strings.Split`/`Join`, case mapping, `strconv` formatting and parsing, and sorting
of strings. Go's `strings.ToLower`, `EqualFold` and `Title` map Unicode letters; the model maps
the ASCII letters only, and the lines under "Left out" say where that matters.

The source files come from several revisions of the repository and do not all fit together. Each
function is modelled against its own body.

Code that updates objects in place is modelled as classes. Their methods are proved against
specification functions, and the properties are proved as lemmas about those functions. Pure code
is modelled as functions.

Panics that come from indexing are modelled in one of two ways. Some are an error value with
Go's message, "index out of range" or "slice bounds out of range". Others are a precondition,
listed below.

## Model

| member | source | states |
|---|---|---|
| ModelTypes.Flip | pkg/model/types.go:35-50 | the undo is always a known action: delete exactly for create, create exactly for delete, modify exactly for revert, located exactly for located, and revert for modify or any unknown action |
| ModelTypes.FlipInvolution | pkg/model/types.go:35-47 | on create, delete, modify, revert and located the flip yields a known action again and flipping twice gives the action back |
| ModelTypes.FlipFallback | pkg/model/types.go:35-50 | any other action is undone by a revert, whose own undo is a modify |
| ModelTypes.RefKindName.SupportsKind | pkg/model/types.go:124-127 | an empty kind supports every kind; otherwise a kind is supported exactly when it has the same length and the same letters ignoring ASCII case |
| ModelTypes.ParseRefKindName | pkg/model/types.go:129-141 | when the trimmed, lower-cased text has exactly one '/', kind and name are the two slash-free parts around it; otherwise the kind is empty and the name is the whole trimmed, lower-cased text |
| ModelTypes.ParseStringRoundTrip | pkg/model/types.go:115-141 | parsing the text of a lower-case kind/name with a non-empty kind, no '/' and no white space at the ends gives the kind/name back |
| ModelTypes.StringNotInjective | pkg/model/types.go:115-122 | the text of a kind/name does not determine it: an empty kind with the name "a/b" and kind "a" with name "b" print alike |
| ModelTypes.NewHostName | pkg/model/types.go:166-174 | a host outside the cluster domain is a host name with that whole text and no namespace |
| ModelTypes.SplitFullName | pkg/model/types.go:166-171 | the dot-separated pieces of a full service DNS name start with the name and the namespace |
| ModelTypes.NewHostNameRoundTrip | pkg/model/types.go:157-174 | reading back the text of a host name whose parts contain no dot gives the host name back |
| ModelTypes.MatchOwnNamespaceOnly | pkg/model/types.go:149-164 | a host name matches its own text, and a dot-free one does not match the full name of the same service in another namespace |
| ModelTypes.Hex | pkg/model/types.go:103-104 | hex text is two lower-case hex digits per byte |
| ModelTypes.ShortSha | pkg/model/types.go:103-106 | the short hash is eight hex digits |
| ModelTypes.Ref.Hash | pkg/model/types.go:86-107 | the hash is the short sha of the digest over the keys of Args in increasing order, whatever order the keys were collected in, and always eight characters long |
| ModelTypes.CollectKeys | pkg/model/types.go:93-96 | the collected keys are exactly the keys of the map, each once |
| ModelTypes.AppendArgs | pkg/model/types.go:99-101 | the digest is extended by one `;args[k]:v` piece per key, in the order given |
| ModelTypes.SortedKeys | pkg/model/types.go:93-97 | sorting the collected keys gives the one increasing list of the map's keys, so the digest does not depend on the range order |
| ModelTypes.DigestSeesDeleted | pkg/model/types.go:88-89 | flipping Deleted changes the digest |
| ModelTypes.DigestSeesNamespace | pkg/model/types.go:88-91 | changing the namespace changes the digest |
| ModelTypes.DigestSeesStrategy | pkg/model/types.go:88-91 | changing the strategy changes the digest |
| ModelTypes.DigestSeesKindName | pkg/model/types.go:88 | changing the kind/name changes the digest exactly when it changes the kind/name text |
| ModelTypes.ArgsTextAgree | pkg/model/types.go:99-101 | two maps that agree on the listed keys give the same argument text |
| ModelTypes.ArgsTextSeesValue | pkg/model/types.go:99-101 | over distinct keys, changing the value of a listed key changes the argument text |
| ModelTypes.DigestSeesArgValue | pkg/model/types.go:93-101 | changing the value of any argument changes the digest |
| ModelTypes.GetTargetHostNames | pkg/model/types.go:176-185 | one host name per located Service, in order, with the service's name and namespace |
| ModelLocator.UndoFirstPartition | pkg/model/locator.go:29-47 | the undo-first order keeps every entry as often as it occurs and puts every delete or revert entry before every other entry |
| ModelLocator.FilterKindsContent | pkg/model/locator.go:51-60 | a lookup by kinds hands out exactly the entries whose kind equals a requested kind ignoring case, as often as they are stored |
| ModelLocator.Stamped | pkg/model/locator.go:69-71 | a report takes the clock reading only when its time stamp is zero, and is otherwise unchanged |
| ModelLocator.Reported | pkg/model/locator.go:72-80 | a report grows the table by at most one entry and adds nothing but the report |
| ModelLocator.ReportedContains | pkg/model/locator.go:72-80 | after a report the status is in the table; the table keeps its length when an entry with the same name, kind and action existed and grows by one otherwise |
| ModelLocator.ReportedKeepsOthers | pkg/model/locator.go:72-77 | entries with another name, kind or action stay in place, and every entry with the status's name, kind and action is replaced by it |
| ModelLocator.ReportedIdempotent | pkg/model/locator.go:72-80 | reporting the same status twice leaves the table as reporting it once |
| ModelLocator.LocatorStore.constructor | pkg/model/locator.go:25-27 | a new store is empty |
| ModelLocator.LocatorStore.Store | pkg/model/locator.go:29-64 | with no kinds the stored list itself is reordered undo-first and handed out; with kinds the stored list is unchanged and the matching entries are handed out undo-first |
| ModelLocator.LocatorStore.Report | pkg/model/locator.go:66-81 | the table becomes the replace-or-append of the time-stamped status |
| ModelLocator.LocatorStore.Clear | pkg/model/locator.go:83-85 | the store is empty afterwards |
| ModelVersioning.FirstVersioned | pkg/model/versioning.go:13-19 | the first target with a version label whose action is (or is not) an undo, and none before it; or no such target at all |
| ModelVersioning.GetVersion | pkg/model/versioning.go:10-22 | "unknown" when no live Deployment or DeploymentConfig target has a version label; otherwise the label of the first one |
| ModelVersioning.GetDeletedVersion | pkg/model/versioning.go:24-36 | the same search restricted to delete and revert targets |
| ModelVersioning.GetSha | pkg/model/versioning.go:52-58 | the short hash of a version is eight characters |
| ModelVersioning.GetCreatedVersion | pkg/model/versioning.go:38-50 | "unknown" when no live target has a version label; otherwise the short hash of the version GetVersion selects, a dash and the session name |
| ModelNew.FilterExactContent | pkg/model/new/model.go:187-198 | a lookup by kinds hands out exactly the entries whose kind is one of the requested kinds, compared case-sensitively |
| ModelNew.LocatorStore.constructor | pkg/model/new/model.go:179-181 | a new store is empty |
| ModelNew.LocatorStore.Store | pkg/model/new/model.go:183-199 | with no kinds every stored entry in stored order; with kinds the entries of those kinds in stored order |
| ModelNew.LocatorStore.Report | pkg/model/new/model.go:201-216 | the same replace-or-append of the time-stamped status as the earlier store |
| ModelNew.LocatorStore.Clear | pkg/model/new/model.go:218-220 | the store is empty afterwards |
| ModelNew.ModificatorStore.constructor | pkg/model/new/model.go:222-225 | a new modificator store is empty |
| ModelNew.ModificatorStore.Report | pkg/model/new/model.go:227-229 | a modification report is appended |
| ModelNew.GetVersionAgainstFirstMatch | pkg/model/new/model.go:259-269 | with a single live target the reworked version rule agrees with the earlier one; with two targets it answers "unknown" where the earlier one takes the first label |
| ModelNew.GetNewVersion | pkg/model/new/model.go:309-320 | eight hex digits of the current version's hash, a dash, then the session name |
| ModelNew.ModificatorEvents | pkg/model/new/model.go:364-366 | every modificator runs once, in order, on the same located entries |
| ModelNew.LocatorEventsShape | pkg/model/new/model.go:346-357 | every locator runs once, in order |
| ModelNew.EngineOrder | pkg/model/new/model.go:343-368 | all locators run before the gate is asked; a closed gate ends the run; an open gate is followed by one located report and then every modificator once, in order |
| ModelNew.ReportEach | pkg/model/new/model.go:201-216 | reporting a list of statuses one by one gives the table of the successive replace-or-appends |
| ModelNew.RunLocators | pkg/model/new/model.go:345-357 | the store after the locators is the successive reports of every locator, each handed the store as it was then |
| ModelNew.RunModificators | pkg/model/new/model.go:364-366 | the modification reports are those of every modificator, in order |
| ModelNew.Engine | pkg/model/new/model.go:343-368 | the run follows the engine trace, and modifications are reported only when the gate agrees |
| Reference.KubeObject.constructor | pkg/reference/enqueue_annotations.go:140-143 | an object with the given labels and annotations; a missing map reads as an empty one |
| Reference.Add | pkg/reference/enqueue_annotations.go:132-164 | an owner without namespace or without name is refused and the object is left alone; otherwise only the owner annotation changes: set to "namespace/name" when it was empty, unchanged when the owner is listed, the owner appended after a ',' otherwise |
| Reference.IsListed | pkg/reference/enqueue_annotations.go:151-155 | the search finds the reference exactly when it is listed |
| Reference.Remove | pkg/reference/enqueue_annotations.go:169-197 | an owner without namespace or without name is refused and the object is left alone; otherwise only the owner annotation changes, to the list without every occurrence of "namespace/name", the others kept in order |
| Reference.ParseNamespacedName | pkg/reference/enqueue_annotations.go:240-251 | text without '/' is a bare name with no namespace; otherwise the namespace is the slash-free text before the first '/' and the two parts give the text back |
| Reference.ParseReference | pkg/reference/enqueue_annotations.go:240-251 | parsing the reference of an owner whose namespace has no '/' gives the owner back |
| Reference.Owners | pkg/reference/enqueue_annotations.go:207-212 | the owners are exactly the parsed non-empty entries, and there are no more of them than entries |
| Reference.AddIdempotent | pkg/reference/enqueue_annotations.go:145-159 | adding an owner that is already listed leaves the annotation as it was |
| Reference.OwnerListed | pkg/reference/enqueue_annotations.go:145-159 | after adding, a comma-free reference is one of the comma-separated entries |
| Reference.AddThenGet | pkg/reference/enqueue_annotations.go:132-215 | after adding an owner whose names contain no ',' and whose namespace contains no '/', the owners read back include it |
| Reference.RemoveThenGet | pkg/reference/enqueue_annotations.go:169-215 | after removing an owner the owners read back do not include it |
| Reference.GetAnnotationRequests | pkg/reference/enqueue_annotations.go:224-238 | false with no requests exactly when there are no owners; otherwise one request per owner, in order |
| Reference.AddRefMarker | pkg/reference/marker.go:25-33 | the label "maistra.io." + key is set to value-hash and nothing else changes |
| Reference.GetRefMarker | pkg/reference/marker.go:35-48 | a marker with exactly one '-' splits into the value and the hash around it; any other marker (a missing one reads as "") gives its first '-'-free piece and an empty hash |
| Reference.FirstPiece | pkg/reference/marker.go:42-47 | the first piece of a split is the whole text or a prefix of it followed by the separator |
| Reference.RefMarkerRoundTrip | pkg/reference/marker.go:26-48 | reading a marker just set from a value and a hash without '-' gives them back |
| Reference.RefMarkerMissing | pkg/reference/marker.go:36-47 | a missing marker reads as two empty strings |
| Reference.RemoveRefMarker | pkg/reference/marker.go:50-58 | only the marker label is deleted, and a missing one is a no-op |
| Reference.AddLabel | pkg/reference/labels.go:17-25 | the label "maistra.io." + session is set to the value and nothing else changes |
| Reference.RemoveLabel | pkg/reference/labels.go:37-45 | only the session label is deleted, and a missing one is a no-op |
| Reference.LabelsRoundTrip | pkg/reference/labels.go:17-45 | reading a label just set gives its value, reading one just removed gives "", and setting or removing one session's label leaves every other session's label as it was |
| SessionApi.Route.String | api/maistra/v1alpha1/session_types.go:56-58 | the expression "type:name=value" has one ':' more than its three fields together |
| SessionApi.OmitEmpty | api/maistra/v1alpha1/session_types.go:42-42 | arguments read back after JSON are nil exactly when they were nil or empty, and otherwise unchanged |
| SessionApi.RefStatus.GetHostNames | api/maistra/v1alpha1/session_types.go:107-115 | the comma-split "hosts" property of the first resource that has one; no hosts when none has it |
| SessionApi.FirstWithHosts | api/maistra/v1alpha1/session_types.go:108-112 | the position of the first resource with a "hosts" property and none before it, or none at all |
| SessionApi.HostsOf | api/maistra/v1alpha1/session_types.go:107-115 | the hosts of the first resource with a "hosts" property, or no hosts |
| SessionApi.FirstWithHostsUnique | api/maistra/v1alpha1/session_types.go:108-112 | any resource with a "hosts" property and none before it is the one the scan stops at |
| SessionApi.Session.constructor | api/maistra/v1alpha1/session_types.go:161-170 | a new session has the given name, namespace, route and refs, no finalizers, no state and an empty status |
| SessionApi.Session.AddFinalizer | api/maistra/v1alpha1/session_types.go:183-186 | the finalizer is appended even when it is already present, and is attached afterwards |
| SessionApi.Session.RemoveFinalizer | api/maistra/v1alpha1/session_types.go:188-197 | every copy of the finalizer is removed and the others keep their order; it is no longer attached |
| SessionApi.Session.AddCondition | controllers/session/session_controller.go:317-345 | a condition is appended to the status and nothing else changes |
| SessionApi.ListedIff | api/maistra/v1alpha1/session_types.go:172-181 | the finalizer scan succeeds exactly when the finalizer is one of the list |
| InternalSession.ParseRoute | pkg/internal/session/session.go:260-283 | "" gives no route and no error; anything without exactly one ':', or whose part after ':' has not exactly one '=', is the format error; any parsed route prints back as the input |
| InternalSession.ParseRouteString | pkg/internal/session/session.go:260-283 | parsing the expression of a route whose fields hold no ':' and whose name and value hold no '=' gives the route back |
| InternalSession.GetCurrentRef | pkg/internal/session/session.go:115-122 | the first status ref with the deployment's name, or the empty status ref when there is none |
| InternalSession.Options.constructor | pkg/internal/session/session.go:38-44 | options with the given wait condition |
| InternalSession.DefaultWaitCondition | pkg/internal/session/session.go:46-48 | panics with the nil-dereference error exactly when the resource has no kind; otherwise holds exactly for a Deployment or a DeploymentConfig |
| InternalSession.Options.ConditionFound | pkg/internal/session/session.go:38-48 | a set wait condition is applied and kept, its panic included; an unset one is replaced by the default, which answers every later call as the default does |
| InternalSession.GetOrCreateSessionName | pkg/internal/session/session.go:248-258 | a non-empty name is returned unchanged; otherwise the new name ends with the random part |
| SessionController.AnyFailedIff | controllers/session/session_controller.go:305-311 | the scan for a failed status finds one exactly when some condition has it |
| SessionController.CalculateSessionState | controllers/session/session_controller.go:303-314 | the state is Failed exactly when some condition has the failed status, and Success exactly when none has |
| SessionController.RefFailedIff | controllers/session/session_controller.go:292-298 | the scan stops exactly when some condition sourced from the ref has the failed status |
| SessionController.RefSuccessful | controllers/session/session_controller.go:291-301 | a ref is unsuccessful exactly when some condition sourced from it, by its kind/name text, has the failed status |
| SessionController.SuccessfulStateKeepsRefs | controllers/session/session_controller.go:291-314 | in a successful session every ref is successful |
| SessionController.ConditionsNotOfContent | controllers/session/session_controller.go:280-286 | the kept conditions are exactly those sourced from another ref, each as often as before |
| SessionController.CleanupRelatedConditionsOnRemoval | controllers/session/session_controller.go:278-289 | for a deleted, successful ref the conditions sourced from it are removed and the others kept in order; otherwise the conditions are unchanged |
| SessionController.CleanupKeepsState | controllers/session/session_controller.go:278-314 | dropping the conditions of a successful ref leaves the session state as it was |
| SessionController.ReasonForFlip | controllers/session/session_controller.go:317-328 | each known action has a non-empty reason ("Handled" or "Configured"), the same as that of its undo |
| SessionController.ModifiedMessage | controllers/session/session_controller.go:330-335 | the message names the modified resource and the ref, and ends with ": " and the error text, or with ": ok" |
| SessionController.ModifiedCondition | controllers/session/session_controller.go:336-358 | the condition's source is the modified resource and the ref, its reason follows the action, its type is the action, its status the success flag as text, and its target the modification's |
| SessionController.AddCondition | controllers/session/session_controller.go:316-359 | exactly that condition is appended to the session, and nothing else changes |
| SessionController.ModifiedConditionState | controllers/session/session_controller.go:303-359 | after recording a modification the session is failed exactly when it was before or the modification failed |
| SessionController.DeletedRef | controllers/session/session_controller.go:383-385 | a deleted ref with the kind/name parsed from the condition's ref text |
| SessionController.LiveRefs | controllers/session/session_controller.go:362-367 | one model ref per spec ref, in order, marked deleted exactly when the session is being deleted |
| SessionController.ConvertSpecRefs | controllers/session/session_controller.go:362-367 | the converting loop yields the live refs |
| SessionController.FindWritten | controllers/session/session_controller.go:374-381 | the inner scan finds a ref written as the key exactly when there is one |
| SessionController.AppendDeleted | controllers/session/session_controller.go:382-386 | adding the deleted ref for an orphan condition ref keeps the spec refs in front, adds only orphan refs and covers that key |
| SessionController.AddDeletedRefs | controllers/session/session_controller.go:369-387 | the spec refs come first and unchanged; each further ref is a deleted ref for a condition ref no spec ref is written as, at most one per condition ref; every condition ref is covered |
| SessionController.CalculateReferences | controllers/session/session_controller.go:361-401 | every spec ref is in the result; every other entry is a deleted ref for an orphan condition ref; every condition ref is covered; there are at most as many entries as spec refs and condition refs together; deleted refs come before the others |
| SessionController.SameElements | controllers/session/session_controller.go:389-398 | the stable sort keeps the same entries, as many of them, and puts the deleted ones first |
| SessionController.Unique | controllers/session/session_controller.go:403-414 | the result holds exactly the entries of the input, each once |
| Conditions.CreateType | controllers/session/conditions.go:63-65 | the type is the title-cased action followed by the title-cased kind, so a lower-case kind starts with its capital |
| Conditions.CreateTypeTitled | controllers/session/conditions.go:63-65 | title-casing the parts first changes nothing |
| Conditions.LocatedMessage | controllers/session/conditions.go:12 | the message starts with the resource's kind/name and ends with " status ", the ref and ": " |
| Conditions.ConditionForLocatedRef | controllers/session/conditions.go:11-28 | the condition is sourced from the located resource and the ref, has no target, reason "Scheduled", status "true", the created type and never the failed status |
| Conditions.ConditionForModifiedRef | controllers/session/conditions.go:30-61 | the condition is sourced from the modified resource and the ref, has a target exactly when the modification has one (with its kind and name), reason "Applied", the created type, the message ending in the error or "ok", and the failed status exactly when the modification failed |
| Conditions.LocatedKeepsState | controllers/session/conditions.go:11-28 | recording a located resource never changes the session state |
| Conditions.ModifiedState | controllers/session/conditions.go:30-61 | after recording a modification the session is failed exactly when it was before or the modification failed |
| Conditions.FailedModificationBlocksCleanup | controllers/session/conditions.go:44-78 | a failed modification makes its ref unsuccessful, so its conditions are not cleaned up |
| Validation.ResourceFound | controllers/session/validation.go:49-57 | the type is the kind + "Found", with the error "no <kind> found" exactly when no resource of the kind is located |
| Validation.TargetFound | controllers/session/validation.go:59-66 | the type is "TargetFound", with an error exactly when neither a DeploymentConfig nor a Deployment is located |
| Validation.TargetFoundEither | controllers/session/validation.go:49-66 | a target is found exactly when one of the two resource checks passes |
| Validation.ValidationCondition | controllers/session/validation.go:19-37 | the condition is sourced from the session and the ref, has reason "Validation" and the validator's type, the error text as message (or ""), and the failed status exactly when there is an error |
| Validation.ValidationConditions | controllers/session/validation.go:18-38 | one condition per validator, in order |
| Validation.ChainValidator | controllers/session/validation.go:15-47 | every validator runs and adds exactly its condition, in order, and nothing else changes; the gate opens exactly when no validator reported an error |
| Validation.ChainState | controllers/session/validation.go:15-47 | after the chain the session is failed exactly when it was before or some validator reported an error, so the gate and the recorded state agree |
| ModelConvert.ConvertTarget | controllers/session/model_convert.go:32-44 | a located target is recorded with its kind, name, action, time stamp and labels, and no properties |
| ModelConvert.ConvertResource | controllers/session/model_convert.go:45-63 | a resource is recorded with its kind, name, action, properties and time; status "true" exactly when the action is not "failed" and "false" exactly when it is; reason kind + title-cased action; type the kind; the "Because we needed to …" message |
| ModelConvert.StatusOf | controllers/session/model_convert.go:24-63 | the status record carries the ref's name, strategy and arguments and one converted entry per target and per resource, in order |
| ModelConvert.ResourceRoundTrip | controllers/session/model_convert.go:119-132 | reading a recorded resource back gives the resource status again |
| ModelConvert.TargetRoundTrip | controllers/session/model_convert.go:104-118 | reading a recorded target back gives it again (a target carries no properties) |
| ModelConvert.FirstNamed | controllers/session/model_convert.go:65-66 | the position of the first status record with the name and none before it, or none at all |
| ModelConvert.NamedUnique | controllers/session/model_convert.go:65-75 | with unique names the record found by a name is the one carrying it |
| ModelConvert.Upserted | controllers/session/model_convert.go:64-78 | storing a record only keeps old records and adds the new one, and changes the length by at most one |
| ModelConvert.WrittenComplete | controllers/session/model_convert.go:23-81 | storing a ref's status keeps every stored target and resource with a kind, a name and an action, as reading them back requires |
| ModelConvert.UpsertedUnique | controllers/session/model_convert.go:64-78 | storing keeps the names unique |
| ModelConvert.UpsertedNamed | controllers/session/model_convert.go:64-78 | afterwards the record under the stored name is the new one, or none when the new one has no resources and a record existed; every other name reads as before |
| ModelConvert.UnchangedNamed | controllers/session/model_convert.go:76-78 | appending records under other names does not change what a name reads |
| ModelConvert.RemovedNamed | controllers/session/model_convert.go:67-68 | removing the record of another name does not change what a name reads |
| ModelConvert.ReplacedNamed | controllers/session/model_convert.go:69-71 | replacing the record of another name does not change what a name reads |
| ModelConvert.SessionStatus.constructor | controllers/session/model_convert.go:24 | a status with the given records and conditions |
| ModelConvert.SessionStatus.UpsertRef | controllers/session/model_convert.go:64-78 | the first record with the name is replaced in place, or removed when the new record has no resources; without one the record is appended; the conditions are unchanged |
| ModelConvert.SessionStatus.ConvertModelRefToAPIStatus | controllers/session/model_convert.go:23-81 | the ref's status record is stored as above and its converted resources are appended to the conditions |
| ModelConvert.ModelRefOf | controllers/session/model_convert.go:87-94 | the model ref read from a record has its name, strategy and arguments and the session's namespace |
| ModelConvert.ConvertAPIStatusesToModelRefs | controllers/session/model_convert.go:83-135 | one model ref per status record, in order, each with the targets and resources of every record of its name |
| ModelConvert.NamedOnce | controllers/session/model_convert.go:100-135 | with unique names a ref reads back exactly the targets and resources of its own record |
| ModelConvert.NamedNowhere | controllers/session/model_convert.go:100-135 | a name no record carries reads back no targets and no resources |
| ModelConvert.RoundTrip | controllers/session/model_convert.go:23-135 | storing a ref with resources and reading the session back gives the same ref, and the record under its name is its own |
| ModelConvert.ConvertAPIRouteToModelRoute | controllers/session/model_convert.go:151-166 | a route without type becomes the header route "x-workspace-route" valued with the session name; otherwise its fields are copied; the type is never empty |
| ModelConvert.RefUpdated | controllers/session/model_convert.go:168-178 | a ref is updated exactly when some record of its name differs in strategy or arguments, a nil argument map differing from an empty one |
| ModelConvert.StoredNotUpdated | controllers/session/model_convert.go:23-178 | just after storing a ref with resources, the ref is not updated |
| ModelConvert.PersistedUpdatedIffEmptyArgs | controllers/session/model_convert.go:168-178 | once the stored record was read back through JSON, a ref with empty, non-nil arguments is updated on every pass, and no other ref is |
| LegacyConvert.ConvertTarget | pkg/controller/session/model_convert.go:27-34 | a located target is recorded with only its kind, name, action and labels |
| LegacyConvert.ConvertResource | pkg/controller/session/model_convert.go:35-39 | a resource is recorded with only its kind, name and action |
| LegacyConvert.StatusOf | pkg/controller/session/model_convert.go:19-39 | the status record carries the ref's name, strategy and arguments and one converted entry per target and per resource, in order |
| LegacyConvert.StripRef | pkg/controller/session/model_convert.go:74-92 | a ref with every status reduced to what the older code records |
| LegacyConvert.ModelRefOf | pkg/controller/session/model_convert.go:60-66 | the model ref read from a record has its name, strategy and arguments and the session's namespace |
| LegacyConvert.ConvertModelRefToAPIStatus | pkg/controller/session/model_convert.go:18-55 | the first record with the name is replaced, or removed when the ref has no resources, else the record is appended; the conditions are not touched |
| LegacyConvert.ConvertAPIStatusesToModelRefs | pkg/controller/session/model_convert.go:57-92 | one model ref per status record, in order |
| LegacyConvert.RoundTrip | pkg/controller/session/model_convert.go:18-92 | storing a ref with resources and reading it back gives the ref with its statuses reduced to kind, name and action |
| LegacyConvert.StrippedRoundTrip | pkg/controller/session/model_convert.go:18-92 | a ref that only carries what the older code records is read back unchanged |
| IstioVirtualService.AnyDestination | pkg/istio/virtualservice.go:377-387 | the nested scan over routes and destinations answers true exactly when some destination satisfies the test |
| IstioVirtualService.AnyIn | pkg/istio/virtualservice.go:378-384 | the inner scan answers true exactly when some destination of the list satisfies the test |
| IstioVirtualService.MutationRequired | pkg/istio/virtualservice.go:376-388 | a mutation is required exactly when some destination goes to the host with an empty subset or the target version |
| IstioVirtualService.VsAlreadyMutated | pkg/istio/virtualservice.go:390-400 | already mutated exactly when some destination goes to the host at exactly the target version |
| IstioVirtualService.AlreadyMutatedRequires | pkg/istio/virtualservice.go:376-400 | an already mutated VirtualService still requires mutation by the first test |
| IstioVirtualService.TargetCountPositive | pkg/istio/virtualservice.go:409-413 | a route has a positive count of target destinations exactly when one of its destinations targets the host |
| IstioVirtualService.Repeat | pkg/istio/virtualservice.go:409-413 | n copies of the route, one per matching destination |
| IstioVirtualService.FindRoutes | pkg/istio/virtualservice.go:406-417 | every found route is a route of the VirtualService with a target destination, and every such route is found |
| IstioVirtualService.FindRoutesConcat | pkg/istio/virtualservice.go:406-417 | routes are found in the VirtualService's order: the search distributes over concatenation |
| IstioVirtualService.FindRoutesEmpty | pkg/istio/virtualservice.go:376-417 | nothing is found exactly when no mutation is required |
| IstioVirtualService.RangeDelete | pkg/istio/virtualservice.go:419-428 | deleting while ranging, as written: the backing array keeps its length and holds only elements it held before, the list length only shrinks, or the slice past the shortened end panics |
| IstioVirtualService.RemoveOtherRoutesAsWritten | pkg/istio/virtualservice.go:419-428 | as written on a list of its own, what is left is no longer than the list and holds only its destinations, or the removal panics |
| IstioVirtualService.RemoveOtherRoutesKeepsStray | pkg/istio/virtualservice.go:419-428 | as written, deleting while ranging keeps a destination to another host that follows a deleted one |
| IstioVirtualService.RemoveOtherRoutesPanics | pkg/istio/virtualservice.go:419-428 | as written, a target followed by two other destinations slices past the shortened list |
| IstioVirtualService.RemoveOtherRoutes | pkg/istio/virtualservice.go:419-428 | corrected: only destinations to the host, unversioned or at the version, remain; the other route fields are untouched |
| IstioVirtualService.RemoveOtherRoutesContent | pkg/istio/virtualservice.go:419-428 | each target destination is kept as often as it occurred and every other one is dropped |
| IstioVirtualService.RemoveOtherRoutesAgreesWhenAllKept | pkg/istio/virtualservice.go:419-428 | when every destination targets the host, the as-written and the intended removal both keep the list |
| IstioVirtualService.AllKept | pkg/istio/virtualservice.go:420-425 | the as-written loop keeps a list whose every destination is kept |
| IstioVirtualService.UpdateSubset | pkg/istio/virtualservice.go:430-436 | every destination gets the subset and keeps host, port and weight; nothing else changes |
| IstioVirtualService.RemoveWeight | pkg/istio/virtualservice.go:478-484 | every destination gets weight 0 and keeps its destination; nothing else changes |
| IstioVirtualService.AddHeaderMatch | pkg/istio/virtualservice.go:438-458 | for a header route every match requires the header to equal the value exactly, other headers and the URI are kept, a route without matches gets exactly one, and a non-header route with matches is unchanged |
| IstioVirtualService.AddHeaderMatchIdempotent | pkg/istio/virtualservice.go:438-458 | adding the header match twice is the same as once |
| IstioVirtualService.AddHeaderRequest | pkg/istio/virtualservice.go:460-476 | the assignment panics exactly when the route has request operations with a nil add map; otherwise the request headers to add hold the route's name with its value besides the earlier entries, and set, remove and response operations are kept |
| IstioVirtualService.AddHeaderRequestIdempotent | pkg/istio/virtualservice.go:460-476 | adding the request header twice is the same as once |
| IstioVirtualService.SimplifyTargetRoute | pkg/istio/virtualservice.go:325-344 | the simplified route has no mirror and no redirect and keeps its name and headers |
| IstioVirtualService.SimplifyTargetRouteSpec | pkg/istio/virtualservice.go:325-344 | corrected (each copy with a list of its own): its destinations are exactly the target destinations, in order, at the new version and weight 0; its matches get the header match only in the variant with matching |
| IstioVirtualService.SimplifiedAtVersion | pkg/istio/virtualservice.go:335-344 | a route with a target destination simplifies to a non-empty route entirely at the new version |
| IstioVirtualService.Prepended | pkg/istio/virtualservice.go:289-291 | each found route adds one route |
| IstioVirtualService.PrependedKeeps | pkg/istio/virtualservice.go:343 | the original routes follow the added ones unchanged |
| IstioVirtualService.PrependedAt | pkg/istio/virtualservice.go:289-291 | the added routes are the simplified found routes in reverse order, the last found first |
| IstioVirtualService.PrependedStep | pkg/istio/virtualservice.go:343 | one more found route puts its simplified copy in front |
| IstioVirtualService.MutateVirtualService | pkg/istio/virtualservice.go:278-294 | corrected (each copy with a list of its own): "route not found" when no route targets the host at the selected version; otherwise the VirtualService with the simplified found routes in front of its own |
| IstioVirtualService.GetHostsFromGateway | pkg/istio/virtualservice.go:486-508 | a host is listed exactly when it is the session name, a dot and one of the comma-split "ike.hosts" entries of a located gateway named by the VirtualService |
| IstioVirtualService.HostsOfNamed | pkg/istio/virtualservice.go:488-504 | the same for the located gateways matching one gateway name by namespace/name or by name |
| IstioVirtualService.Qualified | pkg/istio/virtualservice.go:501-503 | each host is the session name, a dot and the entry, in order |
| IstioVirtualService.MutateConnectedVirtualService | pkg/istio/virtualservice.go:296-323 | corrected (each copy with a list of its own): the assignment panics exactly when some route has request operations with a nil add map; otherwise the copy is named name-session in the same namespace, takes the gateway hosts, is labelled "ike.mutated"="true", keeps its gateways, gets the simplified found routes without matching in front, and every route adds the request header |
| IstioVirtualService.AddHeaderRequests | pkg/istio/virtualservice.go:317-320 | the loop panics exactly when some route has request operations with a nil add map; otherwise each route adds the request header, and afterwards each route's added headers hold the route's name with its value |
| IstioVirtualService.Rewrite | pkg/istio/virtualservice.go:430-484 | as written through the shared destinations: every destination a slot names goes to the new version with weight 0 and the others stay, or a nil destination is dereferenced |
| IstioVirtualService.SharedPass | pkg/istio/virtualservice.go:335-344 | one simplification as written on the shared list keeps the backing array's length and its slots valid, and gives a length within it |
| IstioVirtualService.SharedPasses | pkg/istio/virtualservice.go:289-291 | one pass per found copy, each leaving a length within the backing array |
| IstioVirtualService.SharedCopies | pkg/istio/virtualservice.go:278-344 | as written, a route yields one copy per destination that reaches the target, unless a pass panics |
| IstioVirtualService.PrependedAsWritten | pkg/istio/virtualservice.go:278-344 | as written, the mutated routes are as many as the found routes plus the original ones, unless a pass panics |
| IstioVirtualService.MutateVirtualServiceAsWritten | pkg/istio/virtualservice.go:278-294 | as written: "route not found" when no route targets the host; otherwise only the routes change |
| IstioVirtualService.SharedDestinationsPanic | pkg/istio/virtualservice.go:278-344 | as written, a route to unversioned reviews and to reviews at "v1", mutated at "v1", panics on its second copy, while the corrected mutation makes two copies with both destinations |
| IstioVirtualService.SplitFirstPass | pkg/istio/virtualservice.go:419-436 | as written, the first pass over the split route keeps both destinations and rewrites both shared objects to the new version |
| IstioVirtualService.SplitSecondPass | pkg/istio/virtualservice.go:419-428 | as written, the second pass over the same objects deletes the first slot and slices past the shortened end |
| IstioVirtualService.SplitCorrected | pkg/istio/virtualservice.go:278-344 | corrected, the split route is found twice and yields two copies with both destinations, in front of the original route |
| IstioVirtualService.SplitSimplified | pkg/istio/virtualservice.go:335-344 | corrected, the simplified copy of the split route keeps both of its destinations |
| IstioVirtualService.SinglePass | pkg/istio/virtualservice.go:419-436 | as written, one pass over a single target destination keeps it and rewrites it to the new version |
| IstioVirtualService.SingleCopy | pkg/istio/virtualservice.go:335-344 | as written, the copy of a route with its one destination rewritten equals the corrected simplified route |
| IstioVirtualService.FindRoutesSingle | pkg/istio/virtualservice.go:406-417 | one route is found once per destination reaching the target |
| IstioVirtualService.SharedCopiesSingle | pkg/istio/virtualservice.go:278-344 | as written, a route with at most one destination yields exactly the corrected simplified copy, or none |
| IstioVirtualService.PrependedAsWrittenAgrees | pkg/istio/virtualservice.go:278-344 | when no route has more than one destination, the mutation as written agrees with the corrected one |
| IstioVirtualService.PrependedSnoc | pkg/istio/virtualservice.go:289-291 | one more found copy puts its simplified route in front |
| IstioVirtualService.RouteUsesSubset | pkg/istio/virtualservice.go:349-356 | the inner scan finds a destination whose subset contains the name exactly when one exists |
| IstioVirtualService.RevertVirtualService | pkg/istio/virtualservice.go:346-360 | exactly the routes with a destination subset containing the name are dropped; the rest stay in order and nothing else changes |
| IstioVirtualService.RevertUndoesMutate | pkg/istio/virtualservice.go:278-360 | for the corrected mutation, reverting at the new version removes every added route and keeps the original ones when none of them uses a subset containing it |
| IstioVirtualService.ContainsItself | pkg/istio/virtualservice.go:350 | a subset contains its own name |
| IstioGateway.ExtractExistingHosts | pkg/istio/virtualservicegateway.go:117-124 | no hosts when the "ike.hosts" annotation is missing or empty; otherwise a non-empty list of comma-free hosts that joins back to the annotation |
| IstioGateway.FindNewHosts | pkg/istio/virtualservicegateway.go:107-115 | the accumulated hosts followed by the server's hosts the Gateway does not have yet, in order |
| IstioGateway.NewHostsMembers | pkg/istio/virtualservicegateway.go:74-77 | a host is new exactly when some server has it and the Gateway does not have it yet |
| IstioGateway.CollectNewHosts | pkg/istio/virtualservicegateway.go:72-77 | the loop over the servers yields the new hosts of all servers, server by server |
| IstioGateway.GatewayNamespaceName | pkg/istio/virtualservicegateway.go:59-64 | a name without '/' is looked up in the VirtualService's namespace; otherwise the '/'-free namespace and name the reference starts with |
| IstioGateway.PrefixOfSplit | pkg/istio/virtualservicegateway.go:60-63 | the text starts with its first two '/'-separated parts joined by '/' |
| IstioGateway.PrefixAfter | pkg/istio/virtualservicegateway.go:60-63 | a prefix of the text after a position extends to a prefix of the whole text |
| IstioGateway.QualifiedGatewayName | pkg/istio/virtualservicegateway.go:59-64 | "namespace/name" splits back into the namespace and the name |
| IstioGateway.UndoStatus | pkg/istio/virtualservicegateway.go:33-42 | the report for a marked Gateway names it as a Gateway and carries the flip of the action in its marker |
| IstioGateway.MarkedReports | pkg/istio/virtualservicegateway.go:31-44 | at most one report per marked Gateway |
| IstioGateway.MarkedReportsMembers | pkg/istio/virtualservicegateway.go:31-44 | a report is made exactly for each marked Gateway whose marker hash is not the ref's hash, or for all of them when removing |
| IstioGateway.UndoFor | pkg/istio/virtualservicegateway.go:90-101 | the undo report of each Gateway |
| IstioGateway.MarkedReportsUndoAll | pkg/istio/virtualservicegateway.go:90-101 | when removing, every marked Gateway is reported flipped, in order |
| IstioGateway.MarkedReportsRemoving | pkg/istio/virtualservicegateway.go:90-101 | when removing, one report per marked Gateway, each its undo report |
| IstioGateway.ConnectedStatus | pkg/istio/virtualservicegateway.go:79-85 | a connected Gateway is reported for modification with "ike.hosts" set to the comma-join of its new hosts |
| IstioGateway.GatewayReports | pkg/istio/virtualservicegateway.go:53-86 | at most one report per named gateway, each a modification of a Gateway carrying "ike.hosts" |
| IstioGateway.GatewayReportsStep | pkg/istio/virtualservicegateway.go:53-86 | one more gateway name adds its report when the Gateway can be fetched and nothing when it cannot |
| IstioGateway.MissingAppend | pkg/istio/virtualservicegateway.go:65-70 | a gateway is missing from the extended names exactly when it is missing from the old ones or is the new one |
| IstioGateway.ConnectedReports | pkg/istio/virtualservicegateway.go:50-88 | every report for the VirtualServices is a modification of a Gateway carrying "ike.hosts" |
| IstioGateway.LocateConnected | pkg/istio/virtualservicegateway.go:52-87 | one VirtualService's gateways give the reports of the fetched Gateways, and an error exactly when one cannot be fetched |
| IstioGateway.LocateStep | pkg/istio/virtualservicegateway.go:53-86 | one more gateway name extends the reports and the missing flag accordingly |
| IstioGateway.ConnectedFor | pkg/istio/virtualservicegateway.go:72-85 | the report built for a fetched Gateway is its connected status |
| IstioGateway.AnyMissingAppend | pkg/istio/virtualservicegateway.go:50-88 | one more VirtualService fails exactly when it or an earlier one names a Gateway that cannot be fetched |
| IstioGateway.ReportMarked | pkg/istio/virtualservicegateway.go:31-44 | the loop over marked Gateways makes exactly the marked reports |
| IstioGateway.UndoReport | pkg/istio/virtualservicegateway.go:33-43 | one Gateway is reported flipped exactly when it is stale |
| IstioGateway.LocateAllConnected | pkg/istio/virtualservicegateway.go:50-88 | the loop over the VirtualServices makes the connected reports and fails exactly when some Gateway is missing |
| IstioGateway.VirtualServiceGatewayLocator | pkg/istio/virtualservicegateway.go:21-105 | a listing error of the marked Gateways fails with no reports; when removing, every marked Gateway is reported flipped; otherwise stale marked Gateways are reported, then a VirtualService listing error fails, else every connected Gateway is reported and the locator fails exactly when some Gateway is missing |
| IstioGateway.CurrentMarkerNotUndone | pkg/istio/virtualservicegateway.go:35 | a Gateway whose marker carries the ref's current hash is not reported for undoing |
| K8sService.ServiceStatus | pkg/k8s/service.go:32-40 | a report names the Service in the session's namespace with kind "Service", action located and the Service's labels |
| K8sService.SelectingServices | pkg/k8s/service.go:29-42 | at most one report per Service for one target |
| K8sService.SelectingServicesMembers | pkg/k8s/service.go:29-42 | the reports for one target are exactly those of the Services whose selector is contained in its labels |
| K8sService.ServiceReportsMembers | pkg/k8s/service.go:28-43 | a report is made exactly for each (target, Service) pair whose selector the target's labels contain |
| K8sService.OneReportPerPair | pkg/k8s/service.go:28-43 | the number of reports is the number of matching (target, Service) pairs |
| K8sService.OnePerService | pkg/k8s/service.go:29-42 | for one target, the number of reports is the number of Services selecting it |
| K8sService.EmptySelectorSelectsAll | pkg/k8s/service.go:30-31 | a Service with an empty selector selects every target |
| K8sService.ServiceLocator | pkg/k8s/service.go:19-46 | a listing error is returned with no reports; otherwise no error and the reports of every Deployment and DeploymentConfig target against every Service |
| K8sService.SelectingFor | pkg/k8s/service.go:29-42 | the inner loop makes exactly the reports of the Services selecting the target |
| ProtoMutators.TestDestination | pkg/controller/session/virtualservice_mutator.go:20-26 | the test destination keeps host and port and has the subset with "-test" appended |
| ProtoMutators.VirtualServiceAdd | pkg/controller/session/virtualservice_mutator.go:14-56 | exactly one route is put in front of the original ones; it matches header end-user=jason exactly, goes to the test destinations of the first route's destinations without weight, and copies that route's redirect, headers and mirror |
| ProtoMutators.FirstTestRoute | pkg/controller/session/virtualservice_mutator.go:61-66 | the first route whose first destination's subset contains "-test", or none |
| ProtoMutators.VirtualServiceRemove | pkg/controller/session/virtualservice_mutator.go:59-68 | only the first such route is dropped; without one the VirtualService is unchanged |
| ProtoMutators.VirtualServiceRoundTrip | pkg/controller/session/virtualservice_mutator.go:14-68 | removing after adding gives the original VirtualService back whenever its first route has a destination |
| ProtoMutators.DestinationRuleAdd | pkg/controller/session/destinationrule_mutator.go:15-35 | exactly one subset "v1-test" labelled version=v1-test is appended |
| ProtoMutators.FirstTestSubset | pkg/controller/session/destinationrule_mutator.go:39-44 | the first subset whose name contains "-test", or none |
| ProtoMutators.DestinationRuleRemove | pkg/controller/session/destinationrule_mutator.go:38-46 | only the first such subset is dropped; without one the DestinationRule is unchanged |
| ProtoMutators.DestinationRuleRoundTrip | pkg/controller/session/destinationrule_mutator.go:15-46 | when no subset name contains "-test", removing after adding finds the added subset and gives the subsets back |
| PatchTemplate.ParseInt | pkg/template/template.go:124-127 | a parsed index lies in the 64-bit range, the empty text is an error, and a digit string within range parses to its value |
| PatchTemplate.ParseIndex | pkg/template/template.go:124-128 | the decimal text of an array position parses back to it |
| PatchTemplate.Value | pkg/template/template.go:109-142 | the loop over the path parts computes the value behind the path; a `null` member or element reads as nothing and keeps its place in its array |
| PatchTemplate.NullElementLaterIndex | pkg/template/template.go:115-139 | in {"a": [null, {"b": "x"}]} the path "/a/1/b" leads to "x": a null element keeps the indices of the later ones |
| PatchTemplate.NullElementItself | pkg/template/template.go:115-139 | in {"a": [null, {"b": "x"}]} the path "/a/0" leads to no value |
| PatchTemplate.NullElementKeepsIndices | pkg/template/template.go:115-139 | in {"a": [null, {"b": "x"}]} the path "/a/1/b" leads to "x" and "/a/0" to nothing |
| PatchTemplate.Has | pkg/template/template.go:145-151 | the panic of indexing past an array passes through; otherwise a path is present exactly when the lookup succeeds with a value, and any other error answers false |
| PatchTemplate.HasPanicsPastEnd | pkg/template/template.go:128 | asking {"a": []} for "/a/0" panics instead of answering false |
| PatchTemplate.NoSlashInvalid | pkg/template/template.go:110-113 | a path without '/' is refused as not valid |
| PatchTemplate.FirstSegmentIgnored | pkg/template/template.go:110-114 | the text before the first '/' does not matter |
| PatchTemplate.TopLevelMember | pkg/template/template.go:114-141 | "/key" gives the top-level member, or nothing when it is absent or `null` |
| PatchTemplate.ScalarBeforeEnd | pkg/template/template.go:131-139 | meeting a non-container before the last part gives nothing, without error |
| PatchTemplate.Descend | pkg/template/template.go:115-141 | an object member holding an array is descended by the integer index that follows it |
| PatchTemplate.WalkInto | pkg/template/template.go:131-133 | a container that is reached is where the rest of the path continues |
| PatchTemplate.DescendArray | pkg/template/template.go:123-139 | an array is indexed by the decimal position; a scalar there is the result only at the last part |
| PatchTemplate.FirstPatch | pkg/template/template.go:219-224 | the position of the first patch with the name and none earlier, or none at all |
| PatchTemplate.FindPatch | pkg/template/template.go:217-226 | the patch found is the first one with the name, and none when no patch has it |
| PatchTemplate.MergeVariables | pkg/template/template.go:175-183 | every default key and every caller key is present, the caller's values win, and the defaults fill the rest |
| PatchTemplate.Run | pkg/template/template.go:164-215 | a template parse error, "unable to find patch" plus the name, and a decoding error are returned in that order; otherwise the rendering is done with the merged variables and its error or the applied patch is the result |
| PatchTemplate.RenderedWithUnique | pkg/template/template.go:175-183 | the merged variables are determined by the defaults and the caller's variables |
| PatchTemplate.LineVar | pkg/template/template.go:36-43 | exactly the empty lines define nothing |
| PatchTemplate.LineVarPair | pkg/template/template.go:37-42 | a line "name=value" defines the name with the value |
| PatchTemplate.Entries | pkg/template/template.go:35-44 | one entry per line, in order |
| PatchTemplate.LastNaming | pkg/template/template.go:35-44 | the position of the last line defining the name, or none |
| PatchTemplate.DefaultsLastWins | pkg/template/template.go:35-44 | a variable is defined exactly when some line names it, with the value of the last such line |
| PatchTemplate.DefaultsStep | pkg/template/template.go:36-43 | one more line adds its definition on top of the earlier ones |
| PatchTemplate.ParseVars | pkg/template/template.go:33-45 | the loop over the lines yields the definitions of all lines, later ones winning |
| PatchTemplate.PatchName | pkg/template/template.go:25-28 | a file gives a patch exactly when its name ends in ".tpl" |
| PatchTemplate.PatchNameStripsSuffix | pkg/template/template.go:25-28 | "name.tpl" gives the patch "name" when the name has no '.' |
| PatchTemplate.ReplaceAllStripsSuffix | pkg/template/template.go:28 | deleting a suffix that cannot occur earlier leaves the stem |
| PatchTemplate.FailIfVariableDoesNotExist | pkg/template/template.go:231-236 | an error "expected NAME variable to be set" exactly when there are no variables or the variable is missing or empty |
| OpenShiftTemplate.FirstNamed | pkg/openshift/parser/template.go:57-65 | the position of the first parameter declaring the name, or none |
| OpenShiftTemplate.DeclaredStep | pkg/openshift/parser/template.go:57-65 | a name is declared within one more parameter exactly when it was declared before or is that parameter's name |
| OpenShiftTemplate.FilledKept | pkg/openshift/parser/template.go:58 | a parameter whose name is already set leaves the variables as they are |
| OpenShiftTemplate.FilledAdded | pkg/openshift/parser/template.go:63 | a parameter whose name is not set adds its declared value |
| OpenShiftTemplate.FilledUnmet | pkg/openshift/parser/template.go:59-62 | a required parameter with no value that the caller left out is unmet |
| OpenShiftTemplate.FillFrom | pkg/openshift/parser/template.go:57-65 | from a position on, a successful fill keeps every variable already set and adds only declared names; a failure names a later required parameter without a value that is still unset |
| OpenShiftTemplate.FillFromOk | pkg/openshift/dynclient/template.go:61-69 | a successful fill ends with the caller's variables plus each declared name with its first declared value |
| OpenShiftTemplate.FillFromErr | pkg/openshift/dynclient/template.go:61-69 | a failed fill names an unmet parameter |
| OpenShiftTemplate.FillSpec | pkg/openshift/parser/template.go:57-65 | the fill fails exactly when some parameter is unmet, naming the first one; otherwise caller variables are never overwritten and every other declared name takes the value of its first declaration |
| OpenShiftTemplate.FillParameters | pkg/openshift/parser/template.go:53-65 | the loop over the parameters gives the fill, or the "expected NAME to be defined" error with the template path |
| OpenShiftTemplate.Placeholder | pkg/openshift/parser/template.go:25 | a placeholder at the start is "${", a name without '}' or line break, then "}" |
| OpenShiftTemplate.RewriteLiteral | pkg/openshift/parser/template.go:67 | text without '$' is not rewritten |
| OpenShiftTemplate.RewritePlaceholder | pkg/openshift/parser/template.go:25-27 | "${NAME}" becomes "{{ .NAME }}" and the rest is rewritten after it |
| OpenShiftTemplate.RewriteShortest | pkg/openshift/parser/template.go:25 | the match ends at the first '}' |
| OpenShiftTemplate.RewriteKeepsBrokenPlaceholder | pkg/openshift/dynclient/template.go:25 | a placeholder broken over lines is left as it is |
| OpenShiftTemplate.ProcessTemplate | pkg/openshift/parser/template.go:43-76 | load and parameter parsing errors are returned first; a missing required parameter gives its error; otherwise the rewritten template is executed with the filled variables |
| OpenShiftTemplate.EnvEntryAsWritten | pkg/openshift/parser/template.go:35-36 | as written, an entry without '=' panics |
| OpenShiftTemplate.CountNoneIff | pkg/openshift/parser/template.go:35 | a text has no '=' exactly when it counts none |
| OpenShiftTemplate.CountPositive | pkg/openshift/parser/template.go:35 | a text holding '=' counts at least one |
| OpenShiftTemplate.CountStep | pkg/openshift/parser/template.go:35 | counting steps over the first character |
| OpenShiftTemplate.EnvEntryTruncates | pkg/openshift/parser/template.go:33-37 | as written, "OPTS=a=b" gives OPTS the value "a" |
| OpenShiftTemplate.EnvEntry | pkg/openshift/parser/template.go:33-37 | an entry is refused exactly when it has no '='; otherwise the key has no '=' and key, '=' and value give the entry back |
| OpenShiftTemplate.EnvEntryRoundTrip | pkg/openshift/parser/template.go:33-37 | "KEY=value" reads back as the key and the whole value |
| OpenShiftTemplate.EnvOfLastWins | pkg/openshift/parser/template.go:33-37 | corrected (split at the first '='): each key of a well-formed environment holds the value of its last entry |
| OpenShiftTemplate.EnvOfOk | pkg/openshift/parser/template.go:33-37 | a well-formed environment is read without error |
| OpenShiftTemplate.EnvVariables | pkg/openshift/dynclient/template.go:33-37 | corrected (split at the first '='): the loop over the environment computes the environment map |
| OpenShiftTemplate.EnvOfErrSticks | pkg/openshift/parser/template.go:34-36 | a malformed entry stops the reading for good |
| OpenShiftTemplate.ProcessTemplateUsingEnvVars | pkg/openshift/parser/template.go:32-40 | corrected (split at the first '='): the environment is read first and becomes the variables of the template processing |
| FilePattern.RegexDefinitionLength | cmd/ike/watch/file_pattern.go:63-64 | "regex{{" and "}}" cannot overlap, so the content between them is well defined |
| FilePattern.LastSlash | cmd/ike/watch/file_pattern.go:68 | the position of the last '/', or -1 when there is none |
| FilePattern.StripAnyPath | cmd/ike/watch/file_pattern.go:84-86 | the stripped directory part is a suffix of the original that no longer starts with "**/" |
| FilePattern.TransformPath | cmd/ike/watch/file_pattern.go:83-91 | the loop strips every leading "**/" and the replacements then translate the directory part |
| FilePattern.AnyPathSlash | cmd/ike/watch/file_pattern.go:84-85 | in a part starting with "**/" the first '/' is at position 2, so each round strips exactly "**/" |
| FilePattern.TokenLength | cmd/ike/watch/file_pattern.go:87-90 | a token of the directory part is one or two characters long |
| FilePattern.ReplacePeel | cmd/ike/watch/file_pattern.go:87-90 | text that cannot start the pattern passes through a replacement unchanged |
| FilePattern.ReplaceHead | cmd/ike/watch/file_pattern.go:87-90 | a leading occurrence of the pattern is replaced and the rest follows |
| FilePattern.EscapeDotsConcat | cmd/ike/watch/file_pattern.go:104-106 | escaping dots distributes over concatenation |
| FilePattern.EscapeToken | cmd/ike/watch/file_pattern.go:104-106 | a token escapes to itself except that '.' becomes "\." |
| FilePattern.EscapeStart | cmd/ike/watch/file_pattern.go:104-106 | escaping does not put a '*' at the start |
| FilePattern.Stage1Step | cmd/ike/watch/file_pattern.go:87-88 | escaping and marking "**" proceed token by token |
| FilePattern.Stage2Step | cmd/ike/watch/file_pattern.go:87-89 | after the single-star replacement a lone '*' became one name and "**" stays marked |
| FilePattern.ChainIsGlob | cmd/ike/watch/file_pattern.go:87-90 | the three replacements translate "**" into ".*", a lone "*" into "^[^/]+" and '.' into "\.", leaving everything else, so "**" is never turned into the single-star form |
| FilePattern.FileNameStars | cmd/ike/watch/file_pattern.go:93-110 | in the file-name part dots are escaped and every '*' becomes ".*" |
| FilePattern.ParseFilePattern | cmd/ike/watch/file_pattern.go:60-81 | a regex definition yields the text between "regex{{" and "}}"; a glob yields an expression ended by ".*" or "$" |
| FilePattern.RegexVerbatim | cmd/ike/watch/file_pattern.go:62-65 | "regex{{X}}" yields X verbatim |
| FilePattern.GlobShape | cmd/ike/watch/file_pattern.go:60-81 | a glob translates into its directory part followed by its file-name part, ended by ".*" when the result ends with '/' and by "$" otherwise |
| FilePattern.SuffixNoAngle | cmd/ike/watch/file_pattern.go:68-71 | a slice of text without '<' has none |
| FilePattern.GlobPlain | cmd/ike/watch/file_pattern.go:87-90 | an ordinary character stands for itself |
| FilePattern.GlobTwoStars | cmd/ike/watch/file_pattern.go:88-90 | "**" stands for any text |
| FilePattern.GlobOneStar | cmd/ike/watch/file_pattern.go:89 | a lone "*" stands for one name |
| FilePattern.GlobPlainText | cmd/ike/watch/file_pattern.go:87-90 | text without '*' or '.' stands for itself |
| FilePattern.AnyPathBelow | cmd/ike/watch/file_pattern.go:87-90 | "d/**/" translates into "d/.*/" |
| FilePattern.AnyNameExample | cmd/ike/watch/file_pattern.go:89 | "*/" translates into "^[^/]+/" |
| FilePattern.ParsedAllEach | cmd/ike/watch/file_pattern.go:50-58 | one translation per pattern, in order, each trimmed first |
| FilePattern.ParseFilePatterns | cmd/ike/watch/file_pattern.go:50-58 | the loop yields the translation of every trimmed pattern, in order |
| FilePattern.ParsePattern | cmd/ike/watch/file_pattern.go:60-81 | the method computes the translation of the pattern |
| FilePattern.Matches | cmd/ike/watch/file_pattern.go:40-47 | the patterns match a file name exactly when one of them does |
| LimitedOption.CreateOptions | pkg/cmd/flag/limited_option.go:21-32 | an even-length list gives half as many options, each pairing a name with the abbreviation after it, in order |
| LimitedOption.Flatten | pkg/cmd/flag/limited_option.go:27-29 | an option list laid out flat has two entries per option |
| LimitedOption.FlattenCreated | pkg/cmd/flag/limited_option.go:21-32 | the created options flatten back to the list they were made from |
| LimitedOption.FirstChoice | pkg/cmd/flag/limited_option.go:66-72 | the position of the first option named or abbreviated so, with none earlier, or none at all |
| LimitedOption.Hints | pkg/cmd/flag/limited_option.go:85-88 | one "name (abbrev)" hint per option, in order |
| LimitedOption.NameAndAbbrev.constructor | pkg/cmd/flag/limited_option.go:28 | a value bound to a flag is one of the created options and shares their list |
| LimitedOption.NameAndAbbrev.String | pkg/cmd/flag/limited_option.go:59-61 | the text of a value is its name |
| LimitedOption.NameAndAbbrev.Type | pkg/cmd/flag/limited_option.go:78-80 | the type text is "name (or abbrev)" |
| LimitedOption.NameAndAbbrev.Hint | pkg/cmd/flag/limited_option.go:83-91 | the hint joins "name (abbrev)" of every option with ", " in declaration order |
| LimitedOption.NameAndAbbrev.Set | pkg/cmd/flag/limited_option.go:64-75 | a name or abbreviation of some option selects the first such option without error; any other text gives "must be one of" followed by the hint and leaves the value as it was |
| LimitedOption.SetSelects | pkg/cmd/flag/limited_option.go:64-72 | an option's own name, or its abbreviation when no earlier option uses it, selects that option |
| LimitedOption.Completions | pkg/cmd/flag/limited_option.go:36-45 | the completions are the names of the options, in order |
| LogKeys.Next | pkg/log/emperror.go:26 | a string key joins the keys kept so far; other keys add nothing |
| LogKeys.Uniq | pkg/log/emperror.go:24-39 | the intended result is never longer than the list |
| LogKeys.DanglingKept | pkg/log/emperror.go:27-31 | a dangling last key repeating a kept key is dropped by the intended result and makes the code as written panic |
| LogKeys.UniqAt | pkg/log/emperror.go:25-36 | a pair whose key was not kept before stays in front of the rest, which continues with that key kept |
| LogKeys.Without | pkg/log/emperror.go:27-34 | dropping the pairs of one key never lengthens the list |
| LogKeys.WithoutPair | pkg/log/emperror.go:27-34 | dropping a key from a list plus one pair drops that pair exactly when it carries the key |
| LogKeys.WithoutLast | pkg/log/emperror.go:27-34 | dropping a key from a list plus a dangling key drops it exactly when it is that key |
| LogKeys.UniqWithout | pkg/log/emperror.go:27-34 | dropping the pairs of an already kept key early does not change the result |
| LogKeys.PanicsWithout | pkg/log/emperror.go:27-34 | dropping the pairs of a kept key does not change whether the rest panics, unless the dangling last key is that key |
| LogKeys.AfterStep | pkg/log/emperror.go:26-35 | the inner loop for one key position never lengthens the list |
| LogKeys.UniqStepStr | pkg/log/emperror.go:26-35 | from a string key not kept before, the result is its pair followed by the result of the rest without that key |
| LogKeys.UniqStepOther | pkg/log/emperror.go:25-36 | a pair whose key is not a string always stays and changes neither the kept keys nor a panic to come |
| LogKeys.DropRepeatsAsWritten | pkg/log/emperror.go:27-34 | as written, the inner loop panics exactly when the list has a dangling last key equal to the key, and otherwise drops every later pair with the key |
| LogKeys.UniqueKeysAsWritten | pkg/log/emperror.go:24-39 | as written, the function panics exactly when the dangling last key repeats an earlier kept string key, and otherwise returns the intended result |
| LogKeys.DropRepeats | pkg/log/emperror.go:27-34 | with the bound corrected, the inner loop drops every later pair with the key and a dangling repeat of it |
| LogKeys.UniqueKeys | pkg/log/emperror.go:24-39 | with the bound corrected, the function returns the intended result and never panics |
| LogKeys.UniqueKeysPanicsOnDanglingRepeat | pkg/log/emperror.go:24-39 | the list "a", x, "a" panics as written, and the intended result is "a", x |
| LogKeys.UniqDistinct | pkg/log/emperror.go:24-39 | no two even positions of the result hold the same string key |
| LogKeys.Others | pkg/log/emperror.go:26-28 | the pairs whose key is not a string never outnumber the list |
| LogKeys.UniqOthers | pkg/log/emperror.go:26-28 | pairs whose key is not a string are never removed, and stay in order |
| LogKeys.FirstPair | pkg/log/emperror.go:24-39 | the first pair with a string key starts with that key |
| LogKeys.UniqFirstPair | pkg/log/emperror.go:24-39 | the first pair for every string key survives unchanged |
| LogKeys.UniqNoop | pkg/log/emperror.go:24-39 | a list without repeated string keys is returned as it is |
| LogKeys.UniqIdempotent | pkg/log/emperror.go:24-39 | de-duplicating twice is the same as once |
| LogKeys.PanicsWhen | pkg/log/emperror.go:24-39 | as written, the code panics exactly when the list has odd length and its dangling last key is a string that an earlier key position holds |
| Generator.NewServiceEntry | pkg/generator/generators.go:39-45 | a new service keeps its name, namespace and deployment type, with HTTP port 9080 and gRPC port 9081 |
| Generator.HostName | pkg/generator/generators.go:48-54 | the host name starts with the service name; it is the bare name exactly when no namespace is set, and otherwise continues with "." and ends in ".svc.cluster.local" |
| Generator.SplitLastColon | pkg/generator/modifiers.go:48-59 | a text joined to a colon-free tail by ':' splits back into the two at its last ':' |
| Generator.DigitsNoColon | pkg/generator/modifiers.go:48-59 | a decimal port number contains no ':' |
| Generator.UrlSplits | pkg/generator/modifiers.go:48-59 | both protocols give the target's host (after "http://" for HTTP) before the last ':', and after it the matching port, which parses back |
| Generator.FirstNamed | pkg/generator/modifiers.go:161-169 | the index found holds the name and no earlier variable has it; none is found exactly when no variable has the name |
| Generator.AppendOrAdd | pkg/generator/modifiers.go:159-178 | the loop returns the environment in which the first variable with the name is extended, or the new variable is appended |
| Generator.FirstNamedIs | pkg/generator/modifiers.go:161-169 | the first index holding the name is the one found |
| Generator.AddedValue | pkg/generator/modifiers.go:159-178 | after appendOrAdd the name reads as its old value plus "," and the value, or as the value; every other name reads as before; the list grows only when the name was new |
| Generator.AddedDistinct | pkg/generator/modifiers.go:159-178 | appendOrAdd never creates a second variable with one name |
| Generator.AddedAllNames | pkg/generator/modifiers.go:142-146 | after UsingImage's loop every listed name can be read, every name that could be read still can, and names stay distinct |
| Generator.Suffixed | pkg/generator/modifiers.go:116-121 | the environment keeps its length |
| Generator.SuffixedAt | pkg/generator/modifiers.go:116-121 | every SERVICE_NAME variable gets "-" and the version appended; every other variable is unchanged |
| Generator.Ported | pkg/generator/modifiers.go:22-26 | the route keeps its number of destinations |
| Generator.WithPort | pkg/generator/modifiers.go:20-28 | the virtual service keeps its number of HTTP routes |
| Generator.OnHost | pkg/generator/modifiers.go:37-39 | the gateway keeps its number of servers |
| Generator.PortedAt | pkg/generator/modifiers.go:22-26 | every destination keeps host and subset, and its port becomes the given port |
| Generator.WithPortAt | pkg/generator/modifiers.go:20-28 | every HTTP route has each of its destinations sent to the port |
| Generator.OnHostAt | pkg/generator/modifiers.go:37-39 | every server gets the host name appended to its own hosts |
| Generator.Resource.constructor | pkg/generator/generators.go:56-60 | a generated object of a given kind, with the given contents |
| Generator.Resource.Expose | pkg/generator/modifiers.go:18-19 | the hosts become the one host name, the test gateway is appended, and nothing else changes |
| Generator.Resource.SetPorts | pkg/generator/modifiers.go:20-28 | every destination of every HTTP route gets the port, and nothing else changes |
| Generator.Resource.AddHost | pkg/generator/modifiers.go:37-39 | every server gets the host appended, and nothing else changes |
| Generator.Resource.SetEnv | pkg/generator/modifiers.go:64-73 | the first container's environment goes through appendOrAdd, and nothing else changes |
| Generator.Resource.AppendEnv | cmd/test-scenario/modifiers.go:20-29 | the older Call appends a SERVICE_CALL variable pointing at the target on port 9080, and nothing else changes |
| Generator.Resource.Version | pkg/generator/modifiers.go:112-122 | the version label is set, the name gets "-" and the version, SERVICE_NAME variables are suffixed, and nothing else changes |
| Generator.Resource.AddVersionRoute | pkg/generator/modifiers.go:100-111 | one HTTP route to the service host and the version subset is appended, and nothing else changes |
| Generator.Resource.AddSubset | pkg/generator/modifiers.go:92-99 | one subset named for the version and labelled with it is appended, and nothing else changes |
| Generator.Resource.UseImage | pkg/generator/modifiers.go:140-147 | the image is set and each (name, value) pair goes through appendOrAdd in order, and nothing else changes |
| Generator.ReplaceAt | pkg/generator/modifiers.go:25-27 | overwriting one element leaves those before and after it in place |
| Generator.SetAllPorts | pkg/generator/modifiers.go:20-28 | the outer loop sends every destination of every HTTP route to the port |
| Generator.AddHostAll | pkg/generator/modifiers.go:37-39 | the loop appends the host name to every server |
| Generator.SuffixAll | pkg/generator/modifiers.go:116-121 | the loop suffixes exactly the SERVICE_NAME variables |
| Generator.SetRoutePorts | pkg/generator/modifiers.go:22-26 | the inner loop sends every destination of one route to the port |
| Generator.Apply | pkg/generator/modifiers.go:15-157 | running a modifier on an object changes it exactly as the modifier's meaning says, filters and nested modifiers included |
| Generator.StepAllConcat | pkg/generator/modifiers.go:83-85 | running two lists of modifiers one after the other is running their concatenation |
| Generator.ForServiceInOrder | pkg/generator/modifiers.go:78-87 | a filter for another service changes nothing; a filter for this service runs its modifiers in order, so splitting its list splits the run |
| Generator.ServiceUntouched | pkg/generator/modifiers.go:15-157 | no modifier changes a Kubernetes service object |
| Generator.ServiceUntouchedAll | pkg/generator/modifiers.go:78-87 | no list of modifiers changes a Kubernetes service object |
| Generator.ConnectToGatewayRoutes | pkg/generator/modifiers.go:15-31 | on a virtual service, the hosts become the host name, the test gateway is added, every destination keeps host and subset and gets the service's HTTP port, and nothing else changes |
| Generator.GatewayOnHostServers | pkg/generator/modifiers.go:34-42 | on a gateway, every server gets the host name after its own hosts, and nothing else changes |
| Generator.CallSetsServiceCall | pkg/generator/modifiers.go:62-75 | on a workload, SERVICE_CALL reads as the target's URL, appended after "," to any earlier value; other variables read as before; names stay distinct; nothing else changes |
| Generator.DeploymentWithVersionSkipsConfig | cmd/test-scenario/modifiers.go:41-75 | the older WithVersion leaves a DeploymentConfig unchanged, where the newer one always changes it, and otherwise agrees with the newer one for a service without a namespace |
| Generator.WithVersionWorkload | pkg/generator/modifiers.go:112-133 | on a workload, the version label, the name suffix and the SERVICE_NAME suffixes are set, and nothing else changes |
| Generator.UsingImageEnv | pkg/generator/modifiers.go:138-157 | on a workload, the image is set, every listed variable can be read afterwards, distinct names stay distinct, and nothing else changes |
| StableCount.Inc32 | e2e/verify/deployment.go:56 | Go's int32 increment stays inside the int32 range |
| StableCount.Counter | e2e/verify/deployment.go:45-63 | the count after any sequence of verdicts is an int32 |
| StableCount.Streak | e2e/verify/deployment.go:45-63 | the run of matches at the end never exceeds the number of verdicts |
| StableCount.StableCountMatcher.constructor | e2e/verify/deployment.go:77-79 | a new matcher has the given number of occurrences, no matches counted and no flip |
| StableCount.StableCountMatcher.Match | e2e/verify/deployment.go:45-63 | a mismatch resets the count, records a flip when matches had been counted, and fails with the wrapped error; a match increments the count and succeeds exactly when it reaches the number of occurrences, with the "not enough matches" error until then |
| StableCount.CounterIsStreak | e2e/verify/deployment.go:45-63 | below 2^31 verdicts the count is the number of matches in a row at the end |
| StableCount.StreakCovers | e2e/verify/deployment.go:45-63 | a run of at least n matches at the end means the last n verdicts were all matches, and conversely |
| StableCount.StableInSeries | e2e/verify/deployment.go:56-62 | below 2^31 verdicts, a call succeeds exactly when it matched and so did the calls just before it, the number of occurrences in all |
| StableCount.FlippingWhen | e2e/verify/deployment.go:47-50 | below 2^31 verdicts, the matcher is flipping exactly when some match was followed later by a mismatch |
| StringMatchers.CharRange | test/matchers/string_matchers.go:13 | the range of consecutive characters has the requested length |
| StringMatchers.InCharRange | test/matchers/string_matchers.go:13 | a character is in the range exactly when its code point lies between the bounds |
| StringMatchers.LettersAre | test/matchers/string_matchers.go:13 | BeLetter's allowed characters are exactly 'a' to 'z' |
| StringMatchers.OnlyContain | test/matchers/string_matchers.go:86-92 | the allowed set holds exactly the characters of the given string, and the string is kept for messages |
| StringMatchers.AllAllowed | test/matchers/string_matchers.go:109-115 | the loop says yes exactly when every character of the string is allowed |
| StringMatchers.OnlyContainMatch | test/matchers/string_matchers.go:99-116 | nil matches; a string matches exactly when all its characters are allowed; any other value fails with "expected string" |
| StringMatchers.BeLetterMatch | test/matchers/string_matchers.go:20-32 | nil matches; a byte matches exactly when it is an ASCII letter of either case; any other value fails with the "expected a character" error |
| StringMatchers.NonAsciiBytes | test/matchers/string_matchers.go:60 | the first and last UTF-8 bytes of a non-ASCII character are at least 0x80, so never letters |
| StringMatchers.StartsWithLetterWhen | test/matchers/string_matchers.go:51-61 | the empty string panics; any other string matches exactly when its first character is an ASCII letter |
| StringMatchers.EndsWithLetterWhen | test/matchers/string_matchers.go:72-83 | the empty string panics; any other string matches exactly when its last character is an ASCII letter |

## Left out

- Kubernetes and OpenShift API calls, reconcile loops, client wrappers, the status update after
  the validator chain, webhooks, CLI wiring, process spawning, file watching and the e2e harness.
  These are I/O against an API server, the operating system or the network; listings and lookups
  appear as inputs of type `Result`.
- sha256 in `GetSha` and `Ref.Hash` is a function parameter returning 32 bytes. Hex encoding and
  the 8-character prefix are modelled.
- The clock (`time.Now`) is a parameter of `LocatorStore.Report`.
- Regular-expression compilation and matching in `FilePattern.Matches` is a parameter.
- `text/template` execution and JSON-patch application in `patchEngine.Run` are parameters, and
  so are YAML decoding and asset loading in `ProcessTemplate`.
- The `template.Must` parse of the `${X}` regular expression is left out; its rewrite is modelled
  as a left-to-right scan for the shortest match.
- `loadPatches`: the directory listing and file reads are left out. Only the `.var` line parsing
  and the `.tpl` naming are modelled.
- `collectDetails` in `pkg/log/emperror.go` walks emperror's error chain, which is not part of
  this model.
- The gomega failure-message formatting (`format.Object`, `FailureMessage`) is left out. The
  matcher errors carry only their fixed prefixes.
- `naming.ConcatToMax` and `CreateRefMarker` are not part of this model, so the gateway locator
  takes the label key as a parameter.
- This revision's gateway locator reads a `remove` flag from a `Ref` type that is not part of this
  model; the flag is a parameter. `isInSlice` is not part of this model either; it is taken as list
  membership.
- Label selectors beyond subset matching, and gitignore matching, are not modelled.
- The sorts use `sort.SliceStable`, but their comparators answer true for two entries of the same
  class (`pkg/model/locator.go:28-40`, `controllers/session/session_controller.go:389-397`). That is
  not a strict weak order, so the order the sort leaves inside a class is not determined by the
  source. Go map iteration order is also random. `ModelLocator.LocatorStore.Store` and
  `SessionController.CalculateReferences` therefore claim only the partition (undo actions, or
  deleted refs, first) and the contents. The order within each class is not claimed.
- ModelNew.RunLocators: a locator is modelled as a function of the store contents at the moment
  it starts, giving the reports it makes. A Go locator holds the live store and reporter and can
  read the store again between its own reports; the model treats its reads as happening before
  its first report.
- ModelNew.Engine: uses the same snapshot model of a locator as `ModelNew.RunLocators`, and hands
  the gate and each modificator the store contents at the time it is called.
- ModelLocator.UndoFirstPartition: the model fixes one order inside each class (the stored order).
  Only the partition and the multiset are proved, because the source promises no more.
- IstioVirtualService.MutateVirtualService: models each copy of a found route with a destination
  list of its own, the corrected behaviour. The source shares the destinations and their backing
  array between the copies; `IstioVirtualService.MutateVirtualServiceAsWritten` models that
  sharing, and the Findings table records where the two differ.
- IstioVirtualService.MutateConnectedVirtualService: models the same corrected copies. The
  as-written routes, before the request header is added, are `IstioVirtualService.PrependedAsWritten`
  without matching; the header step is not composed with them.
- IstioVirtualService: in the as-written copies, a copy's matches and headers are taken as values. In the source
  they are shared between the copies too, but the header added to them is the same for every
  copy, so sharing them changes nothing.
- IstioVirtualService.RevertVirtualService: requires every route destination to be set. A nil
  `Destination` is dereferenced in the source and panics.
- IstioVirtualService.UpdateSubset: requires every destination to be set, for the same reason.
- ProtoMutators.VirtualServiceAdd: requires a first HTTP route whose destinations are all set,
  because the source indexes `Http[0]` and dereferences each destination.
- ProtoMutators.VirtualServiceRemove: requires every route up to the first test route to have a
  first destination, because the source reads `Route[0].Destination` of each.
- ProtoMutators.VirtualServiceRemove: the source's `append(Http[:i], Http[i+1:]...)` shifts the
  later routes down inside the backing array it shares with the caller, so the caller's own slice
  afterwards reads the shortened list with its last route repeated. The model returns the new
  value only and does not model that aliasing.
- ProtoMutators.DestinationRuleRemove: the same in-place shift of the caller's `Subsets` backing
  array is not modelled; the model returns the new value only.
- LimitedOption.CreateOptions: requires an even-length list. For an odd length the source indexes
  past the end and panics.
- Generator.Resource.UseImage: requires an even-length list of names and values, for the same
  reason.
- Generator: only the first container of a pod template is modelled (`Containers[0]`), and
  an empty container list, which panics in the source, is not.
- Generator: the older scenario generator's service name is a `ServiceEntry` with an empty
  namespace. `HostName` then is the bare name it uses.
- Generator: the `test/cmd/test-scenario/generator` copy is modelled as the same code with the
  default ports 9080 and 9081.
- Generator: building the objects (`generators.go`), marshalling YAML and the scenario lists are
  left out.
- OpenShiftTemplate.ProcessTemplate: the source adds the defaults to the caller's map in place.
  The model returns the filled map and does not model that aliasing.
- OpenShiftTemplate: `pkg/openshift/dynclient/template.go` has the same defaulting, rewrite and
  environment splitting as `pkg/openshift/parser/template.go`. One model covers both.
- FilePattern: '/' is the path separator.
- FilePattern.ChainIsGlob: requires a pattern without '<'. The chained replacements use a marker
  text on their way, which a '<' in the pattern could imitate.
- LogKeys: the in-place `append` splice shares the caller's backing array. The model works on
  values and does not model that aliasing.
- StableCount.CounterIsStreak: holds only below 2^31 verdicts. After that, the `int32` counter
  wraps around as `Inc32` models, and `StableCount.StableCountMatcher.Match` states that wrap.
- StableCount.StableInSeries: holds only below 2^31 verdicts, for the same reason.
- StableCount.FlippingWhen: holds only below 2^31 verdicts, for the same reason.
- ModelTypes.RefKindName.SupportsKind: compares the kinds ignoring ASCII case only, where
  `strings.EqualFold` folds Unicode case. Kubernetes kinds are ASCII identifiers, so the two
  agree on every kind the program meets.
- ModelTypes.ParseRefKindName: lower-cases ASCII letters only, where `strings.ToLower` maps Unicode.
  Kinds are ASCII and Kubernetes names are lower-case ASCII (DNS-1123), so a text that differs
  names no resource either way.
- ModelLocator.FilterKindsContent: matches kinds ignoring ASCII case only, where `EqualFold` folds
  Unicode case; the kinds are ASCII, as above.
- ModelLocator.LocatorStore.Store: filters by kind through the same ASCII-only match as
  `ModelLocator.FilterKindsContent`.
- Conditions.CreateType: title-cases ASCII letters only, where `strings.Title` maps Unicode. The
  actions are fixed ASCII words and the kinds are ASCII.
- StringMatchers: `strings.ToLower` is modelled on ASCII only. No byte from 0x80 to 0xFF lowercases
  to a letter from a to z, so the verdicts agree.
- LimitedOption.NameAndAbbrev.String: its contract equals its body, because the source method
  only returns the name.
- LimitedOption.NameAndAbbrev.Type: its contract equals its body, because the source method only
  formats one string.
- Conditions: the cleanup in `controllers/session/conditions.go` reads a `Remove` field of the
  ref. The ref type of `pkg/model/types.go` has `Deleted` instead, which the model uses.
- ModelConvert.ConvertAPIStatusesToModelRefs: requires every stored target and resource to have a
  kind, a name and an action, because the source dereferences the three pointers
  (`controllers/session/model_convert.go:111-113, 126-128`) and panics on a nil one. The converters of the
  same file always write all three (`ModelConvert.ConvertTarget`, `ModelConvert.ConvertResource`),
  and `ModelConvert.WrittenComplete` proves that storing keeps the precondition, so it holds for
  every status this code wrote.
- LegacyConvert.ConvertAPIStatusesToModelRefs: requires the same, for the same dereferences
  (`pkg/controller/session/model_convert.go:80-88`); `LegacyConvert.ConvertTarget` and
  `LegacyConvert.ConvertResource` always write all three.
- ModelNew.GetVersion: has no lemma of its own beyond its comparison with `ModelVersioning.GetVersion`.
- The model types of the older converter revision (`Ref`, `ResourceStatus`, `AddTargetResource`,
  `AddResourceStatus`) are not part of this model. They are declared from the fields the converter uses, and
  the adders are appends in call order.
- The status strings `StatusFailed`, the success and failure states and the older `ActionFailed`
  are defined outside the modelled code; they are taken to be "false", "Success", "Failed" and
  "failed".

## Findings

| source | as written | input that shows it | evidently intended | confidence | as-written member | corrected member |
|---|---|---|---|---|---|---|
| pkg/istio/virtualservice.go:419-428 | `removeOtherRoutes` deletes from `http.Route` while ranging over it, so the element after a deleted one is skipped, and a later deletion can slice past the shortened end | destinations to ratings, details and reviews (target reviews) keep details; reviews, ratings and details (target reviews) slice past the end and panic | keep exactly the destinations to the target host, unversioned or at the version, in order | not executed | IstioVirtualService.RemoveOtherRoutesAsWritten, IstioVirtualService.RemoveOtherRoutesKeepsStray, IstioVirtualService.RemoveOtherRoutesPanics | IstioVirtualService.RemoveOtherRoutes, IstioVirtualService.RemoveOtherRoutesContent |
| pkg/istio/virtualservice.go:278-344 | the copies made of one found route are shallow: they share the destination objects and the backing array of the destination list, so the rewrite made for the first copy is seen by the next one, which then deletes the destinations it should keep, and every copy's list is read only after the last pass | a route to unversioned reviews and to reviews at "v1" (weight 50 each), mutated at "v1": the second pass slices past the shortened list and panics | each copy gets its own list of the target destinations at the new version | not executed | IstioVirtualService.PrependedAsWritten, IstioVirtualService.MutateVirtualServiceAsWritten, IstioVirtualService.SharedDestinationsPanic | IstioVirtualService.MutateVirtualService, IstioVirtualService.MutateConnectedVirtualService, IstioVirtualService.SimplifyTargetRouteSpec |
| pkg/log/emperror.go:24-39 | `uniqueKeys` splices out `kv[n:n+2]` even when the repeated key is the dangling last element, so `kv[n+2:]` is past the end | the list "a", x, "a" | drop the dangling repeat along with the repeated pairs, and never panic | not executed | LogKeys.UniqueKeysAsWritten, LogKeys.UniqueKeysPanicsOnDanglingRepeat, LogKeys.PanicsWhen | LogKeys.UniqueKeys, LogKeys.UniqDistinct, LogKeys.UniqFirstPair |
| pkg/openshift/parser/template.go:33-37 | environment entries are split at every '=', and only the text up to the second '=' is kept as the value | the entry "OPTS=a=b" gives the value "a" | split at the first '=' only, so the value is "a=b" | not executed | OpenShiftTemplate.EnvEntryAsWritten, OpenShiftTemplate.EnvEntryTruncates | OpenShiftTemplate.EnvEntry, OpenShiftTemplate.EnvEntryRoundTrip |
