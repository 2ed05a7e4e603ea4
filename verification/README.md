# Lazysidecar host lists, verified

A Dafny model of the part of the lazysidecar operator that decides which hosts a
workload may reach: how the `EgressHosts` list of each LazySidecar is grown and
shrunk by several writers, and how it is projected onto the derived Istio Sidecar.

`dafny verify dfyconfig.toml` checks the whole project.

## How it is built

| file | what it models |
|---|---|
| GoStrings | the pieces of Go's `strings` and `sort` the code relies on; bytewise string order, proved total |
| HostLists | what each writer makes of a host list, as functions: filter, sort, dedupe, add-missing |
| ListKernels | the in-place sort, binary search and deletion loops on arrays, proved against HostLists |
| Slices, SidecarSync | Go slices with backing array and spare capacity, and the sync passes on listeners that share them |
| Types, Projection | the API objects, `Desired(E, M)`, and the create, update and incremental delete paths compared with it |
| HostParser, LabelMatch | the host canonicaliser and the label matcher |
| DeepCopy | the generated deep copies on heap objects |
| Store, Controller | the versioned API server and the writers that loop over its list responses, as classes |
| ReconcilePass, Coverage | passes and handlers run to completion: convergence, and which events keep every ServiceEntry host stored |
| Interleaving, SidecarSafety | one LazySidecar and its Sidecar under all writers, with a read step and a write step each, in any interleaving, with stale reads and lost calls |
| ClusterRuns, ClusterSafety | the whole cluster in any interleaving, with handlers in the middle of their list responses; each object goes through a run of Interleaving |
| Undisturbed | what the interleaved writers do with nothing in between, and convergence after any interleaving |

Three layers meet in the functions of HostLists, Projection and Store. The
imperative methods are proved to compute them, the atomic runs of Coverage and
ReconcilePass are runs of them, and the interleaved cluster commits them. A run of
the cluster is proved to be a run of Interleaving for every object
(`ClusterSafety.RunsProject`), and its handlers and passes, where nothing comes in
between, are those of Store and ReconcilePass (`Undisturbed.UndisturbedHandler`,
`Undisturbed.UndisturbedPass`).

The functions that the methods are proved against are pinned down by lemmas named
`...Exactly`, which say what the result is, with the literal names and constants,
without using the function's own parts.

## What the model assumes

- An update is accepted only from the current version; an accepted update that
  changes nothing keeps the version. A create fails when the object exists. An
  update of the main resource keeps the stored status, and the other way round.
- A cached read may return any version committed so far, of LazySidecars, of the
  Sidecar in the status step, and any list of ServiceEntries; only the passes over
  one object never go back in time, and run one after the other. The reads through
  the Istio client go to the API server. A call may fail to reach the server at any
  point; the code logs that and goes on.
- In the sequential model (Controller, ReconcilePass, Coverage) LazySidecars and
  ServiceEntries are listed as they are stored. What is cached for a pass is an
  input of `Reconcile`.
- A namespace holds no slash, as a DNS label does not (section 2.1 of RFC 1123).
- Nil and empty `egressHosts` are one stored value, as they are after a JSON
  round trip under `omitempty`. The nil branch of `RewriteSeHostsToCsmLazySidecar`
  stores the same list as the other one, which `Controller.AppendToNothing` shows.
- A panic ends the process. In the interleaved machines it is a state in which
  nothing happens any more; in the sequential model a pass that panics has written
  nothing, a removal that would panic half-way is not possible, and for the methods
  it is a precondition. `PanicsExactly`, `ClusterPanicsExactly` and `SafeExactly` say
  when it happens.

## Where a stated property fails

- A pass can panic: exactly when it has read a version of the LazySidecar with a
  selector and meets a Sidecar projected from an earlier version without one
  (`PanicsExactly`, `ClusterPanicsExactly`). A pass between the creation of a
  LazySidecar without selector and an edit that adds one brings this about
  (`AddingSelectorCrashes`). Nothing panics when the selector is added before any
  pass reads the version without it (`PanicNeedsBareRead`), or without an edit that
  adds a selector (`NeverCrashes`). A pass that panics covers nothing that was not
  covered before (`PassCoversExactly`).
- A listener loses DEFAULT_HOST when a ServiceEntry in istio-system with the host
  "*" is deleted or updated (`WildcardRemovalLosesDefault`), and only then
  (`DefaultEverywhere`, `DropKeepsDefault`).
- Deleting one ServiceEntry uncovers the hosts that another one also declares,
  exactly when there are such hosts (`CoverageKeptExactly`).
- The create path takes case and white space variants of DEFAULT_HOST for
  DEFAULT_HOST, the update path does not; they agree exactly when no such variant
  is stored (`CreateAgreesExactly`).
- A report without labels or without a namespace is not rejected: it reaches every
  LazySidecar with an empty selector (`AnonymousReport`), and a bare host in it is
  completed with an empty namespace, which is not a normal form
  (`NormalFormExactly`).

Code and documentation disagree in two places, and the model follows the code: the
field comment says that DEFAULT_HOST is the default for a nil list
(api/v1/lazysidecar_types.go:54-57), but it is added to every list; and the status
written on success is "Succeed", not the constant "Succeeded"
(api/v1/lazysidecar_types.go:30, controllers/lazysidecar_controller.go:207).

## Model

| member | source | states |
|---|---|---|
| GoStrings.LessTotal | controllers/lazysidecar_controller.go:261-263 | the order of Go strings is total: exactly one of less, greater, equal |
| GoStrings.LessExactly | controllers/lazysidecar_controller.go:261-263 | the first differing character decides the order upwards, and a proper prefix comes first |
| GoStrings.FoldExactly | internal/routers/v1/invocation.go:209 | ASCII letters fold together with their other case, 32 apart, and with nothing else but the long s and the Kelvin sign |
| HostLists.SortedPermutationUnique | controllers/lazysidecar_controller.go:261 | a list has only one sorted permutation, so any correct `sort.Strings` leaves the same list |
| HostLists.SearchIsMembership | controllers/lazysidecar_controller.go:263 | on a sorted list the found-index test holds if and only if the host is in the list |
| HostLists.WithoutCounts | controllers/lazysidecar_controller.go:161-168 | removal conserves the multiplicity of every unlisted host and leaves no listed one |
| HostLists.WithoutKeepsOrder | controllers/lazysidecar_controller.go:161-168 | the survivors are those at the unlisted positions, in their old order |
| HostLists.AddMissingCounts | controllers/lazysidecar_controller.go:142-144 | adding conserves the multiplicity of every stored host; a missing host arrives as often as it is offered |
| HostLists.AddMissingExactly | controllers/lazysidecar_controller.go:142-144 | with nothing missing the list stays as it is; or else it ends sorted, with the missing hosts after it in the order they were offered |
| HostLists.AddMissingAgain | controllers/lazysidecar_controller.go:260-270 | after the append, asking for the same hosts again finds nothing new and changes nothing |
| HostLists.AddMissingUnchanged | controllers/lazysidecar_controller.go:143 | the stored list is left alone, order included, exactly when every host is stored |
| HostLists.UpdateLaw | controllers/enqueue_serviceentry.go:29-42 | remove old then add new gives the set (E - old) + new, with the multiplicity of every host |
| HostLists.DedupeKeepsFirst | controllers/sidecar.go:99-109 | no duplicates, same set, ordered by first occurrence |
| HostLists.FirstOccurrencesUnique | controllers/sidecar.go:99-109 | these properties determine the result |
| HostLists.DedupeTwice | controllers/sidecar.go:92-96 | deduplicating in two passes equals one pass over the concatenation |
| HostLists.DedupeWithout | controllers/lazysidecar_controller.go:289-296 | filtering commutes with deduplication |
| ListKernels.SortStrings | controllers/lazysidecar_controller.go:159 | the in-place sort leaves the sorted permutation |
| ListKernels.SearchStrings | controllers/lazysidecar_controller.go:163 | binary search on a sorted array returns the smallest index not below the host |
| ListKernels.GetNewHosts | controllers/lazysidecar_controller.go:260-270 | sort plus binary search returns exactly the subsequence of hosts that was not stored, order and multiplicity kept |
| ListKernels.DeleteListed | controllers/lazysidecar_controller.go:161-168 | the in-place deletion loop terminates with the filtered list and touches nothing past the live slice |
| Slices.RemoveDuplicateElement | controllers/sidecar.go:99-109 | the loop with the seen-map yields the first occurrences, in an array with the capacity of its argument |
| SidecarSync.SyncEgressHosts | controllers/sidecar.go:112-139 | all listeners end with the very same slice, which shows the stored hosts and DEFAULT_HOST |
| SidecarSync.SyncMiddleware | controllers/sidecar.go:79-97 | appending to slices with a shared array disturbs no listener; each ends with its own deduplicated list |
| SidecarSync.SyncHosts | controllers/sidecar.go:36-37 | after both passes every listener shows exactly the desired list, for any listeners, shared or repeated |
| SidecarSync.SyncSidecar | controllers/sidecar.go:35-37 | the update path on the heap: labels copied or selector cleared, ports kept, every listener with the stored hosts, DEFAULT_HOST and the middleware, first occurrences in order |
| SidecarSync.ConstructSidecar | controllers/sidecar.go:141-192 | the create path: labels copied, one listener without a port, which shows DEFAULT_HOST, the middleware and the stored hosts that are no variant of DEFAULT_HOST |
| Projection.UpdateAgrees | controllers/sidecar.go:79-139 | the two sync passes, with their special cases for empty lists, compute `Desired`, and doing it again changes nothing |
| Projection.DesiredExactly | controllers/sidecar.go:79-139 | the desired list spelled out: first occurrences of stored hosts, "istio-system/*", and `ns/svc.ns.svc.cluster.local` for each middleware |
| Projection.SyncedExactly | controllers/sidecar.go:66-139 | the synced Sidecar has the labels or no selector, keeps the number and ports of its listeners, or gets one, and shows the desired list in each |
| Projection.CreatedExactly | controllers/sidecar.go:141-178 | the created Sidecar has the labels or no selector and one listener without a port, with "istio-system/*", the stored hosts that are no variant of it in order, and the middleware hosts |
| Projection.DefaultVariantExactly | controllers/sidecar.go:157 | the stored hosts that are dropped are white space around a string that differs from DEFAULT_HOST by case only |
| Projection.CreateAgrees | controllers/sidecar.go:152-168 | a host is in the created list if and only if it is desired and no mere variant of DEFAULT_HOST |
| Projection.CreateAgreesExactly | controllers/sidecar.go:152-168 | create and update paths give the same set exactly when no variant of DEFAULT_HOST is stored |
| Projection.DeleteAgrees | controllers/lazysidecar_controller.go:283-301 | deleting from the projected list equals projecting the shortened list, as sequences, if and only if nothing handled is DEFAULT_HOST or middleware |
| Projection.DroppedExactly | controllers/lazysidecar_controller.go:289-297 | a removal keeps selector, ports and all other listeners, and takes from the first one exactly the handled hosts |
| Projection.DefaultHostQualified | controllers/lazysidecar_controller.go:156-158 | DEFAULT_HOST is among the handled hosts exactly for the host "*" in istio-system |
| Projection.QualifiedInjective | controllers/lazysidecar_controller.go:247 | namespace and host can be read off a qualified host |
| Projection.AllHostsInOrder | controllers/lazysidecar_controller.go:245-250 | the ServiceEntry hosts come entry after entry |
| Types.DerivedExactly | controllers/lazysidecar_controller.go:89-92 | the derived Sidecar is in the namespace of the LazySidecar and is named "lazysidecar-" and its name |
| HostParser.ParseHostIgnoresPortAndPath | internal/routers/v1/invocation.go:168-181 | port and path, present or not, never change the result |
| HostParser.NormalFormExactly | internal/routers/v1/invocation.go:180-199 | the result has one slash and reads back as itself from every namespace if and only if service and namespace are known; then it is ns/svc.ns.svc.cluster.local |
| HostParser.HostPartExactly | internal/routers/v1/invocation.go:180-181 | every destination is colons, the host part that is kept, maybe a port and maybe a path |
| HostParser.ServicePrefixExactly | internal/routers/v1/invocation.go:187 | the prefix is the host part without the cluster suffix, if it ends in it, and without dots around |
| HostParser.ParseHostExactly | internal/routers/v1/invocation.go:188-199 | for every destination: what follows the last dot of the prefix is the namespace, or else the caller's namespace completes it |
| HostParser.ParseHostNeverEmpty | internal/routers/v1/invocation.go:182-193 | the two results for a missing host or namespace are never reached |
| HostParser.FormsAgree | internal/routers/v1/invocation_test.go:12-26 | every documented form of a service yields the host that the projection uses for it as middleware |
| HostParser.DocumentedForms | internal/routers/v1/invocation.go:169-178 | the eight forms that the code lists, and `svc.ns`, all give `ns/svc.ns.svc.cluster.local` |
| HostParser.ServiceHostInjective | controllers/sidecar.go:86 | different services yield different hosts |
| LabelMatch.IsInStringSlice | pkg/utils/slice.go:19-26 | found if and only if some element is equal up to case |
| LabelMatch.ParseWorkloadLabels | internal/routers/v1/invocation.go:136-165 | keeps exactly the non-empty labels with no excluded key, with their values, and the namespace, in whatever order the map is ranged over; without labels or namespace it gives neither |
| LabelMatch.IsSourceMatched | internal/routers/v1/invocation.go:202-214 | matched if and only if every selector label is present and equal up to case, independent of map order |
| LabelMatch.MatchesLaws | internal/routers/v1/invocation.go:202-214 | matching is monotone in the workload, antitone in the selector and blind to case |
| LabelMatch.MatchesExactly | internal/routers/v1/invocation.go:202-214 | a selector does not match exactly when one of its labels is missing or has a value that differs by more than case |
| LabelMatch.ExcludedExactly | internal/routers/v1/invocation.go:48-60 | the excluded keys are the five the code lists, in any case |
| LabelMatch.PlainReport | internal/routers/v1/invocation.go:146-163 | labels that are neither empty nor excluded all arrive, with the namespace |
| LabelMatch.ExcludedNeverMatches | internal/routers/v1/invocation.go:149-151 | a selector that names an excluded key matches no report |
| LabelMatch.AnonymousReport | internal/routers/v1/invocation.go:137-163 | a report without labels or namespace matches exactly the empty selectors |
| DeepCopy.CopySpec | api/v1/zz_generated.deepcopy.go:88-107 | equal in value, nil preserved, every cell new |
| DeepCopy.CopyUpstream | api/v1/zz_generated.deepcopy.go:158-170 | equal in value, nil preserved, port and host cells new |
| DeepCopy.CopyStatus | api/v1/zz_generated.deepcopy.go:120-130 | equal in value for any number of upstreams, every cell new |
| DeepCopy.CopyItems | api/v1/zz_generated.deepcopy.go:56-67 | for lists of any length every copied item, spec and status, equals its source, and no cell is shared with what was there before or with another copy |
| DeepCopy.RemoveOnCopy | controllers/lazysidecar_controller.go:161-168 | running the deletion loop on a copy leaves the cached object as it was |
| DeepCopy.ExtendOnCopy | controllers/lazysidecar_controller.go:260-270 | so does the in-place sort with the search for new hosts |
| DeepCopy.RemoveOnCopies | controllers/lazysidecar_controller.go:160-168 | deleting in place from every item of a copied list leaves all cached items as they were and filters each list once |
| Store.WriteAllIsRewriteEvery | controllers/lazysidecar_controller.go:141-150 | after a fresh listing, in any order, every LazySidecar in scope is rewritten once from its own list |
| Store.RemoveAllIsRemoveEvery | controllers/lazysidecar_controller.go:160-174 | the removal loop edits every LazySidecar and exactly the Sidecars derived from them |
| Controller.LazySidecarReconciler.AddHostsTo | controllers/lazysidecar_controller.go:141-150 | the loop over a possibly stale list response writes each extended list, if longer, under its version |
| Controller.LazySidecarReconciler.ReconcileCsmLazySidecarAddHosts | controllers/lazysidecar_controller.go:135-151 | every LazySidecar gains the missing qualified hosts |
| Controller.LazySidecarReconciler.RemoveHostsFrom | controllers/lazysidecar_controller.go:160-174 | the same for removals, with the sorted list carried into the Sidecar loop |
| Controller.LazySidecarReconciler.ReconcileCsmLazySidecarRemoveHosts | controllers/lazysidecar_controller.go:153-175 | every LazySidecar and every derived Sidecar loses the qualified hosts |
| Controller.LazySidecarReconciler.RemoveDeriveSidecarHosts | controllers/lazysidecar_controller.go:283-301 | the first listener loses the handled hosts; nothing happens without a Sidecar |
| Controller.LazySidecarReconciler.OnCreate | controllers/enqueue_serviceentry.go:19-27 | the create handler adds the hosts of the ServiceEntry everywhere |
| Controller.LazySidecarReconciler.OnUpdate | controllers/enqueue_serviceentry.go:29-42 | the update handler removes the old hosts and then adds the new ones |
| Controller.LazySidecarReconciler.OnDelete | controllers/enqueue_serviceentry.go:47-56 | the delete handler removes the hosts |
| Controller.LazySidecarReconciler.ListAllServiceEntryHosts | controllers/lazysidecar_controller.go:241-252 | all qualified hosts, in listing order |
| Controller.LazySidecarReconciler.ReconcileSidecar | controllers/sidecar.go:22-45 | creates the missing Sidecar or writes the synced one |
| Controller.LazySidecarReconciler.RewriteSeHosts | controllers/lazysidecar_controller.go:176-195 | stores the missing ServiceEntry hosts under the version that was read |
| Controller.LazySidecarReconciler.RewriteStatusOf | controllers/lazysidecar_controller.go:197-232 | the status upstream mirrors hosts, ports and protocols of the listeners of the Sidecar that the cache shows, and names the derived objects; without one nothing is written |
| Controller.LazySidecarReconciler.Reconcile | controllers/lazysidecar_controller.go:76-102 | one pass from the instance in the cache, which may be stale, is the function `PassFrom` that the convergence theorems are about |
| Controller.AppendToNothing | controllers/lazysidecar_controller.go:178-185 | the branch for a nil list stores what the other branch would |
| Controller.Invocation.SyncLazySidecar | internal/routers/v1/invocation.go:216-227 | a stored host is left alone; any other is put at the end of the list, once |
| Controller.Invocation.Report | internal/routers/v1/invocation.go:67-122 | every LazySidecar whose selector labels are all in the workload, up to case, gets the canonical host at the end of its list, once, unless it has it; the others are not written |
| ReconcilePass.PassEffect | controllers/lazysidecar_controller.go:95-99 | what a pass that does not panic leaves in spec, Sidecar and status |
| ReconcilePass.FirstPassExactly | controllers/sidecar.go:22-34 | the Sidecar that a first pass leaves under the derived name: labels, one listener without a port, and its hosts one by one, which are the desired ones without mere variants of DEFAULT_HOST |
| ReconcilePass.LaterPassExactly | controllers/sidecar.go:35-38 | the Sidecar that a later pass leaves: labels, the listeners and ports it had, each with the desired list |
| ReconcilePass.PassStatusExactly | controllers/lazysidecar_controller.go:203-232 | the status that a pass leaves: one upstream for each listener seen, with its hosts, port and protocol, "Succeed", and the derived names |
| ReconcilePass.PassFrame | controllers/lazysidecar_controller.go:76-102 | a pass concerns no other LazySidecar and no other Sidecar |
| ReconcilePass.TwoPassesConverge | controllers/lazysidecar_controller.go:76-102 | from any list and any Sidecar or none that the first pass does not panic at, the second never changes the spec, the first only if a host was missing; then list and Sidecar agree, and the status too if the cache was up to date |
| ReconcilePass.SettledIsFixed | controllers/lazysidecar_controller.go:76-102 | a further pass changes neither spec nor Sidecar |
| ReconcilePass.PassesConverge | controllers/lazysidecar_controller.go:76-102 | any number of passes from two on ends in the same spec and Sidecar, and only the first can panic |
| Coverage.CoverageKeptExactly | controllers/enqueue_serviceentry.go:19-56 | a step keeps every ServiceEntry host stored if and only if it removes none that another ServiceEntry still declares |
| Coverage.PassCoversExactly | controllers/lazysidecar_controller.go:95-97 | after a pass every ServiceEntry host is stored if and only if the pass did not panic or all were stored before |
| Coverage.CoveredWhileDeclaredOnce | controllers/enqueue_serviceentry.go:29-56 | on every run from a safe state a LazySidecar is covered from its first pass on for as long as no two ServiceEntries declare the same host |
| Coverage.RunsStaySafe | controllers/lazysidecar_controller.go:283-296 | runs from a safe state never reach a pass or a handler that panics |
| Coverage.CoveredAfterPass | controllers/lazysidecar_controller.go:76-102 | on every run a LazySidecar is covered from its first pass that does not panic on, through all harmless steps |
| Coverage.RemovalKeepsProjectionExactly | controllers/lazysidecar_controller.go:153-175 | after the removal step the first listener again equals the desired list, if and only if nothing fixed was removed |
| Coverage.ReportsAddOneEntry | internal/routers/v1/invocation.go:108-118 | after any sequence of reports of one service in any forms a matched LazySidecar has the list it had, or that list and the one canonical entry after it; an unmatched one is untouched |
| Coverage.ReportsAddNoDuplicate | internal/routers/v1/invocation.go:216-227 | so a list without duplicates stays without duplicates |
| Interleaving.NoLostUpdates | controllers/lazysidecar_controller.go:135-195 | in every interleaving each committed list is one writer's function of the list committed just before |
| Interleaving.Serialisable | controllers/lazysidecar_controller.go:135-195 | every outcome is that of the successful writers taking turns in commit order |
| Interleaving.TakenOutInBetween | controllers/lazysidecar_controller.go:161-169 | a stored host that is gone later was taken out by an edit or by a committed removal that names it |
| Interleaving.CommitsAreIssued | internal/routers/v1/invocation.go:216-227 | whatever is committed was started by an event of the run |
| Interleaving.StaysStored | controllers/lazysidecar_controller.go:153-175 | without edits and removals that name it, a stored host is in every later version |
| SidecarSafety.SelectorsAreTraced | controllers/sidecar.go:66-76 | in every interleaving each version of the Sidecar has a first listener, and the labels of the version of the LazySidecar it was projected from, or no selector if that has none |
| SidecarSafety.PanicsExactly | controllers/sidecar.go:74 | an interleaving ends in a panic if and only if a pass which had read a version with a selector met a Sidecar projected from an earlier version without one |
| SidecarSafety.PassCrashesExactly | controllers/sidecar.go:68-76 | after every interleaving, a pass that reads a given version, stale or not, panics if and only if the selector came between that version and the one the Sidecar is from |
| SidecarSafety.NeverCrashes | controllers/lazysidecar_controller.go:283-296 | in every interleaving in which no committed edit adds a selector, the indexed listener and the selector written through exist |
| SidecarSafety.AddingSelectorCrashes | controllers/sidecar.go:74 | for every LazySidecar created without a selector and every edit that adds one, a pass before and a pass after the edit end in a panic |
| SidecarSafety.PanicNeedsBareRead | controllers/sidecar.go:22-37 | in every interleaving that panics, passes had read a version without a selector and a later version with one; adding a selector before any pass reads the bare version is safe |
| SidecarSafety.DefaultEverywhere | controllers/sidecar.go:127-138 | in every interleaving every listener of every version of the Sidecar shows DEFAULT_HOST, unless a ServiceEntry in istio-system with host "*" goes |
| SidecarSafety.DropKeepsDefault | controllers/lazysidecar_controller.go:289-296 | a removal keeps DEFAULT_HOST exactly when it is not handled |
| SidecarSafety.WildcardRemovalLosesDefault | controllers/lazysidecar_controller.go:289-296 | the removal for such a ServiceEntry does take DEFAULT_HOST away |
| ClusterSafety.RunsProject | controllers/lazysidecar_controller.go:135-175 | in every run of the cluster, with handlers looping over shared list responses and Sidecars found by derived name, all that concerns one LazySidecar is as after a run of the one-object machine |
| ClusterSafety.EventsStem | controllers/enqueue_serviceentry.go:19-56 | every edit in that run is an edit of the object, and every read and removal is that of a handler started in the run of the cluster |
| ClusterSafety.NothingLost | controllers/lazysidecar_controller.go:135-195 | in every run of the cluster each committed version of each LazySidecar is one writer's function of the version before |
| ClusterSafety.LostActionsCommitNothing | controllers/lazysidecar_controller.go:145-148 | a call that does not reach the API server leaves every stored object as it was |
| ClusterSafety.StaysStoredInCluster | controllers/lazysidecar_controller.go:153-175 | without edits of the object and without handlers that remove the host, a stored host is in every later version |
| ClusterSafety.AlwaysIndexable | controllers/lazysidecar_controller.go:289-291 | in every reachable state of the cluster every derived Sidecar has a first listener |
| ClusterSafety.ClusterPanicsExactly | controllers/sidecar.go:74 | an action makes the process panic if and only if it is the projection of a pass that has read a selector, over a Sidecar projected from an earlier version without one |
| ClusterSafety.ClusterNeverPanics | controllers/sidecar.go:68-76 | where no edit of any object adds a selector, the process never panics |
| ClusterSafety.DefaultInCluster | controllers/sidecar.go:127-138 | where no handler removes "*" in istio-system, every version of every Sidecar shows DEFAULT_HOST in every listener |
| Undisturbed.UndisturbedHandler | controllers/lazysidecar_controller.go:135-175 | after any interleaving, a handler with nothing in between does what the loops do, for any list response, stale or not |
| Undisturbed.UndisturbedFreshHandler | controllers/enqueue_serviceentry.go:19-56 | with an up-to-date response it changes every LazySidecar, and for a removal every derived Sidecar |
| Undisturbed.UndisturbedPass | controllers/lazysidecar_controller.go:76-102 | after any interleaving, the steps of a pass with nothing in between are the pass of the sequential model, from any version and with any cached Sidecar |
| Undisturbed.SyncPanicsExactly | controllers/sidecar.go:68-76 | in every reachable state the sequential model panics exactly when the selector came after the version that the Sidecar is from |
| Undisturbed.SafeExactly | controllers/sidecar.go:68-76 | the atomic runs start safe exactly in the reachable states in which no selector came after its Sidecar |
| Undisturbed.ConvergesAfterAnyRun | controllers/lazysidecar_controller.go:76-102 | after any interleaving, for an object with no pass in progress and no selector that came after its Sidecar, two undisturbed passes over the newest version make list and Sidecar agree, and the status too if the second gets the newest Sidecar from the cache |

## Left out

- LabelMatch.IsSourceMatched: case folding is exact when one of the two values is ASCII, as Kubernetes label values are; two non-ASCII values are compared literally.
- LabelMatch.IsInStringSlice: the same; the excluded keys it is called with are ASCII, so its one use is exact.
- Controller.LazySidecarReconciler.RewriteSeHosts: the guard tests for an empty list, because nil and empty lists are one stored value here.
- Controller.LazySidecarReconciler.Reconcile: runs against the API server without interference, which is the subject of Interleaving and ClusterRuns, and without the `Init` and EnvoyFilter steps.
- EnvoyFilter construction, egress workload objects, the `Init` step of a pass: templating and constant structures.
- Base64 and protobuf decoding in `ParseWorkloadLabels`: the model starts from the decoded labels.
- The HTTP layer, logging, time stamps other than as an input, owner references and the finalisation of deleted objects.
- Delivery and ordering of watch events: any step may happen at any time, and none is promised to.
- Removal of a derived Sidecar by somebody else, Sidecars that the operator did not create, and deletion of LazySidecars, in the interleaved machines.
- A restart after a panic: the interleaved machines stop there.
- EnvoyFilter name and messages of a failed status, which are kept in memory only.
