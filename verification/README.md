# Verification of Glasskube's dependency engine

Glasskube installs Kubernetes packages that depend on each other. This project models the parts that
decide what is installed and what is deleted, and proves what they keep:

* **The dependency graph** (`GraphModel`, `Installation`, `GraphHeap`). `GraphHeap.DependencyGraph` is the
  mutable graph: a map of vertex objects whose edges point back into the map. `Valid()` holds the aliasing
  invariant (an edge points at the vertex that the map stores under the edge's key) and the state invariant
  (an uninstalled vertex has no edges and is not manual), and ties the heap to a graph value. Each method is
  proved against an operation on graph values; the theorems are about those.
* **The resolver** (`Resolution`, `DependencyManager`, `ResolutionOrder`, `OrderMatters`, `Scopes`, `Validation`). Greedy
  depth-first resolution on that graph. A Go map has no order, so loops over maps run in an arbitrary order,
  and results hold for every order.
* **The operator** (`OwnedRefs`, `PruneLoops`, `Operator`, `Reconciler`, `Ownership`, `LivePasses`). One reconcile pass is
  one atomic step on a map of packages, with arbitrary outcomes of its API calls. The prune loops run on an
  array that `Remove` shifts under them. `Reconciler` is the object a pass updates, proved to do the step.
* **The webhook and whole runs** (`Admission`, `InstallAdmission`, `Cascade`, `Recreation`, `CascadeRuns`,
  `CascadeEnds`, `LeftBehind`, `WholeRuns`, `InstallRuns`, `Example`). Which deletions and installations are
  admitted; why an uninstallation deletes exactly what its preview listed and creates nothing, although live packages
  keep resolving their dependencies; when it ends, is undone or hangs, given that the webhook judges every deletion of
  it; why an installation creates exactly what the webhook has checked; and why clusters stay sound.
* **Versions and smaller cores** (`Semver`, `MetaIndex`, `FetchCache`, `CacheVerifier`, `Slices`). The
  version order, the merge of the repositories' indexes, the cache of fetched files used by concurrent
  callers, the detector of stale caches, and the slice helpers.

Assumptions that the source relies on are parameters or preconditions: a constraint is an arbitrary
predicate on versions; versions and constraints arrive parsed, unparsable or empty; a repository is a map of
versions and manifests, in which a missing entry is one that cannot be fetched or parsed; a clock never goes
back and is further from the zero time than the maximum age of the cache. That a cluster package carries the name of
its manifest (`ProperNames`), which nothing in the source checks, is a condition wherever a graph is said to have
exactly the packages of the cluster.

Some statements are false of the code in general, and are stated with the condition under which they hold:

* The order of versions is a strict weak order exactly when no two versions clash (`StrictWeakOrderIffNoClash`);
  likewise for the latest version of the merged index (`LatestUnbeatenIff`).
* A dependency leaks exactly when the last package that lists it leaves without having dropped it
  (`StepForgetsIff`, `RemembersUnlessForgotten`). That happens when a package is deleted before its finalizer was
  written, which takes a pass without a status update (`LeakIsReached`); in other runs it does not (`NoLeak`).
* An uninstallation deletes what its preview lists, and creates nothing, when it is undisturbed: no survivor depends on
  the deleted package, and whatever else does is a dependency of that package alone (`UninstallFollowsThePreview`).
  Otherwise a dependant can be left that has it created again, exactly when the webhook does not keep it
  (`LeavesBehindIff`, `UncheckedDeletionIsUndone`).
* The webhook can block a cascade that it let begin, although its comment says that this must not happen: deletions of
  namespaced packages are not checked, but those of the cluster packages that go with them are. The cascade can end
  exactly when the graph that the first deletion leads to is sound, or only namespaced packages are to go
  (`CascadeVerdict`, `CascadeEndsIff`, `UncheckedDeletionHangs`, `PartHangs`).
* The resolver comes across finitely many packages exactly when components do not nest into themselves
  (`BoundedIff`); for a namespaced package that is its own component no finite scope exists
  (`OwnComponentIsUnbounded`).
* A component of a cluster package without a default namespace is not settled by the resolver
  (`NoNamespaceMislabels`, `InstalledIffNamed`).
* A pass over a list of owned packages skips every other one, because `Remove` shifts the array that the
  loop ranges over (`PruneAllLeavesOdds`); the number of passes is logarithmic (`PassesAreLogarithmic`).
* The outcome of a resolution, and even whether it has a conflict, can depend on Go's map order
  (`OrderCanMatter`). Two picks commute exactly when their manifests allow each other's versions
  (`PicksCommuteIff`), and a resolution has the best possible outcome, in every order, exactly when the best versions
  of all that is called for do (`BestOutcomeIffTolerant`, `OrderDoesNotMatter`).
* `isErrNew` ignores the cause of an error, so that a conflict can hide behind a dependency that was missing
  (`MissingHidesConflict`). Claims of soundness start from a sound cluster.
* The comment on `ValidateDelete` of the webhook says that a package cannot be deleted while another one depends
  on it. The code accepts the deletion exactly when no dependant survives pruning.
* The staleness detector keeps the difference of an item that is gone (`StopsAfterAgreeing`).

`dafny verify dfyconfig.toml` checks the project.

## Model

| member | source | states |
|---|---|---|
| `GraphModel.SurvivorsAreGreatest` | internal/dependency/graph/graph.go:196-214 | The survivors of pruning are a set of installed vertices in which each is manual or has a dependant in the set, and they contain every such set. |
| `GraphModel.PruneStep` | internal/dependency/graph/graph.go:205 | Deleting one vertex that `Prune` may delete changes neither the survivors nor the graph that pruning ends in, and the vertex is no survivor. |
| `GraphModel.PruneRunRemoves` | internal/dependency/graph/graph.go:203-212 | In any order of deletions, what is listed as removed is exactly what stopped being installed, each once. |
| `GraphModel.PruneConfluent` | internal/dependency/graph/graph.go:199-214 | Pruning is confluent: whatever the iteration order, a run that can delete nothing more ends in one and the same graph, and lists exactly the installed vertices that do not survive. |
| `GraphModel.PruneTakes` | internal/dependency/graph/graph.go:205-206 | Each deletion lowers the number of installed vertices, so that the loop ends. |
| `GraphModel.SurvivorsAreReached` | internal/dependency/graph/graph.go:196-214 | A vertex survives exactly when a path of installed vertices leads to it from a manual one or from a cycle. |
| `GraphModel.SurvivorsAcyclic` | internal/dependency/graph/graph.go:196-214 | Without cycles, exactly what manual installed vertices reach survives. |
| `GraphModel.SurvivorsClosed` | internal/dependency/graph/graph.go:196-214 | Installed dependencies of a survivor survive. |
| `GraphModel.PruneBreaksNothing` | internal/dependency/graph/graph.go:199-249 | The broken edges after pruning are exactly the earlier ones whose source survives. |
| `GraphModel.PrunedWellFormed` | internal/dependency/graph/graph.go:199-214 | Pruning keeps uninstalled vertices without edges and flags, and pruning twice is pruning once. |
| `GraphModel.DeleteAcceptedIffNoDependantSurvives` | internal/dependency/graph/graph.go:216-249 | On a valid graph, deleting an installed vertex is accepted exactly when no dependant of it survives. |
| `GraphModel.DeleteOfUninstalled` | internal/dependency/graph/graph.go:216-222 | Deleting what is not installed prunes nothing and is accepted exactly when the graph was valid. |
| `GraphModel.AcceptableIff` | internal/dependency/graph/graph.go:148-178 | A version is acceptable exactly when every edge to the package from an installed vertex has no constraint or one that accepts it. |
| `GraphModel.MaxStep` | internal/dependency/graph/graph.go:163-171 | One iteration of the loop of `Max` keeps the candidate a greatest acceptable version of those seen. |
| `GraphHeap.Vertex.constructor` | internal/dependency/graph/graph.go:37-41 | A new vertex is not installed, not manual and has no edges. |
| `GraphHeap.DependencyGraph.constructor` | internal/dependency/graph/graph.go:80-82 | A new graph is empty and valid. |
| `GraphHeap.DependencyGraph.VertexOf` | internal/dependency/graph/graph.go:29-35 | The vertex of a key: the stored one, or a new uninstalled one; every edge still points at the vertex stored under its key. |
| `GraphHeap.DependencyGraph.Link` | internal/dependency/graph/graph.go:43-48 | Sets one edge to the vertex that the map stores under the key, creating it when missing; nothing else changes. |
| `GraphHeap.DependencyGraph.OnlyChanged` | internal/dependency/graph/graph.go:64-78 | Changing one vertex in place keeps the aliasing invariant for the whole graph. |
| `GraphHeap.DependencyGraph.Erase` | internal/dependency/graph/graph.go:312-318 | Uninstalls one vertex; true exactly when it was installed. |
| `GraphHeap.DependencyGraph.Add` | internal/dependency/graph/graph.go:251-310 | Sets the version and rebuilds the edges from the manifest, dependencies before components, stopping at a malformed constraint; all three kinds of version text. |
| `GraphHeap.DependencyGraph.Manual` | internal/dependency/graph/graph.go:102-108 | The manual flag, false for an unknown key. |
| `GraphHeap.DependencyGraph.VersionOf` | internal/dependency/graph/graph.go:111-117 | The installed version, if any. |
| `GraphHeap.DependencyGraph.Dependencies` | internal/dependency/graph/graph.go:120-132 | Exactly the targets of the edges, each once, with the label of the vertex the edge points at. |
| `GraphHeap.DependencyGraph.Dependants` | internal/dependency/graph/graph.go:135-145 | Exactly the installed vertices with an edge to the package, each once, with its label. |
| `GraphHeap.DependencyGraph.Constraints` | internal/dependency/graph/graph.go:148-156 | Exactly the constraints that installed dependants put on the package. |
| `GraphHeap.DependencyGraph.Max` | internal/dependency/graph/graph.go:160-178 | None exactly when no listed version satisfies all constraints; otherwise a satisfying one of greatest precedence, which no satisfying one upgrades when no two of them clash. |
| `GraphHeap.DependencyGraph.Delete` | internal/dependency/graph/graph.go:192-194 | The key's vertex is there and uninstalled, all others are as before; true exactly when it was installed. |
| `GraphHeap.DependencyGraph.Prune` | internal/dependency/graph/graph.go:199-214 | Ends in the graph that keeps only the survivors and returns exactly the vertices that went, each once and with its label, for every order of the map. |
| `GraphHeap.DependencyGraph.PruneRound` | internal/dependency/graph/graph.go:203-212 | One round over the map is a run of legal deletions; it is stable only when nothing can be deleted, and otherwise fewer vertices are installed. |
| `GraphHeap.DependencyGraph.DeleteAndPrune` | internal/dependency/graph/graph.go:216-222 | The package itself first, then all that is pruned after it: exactly what stopped being installed, with labels; nothing for a package that was not installed. |
| `GraphHeap.DependencyGraph.DeepCopy` | internal/dependency/graph/graph.go:50-62 | The copy represents the same graph and shares no vertex with the original, which is unchanged. |
| `GraphHeap.DependencyGraph.ValidateDelete` | internal/dependency/graph/graph.go:224-227 | No errors exactly when the pruned copy is sound, and otherwise exactly those of its broken edges; lists what would go, with labels, and nothing when the package is not installed; the graph itself is left as it was. |
| `GraphHeap.DependencyGraph.Validate` | internal/dependency/graph/graph.go:232-249 | Every error names a vertex, as the package, and one that it has an edge to, as the dependency, with their labels. Its cause is a missing dependency exactly when that has no version, and otherwise that version and the constraint of the edge, which does not accept it. Every edge of which one of this holds has an error. |
| `GraphHeap.ErrorFields` | internal/dependency/graph/graph.go:236-246 | The errors of all broken edges, read field by field, and the converse. |
| `Resolution.AddedEffect` | internal/dependency/graph/graph.go:251-310 | Adding a package gives it the version, the flag and exactly the manifest's edges; new vertices are uninstalled targets, and no other vertex changes. |
| `Resolution.AddedInstalls` | internal/dependency/graph/graph.go:269-309 | Adding a package installs that package and no other. |
| `Resolution.AddedDependsOn` | internal/dependency/graph/graph.go:273-307 | An added package depends on exactly its manifest's dependencies, as cluster packages, and its components, named after it and living beside it or in the default namespace. |
| `Resolution.AddedIffWellFormed` | internal/dependency/graph/graph.go:273-307 | Adding succeeds exactly when no dependency and no component of the manifest has a malformed version. |
| `Resolution.LastComponentDecides` | internal/dependency/graph/graph.go:288-307 | The last component that goes by a name decides the constraint on it: its own constraint, or none exactly when it has no version. |
| `Resolution.LastDependencyDecides` | internal/dependency/graph/graph.go:273-285 | When no component goes by the name, the last dependency of that name decides it. |
| `Resolution.FirstComponentLabels` | internal/dependency/graph/graph.go:288-296 | A vertex that is new is not installed, and is labelled with the name in the first component that names it, unless a dependency does. |
| `Resolution.FirstDependencyLabels` | internal/dependency/graph/graph.go:273-275 | If a dependency names it, with that name. |
| `Resolution.AddedUnparsed` | internal/dependency/graph/graph.go:257-267 | An empty version uninstalls the package and is no error; one that does not parse is an error and changes no vertex; both leave a vertex of that name. |
| `Resolution.RunGrows` | internal/dependency/manager.go:163-197 | During resolution, packages that are installed keep version, flag and edges, and labels stay. |
| `Resolution.RequirementsAreExact` | internal/dependency/manager.go:64-68 | What is newly installed is exactly what the requirements name, each once; what was installed before is unchanged. |
| `Resolution.PickedStays` | internal/dependency/manager.go:174-183 | In the end, each picked package has the version and edges it was picked with. |
| `Resolution.GrowsConstrains` | internal/dependency/manager.go:170-173 | Constraints only grow: a version acceptable in the end was acceptable all along. |
| `Resolution.SettledStays` | internal/dependency/manager.go:169-173 | A dependency that is installed, or cannot be satisfied, stays so during the rest of the resolution. |
| `Resolution.PickSatisfies` | internal/dependency/manager.go:170-181 | A picked version satisfies every constraint of what is installed at that moment. |
| `Resolution.BlameTheLater` | internal/dependency/manager.go:170-181 | A violated edge into a picked package starts at a package that was added with it or after it. |
| `Resolution.RunConcat` | internal/dependency/manager.go:190-191 | The picks for siblings, one after the other, are one legal run. |
| `Resolution.RebuildInAnyOrder` | internal/dependency/manager.go:64-68 | Installing the requirements in any order, such as the sorted one, rebuilds the checked graph up to labels, with the same validity. |
| `Resolution.SameInstalledSameErrors` | internal/dependency/graph/graph.go:232-249 | Graphs that agree on what is installed have the same broken edges. |
| `DependencyManager.Add` | internal/dependency/manager.go:148-159 | Adds under the manifest's name or the given one; the vertex gets the version, and is manual exactly when that of the manifest's name without a namespace was. |
| `DependencyManager.AddDependencies` | internal/dependency/manager.go:163-197 | Terminates over every finite scope closed under the manifests. On success every dependency of the package, and of every package added, is installed or no listed version of it satisfies the constraints of the final graph, and what it returns is a legal run that leads to that graph; when all dependencies are installed already it returns nothing and changes nothing. Of the requirements of a request, those flagged direct are for dependencies of the package itself, and the first one is. On an error, the graph lacks a package that it names, of which the versions, or the manifest of the best acceptable version, cannot be fetched; or has just got a package with a malformed constraint in its manifest. |
| `DependencyManager.ChooseVersion` | internal/dependency/manager.go:169-177 | Nothing is chosen only when the dependency is installed or unsatisfiable; what is chosen is a greatest acceptable version of one that is not installed, and its manifest exists; an error is that the versions of this dependency cannot be fetched, or the manifest of its best version. |
| `DependencyManager.ResolvedPick` | internal/dependency/manager.go:178-191 | A legal pick and the resolution of the picked package together resolve the dependency. |
| `DependencyManager.CoveredStep` | internal/dependency/manager.go:178-181 | The measure of termination: an added package leaves fewer members of the scope uninstalled. |
| `Scopes.BoundedIff` | internal/dependency/manager.go:163-197 | Such finite scopes exist, whatever the resolver starts from, exactly when components can be ranked below the packages that they are part of: when no package is, through any versions, part of itself. |
| `Scopes.ComponentsAreLonger` | internal/dependency/graph/graph.go:288-296 | The reason: components have longer names than the namespaced packages that they are part of. |
| `Scopes.OwnComponentIsUnbounded` | internal/dependency/graph/graph.go:288-296 | A namespaced package that is its own component has no finite closed scope. |
| `DependencyManager.InstalledIffNamed` | internal/dependency/manager.go:174-183 | `dm.add` installs the dependency exactly when it is namespaced or goes by the name in the manifest; otherwise another vertex is installed, the recursion adds nothing, and the dependency is left unsettled, unless what was added rules out the version chosen. |
| `DependencyManager.NoNamespaceMislabels` | internal/dependency/graph/graph.go:288-296 | That case arises for a component of a cluster package without a default namespace: its vertex has no namespace and another name than its label. |
| `ResolutionOrder.PickedFor` | internal/dependency/manager.go:168-169 | Each requirement is a dependency of the request or of an earlier requirement, and still is in the end. |
| `ResolutionOrder.AddsOnlyWhatIsReached` | internal/dependency/manager.go:163-197 | Everything added is reached from the request through packages that were not installed before. |
| `ResolutionOrder.AddsAllThatIsReached` | internal/dependency/manager.go:163-197 | Everything so reached is added, unless a package on the way has no acceptable version. |
| `ResolutionOrder.OrderDoesNotMatter` | internal/dependency/manager.go:163-197 | When the best versions of what is called for allow each other, every order of siblings installs the same packages in the same versions. |
| `ResolutionOrder.PickConstrains` | internal/dependency/manager.go:174-181 | After a pick, a version is acceptable for a package exactly when it was before and the picked manifest puts no constraint on that package or one that accepts the version. |
| `ResolutionOrder.StillLegalIff` | internal/dependency/manager.go:168-181 | After one legal pick, another one is still legal exactly when the manifest of the first allows its version. |
| `ResolutionOrder.PicksCommuteIff` | internal/dependency/manager.go:168-181 | Two picks commute, that is both orders are legal, exactly when each manifest allows the version of the other; then both orders install the same. |
| `ResolutionOrder.AddsExactlyWhatIsCalled` | internal/dependency/manager.go:163-197 | When the best versions of what is called for allow each other, a resolution adds exactly what the request calls for: what is reached along the manifests of best versions, by the starting graph and the repositories alone. |
| `ResolutionOrder.BestOutcomeIffTolerant` | internal/dependency/manager.go:163-197 | The outcome is what is called for, each in its best version and without a conflict among what is added, exactly when the manifests of these best versions allow each other's; this does not depend on the order. |
| `OrderMatters.OrderCanMatter` | internal/dependency/graph/graph.go:124-127 | Otherwise the order can decide: a concrete request that one order resolves with a conflict and another one without. |
| `Example.LibIsRequested` | internal/dependency/manager.go:163-197 | A concrete request that meets the conditions of `OrderDoesNotMatter`. |
| `Example.LibIsResolved` | internal/dependency/manager.go:163-197 | The resolution of it: the missing library is installed, and everything is settled. |
| `Slices.SortSorts` | internal/dependency/manager.go:68 | The requirements are sorted by name, none lost and none added. |
| `Validation.CollectConflicts` | internal/dependency/manager.go:70-79 | The conflicts are exactly the new errors, in order, with actual version and required constraint; a new missing package is an error instead. |
| `Validation.NewMeansUnbroken` | internal/dependency/manager.go:221-233 | An error counts as new exactly when its edge was not broken before, whatever the causes. |
| `Validation.ConflictFields` | internal/dependency/manager.go:70-79 | Each newly broken edge becomes a conflict with the name and the version of its target and the constraint of the edge, and there are no other conflicts. |
| `Validation.MissingHidesConflict` | internal/dependency/manager.go:221-233 | Since causes do not count, installing a missing dependency in any version can make only edges of that dependency itself new errors; the edge to it was broken before, and still is exactly when the version does not satisfy the constraint. |
| `Validation.Validate` | internal/dependency/manager.go:38-93 | No conflicts exactly when resolving the package breaks no edge that was not broken before; each newly broken edge is a conflict with the installed version and the required constraint, or, when its target is not installed, the error; the requirements are those of the resolution in name order; the status says which case it is. |
| `OwnedRefs.WithAddedLists` | internal/controller/owners/utils/owned_resources.go:22-35 | Adding lists exactly the old and the new references, keeps the old in place and lists none twice. |
| `OwnedRefs.Add` | internal/controller/owners/utils/owned_resources.go:22-35 | The list with the missing references appended; changed exactly when it differs. |
| `OwnedRefs.Remove` | internal/controller/owners/utils/owned_resources.go:37-45 | Shifts the backing array in place and shortens the header by one when the resource is listed; otherwise nothing changes. |
| `OwnedRefs.RemovedElements` | internal/controller/owners/utils/owned_resources.go:37-45 | The list without the first reference to the resource. |
| `PruneLoops.OnlyOriginals` | internal/controller/common.go:738-794 | However the array is shifted under the loop, only references that were in the list are visited or left. |
| `PruneLoops.OnlyOriginalsDeleted` | internal/controller/common.go:738-794 | Only references that were in the list are deleted, each on a visit that decided so. |
| `PruneLoops.LeavesForAReason` | internal/controller/common.go:738-794 | A reference that leaves the list was visited, and that visit decided to drop it. |
| `PruneLoops.StaysDistinct` | internal/controller/common.go:738-794 | The loop keeps the list free of duplicates. |
| `PruneLoops.SomeDropShrinks` | internal/controller/common.go:738-794 | Until something is dropped each place is visited as it is: if one of these visits drops, the list gets shorter. |
| `PruneLoops.DeletedLeaves` | internal/controller/common.go:773-792 | A reference whose deletion was issued is not in the list after the loop. |
| `PruneLoops.FailsIff` | internal/controller/common.go:738-794 | The loop reports an error exactly when some visit fails or makes it return early. |
| `PruneLoops.PruneAllLeavesOdds` | internal/controller/common.go:738-794 | When every visit drops, one pass leaves exactly the references at odd places except the last: half of the list is skipped. |
| `PruneLoops.PassesAreLogarithmic` | internal/controller/common.go:257-286 | A list of n references is empty after k passes that drop all they visit exactly when n + 1 < 2^(k+1). |
| `Operator.PruneOwnedPackages` | internal/controller/common.go:728-797 | The loop on the real array has the outcome of the specified scan: the list, the deletions, errors, and the early return. |
| `Operator.PruneOwnedPackageInfos` | internal/controller/common.go:683-726 | The same for package infos. |
| `Operator.FindUser` | internal/controller/common.go:748-761 | True exactly when another package that is not being deleted lists the reference. |
| `Operator.FindInfoUser` | internal/controller/common.go:698-711 | True exactly when another package lists a package info of that name. |
| `Reconciler.PackageReconcilation.PruneOwnedPackages` | internal/controller/common.go:728-797 | The method on the context: the status list, the flag for a status update and the deletions after the scan, or nothing when listing fails; on the early return the old header over the shifted array. |
| `Reconciler.PackageReconcilation.PruneOwnedPackageInfos` | internal/controller/common.go:683-726 | The same for package infos, with the deletions issued for them. |
| `Reconciler.PackageReconcilation.Cleanup` | internal/controller/common.go:640-646 | Both loops run with what is current kept, whether or not the other one fails, and a failure of either is reported. |
| `Reconciler.PackageReconcilation.Write` | internal/controller/common.go:621-635 | With a status update only the status is written; a change of the finalizers is lost until a later pass. |
| `Reconciler.PackageReconcilation.ReconcileAfterDeletion` | internal/controller/common.go:257-286 | One whole pass of a package being deleted computes, deletes and writes what the deletion step of the state machine does, for every answer of the API. |
| `Reconciler.PackageReconcilation.ReconcileLive` | internal/controller/common.go:103-137 | The pass of any other package, from what `ensureDependencies` has found to the final write, computes, deletes and writes what the live step of the state machine does. |
| `Reconciler.PackageReconcilation.EnsureFinalizer` | internal/controller/common.go:288-293 | The finalizer is set locally, and a resource update is due exactly when it was missing. |
| `Ownership.NoLeak` | internal/controller/common.go:257-286 | In every orderly run, in which a package that starts being deleted has its finalizer persisted or owns nothing, a package once remembered (installed by a user, being deleted, or listed by an existing package) stays so as long as it exists. |
| `Ownership.StepForgetsIff` | internal/controller/common.go:257-286 | A step, with any API outcome, forgets a package that stays in the cluster exactly when the step is the departure of the last package that listed it, and it is a dependency that is not being deleted. |
| `Ownership.RemembersUnlessForgotten` | internal/controller/common.go:257-286 | Over any run, a package stays remembered exactly as long as no step is such a departure. |
| `Ownership.StatusBeforeFinalizer` | internal/controller/common.go:621-635 | One live pass of a package without a finalizer lists its dependency in the status, and the finalizer is not written. |
| `Ownership.LeakIsReached` | internal/controller/common.go:621-635 | So a leak is reached: a run of one pass, a deletion and a departure orphans a dependency that was listed. |
| `Ownership.NoPrematureDeletion` | internal/controller/common.go:738-794 | A pass deletes only packages installed as dependencies that no other package, not being deleted itself, lists; a live pass none of its current dependencies. |
| `Ownership.FinalizerGoesLast` | internal/controller/common.go:267-277 | The finalizer is removed only in a pass that finds both lists empty, and that pass changes nothing else. |
| `Ownership.RunInvariant` | internal/controller/common.go:257-286 | Lists stay free of duplicates and foreign kinds, and no package without a persisted finalizer that is being deleted owns packages, in every state of an orderly run. |
| `Ownership.ErrorFreePassAdvances` | internal/controller/common.go:257-286 | Each error-free pass of a package being deleted takes exactly one off the number of passes that remain until its finalizer is gone. |
| `LivePasses.LivePassPrunes` | internal/controller/common.go:728-797 | After a successful pass without errors, a live package lists nothing that it did not before, or that was not added, and all that is current; and if something is not current, the list is shorter. |
| `LivePasses.GoesForAReason` | internal/controller/common.go:740-793 | A reference that goes is not current, and another package that is not being deleted lists it, or its package is not there or not a dependency, or its deletion has been issued. |
| `LivePasses.PassesLeaveCurrent` | internal/controller/common.go:728-797 | After finitely many such passes, no more than there were references and one, the package lists exactly what is current. |
| `LivePasses.LivePassPrunesInfos` | internal/controller/common.go:683-726 | Likewise for package infos: those of the package's own name stay, and if there are others the list is shorter. |
| `LivePasses.PassesLeaveOwnInfo` | internal/controller/common.go:683-726 | After finitely many such passes, the package lists its own package info and no other. |
| `LivePasses.InfoScanDeletes` | internal/controller/common.go:691-718 | The deletion of a package info is issued only if it was listed, no other package lists one of that name and, unless all are to go, it is not the package's own. |
| `LivePasses.InfoDroppedForAReason` | internal/controller/common.go:691-723 | A package info that leaves the list is not the package's own, unless all are to go, and another package lists one of that name or its deletion has been issued. |
| `LivePasses.DeletionPassInfos` | internal/controller/common.go:267-272 | A package being deleted deletes package infos only when it has no packages left to drop, and only its own that nothing else uses. |
| `LivePasses.LivePassInfos` | internal/controller/common.go:640-646 | A live pass deletes package infos only on success, none of the package's own name, and only ones that nothing else uses. |
| `LivePasses.UnsuccessfulPassKeeps` | internal/controller/common.go:103-137 | A live pass without success deletes nothing, changes no other package, and adds what it has found to what was listed. |
| `LivePasses.FailedUpdateOnlyDeletes` | internal/controller/common.go:621-635 | When the final update fails, a pass leaves nothing behind but the deletions that it has issued. |
| `LivePasses.PackageScanFailsIff` | internal/controller/common.go:728-797 | The loop over owned packages reports an error exactly when listing fails, or a visit comes to a reference that is not to be kept, that nothing uses, and that has an invalid kind, cannot be fetched, or is to a dependency that cannot be deleted. |
| `LivePasses.InfoScanFailsIff` | internal/controller/common.go:683-726 | The loop over package infos does exactly when listing fails, or a visit comes to one that is not to be kept, that nothing uses, and that cannot be deleted. |
| `LivePasses.AbsentGoesTwice` | internal/controller/common.go:775-792 | A visit to an unused reference to a package that is gone removes two references to it, when that many are listed. |
| `Cascade.PartialStatesPruneAlike` | internal/dependency/graph/graph.go:199-227 | Whatever part of the doomed packages is gone already, pruning ends in the graph that pruning after the first deletion ends in. |
| `Cascade.DoomedIsPreview` | internal/dependency/graph/graph.go:216-227 | What is doomed is exactly what the preview lists. |
| `Cascade.CascadeBegins` | internal/controller/common.go:728-797 | Requesting the deletion of a package of a cluster at rest establishes the invariant of the cascade. |
| `Cascade.DeletedAreDoomed` | internal/controller/common.go:728-797 | No pass deletes a survivor. |
| `Cascade.PreviewEqualsReality` | internal/controller/common.go:728-797 | In every state that keeps the invariant of the cascade and in which nothing is being deleted any more, exactly the previewed packages are gone. |
| `Recreation.EnsureDependencies` | internal/controller/common.go:316-502 | Creates exactly the direct requirements, of a conflict-free resolution of the package, that can be created; succeeds exactly when there is such a resolution, none of them fails, and every dependency and component is ready, and there or just created; and then reports references to exactly these. |
| `Recreation.EnsuredFinds` | internal/controller/common.go:417-501 | What it reports is what the state machine lets a live pass find current. |
| `Recreation.ResolvesNothing` | internal/controller/common.go:328-335 | When every dependency of a live package is live, resolving it requires nothing, for every graph of the cluster and every order. |
| `Recreation.NoDependantIff` | internal/webhook/package_validator.go:80-108 | Without orphans, nothing depends on n exactly when no survivor does and n is on no cycle. |
| `Recreation.AdmittedIsUndisturbed` | internal/webhook/package_validator.go:88-108 | On a sound graph and off cycles, a deletion is undisturbed exactly when the webhook admits it; so undisturbed is: no survivor depends on n, and whatever else does is a dependency of n alone. |
| `Recreation.StaysLive` | internal/controller/common.go:738-794 | No step of a cascade takes a dependency, other than n, from a package that stays live. |
| `Recreation.FindsWhatItLists` | internal/controller/common.go:417-501 | In every state of a cascade, a live pass that looks its dependencies up finds what its package lists. |
| `Recreation.OnlyNIsCreated` | internal/controller/common.go:335-398 | In every state of a cascade, nothing but n can be created, and n only when it is gone and a live package depends on it. |
| `Recreation.GoesBeforeN` | internal/controller/common.go:738-794 | In an undisturbed cascade, a live package that depends on n does not outlive n. |
| `Recreation.OperatorOnlyDeletes` | internal/controller/common.go:316-398 | So the operator creates nothing in any state of such a cascade. |
| `Recreation.DependantBringsItBack` | internal/controller/common.go:316-398 | A live package with a dependency that is gone requires it again, in every order, unless no version of it is acceptable; and requires it directly when nothing else is gone. |
| `CascadeRuns.WithoutCreations` | internal/webhook/package_validator.go:80-108 | Over every interleaving of passes that creates nothing, only previewed packages go, exactly they are gone when nothing is being deleted any more, and of those still to go the webhook admits the namespaced ones, and the cluster packages exactly when the graph that the first deletion leads to is sound. |
| `CascadeRuns.OperatorStates` | internal/controller/common.go:728-797 | Every step of every interleaving of the operator keeps the invariant of an undisturbed cascade, and creates nothing. |
| `CascadeRuns.UninstallFollowsThePreview` | internal/controller/common.go:728-797 | When the deletion of n is undisturbed: over every interleaving of operator passes with any API outcomes, in which live packages resolve their dependencies and the webhook judges every deletion, nothing is created and nothing that is gone is required; only previewed packages are deleted, exactly they are gone in the end, and until then the webhook's verdict on those still to go is as in `WithoutCreations`. |
| `CascadeEnds.ProgressingWeighsLess` | internal/controller/common.go:257-286 | Every departure and every error-free pass of a package being deleted lowers a bound on the steps still to take. |
| `CascadeEnds.AnsweredAdvances` | internal/controller/common.go:728-797 | A pass in which nothing fails but the deletions that the webhook refuses leaves less to do, unless it refuses every deletion that the package waits for. |
| `CascadeEnds.AllStuckIsQuiet` | internal/webhook/package_validator.go:80-108 | The webhook never brings all packages of an unblocked cascade to such a halt, although it may refuse repeated deletions in between. |
| `CascadeEnds.CascadeEnds` | internal/controller/common.go:257-286 | So from every state of an unblocked cascade finitely many such passes and departures end it, no more than there are references, conditions, finalizers and objects left. |
| `CascadeEnds.BlockedNeverEnds` | internal/webhook/package_validator.go:94-104 | While a cluster package that is to go is live and the graph that the first deletion leads to is broken, no run of operator passes ends the cascade. |
| `CascadeEnds.CascadeEndsIff` | internal/webhook/package_validator.go:80-108 | A cascade that the webhook let begin can be ended by the operator exactly when the graph that the first deletion leads to is sound or only namespaced packages are to go. |
| `LeftBehind.LeavesBehindIff` | internal/webhook/package_validator.go:80-108 | The operator can come to a state in which n is gone and a live package depends on it exactly when the deletion is not undisturbed, and something else depends, too, on each cluster package n needs that the webhook will not let go. |
| `LeftBehind.UncheckedDeletionIsUndone` | internal/webhook/package_validator.go:94-104 | In that case a finite run of passes leads to such a state, and there the dependant requires n again, in every order, unless no version of n is acceptable. |
| `LeftBehind.UncheckedDeletionHangs` | internal/webhook/package_validator.go:94-104 | In the other case, whatever the operator does, n stays in the cluster, being deleted and waiting for a cluster package that stays, and nothing is created. |
| `Example.AppAndLibAreAtRest` | internal/controller/common.go:728-797 | A concrete cluster at rest: the conditions of the cascade theorems can be met. |
| `Example.WhatIsDoomed` | internal/dependency/graph/graph.go:216-227 | In it, deleting the application takes its dependency along, and deleting the dependency takes nothing else. |
| `Example.WhatIsUndisturbed` | internal/dependency/graph/graph.go:216-227 | In it, deleting the application leaves no dependant behind, and deleting the dependency does. |
| `Example.LibIsRequiredAgain` | internal/controller/common.go:328-398 | When the dependency is gone and the application is not, the dependency is required again. |
| `Example.WhatPartDooms` | internal/dependency/graph/graph.go:216-227 | In a cluster whose application has a namespaced component that needs a library, deleting the component takes the library along. |
| `Example.PartHangs` | internal/webhook/package_validator.go:94-104 | There the webhook admits the deletion of the component and then refuses that of the library, now and in every later state, so that the component hangs. |
| `Admission.BuildableIff` | internal/dependency/manager.go:96-145 | Building the graph fails exactly when listing fails, or some live package has a manifest that cannot be fetched or with a malformed constraint, or a version that does not parse. |
| `Admission.NewGraph` | internal/dependency/manager.go:96-145 | Fails exactly when listing fails, or the manifest or version of some live package cannot be fetched or parsed. Labels are those of packages and targets; and when cluster packages carry the name of their manifest, the graph has, for every order of the lists, exactly the packages that are not being deleted, with version, flag and the manifest's edges. |
| `Admission.ValidateDelete` | internal/webhook/package_validator.go:88-108 | Admitted exactly when the graph can be built, and the package is namespaced or the pruned graph is sound; with the names above, that is a property of the cluster alone. |
| `Admission.VerdictOf` | internal/webhook/package_validator.go:88-108 | Every graph of the cluster gives the same verdict. |
| `Admission.SamePrunedGraph` | internal/dependency/graph/graph.go:216-227 | Deleting any doomed package from any partial state leads to the pruned graph of the first deletion. |
| `Admission.CascadeVerdict` | internal/webhook/package_validator.go:80-108 | In every partial state of a cascade the webhook gives one verdict on the packages still to go: namespaced ones may go, cluster packages exactly when the graph that the first deletion leads to is sound, whether that was checked or not. |
| `InstallAdmission.ValidateCreateOrUpdate` | internal/webhook/package_validator.go:110-141 | Refused for a missing manifest, a wrong scope, invalid values or a graph that cannot be built exactly when that is the case; a failed validation has its ground; admitted exactly, of the rest, when resolving breaks no edge that was not broken before. |
| `InstallAdmission.AdmittedIsConflictFree` | internal/webhook/package_validator.go:133-139 | With tidy manifests an admission is the conflict-free installation that whole runs are made of. |
| `WholeRuns.SoundIff` | internal/dependency/graph/graph.go:232-249 | A graph of a cluster is sound exactly when every dependency in the cluster is installed in a satisfying version. |
| `WholeRuns.InstallKeepsSound` | internal/dependency/manager.go:38-93 | A conflict-free installation or update with all its requirements keeps a sound cluster sound. |
| `WholeRuns.UninstallKeepsSound` | internal/webhook/package_validator.go:88-108 | So does an admitted deletion of a cluster package, carried through. |
| `WholeRuns.CascadeUninstalls` | internal/controller/common.go:728-797 | A finished run of the operator after an undisturbed deletion is such an uninstallation. |
| `WholeRuns.HistoriesStaySound` | internal/webhook/package_validator.go:88-141 | From a sound cluster, every history of admitted installations, updates and deletions stays sound throughout. |
| `InstallRuns.RunIsAsPlanned` | internal/dependency/manager.go:163-197 | When the order does not matter: a resolution that starts from a graph with only part of what an earlier one has required picks nothing that was not required then, and all of it in the same versions. |
| `InstallRuns.CheckInBetween` | internal/controller/common.go:328-335 | So, with part of the requirements of an admitted package created, the check of any live package requires nothing else. |
| `InstallRuns.InstallsOnlyWhatWasChecked` | internal/controller/common.go:316-398 | After an admitted creation, in every state of every interleaving of the operator's passes with any API outcomes: what has been created is what the webhook's check has required, in the versions that it has picked, and nothing is deleted or changed. |
| `InstallRuns.MissingIsRequired` | internal/controller/common.go:335-398 | As long as a live package lacks something, its check requires something directly that is not there. |
| `InstallRuns.MissingIsCreated` | internal/controller/common.go:386-398 | And its pass may create that. |
| `InstallRuns.InstallationCompletes` | internal/controller/common.go:316-502 | Whenever every live package has what it needs, the package is installed with exactly the requirements of the webhook's check; and a sound cluster is sound again. |
| `Example.AppIsAdmitted` | internal/webhook/package_validator.go:133-139 | A concrete package whose admission meets the conditions of these theorems. |
| `Semver.CompareTotalPreorder` | internal/semver/compare.go:23-25 | Precedence, the order of section 11 of SemVer 2.0.0, is a total preorder. |
| `Semver.CompareIsPrecedence` | internal/semver/compare.go:23-25 | The comparison is section 11 of SemVer 2.0.0: major, minor, patch, a pre-release below its release, and pre-releases by their first differing identifier. |
| `Semver.AtoiReadsDecimals` | internal/semver/compare.go:41-45 | Integers are read back from their decimal digits with any sign, if they fit 64 bits, and otherwise do not parse. |
| `Semver.BuildNumbersOrder` | internal/semver/compare.go:27-48 | Builds of one version with numbers for metadata upgrade by number, and any of them upgrades a version without metadata. |
| `Semver.UpgradeRefinesPrecedence` | internal/semver/compare.go:23-48 | A higher precedence is an upgrade and never the other way round, an upgrade never has a lower precedence, and no version upgrades itself. |
| `Semver.MutualUpgradeIffClash` | internal/semver/compare.go:27-48 | Two versions upgrade each other exactly when they differ only in metadata that is not empty and not integers on both sides. |
| `Semver.TextualMetadataClashes` | internal/semver/compare.go:41-47 | Such versions exist: 1.0.0+a and 1.0.0+b. |
| `Semver.StrictWeakOrderIffNoClash` | internal/semver/compare.go:23-48 | On a set of versions the order is a strict weak order exactly when no two of them clash. |
| `Semver.OrdinaryVersionsAreOrdered` | internal/semver/compare.go:23-48 | It is one on versions with empty or integer metadata. |
| `MetaIndex.FetchMetaIndex` | internal/repo/client/metaclient.go:22-68 | Sorts and reverses the repositories in place; one entry per package offered, in strict name order, each merged from all offers of the package; failed repositories are skipped and reported. |
| `MetaIndex.Merge` | internal/repo/client/metaclient.go:42-61 | One step of the inner loop keeps the index the merge of all offers so far. |
| `MetaIndex.KeysSorted` | internal/maputils/keys.go:16-20 | The keys in strictly ascending order, all of them and no others. |
| `MetaIndex.ReposAreTheHolders` | internal/repo/client/metaclient.go:42-49 | With distinct repository names and indexes without duplicates, an entry lists exactly the repositories that hold the package, in ascending order. |
| `MetaIndex.DetailsComeFromThePreferred` | internal/repo/client/metaclient.go:32-34 | The details are those of the first holder that is not the default repository, or else of a default one. |
| `MetaIndex.LatestUnbeatenIff` | internal/repo/client/metaclient.go:50-54 | The latest version is upgraded by no offered version exactly when all of them are one text, or all parse and those of greatest precedence do not clash. |
| `MetaIndex.OrdinaryLatest` | internal/repo/client/metaclient.go:50-60 | With empty or integer metadata, the latest version is one of the holders' and none of them upgrades it. |
| `FetchCache.StepInv` | internal/repo/client/defaultclient.go:103-154 | Every step of every caller keeps the invariant of the cache. |
| `FetchCache.FetchesNeverOverlap` | internal/repo/client/defaultclient.go:112-113 | No two callers fetch one URL at the same time. |
| `FetchCache.SuccessfulFetchesAreSpaced` | internal/repo/client/defaultclient.go:115-150 | A successful fetch starts no sooner than the maximum age after the previous one of its URL ended. |
| `FetchCache.HitsAreFresh` | internal/repo/client/defaultclient.go:115-121 | A hit serves what the last successful fetch before it brought, less than the maximum age ago. |
| `FetchCache.HitsIffFetchedRecently` | internal/repo/client/defaultclient.go:115-121 | A check is a hit exactly when a fetch of the URL has succeeded within the maximum age: a caller that waited for another one's fetch does not fetch again. |
| `FetchCache.OnlySuccessChangesTheCache` | internal/repo/client/defaultclient.go:127-153 | Cached bytes and time change only in a successful fetch of the URL; a failed one leaves them. |
| `FetchCache.NeverDeadlocked` | internal/repo/client/defaultclient.go:112-113 | A caller can always go on, or the holder of its URL's mutex can. |
| `FetchCache.OnlyUnlockIsLeft` | internal/repo/client/defaultclient.go:112-153 | Once a fetch has failed or succeeded, the only step left to the call is to unlock. |
| `FetchCache.OneFetchPerCall` | internal/repo/client/defaultclient.go:103-154 | Over any run, a caller that fetches twice has made another call in between. |
| `FetchCache.LoadIsBounded` | internal/repo/client/defaultclient.go:115-150 | n + 1 successful fetches of a URL take at least n times the maximum age. |
| `CacheVerifier.Verifier.HandleDiff` | internal/web/cacheverifier.go:176-214 | Stops exactly when the item's last observation was a difference with the same cached version; otherwise the difference is remembered. |
| `CacheVerifier.Verifier.Round` | internal/web/cacheverifier.go:98-163 | A round makes the observations that the two lists imply, in order, up to the first one that is stuck. |
| `CacheVerifier.Verifier.Start` | internal/web/cacheverifier.go:98-174 | Over all rounds, it stops exactly at the first stuck observation, reports it and forgets everything. In terms of the listings: when none lists an item twice, it stops exactly when some item is outdated in two rounds with one cached version, and in no round in between is it listed otherwise. |
| `CacheVerifier.RoundAgrees` | internal/web/cacheverifier.go:113-127 | Of two listings without duplicates, a round sees agreement on an item exactly when both hold it in one version. |
| `CacheVerifier.RoundDiffers` | internal/web/cacheverifier.go:113-160 | It sees a difference exactly when some listing holds the item and they do not hold it in one version; with the versions there, or empty ones where it is absent. |
| `CacheVerifier.StuckIffOutdatedTwice` | internal/web/cacheverifier.go:98-208 | The observations have a stuck one exactly when the listings have such an item. |
| `CacheVerifier.LastIsTheLatest` | internal/web/cacheverifier.go:192-208 | The observation a stop compares with is the latest one of the item, with none of it in between. |
| `CacheVerifier.OncePerRound` | internal/web/cacheverifier.go:113-160 | A round observes each item at most once. |
| `CacheVerifier.StopsByTheSecondStuckRound` | internal/web/cacheverifier.go:98-163 | If two rounds see an item differ with one cached version, and no round in between sees it, the detector has stopped by the second. |
| `CacheVerifier.StopsAfterAgreeing` | internal/web/cacheverifier.go:125-126 | It also stops for an item that was gone in between, although cache and API agreed then: a gone item's difference is not forgotten. |
| `Slices.DeleteAll` | internal/util/slices.go:21-31 | In place: what is left is the list without the element, in order, and the rest of the array is cleared. |
| `Slices.WithoutCounts` | internal/util/slices.go:21-31 | Every other element keeps all its occurrences. |
| `Slices.WithoutKeepsOrder` | internal/util/slices.go:21-31 | What is left of a prefix is a prefix of what is left. |
| `Slices.SortBy` | internal/util/slices.go:8-19 | Sorts the array in place. |
| `Slices.SortStrictly` | internal/util/slices.go:8-19 | With distinct names the result is strictly ascending, so that it does not depend on the algorithm. |

## Left out

- DependencyManager.AddDependencies: that the run is legal and settles every dependency is stated for manifests that carry the name they are fetched by, and for cluster packages whose components have a default namespace; `InstalledIffNamed` says what happens otherwise, and termination and the growth of the graph are stated without that.
- ResolutionOrder.OrderDoesNotMatter: the condition is exact for the best outcome, not for agreement of the orders: orders may also agree on a worse outcome.
- Reconciler.PackageReconcilation.ReconcileLive: begins with what `ensureDependencies` has found, an input here; `Recreation.EnsureDependencies` is that part of the pass, and what it creates are steps of their own.
- Reconciler.PackageReconcilation.Cleanup: not the pruning of other resources.
- CascadeRuns.UninstallFollowsThePreview: users change nothing while the operator finishes, and manifests do not change. With dependants of n, cluster packages and manifests have the names and namespaces that they should have.
- CascadeEnds.CascadeEndsIff: that a finite run of steps ends the cascade, not that the scheduler takes those steps; runs in which the operator creates something are covered by `UncheckedDeletionHangs` only.
- InstallRuns.InstallsOnlyWhatWasChecked: after a creation in a cluster at rest, when the order of the resolution does not matter; not after an update, in which packages also drop what they no longer need.
- The deletions of one pass are judged by the webhook on the cluster as it was when the pass began; `CascadeVerdict` says that first deletions would be judged the same in between.
- Live packages with an empty version, which `add` treats as not installed: a live package has a version, or one that does not parse.
- WholeRuns.HistoriesStaySound: about the states between transactions, each of which installs a package with all its requirements or carries a deletion through; not about the states within one.
- Kubernetes itself: watches, informers, requeueing, the timing of passes, conflicting writes. A pass reads the cluster once and is atomic; API errors keep the reference and are arbitrary.
- Foreground deletion: a package leaves when its own finalizer is gone; the finalizer that Kubernetes adds is not modelled.
- Parsing of versions and constraints, and the meaning of a constraint, which belong to the semver library.
- Labels and manual flags of packages in the API: `asDependency` is a field.
- `pruneOwnedResources` and everything else about resources other than packages and package infos: it is the same loop over a list of its own.
- Suspended packages, conditions, events, telemetry, manifests, Helm, Kustomize, values, patches and transformations: a pass is told whether conditions changed, whether it succeeded, and what is current.
- The repositories that offer a required package, and values of components, in `ensureDependencies`: whether a requirement can be created, and whether an existing package is ready, are inputs. An update of an existing required package is not a step of the state machine.
- Namespaced packages on deletion: the webhook does not check them, so soundness is stated for deletions of cluster packages.
- `ValidateUpdate` with an unchanged specification, which is accepted without a check.
- The scope, values and manifest fetched for `validateCreateOrUpdate` are inputs, and the version is parsed; values validation is a flag.
- The `Transitive` flag of a requirement: which of the direct dependencies are flagged so depends on the map order, and is not said.
- `GetLatestVersion` and `GetReposForPackage` of the meta client, and errors of listing the repositories.
- HTTP, content types and decoding in `fetchYAMLOrJSON`: any of them can fail a fetch. Several clients have separate caches.
- The textual keys of the staleness detector: items are identified by namespace and name. Its endless loop is cut off after any number of rounds.
- `MarkForDeletion`, which nothing calls.
- Command line, web pages, bootstrap, certificates, telemetry and generated code.
