/**
 Clusters at rest, so that the theorems about uninstalling speak of something: an application that was installed by
 hand, and a library that was installed for it; and the same with a component in between, whose deletion hangs.
 */
module Example {
  import opened Wrappers
  import opened Semver
  import opened GraphModel
  import opened Installation
  import opened Resolution
  import opened DependencyManager
  import opened ResolutionOrder
  import opened Operator
  import opened Ownership
  import opened Cascade
  import opened Admission
  import opened InstallAdmission
  import opened Recreation
  import opened CascadeRuns
  import opened CascadeEnds
  import opened LeftBehind
  import opened Validation
  import opened InstallRuns

  const APP_MANIFEST := Manifest("app", "", [Dependency("lib", AnyVersion)], [])
  const LIB_MANIFEST := Manifest("lib", "", [], [])

  function AppAndLib(v: Version): Cluster {
    map[
      APP := Package(v, APP_MANIFEST, "app--1", false, false, true, false, [RefTo(LIB)], []),
      LIB := Package(v, LIB_MANIFEST, "lib--1", true, false, true, false, [], [])]
  }

  function AppNeedsLib(v: Version, manual: bool): Graph {
    map[APP := Node("app", Some(v), manual, map[LIB := None]), LIB := Node("lib", Some(v), false, map[])]
  }

  lemma ManifestsGiveEdges()
    ensures ManifestEdges(APP, APP_MANIFEST) == map[LIB := None]
    ensures ManifestEdges(LIB, LIB_MANIFEST) == map[]
  {
    var ts := Targets(APP, APP_MANIFEST);
    assert ts == [Target(LIB, "lib", AnyVersion)];
    assert ts[1..] == [];
    assert EdgesFrom(map[LIB := None], []) == map[LIB := None];
    assert Targets(LIB, LIB_MANIFEST) == [];
  }

  lemma GraphOfAppAndLib(v: Version)
    ensures Mirrors(AppNeedsLib(v, true), AppAndLib(v))
    ensures Installed(AppNeedsLib(v, true)) == {APP, LIB} && Survivors(AppNeedsLib(v, true)) == {APP, LIB}
  {
    var g, c := AppNeedsLib(v, true), AppAndLib(v);
    ManifestsGiveEdges();
    assert Installed(g) == LivePackages(c) == {APP, LIB};
    assert DependsOn(g, APP, LIB);
    assert Supported(g, {APP, LIB});
    SurvivorsAreGreatest(g);
  }

  lemma OwnersOfAppAndLib(v: Version, r: Ref, x: Ref)
    requires r in AppAndLib(v)
    ensures WellOwned(AppAndLib(v)[r])
    ensures Owns(AppAndLib(v)[r], x) <==> DependsOn(AppNeedsLib(v, true), r, x)
  {
    SameRef(RefTo(LIB), x);
    assert RefTo(LIB) in AppAndLib(v)[APP].ownedPackages;
  }

  lemma AppAndLibAreAtRest(v: Version)
    ensures AtRest(AppNeedsLib(v, true), AppAndLib(v))
  {
    GraphOfAppAndLib(v);
    forall r, x | r in AppAndLib(v)
      ensures WellOwned(AppAndLib(v)[r])
      ensures Owns(AppAndLib(v)[r], x) <==> DependsOn(AppNeedsLib(v, true), r, x)
    {
      OwnersOfAppAndLib(v, r, x);
    }
  }

  /** Deleting the application takes the library with it; deleting the library takes nothing else. */
  lemma WhatIsDoomed(v: Version)
    ensures Doomed(AppNeedsLib(v, true), APP) == {APP, LIB}
    ensures Doomed(AppNeedsLib(v, true), LIB) == {LIB}
  {
    var g := AppNeedsLib(v, true);
    assert Installed(g) == {APP, LIB};
    var h := Delete(g, APP);
    SurvivorsAreGreatest(h);
    assert APP !in Installed(h);
    assert forall q :: !DependsOn(h, q, LIB);
    var k := Delete(g, LIB);
    assert Supported(k, {APP});
    SurvivorsAreGreatest(k);
    assert LIB !in Installed(k);
  }

  // ---------------------------------------------------------------- a resolution

  const SCOPE: Scope := {(APP, "app"), (LIB, "lib")}

  function LibRepository(v: Version): Repository {
    Repository(map["lib" := [v]], map[("lib", v.original) := LIB_MANIFEST])
  }

  function LibMissing(v: Version, manual: bool): Graph {
    map[APP := Node("app", Some(v), manual, map[LIB := None]), LIB := Uninstalled("lib")]
  }

  function LibRequired(v: Version): Requirement {
    Requirement("lib", v, None, false)
  }

  /** A request for which the order of siblings does not matter. */
  lemma LibIsRequested(v: Version, manual: bool)
    ensures Request(LibRepository(v), SCOPE, LibMissing(v, manual), APP)
    ensures Tolerant(LibRepository(v), SCOPE, LibMissing(v, manual), APP)
  {
    assert Targets(LIB, LIB_MANIFEST) == [];
  }

  /** A resolution of it. */
  lemma LibIsResolved(v: Version, manual: bool)
    ensures Complete(LibRepository(v), LibMissing(v, manual), AppNeedsLib(v, manual), APP, [LibRequired(v)])
  {
    var repo, g, q := LibRepository(v), LibMissing(v, manual), LibRequired(v);
    assert Targets(LIB, LIB_MANIFEST) == [];
    assert Step(repo, g, q) == AppNeedsLib(v, manual);
    LibPicked(v, manual);
    LegalCons(repo, g, {APP}, q, []);
    assert [q] + [] == [q] && [q][1..] == [];
    assert Replay(repo, AppNeedsLib(v, manual), []) == AppNeedsLib(v, manual);
    assert Installed(AppNeedsLib(v, manual)) == {APP, LIB};
  }

  lemma LibPicked(v: Version, manual: bool)
    ensures LegalPick(LibRepository(v), LibMissing(v, manual), {APP}, LibRequired(v))
  {
    var g := LibMissing(v, manual);
    assert Targets(LIB, LIB_MANIFEST) == [];
    assert forall c :: !ConstrainedBy(g, LIB, c);
    CompareTotalPreorder(v, v, v);
    UpgradeRefinesPrecedence(v, v);
    assert LibRepository(v).versions["lib"] == [v];
    assert Wanted(g, {APP}, LIB);
  }

  lemma LibIsDone(v: Version, manual: bool)
    ensures PackageDone(LibRepository(v), SCOPE, LibMissing(v, manual), AppNeedsLib(v, manual), APP, [LibRequired(v)])
  {
    LibIsResolved(v, manual);
    assert Installed(AppNeedsLib(v, manual)) == {APP, LIB} && Installed(LibMissing(v, manual)) == {APP};
    assert Pending(SCOPE, AppNeedsLib(v, manual)) == {} && Pending(SCOPE, LibMissing(v, manual)) == {LIB};
  }

  lemma LibIsFlagged(v: Version, manual: bool)
    ensures Flagged(LibRepository(v), LibMissing(v, manual), APP, false, [LibRequired(v)])
  {
    assert DirectTo(LibRepository(v), LibMissing(v, manual), LIB, LibRequired(v));
  }

  // ---------------------------------------------------------------- deleting each of the two

  /** Nothing depends on the application, so its deletion is undisturbed; that of the library is not. */
  lemma WhatIsUndisturbed(v: Version)
    ensures NothingMissing(AppNeedsLib(v, true))
    ensures Undisturbed(AppNeedsLib(v, true), APP) && !Undisturbed(AppNeedsLib(v, true), LIB)
  {
    var g := AppNeedsLib(v, true);
    GraphOfAppAndLib(v);
    assert NoDependant(g, APP);
    NoDependantIsUndisturbed(g, APP);
    assert Supported(Delete(g, LIB), {APP});
    SurvivorsAreGreatest(Delete(g, LIB));
    assert LIB in g[APP].edges;
  }

  /** The cluster in which only the application is left */
  function OnlyApp(v: Version): Cluster {
    map[APP := AppAndLib(v)[APP]]
  }

  /** When the library is gone and the application is not, the library is required again. */
  lemma LibIsRequiredAgain(v: Version)
    ensures Required(LibRepository(v), OnlyApp(v), LIB)
  {
    LibIsChecked(v);
    CreatedIsRequired(
      LibRepository(v), SCOPE, OnlyApp(v), LibMissing(v, true), AppNeedsLib(v, true), APP, [LibRequired(v)],
      LibRequired(v));
  }

  lemma LibIsChecked(v: Version)
    ensures Checked(
              LibRepository(v), SCOPE, OnlyApp(v), LibMissing(v, true), AppNeedsLib(v, true), APP, APP_MANIFEST, v,
              [LibRequired(v)])
  {
    AppIsAdded(v, LibMissing(v, true), true);
    LibIsDone(v, true);
    LibIsFlagged(v, true);
    LibLabels(v);
    OnlyAppMirrors(v);
    assert AddedRef(APP, APP_MANIFEST) == APP && ManualFlag(LibMissing(v, true), "app");
  }

  lemma OnlyAppMirrors(v: Version)
    ensures Mirrors(LibMissing(v, true), OnlyApp(v))
  {
    ManifestsGiveEdges();
    assert Installed(LibMissing(v, true)) == LivePackages(OnlyApp(v)) == {APP};
  }

  lemma AppIsAdded(v: Version, g: Graph, manual: bool)
    requires g == map[] || g == LibMissing(v, manual)
    ensures Added(g, APP, APP_MANIFEST, Parsed(v), manual) == (LibMissing(v, manual), true)
  {
    var ts := Targets(APP, APP_MANIFEST);
    assert ts == [Target(LIB, "lib", AnyVersion)];
    assert ts[1..] == [];
    var h := Touch(g, APP, "app")[APP := Node("app", Some(v), manual, map[])];
    assert Connect(Touch(h, LIB, "lib"), APP, LIB, None) == LibMissing(v, manual);
    assert AddTargets(LibMissing(v, manual), APP, []) == (LibMissing(v, manual), true);
  }

  lemma LibLabels(v: Version)
    ensures LabelsFrom(LibMissing(v, true), OnlyApp(v))
  {
    var ts := Targets(APP, APP_MANIFEST);
    assert ts == [Target(LIB, "lib", AnyVersion)];
    assert ts[0] in ts && APP in LivePackages(OnlyApp(v));
  }

  // ---------------------------------------------------------------- installing both in an empty cluster

  lemma EmptyIsAtRest()
    ensures AtRest(map[], map[]) && NothingMissing(map[]) && LabelsFrom(map[], map[])
  {
    SurvivorsAreGreatest(map[]);
  }

  lemma AppIsTidy(v: Version)
    ensures AllTidy(LibRepository(v), SCOPE, map[], APP, APP_MANIFEST) && Spans(SCOPE, map[], APP, APP_MANIFEST)
  {
    assert Targets(APP, APP_MANIFEST) == [Target(LIB, "lib", AnyVersion)];
  }

  /** The webhook admits the application in an empty cluster; the library is what it requires. */
  lemma AppIsAdmitted(v: Version)
    ensures Admitted(
              LibRepository(v), SCOPE, map[], map[], AppNeedsLib(v, false), APP, APP_MANIFEST, v, [LibRequired(v)])
  {
    EmptyIsAtRest();
    AppIsTidy(v);
    AppIsAdded(v, map[], false);
    LibIsRequested(v, false);
    AppIsChecked(v);
    NoneIsBroken(v);
  }

  lemma AppIsChecked(v: Version)
    ensures Checked(
              LibRepository(v), SCOPE, map[], map[], AppNeedsLib(v, false), APP, APP_MANIFEST, v, [LibRequired(v)])
  {
    EmptyIsAtRest();
    AppIsAdded(v, map[], false);
    LibIsDone(v, false);
    LibIsFlagged(v, false);
    assert AddedRef(APP, APP_MANIFEST) == APP;
  }

  lemma NoneIsBroken(v: Version)
    ensures NothingNew(map[], AppNeedsLib(v, false))
  {
    assert forall q, r :: !Broken(AppNeedsLib(v, false), q, r);
  }

  // ---------------------------------------------------------------- a deletion that hangs

  const PART := Ref("app-part", "apps")
  const WHOLE_MANIFEST := Manifest("app", "apps", [], [Component("part", "", AnyVersion)])
  const PART_MANIFEST := Manifest("part", "", [Dependency("lib", AnyVersion)], [])

  /** The application has a namespaced component, which needs the library. */
  function InParts(v: Version): Cluster {
    map[
      APP := Package(v, WHOLE_MANIFEST, "app--1", false, false, true, false, [RefTo(PART)], []),
      PART := Package(v, PART_MANIFEST, "part--1", true, false, true, false, [RefTo(LIB)], []),
      LIB := Package(v, LIB_MANIFEST, "lib--1", true, false, true, false, [], [])]
  }

  function GraphOfParts(v: Version): Graph {
    map[
      APP := Node("app", Some(v), true, map[PART := None]),
      PART := Node("part", Some(v), false, map[LIB := None]),
      LIB := Node("lib", Some(v), false, map[])]
  }

  lemma TargetsOfParts()
    ensures Targets(APP, WHOLE_MANIFEST) == [Target(PART, "part", AnyVersion)]
    ensures Targets(PART, PART_MANIFEST) == [Target(LIB, "lib", AnyVersion)]
    ensures Targets(LIB, LIB_MANIFEST) == []
  {
    assert "app" + "-" + "part" == "app-part";
    assert ComponentTarget(APP, WHOLE_MANIFEST, WHOLE_MANIFEST.components[0]) == Target(PART, "part", AnyVersion);
    assert DependencyTarget(PART_MANIFEST.dependencies[0]) == Target(LIB, "lib", AnyVersion);
  }

  lemma PartsGiveEdges()
    ensures ManifestEdges(APP, WHOLE_MANIFEST) == map[PART := None]
    ensures ManifestEdges(PART, PART_MANIFEST) == map[LIB := None]
    ensures ManifestEdges(LIB, LIB_MANIFEST) == map[]
  {
    TargetsOfParts();
    OneEdge(PART, "part");
    OneEdge(LIB, "lib");
    ManifestsGiveEdges();
  }

  lemma OneEdge(r: Ref, packageName: string)
    ensures EdgesFrom(map[], [Target(r, packageName, AnyVersion)]) == map[r := None]
  {
    var ts := [Target(r, packageName, AnyVersion)];
    assert ts[1..] == [];
    assert EdgesFrom(map[r := None], []) == map[r := None];
  }

  lemma PartsAreMirrored(v: Version)
    ensures Mirrors(GraphOfParts(v), InParts(v)) && Installed(GraphOfParts(v)) == {APP, PART, LIB}
  {
    PartsGiveEdges();
    assert Installed(GraphOfParts(v)) == LivePackages(InParts(v)) == {APP, PART, LIB};
  }

  lemma PartsSurvive(v: Version)
    ensures Survivors(GraphOfParts(v)) == {APP, PART, LIB}
  {
    var g := GraphOfParts(v);
    assert DependsOn(g, APP, PART) && DependsOn(g, PART, LIB);
    assert Supported(g, {APP, PART, LIB});
    SurvivorsAreGreatest(g);
  }

  lemma OwnersOfParts(v: Version, r: Ref, x: Ref)
    requires r in InParts(v)
    ensures WellOwned(InParts(v)[r])
    ensures Owns(InParts(v)[r], x) <==> DependsOn(GraphOfParts(v), r, x)
  {
    SameRef(RefTo(LIB), x);
    SameRef(RefTo(PART), x);
    assert RefTo(PART) in InParts(v)[APP].ownedPackages;
    assert RefTo(LIB) in InParts(v)[PART].ownedPackages;
  }

  lemma PartsAreOwned(v: Version)
    ensures AllWellOwned(InParts(v))
    ensures forall r, x :: r in InParts(v) ==> (Owns(InParts(v)[r], x) <==> DependsOn(GraphOfParts(v), r, x))
  {
    forall r, x | r in InParts(v)
      ensures WellOwned(InParts(v)[r])
      ensures Owns(InParts(v)[r], x) <==> DependsOn(GraphOfParts(v), r, x)
    {
      OwnersOfParts(v, r, x);
    }
  }

  lemma PartsAreIdle(v: Version)
    ensures forall r :: r in InParts(v) ==> !InParts(v)[r].terminating && InParts(v)[r].finalizer
  {
  }

  lemma PartsAreAtRest(v: Version)
    ensures AtRest(GraphOfParts(v), InParts(v))
  {
    PartsAreIdle(v);
    PartsAreMirrored(v);
    PartsSurvive(v);
    PartsAreOwned(v);
  }

  /** Deleting the component leaves the application behind and takes the library with it. */
  lemma WhatPartDooms(v: Version)
    ensures Doomed(GraphOfParts(v), PART) == {PART, LIB} && Installed(GraphOfParts(v)) == {APP, PART, LIB}
  {
    var g := GraphOfParts(v);
    var h := Delete(g, PART);
    assert Installed(g) == {APP, PART, LIB};
    assert Installed(h) == {APP, LIB};
    assert Supported(h, {APP});
    assert forall q :: !DependsOn(h, q, LIB);
    SurvivorsAreGreatest(h);
  }

  /** That graph is broken, and only the component depends on the library. */
  lemma LibBlocks(v: Version)
    ensures Blocks(GraphOfParts(v), PART, LIB)
    ensures forall o :: o != PART ==> !DependsOn(GraphOfParts(v), o, LIB)
  {
    WhatPartDooms(v);
    PartsAreMirrored(v);
    AppDependsOnPart(v);
    LeftBehindIsUnsound(GraphOfParts(v), PART, APP);
    OnlyPartNeedsLib(v);
  }

  lemma AppDependsOnPart(v: Version)
    ensures DependsOn(GraphOfParts(v), APP, PART) && !(APP in Doomed(GraphOfParts(v), PART))
  {
    WhatPartDooms(v);
  }

  lemma OnlyPartNeedsLib(v: Version)
    ensures forall o :: o != PART ==> !DependsOn(GraphOfParts(v), o, LIB)
  {
  }

  lemma PartsAreTidy(v: Version)
    ensures TidyCluster(InParts(v)) && NothingMissing(GraphOfParts(v))
  {
    assert DependsOn(GraphOfParts(v), APP, PART) && DependsOn(GraphOfParts(v), PART, LIB);
  }

  /** At the start of the cascade, all that holds of its states */
  lemma PartIsDeleted(v: Version)
    ensures var g, c := GraphOfParts(v), Apply(InParts(v), RequestDelete(PART));
            CascadeState(g, InParts(v), PART, c) && LiveHoldsLive(g, PART, c) && LIB in LivePackages(c)
  {
    PartsAreAtRest(v);
    PartsAreTidy(v);
    CascadeBegins(GraphOfParts(v), InParts(v), PART);
    BeginsLive(GraphOfParts(v), InParts(v), PART);
    LiveAtStart(GraphOfParts(v), InParts(v), PART, LIB);
  }

  /**
   The webhook lets the deletion of the component begin, and then refuses that of the library, now and in every later
   state of the cascade; so the component stays in the cluster, being deleted, whatever the operator does.
   */
  lemma PartHangs(repo: Repository, v: Version, actions: seq<Action>, d: Cluster)
    requires NamesMatch(repo) && Operates(repo, Apply(InParts(v), RequestDelete(PART)), actions, d)
    ensures Admits(InParts(v), PART) && !Admits(Apply(InParts(v), RequestDelete(PART)), LIB)
    ensures WaitsFor(GraphOfParts(v), PART, d, LIB) && !Admits(d, LIB)
  {
    var g, c0 := GraphOfParts(v), InParts(v);
    var c := Apply(c0, RequestDelete(PART));
    PartsAreAtRest(v);
    PartsAreTidy(v);
    PartsParse(v);
    PartIsDeleted(v);
    LibBlocks(v);
    UncheckedDeletionHangs(repo, g, c0, PART, c, actions, d, LIB);
    OperatorReaches(repo, g, c0, PART, c, actions, d);
    LibIsRefused(v, c);
    LibIsRefused(v, d);
  }

  lemma PartsParse(v: Version)
    ensures Parses(InParts(v))
  {
    TargetsOfParts();
  }

  lemma LibIsRefused(v: Version, c: Cluster)
    requires CascadeState(GraphOfParts(v), InParts(v), PART, c) && LIB in LivePackages(c)
    ensures !Admits(c, LIB)
  {
    PartsAreAtRest(v);
    LibBlocks(v);
    CascadeIsPartial(GraphOfParts(v), InParts(v), PART, c);
    CascadeVerdict(GraphOfParts(v), InParts(v), PART, c, LIB);
  }
}
