/**
 `ensureDependencies` of `internal/controller/common.go`: a live package whose dependency is missing has it
 created again.  Why that does not happen during an uninstallation that leaves no dependant behind, and that it
 does happen otherwise.
 */
module Recreation {
  import opened GraphModel
  import opened Installation
  import opened Resolution
  import opened DependencyManager
  import opened Validation
  import opened OwnedRefs
  import opened Operator
  import opened Ownership
  import opened Cascade
  import opened Admission
  import opened InstallAdmission

  // ---------------------------------------------------------------- what a live pass may create and find

  /** The run requires x directly: what it requires transitively is left to the passes of other packages. */
  ghost predicate Direct(run: seq<Requirement>, x: Ref) {
    exists p :: p in run && !p.transitive && RequiredRef(p) == x
  }

  /** Validating some live package of c requires x. */
  ghost predicate Required(repo: Repository, c: Cluster, x: Ref) {
    exists q, scope, g, h, run ::
      q in LivePackages(c) && Checked(repo, scope, c, g, h, q, c[q].manifest, c[q].version, run) && Direct(run, x)
  }

  /** The delete calls of a step */
  ghost function Issued(c: Cluster, a: Action): seq<OwnedRef>
    requires Enabled(c, a)
  {
    match a
    case Deletion(r, env) => DeletionOutcome(c, r, env).deleted
    case Live(r, f, env) => LiveOutcome(c, r, f, env).deleted
    case _ => []
  }

  /** Each of them goes through the webhook, also those for packages that are being deleted already. */
  ghost predicate DeletionsAdmitted(c: Cluster, a: Action)
    requires Enabled(c, a)
  {
    forall y :: y in Issued(c, a) ==> Admits(c, TargetOf(y))
  }

  /** The references are exactly those to the dependencies and components of the package, and all of these exist. */
  ghost predicate AllFound(c: Cluster, r: Ref, current: seq<OwnedRef>)
    requires r in c
  {
    var needed := ManifestEdges(r, c[r].manifest).Keys;
    needed <= c.Keys && forall x :: Lists(current, RefTo(x)) <==> x in needed
  }

  /** What `ensureDependencies` reports as current: nothing, or when it succeeds all dependencies. */
  ghost predicate Finds(c: Cluster, r: Ref, f: Findings)
    requires r in c
  {
    && PackageRefs(f.current)
    && (f.current == [] || AllFound(c, r, f.current))
    && (f.success ==> AllFound(c, r, f.current))
  }

  /**
   What the operator may do while nobody else changes the cluster: passes with any API outcomes, in which the webhook
   admits what is deleted (what it refuses is a failed deletion), and a live pass finds its dependencies in the
   cluster; departures; and the creation of what the resolver requires for a live package.
   */
  ghost predicate OperatorAction(repo: Repository, c: Cluster, a: Action) {
    && Enabled(c, a)
    && DeletionsAdmitted(c, a)
    && match a
       case Vanish(_) => true
       case Deletion(_, _) => true
       case RequestDelete(r) => c[r].terminating
       case Live(r, f, _) => Finds(c, r, f)
       case Create(r, _) => Required(repo, c, r)
  }

  /** How the operator sees an existing package it depends on */
  datatype Readiness = Ready | NotReady | Failing | Unreadable

  /** The vertices that the loops over the dependencies and then the components of a manifest come to. */
  lemma NeededTargets(r: Ref, m: Manifest, x: Ref)
    ensures x in ManifestEdges(r, m) <==> exists t :: t in Targets(r, m) && t.ref == x
  {
    EdgesFromKeys(map[], Targets(r, m));
  }

  /**
   `ensureDependencies`: validates the package, creates (or updates) what is required directly, and on success reports
   references to all dependencies, each of which is there and ready.
   */
  method EnsureDependencies(
    c: Cluster, api: Lookups, repo: Repository, self: Ref, canCreate: Requirement -> bool, ready: Ref -> Readiness,
    ghost scope: Scope)
    returns (created: seq<Requirement>, current: seq<OwnedRef>, ok: bool,
             ghost valid: bool, ghost g: Graph, ghost h: Graph, ghost run: seq<Requirement>)
    requires self in LivePackages(c) && Closed(repo, scope)
    requires Spans(scope, c, self, c[self].manifest)
    ensures valid ==> Checked(repo, scope, c, g, h, self, c[self].manifest, c[self].version, run) && NothingNew(g, h)
    ensures !valid ==> HasFailed(repo, scope, c, api, self, g, h, run)
    ensures forall q :: q in created <==> valid && q in run && !q.transitive && canCreate(q)
    ensures ok <==>
            && valid
            && (forall q :: q in run && !q.transitive ==> canCreate(q))
            && forall x :: x in ManifestEdges(self, c[self].manifest) ==> Usable(c, created, ready, x)
    ensures ok ==> forall x :: x in ManifestEdges(self, c[self].manifest) ==>
                     ready(x).Ready? && (x in c || exists q :: q in created && RequiredRef(q) == x)
    ensures PackageRefs(current) && (!ok ==> current == [])
    ensures ok ==> forall x :: Lists(current, RefTo(x)) <==> x in ManifestEdges(self, c[self].manifest)
  {
    created, current, ok := [], [], false;
    var checked, requirements;
    checked, requirements, g, h, run := ValidateSelf(c, api, repo, self, scope);
    valid := checked;
    if !checked {
      return;
    }
    var failed;
    created, failed := CreateRequirements(requirements, canCreate);
    if failed {
      return;
    }
    current, ok := CheckDependencies(c, self, created, ready);
  }

  /** Why validating a live package fails: no graph, no resolution, or a conflict. */
  ghost predicate HasFailed(
    repo: Repository, scope: Scope, c: Cluster, api: Lookups, self: Ref, g: Graph, h: Graph, run: seq<Requirement>)
    requires self in c
  {
    || !Buildable(c, api)
    || (exists e :: HasGround(repo, c, self, c[self].manifest, g, h, e))
    || (Checked(repo, scope, c, g, h, self, c[self].manifest, c[self].version, run) && !NothingNew(g, h))
  }

  /** `NewGraph` and `Validate` of the package itself; a conflict is a failure. */
  method ValidateSelf(c: Cluster, api: Lookups, repo: Repository, self: Ref, ghost scope: Scope)
    returns (valid: bool, requirements: seq<Requirement>, ghost g0: Graph, ghost h: Graph, ghost run: seq<Requirement>)
    requires self in LivePackages(c) && Closed(repo, scope)
    requires Spans(scope, c, self, c[self].manifest)
    ensures valid ==>
              Checked(repo, scope, c, g0, h, self, c[self].manifest, c[self].version, run) && NothingNew(g0, h)
    ensures valid ==> forall q :: q in requirements <==> q in run
    ensures !valid ==> HasFailed(repo, scope, c, api, self, g0, h, run)
  {
    var m, v := c[self].manifest, c[self].version;
    valid, requirements := false, [];
    var g, built := NewGraph(c, api);
    g0, h, run := g.model, g.model, [];
    if !built {
      return;
    }
    AddedIsCovered(scope, g0, c, self, m, v, ManualFlag(g0, m.name));
    AddedEffect(g0, AddedRef(self, m), m, v, ManualFlag(g0, m.name));
    var r;
    r, run := Validate(g, repo, self.name, self.namespace, m, Parsed(v), scope);
    h := g.model;
    match r {
      case Err(e) =>
        assert HasGround(repo, c, self, m, g0, h, e);
      case Ok(result) =>
        if result.conflicts == [] {
          valid, requirements := true, result.requirements;
          SameMembers(requirements, run);
        }
    }
  }

  /** The loop over the requirements: only direct ones are created; one that cannot be created is a failure. */
  method CreateRequirements(requirements: seq<Requirement>, canCreate: Requirement -> bool)
    returns (created: seq<Requirement>, failed: bool)
    ensures forall q :: q in created <==> q in requirements && !q.transitive && canCreate(q)
    ensures failed <==> exists q :: q in requirements && !q.transitive && !canCreate(q)
  {
    created, failed := [], false;
    for i := 0 to |requirements|
      invariant forall q :: q in created <==> q in requirements[..i] && !q.transitive && canCreate(q)
      invariant failed <==> exists q :: q in requirements[..i] && !q.transitive && !canCreate(q)
    {
      var q := requirements[i];
      assert requirements[..i + 1] == requirements[..i] + [q];
      if !q.transitive {
        if canCreate(q) {
          created := created + [q];
        } else {
          failed := true;
        }
      }
    }
    assert requirements[..|requirements|] == requirements;
  }

  /** x is ready, and is in the cluster or was just created. */
  predicate Usable(c: Cluster, created: seq<Requirement>, ready: Ref -> Readiness, x: Ref) {
    ready(x).Ready? && (x in c || exists q :: q in created && RequiredRef(q) == x)
  }

  /** The loops over dependencies and components: all must be there and ready. */
  method CheckDependencies(c: Cluster, self: Ref, created: seq<Requirement>, ready: Ref -> Readiness)
    returns (current: seq<OwnedRef>, ok: bool)
    requires self in c
    ensures PackageRefs(current) && (!ok ==> current == [])
    ensures ok <==> forall x :: x in ManifestEdges(self, c[self].manifest) ==> Usable(c, created, ready, x)
    ensures ok ==> forall x :: Lists(current, RefTo(x)) <==> x in ManifestEdges(self, c[self].manifest)
  {
    var ts := Targets(self, c[self].manifest);
    var owned;
    owned, ok := CheckTargets(c, ts, created, ready);
    forall x
      ensures x in ManifestEdges(self, c[self].manifest) <==> exists t :: t in ts && t.ref == x
    {
      NeededTargets(self, c[self].manifest, x);
    }
    current := [];
    if ok {
      var changed;
      current, changed := OwnedRefs.Add([], owned);
      CurrentLists(ts, owned);
    }
  }

  method CheckTargets(c: Cluster, ts: seq<Target>, created: seq<Requirement>, ready: Ref -> Readiness)
    returns (owned: seq<OwnedRef>, ok: bool)
    ensures |owned| == |ts| && forall k :: 0 <= k < |ts| ==> owned[k] == RefTo(ts[k].ref)
    ensures ok <==> forall t :: t in ts ==> Usable(c, created, ready, t.ref)
  {
    ok := true;
    owned := [];
    for i := 0 to |ts|
      invariant |owned| == i && forall k :: 0 <= k < i ==> owned[k] == RefTo(ts[k].ref)
      invariant ok <==> forall k :: 0 <= k < i ==> Usable(c, created, ready, ts[k].ref)
    {
      if !Usable(c, created, ready, ts[i].ref) {
        ok := false;
      }
      owned := owned + [RefTo(ts[i].ref)];
    }
  }

  lemma CurrentLists(ts: seq<Target>, owned: seq<OwnedRef>)
    requires |owned| == |ts| && forall k :: 0 <= k < |ts| ==> owned[k] == RefTo(ts[k].ref)
    ensures var current := WithAdded([], owned);
            PackageRefs(current) && forall x :: Lists(current, RefTo(x)) <==> exists t :: t in ts && t.ref == x
  {
    WithAddedLists([], owned);
    forall x
      ensures Lists(owned, RefTo(x)) <==> exists t :: t in ts && t.ref == x
    {
      ListsTarget(ts, owned, x);
    }
  }

  lemma ListsTarget(ts: seq<Target>, owned: seq<OwnedRef>, x: Ref)
    requires |owned| == |ts| && forall k :: 0 <= k < |ts| ==> owned[k] == RefTo(ts[k].ref)
    ensures Lists(owned, RefTo(x)) <==> exists t :: t in ts && t.ref == x
  {
    if Lists(owned, RefTo(x)) {
      var k :| 0 <= k < |owned| && RefersToSameResource(owned[k], RefTo(x));
      assert ts[k] in ts && ts[k].ref == x;
    }
    if exists t :: t in ts && t.ref == x {
      var k :| 0 <= k < |ts| && ts[k].ref == x;
      assert owned[k] in owned;
    }
  }

  /** What the method reports is what the state machine lets a live pass find, once the created packages are there. */
  lemma EnsuredFinds(
    c: Cluster, d: Cluster, r: Ref, created: seq<Requirement>, ready: Ref -> Readiness, ok: bool, f: Findings)
    requires r in c && r in d && d[r].manifest == c[r].manifest && c.Keys <= d.Keys && RequiredRefs(created) <= d.Keys
    requires PackageRefs(f.current) && (!ok ==> f.current == []) && (f.success ==> ok)
    requires ok ==> forall x :: Lists(f.current, RefTo(x)) <==> x in ManifestEdges(r, c[r].manifest)
    requires ok ==> forall x :: x in ManifestEdges(r, c[r].manifest) ==> Usable(c, created, ready, x)
    ensures Finds(d, r, f)
  {
    if ok {
      forall x | x in ManifestEdges(r, d[r].manifest)
        ensures x in d
      {
        assert Usable(c, created, ready, x);
      }
    }
  }

  /** And what it creates is required. */
  lemma CreatedIsRequired(
    repo: Repository, scope: Scope, c: Cluster, g: Graph, h: Graph, self: Ref, run: seq<Requirement>, q: Requirement)
    requires self in LivePackages(c) && q in run && !q.transitive
    requires Checked(repo, scope, c, g, h, self, c[self].manifest, c[self].version, run)
    ensures Required(repo, c, RequiredRef(q))
  {
    assert Direct(run, RequiredRef(q));
  }

  // ---------------------------------------------------------------- what a live package requires

  /** Every dependency of a live package is live. */
  ghost predicate DependenciesLive(c: Cluster) {
    forall q :: q in LivePackages(c) ==> ManifestEdges(q, c[q].manifest).Keys <= LivePackages(c)
  }

  /** Then resolving a live package on any graph of the cluster requires nothing. */
  lemma ResolvesNothing(
    repo: Repository, scope: Scope, c: Cluster, g: Graph, h: Graph, q: Ref, run: seq<Requirement>)
    requires DependenciesLive(c) && ProperNames(c) && q in LivePackages(c)
    requires Checked(repo, scope, c, g, h, q, c[q].manifest, c[q].version, run)
    ensures run == []
  {
    var m, v := c[q].manifest, c[q].version;
    AddedSelf(g, q, m, v, ManualFlag(g, m.name));
    var g1 := Added(g, q, m, Parsed(v), ManualFlag(g, m.name)).0;
    assert AddedRef(q, m) == q;
    assert DependenciesInstalled(g1, q);
  }

  lemma NothingRequired(repo: Repository, c: Cluster, x: Ref)
    requires DependenciesLive(c) && ProperNames(c)
    ensures !Required(repo, c, x)
  {
    if Required(repo, c, x) {
      var q, scope, g, h, run :|
        q in LivePackages(c) && Checked(repo, scope, c, g, h, q, c[q].manifest, c[q].version, run) && Direct(run, x);
      ResolvesNothing(repo, scope, c, g, h, q, run);
    }
  }

  /** Every manifest carries the name it is fetched by. */
  ghost predicate NamesMatch(repo: Repository) {
    forall k :: k in repo.manifests ==> repo.manifests[k].name == k.0
  }

  /** With names as they should be, what a live package requires directly is a dependency or component of it. */
  lemma DirectIsDependency(
    repo: Repository, scope: Scope, c: Cluster, g: Graph, h: Graph, q: Ref, run: seq<Requirement>, x: Ref)
    requires TidyCluster(c) && NamesMatch(repo) && q in LivePackages(c)
    requires Checked(repo, scope, c, g, h, q, c[q].manifest, c[q].version, run) && Direct(run, x)
    ensures x in ManifestEdges(q, c[q].manifest)
  {
    var m, v := c[q].manifest, c[q].version;
    var g1 := Added(g, q, m, Parsed(v), ManualFlag(g, m.name)).0;
    AddedSelf(g, q, m, v, ManualFlag(g, m.name));
    ClusterIsTidy(g, c);
    AddedIsTidy(g, q, m, v, ManualFlag(g, m.name));
    var p :| p in run && !p.transitive && RequiredRef(p) == x;
    var d :| d in g1[q].edges && DirectTo(repo, g1, d, p);
  }

  // ---------------------------------------------------------------- deletions that leave no dependant behind

  ghost predicate NothingMissing(g: Graph) {
    forall q, x :: DependsOn(g, q, x) ==> x in Installed(g)
  }

  ghost predicate NoDependant(g: Graph, n: Ref) {
    forall q :: !DependsOn(g, q, n)
  }

  /** No survivor depends on n. */
  ghost predicate NoneLeftBehind(g: Graph, n: Ref) {
    forall q :: q in Survivors(Delete(g, n)) ==> n !in g[q].edges
  }

  /** Whatever else depends on n goes with it, and is a dependency of n alone. */
  ghost predicate Undisturbed(g: Graph, n: Ref) {
    && NoneLeftBehind(g, n)
    && forall q, o :: q != n && DependsOn(g, q, n) && DependsOn(g, o, q) ==> o == n
  }

  /** Installed vertices that n reaches */
  ghost predicate ReachedFrom(g: Graph, n: Ref, r: Ref) {
    exists p :: IsPath(g, p) && p[0] == n && p[|p| - 1] == r
  }

  lemma ReachedNext(g: Graph, n: Ref, q: Ref, r: Ref)
    requires ReachedFrom(g, n, q) && DependsOn(g, q, r) && r in Installed(g)
    ensures ReachedFrom(g, n, r)
  {
    var p :| IsPath(g, p) && p[0] == n && p[|p| - 1] == q;
    assert IsPath(g, p + [r]);
  }

  /** Without orphans, only what n reaches is doomed with it. */
  lemma DoomedIsReached(g: Graph, n: Ref, r: Ref)
    requires WellFormed(g) && Survivors(g) == Installed(g) && n in Installed(g)
    requires r in Installed(g) && !ReachedFrom(g, n, r)
    ensures r in Survivors(Delete(g, n))
  {
    var s := set q | q in Installed(g) && !ReachedFrom(g, n, q);
    assert n !in s by {
      assert IsPath(g, [n]);
    }
    SurvivorsAreGreatest(g);
    assert Supported(g, s) by {
      forall x | x in s
        ensures g[x].manual || exists q :: q in s && DependsOn(g, q, x)
      {
        if !g[x].manual {
          var q :| q in Survivors(g) && DependsOn(g, q, x);
          if ReachedFrom(g, n, q) { ReachedNext(g, n, q, x); }
        }
      }
    }
    SupportedWithout(g, n, s);
    SurvivorsAreGreatest(Delete(g, n));
  }

  /** In a graph without orphans, a package that is on no cycle and leaves no dependant behind has none at all. */
  lemma NoDependantIff(g: Graph, n: Ref)
    requires WellFormed(g) && Survivors(g) == Installed(g) && n in Installed(g)
    ensures NoDependant(g, n) <==> NoneLeftBehind(g, n) && !OnCycle(g, n)
  {
    SurvivorsAreGreatest(Delete(g, n));
    if NoneLeftBehind(g, n) && !OnCycle(g, n) {
      forall q
        ensures !DependsOn(g, q, n)
      {
        if DependsOn(g, q, n) {
          if ReachedFrom(g, n, q) {
            ReachedBack(g, n, q);
          } else {
            DoomedIsReached(g, n, q);
          }
        }
      }
    } else if !OnCycle(g, n) {
      var q :| q in Survivors(Delete(g, n)) && n in g[q].edges;
      KeepUninstalled(g, n, {});
      assert DependsOn(g, q, n);
    } else {
      var p :| IsPath(g, p) && |p| > 1 && p[0] == n && p[|p| - 1] == n;
      assert DependsOn(g, p[|p| - 2], p[|p| - 2 + 1]);
    }
  }

  lemma ReachedBack(g: Graph, n: Ref, q: Ref)
    requires ReachedFrom(g, n, q) && DependsOn(g, q, n) && n in Installed(g)
    ensures OnCycle(g, n)
  {
    var p :| IsPath(g, p) && p[0] == n && p[|p| - 1] == q;
    assert IsPath(g, p + [n]);
  }

  lemma NoDependantIsUndisturbed(g: Graph, n: Ref)
    requires NoDependant(g, n)
    ensures Undisturbed(g, n)
  {
    SurvivorsAreGreatest(Delete(g, n));
    forall q | q in Survivors(Delete(g, n))
      ensures n !in g[q].edges
    {
      assert q != n ==> Delete(g, n)[q] == Touch(g, n, "")[q];
      assert !DependsOn(g, q, n);
    }
  }

  /** On a sound graph and off cycles, the webhook admits exactly the undisturbed deletions. */
  lemma AdmittedIsUndisturbed(g: Graph, n: Ref)
    requires WellFormed(g) && Sound(g) && Survivors(g) == Installed(g) && n in Installed(g) && !OnCycle(g, n)
    ensures Undisturbed(g, n) <==> Sound(DeletedAndPruned(g, n))
    ensures NothingMissing(g)
  {
    DeleteAcceptedIffNoDependantSurvives(g, n);
    NoDependantIff(g, n);
    if NoDependant(g, n) { NoDependantIsUndisturbed(g, n); }
    forall q, x | DependsOn(g, q, x)
      ensures x in Installed(g)
    {
      assert NodeFits(g.Keys, g[q]);
      assert !Broken(g, q, x);
    }
  }

  /** A dependant that survives keeps the pruned graph from being sound. */
  lemma LeftBehindIsUnsound(g: Graph, n: Ref, q: Ref)
    requires WellFormed(g) && n in Installed(g) && q in Survivors(Delete(g, n)) && DependsOn(g, q, n)
    ensures !Sound(DeletedAndPruned(g, n))
  {
    var k := Delete(g, n);
    KeepUninstalled(g, n, {});
    SurvivorsAreGreatest(k);
    assert DeletedAndPruned(g, n)[q] == g[q];
    assert Broken(DeletedAndPruned(g, n), q, n);
  }

  // ---------------------------------------------------------------- dependencies stay live throughout

  /** Every dependency of a live package is live, by the graph of the start, except for n. */
  ghost predicate LiveHoldsLive(g: Graph, n: Ref, c: Cluster) {
    forall q, x :: q in LivePackages(c) && DependsOn(g, q, x) && x != n ==> x in LivePackages(c)
  }

  lemma BeginsLive(g: Graph, c0: Cluster, n: Ref)
    requires n in c0 && Installed(g) == c0.Keys == LivePackages(c0) && NothingMissing(g)
    ensures LiveHoldsLive(g, n, Apply(c0, RequestDelete(n)))
  {
    assert LivePackages(Apply(c0, RequestDelete(n))) == c0.Keys - {n};
  }

  /** No step of a cascade takes a dependency from a package that stays live. */
  lemma StaysLive(g: Graph, c0: Cluster, n: Ref, c: Cluster, a: Action)
    requires AtRest(g, c0) && n in c0 && CascadeState(g, c0, n, c) && CascadeAction(c, a)
    requires LiveHoldsLive(g, n, c)
    ensures LiveHoldsLive(g, n, Apply(c, a))
  {
    forall q, x | q in LivePackages(Apply(c, a)) && DependsOn(g, q, x) && x != n
      ensures x in LivePackages(Apply(c, a))
    {
      DependencyStaysLive(g, c0, n, c, a, q, x);
    }
  }

  lemma DependencyStaysLive(g: Graph, c0: Cluster, n: Ref, c: Cluster, a: Action, q: Ref, x: Ref)
    requires AtRest(g, c0) && n in c0 && CascadeState(g, c0, n, c) && CascadeAction(c, a)
    requires LiveHoldsLive(g, n, c) && q in LivePackages(Apply(c, a)) && DependsOn(g, q, x) && x != n
    ensures x in LivePackages(Apply(c, a))
  {
    CascadeLists(c, a, q, x);
    if q !in LivePackages(c) { StillDying(c, a, q); }
    if x !in LivePackages(Apply(c, a)) {
      OnlyPassesDelete(c, a, x);
      NoPrematureDeletion(c, a, x, q);
    }
  }

  /** What a live package needs is what it depended on at the start. */
  lemma SameNeeds(g: Graph, c0: Cluster, n: Ref, c: Cluster, q: Ref, x: Ref)
    requires AtRest(g, c0) && n in c0 && CascadeState(g, c0, n, c) && q in LivePackages(c)
    ensures x in ManifestEdges(q, c[q].manifest) <==> DependsOn(g, q, x)
  {
    assert q in LivePackages(c0) && c[q].manifest == c0[q].manifest;
    assert Unlabelled(g[q]).edges == ManifestEdges(q, c0[q].manifest);
  }

  lemma LiveDependencies(g: Graph, c0: Cluster, n: Ref, c: Cluster)
    requires AtRest(g, c0) && n in c0 && CascadeState(g, c0, n, c)
    requires LiveHoldsLive(g, n, c) && NoDependant(g, n)
    ensures DependenciesLive(c)
  {
    forall q, x | q in LivePackages(c) && x in ManifestEdges(q, c[q].manifest)
      ensures x in LivePackages(c)
    {
      SameNeeds(g, c0, n, c, q, x);
    }
  }

  /** A live pass finds current what the package lists: its dependencies. */
  lemma FindsWhatItLists(g: Graph, c0: Cluster, n: Ref, c: Cluster, r: Ref, f: Findings)
    requires AtRest(g, c0) && n in c0 && CascadeState(g, c0, n, c)
    requires r in LivePackages(c) && Finds(c, r, f)
    ensures Faithful(c[r], f)
  {
    var p := c[r];
    assert r in LivePackages(c0) && p.manifest == c0[r].manifest && p.ownedPackages == c0[r].ownedPackages;
    assert Unlabelled(g[r]).edges == ManifestEdges(r, c0[r].manifest);
    assert WellOwned(p);
    forall x | x in f.current
      ensures Lists(p.ownedPackages, x)
    {
      var t := TargetOf(x);
      ListsSame(f.current, x, RefTo(t));
      ListsSame(p.ownedPackages, x, RefTo(t));
      assert DependsOn(g, r, t);
      assert Owns(c0[r], t);
    }
    if f.success {
      forall x | x in p.ownedPackages
        ensures Lists(f.current, x)
      {
        var t := TargetOf(x);
        ListsSame(p.ownedPackages, x, RefTo(t));
        ListsSame(f.current, x, RefTo(t));
        assert Owns(c0[r], t);
        assert DependsOn(g, r, t);
      }
    }
  }

  /** So a step of the operator that creates nothing is one of the steps of a cascade. */
  lemma OperatorIsCascade(repo: Repository, g: Graph, c0: Cluster, n: Ref, c: Cluster, a: Action)
    requires AtRest(g, c0) && n in c0 && CascadeState(g, c0, n, c)
    requires OperatorAction(repo, c, a) && !a.Create?
    ensures CascadeAction(c, a)
  {
    if a.Live? {
      FindsWhatItLists(g, c0, n, c, a.r, a.findings);
    }
  }

  // ---------------------------------------------------------------- what can be created

  lemma StillTidy(g: Graph, c0: Cluster, n: Ref, c: Cluster)
    requires CascadeState(g, c0, n, c)
    ensures ProperNames(c0) ==> ProperNames(c)
    ensures TidyCluster(c0) ==> TidyCluster(c)
  {
  }

  /** In every state of a cascade, n is all that the operator may create, once it is gone with a dependant left. */
  lemma OnlyNIsCreated(repo: Repository, g: Graph, c0: Cluster, n: Ref, c: Cluster, a: Action)
    requires AtRest(g, c0) && n in c0 && TidyCluster(c0) && NamesMatch(repo)
    requires CascadeState(g, c0, n, c) && LiveHoldsLive(g, n, c)
    requires OperatorAction(repo, c, a) && a.Create?
    ensures a.r == n && n !in c && exists q :: q in LivePackages(c) && DependsOn(g, q, n)
  {
    var q, scope, k, h, run :|
      q in LivePackages(c) && Checked(repo, scope, c, k, h, q, c[q].manifest, c[q].version, run) && Direct(run, a.r);
    StillTidy(g, c0, n, c);
    DirectIsDependency(repo, scope, c, k, h, q, run, a.r);
    SameNeeds(g, c0, n, c, q, a.r);
  }

  /** A dependant of n that only n depends on does not outlive n. */
  lemma GoesBeforeN(g: Graph, c0: Cluster, n: Ref, c: Cluster, q: Ref)
    requires AtRest(g, c0) && n in c0 && CascadeState(g, c0, n, c) && Undisturbed(g, n)
    requires q in LivePackages(c) && DependsOn(g, q, n)
    ensures n in c
  {
    assert q != n;
    if !c[q].asDependency {
      assert q in LivePackages(c0) && Unlabelled(g[q]).manual;
      ManualSurvives(g, n, q);
    } else {
      assert Remembered(c, q);
      var o :| o in c && Owns(c[o], q);
      assert DependsOn(g, o, q);
    }
  }

  lemma ManualSurvives(g: Graph, n: Ref, q: Ref)
    requires n in Installed(g) && q in Installed(g) && q != n && g[q].manual
    ensures q in Survivors(Delete(g, n))
  {
    KeepUninstalled(g, n, {});
    assert Supported(Delete(g, n), {q});
    SurvivorsAreGreatest(Delete(g, n));
  }

  /** With names as they should be, or no dependant at all */
  ghost predicate Reliable(repo: Repository, g: Graph, c0: Cluster, n: Ref) {
    (NoDependant(g, n) && ProperNames(c0)) || (TidyCluster(c0) && NamesMatch(repo))
  }

  /** During an undisturbed uninstallation the operator creates nothing. */
  lemma OperatorOnlyDeletes(repo: Repository, g: Graph, c0: Cluster, n: Ref, c: Cluster, a: Action)
    requires AtRest(g, c0) && n in c0 && Undisturbed(g, n) && Reliable(repo, g, c0, n)
    requires CascadeState(g, c0, n, c) && LiveHoldsLive(g, n, c) && OperatorAction(repo, c, a)
    ensures !a.Create? && CascadeAction(c, a)
  {
    if a.Create? {
      if NoDependant(g, n) && ProperNames(c0) {
        LiveDependencies(g, c0, n, c);
        StillTidy(g, c0, n, c);
        NothingRequired(repo, c, a.r);
      } else {
        OnlyNIsCreated(repo, g, c0, n, c, a);
        var q :| q in LivePackages(c) && DependsOn(g, q, n);
        GoesBeforeN(g, c0, n, c, q);
      }
    } else {
      OperatorIsCascade(repo, g, c0, n, c, a);
    }
  }

  // ---------------------------------------------------------------- leaving a dependant behind

  /** The first requirement is for something that q needs and that is not there. */
  lemma FirstIsMissing(repo: Repository, g: Graph, q: Ref, run: seq<Requirement>)
    requires LegalRun(repo, g, {q}, run) && run != []
    ensures q in g && RequiredRef(run[0]) in g[q].edges && RequiredRef(run[0]) !in Installed(g)
  {
    var r := RequiredRef(run[0]);
    assert Wanted(g, {q}, r);
  }

  /** In the end n is settled: it has been required, or cannot be. */
  lemma MissingIsSettled(repo: Repository, g: Graph, h: Graph, q: Ref, n: Ref, run: seq<Requirement>)
    requires WellFormed(g) && q in Installed(g) && n in g[q].edges && n !in Installed(g)
    requires Resolved(repo, g, h, q, run) && AllSettled(repo, h, {q})
    ensures Unsatisfiable(repo, h, n) || n in RequiredRefs(run)
  {
    RunGrows(repo, g, {q}, run);
    RunInstalls(repo, g, {q}, run);
    assert h[q] == g[q];
    assert Settled(repo, h, n);
  }

  /**
   The converse: a live package whose dependency n is gone requires n again, unless no version of it is acceptable;
   and when nothing else is gone, it requires n first, and so directly, whatever the order of the resolution.
   */
  lemma DependantBringsItBack(
    repo: Repository, scope: Scope, c: Cluster, g: Graph, h: Graph, q: Ref, n: Ref, run: seq<Requirement>)
    requires q in LivePackages(c) && n in ManifestEdges(q, c[q].manifest) && n !in LivePackages(c)
    requires Checked(repo, scope, c, g, h, q, c[q].manifest, c[q].version, run)
    requires AllTidy(repo, scope, c, q, c[q].manifest) && !Unsatisfiable(repo, h, n)
    ensures n in RequiredRefs(run)
    ensures ManifestEdges(q, c[q].manifest).Keys <= LivePackages(c) + {n} ==> Direct(run, n)
  {
    var m, v := c[q].manifest, c[q].version;
    var g1 := Added(g, q, m, Parsed(v), ManualFlag(g, m.name)).0;
    AddedSelf(g, q, m, v, ManualFlag(g, m.name));
    ClusterIsTidy(g, c);
    AddedIsTidy(g, q, m, v, ManualFlag(g, m.name));
    MissingIsSettled(repo, g1, h, q, n, run);
    if ManifestEdges(q, m).Keys <= LivePackages(c) + {n} {
      FirstIsMissing(repo, g1, q, run);
      assert run[0] in run;
    }
  }

  lemma NeedsOnlyN(g: Graph, c0: Cluster, n: Ref, c: Cluster, q: Ref)
    requires AtRest(g, c0) && n in c0 && CascadeState(g, c0, n, c)
    requires q in LivePackages(c) && DependsOn(g, q, n)
    ensures n in ManifestEdges(q, c[q].manifest)
    ensures LiveHoldsLive(g, n, c) ==> ManifestEdges(q, c[q].manifest).Keys <= LivePackages(c) + {n}
  {
    forall x
      ensures x in ManifestEdges(q, c[q].manifest) <==> DependsOn(g, q, x)
    {
      SameNeeds(g, c0, n, c, q, x);
    }
  }

  /**
   A deletion that leaves a dependant behind is undone: in every state of the cascade in which n is gone and a
   package that depended on it is still live, that package requires n.
   */
  lemma UncheckedDeletionComesBack(
    repo: Repository, scope: Scope, g: Graph, c0: Cluster, n: Ref, c: Cluster, q: Ref,
    k: Graph, h: Graph, run: seq<Requirement>)
    requires AtRest(g, c0) && n in c0 && CascadeState(g, c0, n, c)
    requires n !in c && q in LivePackages(c) && DependsOn(g, q, n)
    requires Checked(repo, scope, c, k, h, q, c[q].manifest, c[q].version, run)
    requires AllTidy(repo, scope, c, q, c[q].manifest) && !Unsatisfiable(repo, h, n)
    ensures n in RequiredRefs(run)
    ensures LiveHoldsLive(g, n, c) ==> Direct(run, n) && Required(repo, c, n)
  {
    NeedsOnlyN(g, c0, n, c, q);
    DependantBringsItBack(repo, scope, c, k, h, q, n, run);
  }
}
