/**
 `internal/dependency/manager.go`: the greedy depth-first resolver on the mutable graph.  The order
 in which siblings are visited is Go's map order, which `GraphHeap` leaves open; everything here
 holds for every order.
 */
module DependencyManager {
  import opened Wrappers
  import opened Semver
  import opened GraphModel
  import opened Installation
  import opened Resolution
  import opened GraphHeap

  datatype ResolveError =
    | VersionsUnavailable(packageName: string)
    | ManifestUnavailable(packageName: string, version: string)
    | InvalidConstraint(packageName: string)

  /** A package of that name is not installed. */
  ghost predicate Lacks(g: Graph, d: Ref, name: string) {
    d in g && g[d].version.None? && g[d].packageName == name
  }

  /**
   An error names a package that the graph lacks, and the versions or the manifest of its best version cannot be
   fetched; or one that was just installed, and its manifest has a malformed constraint.
   */
  ghost predicate Grounded(repo: Repository, g: Graph, e: ResolveError) {
    match e
    case VersionsUnavailable(name) => name !in repo.versions && exists d :: Lacks(g, d, name)
    case ManifestUnavailable(name, version) =>
      && name in repo.versions && (name, version) !in repo.manifests
      && exists d, v :: Lacks(g, d, name) && IsMax(g, d, repo.versions[name], Some(v)) && v.original == version
    case InvalidConstraint(name) => exists r, v :: AddedMalformed(repo, g, name, r, v)
  }

  ghost predicate AddedMalformed(repo: Repository, g: Graph, name: string, r: Ref, v: Version) {
    && (name, v.original) in repo.manifests && IsMalformed(repo.manifests[(name, v.original)])
    && r in g && g[r].version == Some(v)
  }

  /** The vertex `dm.add` writes: cluster packages go by the name in their manifest. */
  function AddedRef(ref: Ref, m: Manifest): Ref {
    if ref.namespace == "" then Ref(m.name, "") else ref
  }

  // ---------------------------------------------------------------- termination

  /** Vertices with their labels: all the resolver can come across. */
  type Scope = set<(Ref, string)>

  ghost predicate Covered(scope: Scope, g: Graph) {
    forall r :: r in g && g[r].version.None? ==> (r, g[r].packageName) in scope
  }

  /** Whatever manifest is added for a member, the targets it creates are members. */
  ghost predicate Closed(repo: Repository, scope: Scope) {
    forall s, v, t :: s in scope && (s.1, v) in repo.manifests &&
                      t in Targets(AddedRef(s.0, repo.manifests[(s.1, v)]), repo.manifests[(s.1, v)]) ==>
                      (t.ref, t.packageName) in scope
  }

  ghost function Pending(scope: Scope, g: Graph): set<Ref> {
    (set s | s in scope :: s.0) - Installed(g)
  }

  ghost function HasEdges(g: Graph, r: Ref): nat {
    if r in g && g[r].edges != map[] then 1 else 0
  }

  ghost predicate LabelsKept(g: Graph, h: Graph) {
    g.Keys <= h.Keys && forall r {:trigger h[r]} :: r in g ==> h[r].packageName == g[r].packageName
  }

  lemma LabelsKeptTrans(g: Graph, h: Graph, k: Graph)
    requires LabelsKept(g, h) && LabelsKept(h, k)
    ensures LabelsKept(g, k)
  {
    forall r | r in g
      ensures r in k && k[r].packageName == g[r].packageName
    {
      assert h[r].packageName == g[r].packageName;
    }
  }

  /** Part of the way to termination. */
  ghost predicate Advanced(scope: Scope, g: Graph, h: Graph) {
    && Covered(scope, h)
    && |Pending(scope, h)| <= |Pending(scope, g)|
    && LabelsKept(g, h)
  }

  lemma AdvancedTrans(scope: Scope, g: Graph, h: Graph, k: Graph)
    requires Advanced(scope, g, h) && Advanced(scope, h, k)
    ensures Advanced(scope, g, k)
  {
    LabelsKeptTrans(g, h, k);
  }

  lemma CoveredStep(repo: Repository, scope: Scope, g: Graph, r: Ref, v: Version, manual: bool)
    requires Covered(scope, g) && Closed(repo, scope)
    requires r in g && g[r].version.None? && (g[r].packageName, v.original) in repo.manifests
    requires Added(g, AddedRef(r, repo.manifests[(g[r].packageName, v.original)]),
                   repo.manifests[(g[r].packageName, v.original)], Parsed(v), manual).1
    ensures var m := repo.manifests[(g[r].packageName, v.original)];
            var h := Added(g, AddedRef(r, m), m, Parsed(v), manual).0;
            && Advanced(scope, g, h)
            && (AddedRef(r, m) == r ==> |Pending(scope, h)| < |Pending(scope, g)|)
            && (AddedRef(r, m) != r ==> h[r] == g[r])
  {
    var m := repo.manifests[(g[r].packageName, v.original)];
    var ref := AddedRef(r, m);
    var h := Added(g, ref, m, Parsed(v), manual).0;
    AddedEffect(g, ref, m, v, manual);
    AddedInstalls(g, ref, m, v, manual);
    var s := (r, g[r].packageName);
    assert s in scope;
    forall x | x in h && h[x].version.None?
      ensures (x, h[x].packageName) in scope
    {
      if x !in g {
        var t :| t in Targets(ref, m) && t.ref == x && h[x] == Uninstalled(t.packageName);
        assert (t.ref, t.packageName) in scope;
      }
    }
    assert Pending(scope, h) == Pending(scope, g) - {ref};
    assert r in Pending(scope, g);
  }

  // ---------------------------------------------------------------- tidy labels

  /** Cluster packages are labelled with their own name. */
  ghost predicate ClusterLabels(g: Graph) {
    forall r :: r in g && r.namespace == "" ==> g[r].packageName == r.name
  }

  /** A cluster package with components needs a default namespace for them; other packages do not. */
  ghost predicate HasNamespace(ref: Ref, m: Manifest) {
    ref.namespace == "" && m.components != [] ==> m.defaultNamespace != ""
  }

  /** Manifests carry the name they are fetched by, and their components have a namespace to live in. */
  ghost predicate TidyRepository(repo: Repository, scope: Scope) {
    forall s, v :: s in scope && (s.1, v) in repo.manifests ==>
      repo.manifests[(s.1, v)].name == s.1 && HasNamespace(s.0, repo.manifests[(s.1, v)])
  }

  ghost predicate Tidy(repo: Repository, scope: Scope, g: Graph) {
    TidyRepository(repo, scope) && ClusterLabels(g)
  }

  lemma TargetLabels(ref: Ref, m: Manifest, t: Target)
    requires t in Targets(ref, m)
    requires HasNamespace(ref, m)
    ensures t.ref.namespace == "" ==> t.packageName == t.ref.name
  {
    var i :| 0 <= i < |Targets(ref, m)| && Targets(ref, m)[i] == t;
    if i >= |m.dependencies| {
      assert t == ComponentTarget(ref, m, m.components[i - |m.dependencies|]);
    }
  }

  lemma TidyStep(repo: Repository, scope: Scope, g: Graph, owners: set<Ref>, q: Requirement)
    requires Tidy(repo, scope, g) && Covered(scope, g) && LegalPick(repo, g, owners, q)
    ensures Tidy(repo, scope, Step(repo, g, q))
  {
    var ref, m, h := RequiredRef(q), ManifestOf(repo, q), Step(repo, g, q);
    assert (ref, q.name) in scope;
    AddedEffect(g, ref, m, q.version, ManualFlag(g, m.name));
    forall r | r in h && r.namespace == ""
      ensures h[r].packageName == r.name
    {
      if r !in g {
        var t :| t in Targets(ref, m) && t.ref == r && h[r] == Uninstalled(t.packageName);
        TargetLabels(ref, m, t);
      } else {
        assert h[r].packageName == g[r].packageName;
      }
    }
  }

  // ---------------------------------------------------------------- the resolver

  /** `dm.add`; note that the manual flag is looked up under the manifest's name. */
  method Add(g: DependencyGraph, name: string, namespace: string, m: Manifest, version: VersionText) returns (ok: bool)
    requires g.Valid()
    modifies g, g.repr
    ensures g.Valid() && forall v :: v in g.repr && v !in old(g.repr) ==> fresh(v)
    ensures (g.model, ok) ==
            Added(old(g.model), AddedRef(Ref(name, namespace), m), m, version, ManualFlag(old(g.model), m.name))
    ensures ok && version.Parsed? ==>
              var r := if namespace == "" then Ref(m.name, "") else Ref(name, namespace);
              && r in g.model && g.model[r].version == Some(version.version)
              && (g.model[r].manual <==> Ref(m.name, "") in old(g.model) && old(g.model)[Ref(m.name, "")].manual)
  {
    ghost var g0 := g.model;
    var manual := g.Manual(m.name, "");
    if namespace == "" {
      ok := g.Add(Ref(m.name, ""), m, version, manual);
    } else {
      ok := g.Add(Ref(name, namespace), m, version, manual);
    }
    if version.Parsed? { AddedEffect(g0, AddedRef(Ref(name, namespace), m), m, version.version, manual); }
  }

  /** What a resolution that returned reqs leaves behind. */
  ghost predicate Resolved(repo: Repository, g: Graph, h: Graph, of: Ref, reqs: seq<Requirement>) {
    && LegalRun(repo, g, {of}, reqs)
    && h == Replay(repo, g, reqs)
    && AllSettled(repo, h, RequiredRefs(reqs))
  }

  lemma ResolvedNothing(repo: Repository, g: Graph, of: Ref)
    ensures Resolved(repo, g, g, of, [])
  {
    assert RequiredRefs([]) == {};
  }

  /** After a legal pick, resolving the picked package resolves the dependency it was picked for. */
  lemma ResolvedPick(
    repo: Repository, g: Graph, h: Graph, of: Ref, q: Requirement, added: seq<Requirement>)
    requires LegalPick(repo, g, {of}, q)
    requires Resolved(repo, Step(repo, g, q), h, RequiredRef(q), added)
    requires AllSettled(repo, h, {RequiredRef(q)})
    ensures Resolved(repo, g, h, of, [q] + added)
    ensures Settled(repo, h, RequiredRef(q))
  {
    var ref, g1 := RequiredRef(q), Step(repo, g, q);
    PickGrows(repo, g, {of}, q);
    RunGrows(repo, g1, {ref}, added);
    MoreOwners(repo, g1, {ref}, {of} + {ref}, added);
    LegalCons(repo, g, {of}, q, added);
    assert ([q] + added)[1..] == added;
    RequiredRefsCons([q] + added);
  }

  lemma ResolvedSettled(repo: Repository, g: Graph, h: Graph, of: Ref, reqs: seq<Requirement>, d: Ref)
    requires Resolved(repo, g, h, of, reqs) && Settled(repo, g, d)
    ensures Settled(repo, h, d)
  {
    RunGrows(repo, g, {of}, reqs);
    SettledStays(repo, g, h, d);
  }

  lemma ResolvedConcat(
    repo: Repository, g: Graph, g1: Graph, h: Graph, of: Ref, a: seq<Requirement>, b: seq<Requirement>)
    requires Resolved(repo, g, g1, of, a) && Resolved(repo, g1, h, of, b)
    ensures Resolved(repo, g, h, of, a + b)
  {
    RunConcat(repo, g, {of}, a, {of}, b);
    ReplayConcat(repo, g, a, b);
    assert RequiredRefs(a + b) == RequiredRefs(a) + RequiredRefs(b);
    RunGrows(repo, g1, {of}, b);
    RunInstalls(repo, g, {of}, a);
    forall w, d | w in RequiredRefs(a) && w in h && d in h[w].edges
      ensures Settled(repo, h, d)
    {
      assert w in Installed(g1) && h[w] == g1[w];
      SettledStays(repo, g1, h, d);
    }
  }

  lemma StillWanted(repo: Repository, g: Graph, h: Graph, of: Ref, reqs: seq<Requirement>, d: Ref)
    requires WellFormed(g) && Resolved(repo, g, h, of, reqs) && of in g && d in g[of].edges
    ensures Wanted(h, {of}, d)
  {
    assert NodeFits(g.Keys, g[of]);
    RunGrows(repo, g, {of}, reqs);
    assert of in Installed(g) && h[of] == g[of];
  }

  /** The dependencies of the requested package do not change, so settling each settles all. */
  lemma AllOfThem(repo: Repository, g: Graph, h: Graph, of: Ref, reqs: seq<Requirement>)
    requires WellFormed(g) && Resolved(repo, g, h, of, reqs)
    requires forall d :: of in g && d in g[of].edges ==> Settled(repo, h, d)
    ensures AllSettled(repo, h, {of})
  {
    RunGrows(repo, g, {of}, reqs);
    RunInstalls(repo, g, {of}, reqs);
    RunWellFormed(repo, g, reqs);
    if of in Installed(g) {
      assert h[of] == g[of];
    } else if of in h {
      assert NodeFits(h.Keys, h[of]);
    }
  }

  // ---------------------------------------------------------------- what the methods achieve

  ghost predicate DependenciesInstalled(g: Graph, of: Ref) {
    of in g ==> g[of].edges.Keys <= Installed(g)
  }

  /** `addDependencies` for one package: all its dependencies are dealt with. */
  ghost predicate PackageDone(repo: Repository, scope: Scope, g: Graph, h: Graph, of: Ref, reqs: seq<Requirement>) {
    && Advanced(scope, g, h)
    && (DependenciesInstalled(g, of) ==> reqs == [] && h == g)
    && (Tidy(repo, scope, g) ==> Tidy(repo, scope, h) && Resolved(repo, g, h, of, reqs) && AllSettled(repo, h, {of}))
  }

  ghost predicate AllInstalled(g: Graph, deps: seq<PackageRef>) {
    forall d :: d in deps ==> RefOf(d) in Installed(g)
  }

  /** Some of its dependencies are dealt with. */
  ghost predicate PackageBegun(
    repo: Repository, scope: Scope, g: Graph, h: Graph, of: Ref, deps: seq<PackageRef>, reqs: seq<Requirement>)
  {
    && Advanced(scope, g, h)
    && (AllInstalled(g, deps) ==> reqs == [] && h == g)
    && (Tidy(repo, scope, g) ==>
          && Tidy(repo, scope, h) && Resolved(repo, g, h, of, reqs)
          && forall d :: d in deps ==> Settled(repo, h, RefOf(d)))
  }

  /** One dependency d of a package is dealt with. */
  ghost predicate DependencyDone(
    repo: Repository, scope: Scope, g: Graph, h: Graph, of: Ref, d: Ref, reqs: seq<Requirement>)
  {
    && Advanced(scope, g, h)
    && (d in Installed(g) ==> reqs == [] && h == g)
    && (Tidy(repo, scope, g) && Wanted(g, {of}, d) ==>
          Tidy(repo, scope, h) && Resolved(repo, g, h, of, reqs) && Settled(repo, h, d))
  }

  lemma Begin(repo: Repository, scope: Scope, g: Graph, of: Ref)
    requires Covered(scope, g)
    ensures PackageBegun(repo, scope, g, g, of, [], [])
  {
    if Tidy(repo, scope, g) { ResolvedNothing(repo, g, of); }
  }

  lemma Continue(
    repo: Repository, scope: Scope, g: Graph, g1: Graph, h: Graph, of: Ref, deps: seq<PackageRef>, i: nat,
    a: seq<Requirement>, b: seq<Requirement>)
    requires WellFormed(g) && i < |deps| && of in g && RefOf(deps[i]) in g[of].edges
    requires PackageBegun(repo, scope, g, g1, of, deps[..i], a)
    requires DependencyDone(repo, scope, g1, h, of, RefOf(deps[i]), b)
    ensures PackageBegun(repo, scope, g, h, of, deps[..i + 1], a + b)
  {
    AdvancedTrans(scope, g, g1, h);
    if Tidy(repo, scope, g) {
      StillWanted(repo, g, g1, of, a, RefOf(deps[i]));
      ResolvedConcat(repo, g, g1, h, of, a, b);
      forall d | d in deps[..i + 1]
        ensures Settled(repo, h, RefOf(d))
      {
        if d in deps[..i] {
          ResolvedSettled(repo, g1, h, of, b, RefOf(d));
        }
      }
    }
  }

  lemma Finish(
    repo: Repository, scope: Scope, g: Graph, h: Graph, of: Ref, deps: seq<PackageRef>, reqs: seq<Requirement>)
    requires WellFormed(g) && PackageBegun(repo, scope, g, h, of, deps, reqs)
    requires forall r :: of in g && r in g[of].edges ==> exists d :: d in deps && RefOf(d) == r
    requires forall d :: d in deps ==> of in g && RefOf(d) in g[of].edges
    ensures PackageDone(repo, scope, g, h, of, reqs)
  {
    if Tidy(repo, scope, g) {
      forall r | of in g && r in g[of].edges
        ensures Settled(repo, h, r)
      {
        var d :| d in deps && RefOf(d) == r;
      }
      AllOfThem(repo, g, h, of, reqs);
    }
  }

  /** The dependency is installed, or no version of it is acceptable: nothing is added. */
  lemma NothingToAdd(repo: Repository, scope: Scope, g: Graph, of: Ref, d: Ref)
    requires Covered(scope, g) && Settled(repo, g, d)
    ensures DependencyDone(repo, scope, g, g, of, d, [])
  {
    if Tidy(repo, scope, g) { ResolvedNothing(repo, g, of); }
  }

  /** A version was chosen for the dependency, and its manifest exists. */
  ghost predicate Chosen(repo: Repository, g: Graph, dep: PackageRef, v: Version) {
    && RefOf(dep) in g && g[RefOf(dep)].packageName == dep.packageName && g[RefOf(dep)].version.None?
    && dep.packageName in repo.versions
    && IsMax(g, RefOf(dep), repo.versions[dep.packageName], Some(v))
    && (dep.packageName, v.original) in repo.manifests
  }

  function RequirementFor(dep: PackageRef, name: string, v: Version, transitive: bool): Requirement {
    Requirement(
      name, v, if dep.namespace != "" then Some(ComponentMetadata(dep.name, dep.namespace)) else None, transitive)
  }

  /** With tidy labels, the requirement recorded is the legal pick that was made. */
  lemma TidyPick(
    repo: Repository, scope: Scope, g: Graph, of: Ref, dep: PackageRef, v: Version, transitive: bool)
    requires Tidy(repo, scope, g) && Covered(scope, g) && Wanted(g, {of}, RefOf(dep)) && Chosen(repo, g, dep, v)
    requires var m := repo.manifests[(dep.packageName, v.original)];
             Added(g, AddedRef(RefOf(dep), m), m, Parsed(v), ManualFlag(g, m.name)).1
    ensures var m := repo.manifests[(dep.packageName, v.original)];
            var q := RequirementFor(dep, m.name, v, transitive);
            && RequiredRef(q) == RefOf(dep)
            && LegalPick(repo, g, {of}, q)
            && Step(repo, g, q) == Added(g, AddedRef(RefOf(dep), m), m, Parsed(v), ManualFlag(g, m.name)).0
  {
    var m := repo.manifests[(dep.packageName, v.original)];
    assert (RefOf(dep), dep.packageName) in scope;
    AddedEffect(g, RefOf(dep), m, v, ManualFlag(g, m.name));
  }

  /** The chosen version was added and its own dependencies were dealt with. */
  lemma AddedAndResolved(
    repo: Repository, scope: Scope, g: Graph, h: Graph, of: Ref, dep: PackageRef, v: Version, transitive: bool,
    added: seq<Requirement>)
    requires Covered(scope, g) && Closed(repo, scope) && Chosen(repo, g, dep, v)
    requires var m := repo.manifests[(dep.packageName, v.original)];
             var (g1, ok) := Added(g, AddedRef(RefOf(dep), m), m, Parsed(v), ManualFlag(g, m.name));
             ok && PackageDone(repo, scope, g1, h, RefOf(dep), added)
    ensures var m := repo.manifests[(dep.packageName, v.original)];
            DependencyDone(repo, scope, g, h, of, RefOf(dep), [RequirementFor(dep, m.name, v, transitive)] + added)
  {
    var m := repo.manifests[(dep.packageName, v.original)];
    var g1 := Added(g, AddedRef(RefOf(dep), m), m, Parsed(v), ManualFlag(g, m.name)).0;
    CoveredStep(repo, scope, g, RefOf(dep), v, ManualFlag(g, m.name));
    AdvancedTrans(scope, g, g1, h);
    if Tidy(repo, scope, g) && Wanted(g, {of}, RefOf(dep)) {
      TidyPick(repo, scope, g, of, dep, v, transitive);
      var q := RequirementFor(dep, m.name, v, transitive);
      TidyStep(repo, scope, g, {of}, q);
      ResolvedPick(repo, g, h, of, q, added);
    }
  }

  /** A component of a cluster package without a default namespace is labelled with another name than its own. */
  lemma NoNamespaceMislabels(ref: Ref, m: Manifest, c: Component)
    requires c in m.components && ref.namespace == "" && m.defaultNamespace == ""
    ensures exists t :: t in Targets(ref, m) && t.ref == Ref(ComponentName(ref.name, c), "") && t.packageName == c.name
    ensures c.installedName == "" ==> ComponentName(ref.name, c) != c.name
  {
    var i :| 0 <= i < |m.components| && m.components[i] == c;
    assert Targets(ref, m)[|m.dependencies| + i] == ComponentTarget(ref, m, c);
  }

  /**
   What becomes of a dependency for which a version was chosen: `dm.add` installs it exactly when it is
   namespaced or goes by the name in the manifest.  Otherwise another vertex is installed in its place, the
   recursion adds nothing, and the dependency is not settled, unless what was added rules out the chosen version.
   */
  lemma InstalledIffNamed(
    repo: Repository, scope: Scope, g: Graph, h: Graph, dep: PackageRef, v: Version, added: seq<Requirement>)
    requires WellFormed(g) && Covered(scope, g) && Closed(repo, scope) && Chosen(repo, g, dep, v)
    requires var m := repo.manifests[(dep.packageName, v.original)];
             var (g1, ok) := Added(g, AddedRef(RefOf(dep), m), m, Parsed(v), ManualFlag(g, m.name));
             ok && PackageDone(repo, scope, g1, h, RefOf(dep), added)
    ensures var m := repo.manifests[(dep.packageName, v.original)];
            var g1 := Added(g, AddedRef(RefOf(dep), m), m, Parsed(v), ManualFlag(g, m.name)).0;
            && (RefOf(dep) in Installed(g1) <==> dep.namespace != "" || m.name == dep.name)
            && (RefOf(dep) !in Installed(g1) ==>
                  && added == [] && RefOf(dep) in h && RefOf(dep) !in Installed(h)
                  && Ref(m.name, "") in Installed(h)
                  && (Acceptable(h, RefOf(dep), v) ==> !Settled(repo, h, RefOf(dep))))
  {
    var m := repo.manifests[(dep.packageName, v.original)];
    var ref, manual := AddedRef(RefOf(dep), m), ManualFlag(g, m.name);
    CoveredStep(repo, scope, g, RefOf(dep), v, manual);
    AddedInstalls(g, ref, m, v, manual);
    assert NodeFits(g.Keys, g[RefOf(dep)]);
  }

  /** The requirement is for d itself: named by a manifest that is fetched under the label of d. */
  ghost predicate DirectTo(repo: Repository, g: Graph, d: Ref, p: Requirement) {
    d in g && exists v ::
      && (g[d].packageName, v) in repo.manifests && p.name == repo.manifests[(g[d].packageName, v)].name
      && RequiredRef(p) == if d.namespace == "" then Ref(p.name, "") else d
  }

  /** Only requirements for dependencies of the package itself are not flagged transitive, and the first one is not. */
  ghost predicate Flagged(repo: Repository, g: Graph, of: Ref, transitive: bool, reqs: seq<Requirement>) {
    && (reqs != [] ==> reqs[0].transitive == transitive)
    && (transitive ==> forall p :: p in reqs ==> p.transitive)
    && forall p :: p in reqs && !p.transitive ==> exists d :: of in g && d in g[of].edges && DirectTo(repo, g, d, p)
  }

  /** The same, of the requirements for one dependency */
  ghost predicate FlaggedFor(repo: Repository, g: Graph, d: Ref, transitive: bool, reqs: seq<Requirement>) {
    && (reqs != [] ==> reqs[0].transitive == transitive)
    && (transitive ==> forall p :: p in reqs ==> p.transitive)
    && forall p :: p in reqs && !p.transitive ==> DirectTo(repo, g, d, p)
  }

  lemma FlaggedMore(
    repo: Repository, g: Graph, g1: Graph, of: Ref, d: Ref, transitive: bool, a: seq<Requirement>, b: seq<Requirement>)
    requires LabelsKept(g, g1) && of in g && d in g[of].edges && d in g
    requires Flagged(repo, g, of, transitive, a) && FlaggedFor(repo, g1, d, transitive, b)
    ensures Flagged(repo, g, of, transitive, a + b)
  {
    forall p | p in a + b && !p.transitive
      ensures exists d :: of in g && d in g[of].edges && DirectTo(repo, g, d, p)
    {
      if p in b {
        assert g1[d].packageName == g[d].packageName;
        assert DirectTo(repo, g, d, p);
      }
    }
  }

  lemma FlaggedPick(
    repo: Repository, g: Graph, dep: PackageRef, v: Version, transitive: bool, g1: Graph, added: seq<Requirement>)
    requires Chosen(repo, g, dep, v) && Flagged(repo, g1, RefOf(dep), true, added)
    ensures var m := repo.manifests[(dep.packageName, v.original)];
            FlaggedFor(repo, g, RefOf(dep), transitive, [RequirementFor(dep, m.name, v, transitive)] + added)
  {
    var m := repo.manifests[(dep.packageName, v.original)];
    var q := RequirementFor(dep, m.name, v, transitive);
    assert DirectTo(repo, g, RefOf(dep), q);
  }

  /** The recursion is justified: one fewer pending, or nothing to recurse into. */
  lemma Decreases(repo: Repository, scope: Scope, g: Graph, dep: PackageRef, v: Version)
    requires WellFormed(g) && Covered(scope, g) && Closed(repo, scope) && Chosen(repo, g, dep, v)
    requires var m := repo.manifests[(dep.packageName, v.original)];
             Added(g, AddedRef(RefOf(dep), m), m, Parsed(v), ManualFlag(g, m.name)).1
    ensures var m := repo.manifests[(dep.packageName, v.original)];
            var h := Added(g, AddedRef(RefOf(dep), m), m, Parsed(v), ManualFlag(g, m.name)).0;
            && Covered(scope, h)
            && (|Pending(scope, h)| < |Pending(scope, g)| ||
                (|Pending(scope, h)| == |Pending(scope, g)| && HasEdges(h, RefOf(dep)) == 0))
  {
    var m := repo.manifests[(dep.packageName, v.original)];
    CoveredStep(repo, scope, g, RefOf(dep), v, ManualFlag(g, m.name));
    assert NodeFits(g.Keys, g[RefOf(dep)]);
  }

  // ---------------------------------------------------------------- the methods

  /**
   `addDependencies`.  The scope is any finite set that is closed under the repository's manifests;
   the number of its members that are not installed bounds the recursion.
   */
  method AddDependencies(
    g: DependencyGraph, repo: Repository, name: string, namespace: string, transitive: bool, ghost scope: Scope)
    returns (r: Result<seq<Requirement>, ResolveError>)
    requires g.Valid() && Covered(scope, g.model) && Closed(repo, scope)
    modifies g, g.repr
    ensures g.Valid() && forall v :: v in g.repr && v !in old(g.repr) ==> fresh(v)
    ensures r.Ok? ==> PackageDone(repo, scope, old(g.model), g.model, Ref(name, namespace), r.value)
    ensures r.Ok? ==> Flagged(repo, old(g.model), Ref(name, namespace), transitive, r.value)
    ensures r.Err? ==> Grounded(repo, g.model, r.error)
    decreases |Pending(scope, g.model)|, HasEdges(g.model, Ref(name, namespace)), 1
  {
    ghost var of, g0 := Ref(name, namespace), g.model;
    var deps := g.Dependencies(name, namespace);
    var added: seq<Requirement> := [];
    Begin(repo, scope, g0, of);
    for i := 0 to |deps|
      invariant g.Valid() && forall v :: v in g.repr && v !in old(g.repr) ==> fresh(v)
      invariant PackageBegun(repo, scope, g0, g.model, of, deps[..i], added)
      invariant Flagged(repo, g0, of, transitive, added)
    {
      ghost var g1 := g.model;
      assert deps[i] in deps && g1[RefOf(deps[i])].packageName == g0[RefOf(deps[i])].packageName;
      var more := AddDependency(g, repo, deps[i], transitive, scope, of);
      if more.Err? {
        return more;
      }
      Continue(repo, scope, g0, g1, g.model, of, deps, i, added, more.value);
      FlaggedMore(repo, g0, g1, of, RefOf(deps[i]), transitive, added, more.value);
      added := added + more.value;
    }
    assert deps[..|deps|] == deps;
    Finish(repo, scope, g0, g.model, of, deps, added);
    return Ok(added);
  }

  /** The loop body of `addDependencies` */
  method AddDependency(
    g: DependencyGraph, repo: Repository, dep: PackageRef, transitive: bool, ghost scope: Scope, ghost of: Ref)
    returns (r: Result<seq<Requirement>, ResolveError>)
    requires g.Valid() && Covered(scope, g.model) && Closed(repo, scope)
    requires RefOf(dep) in g.model && g.model[RefOf(dep)].packageName == dep.packageName
    modifies g, g.repr
    ensures g.Valid() && forall v :: v in g.repr && v !in old(g.repr) ==> fresh(v)
    ensures r.Ok? ==> DependencyDone(repo, scope, old(g.model), g.model, of, RefOf(dep), r.value)
    ensures r.Ok? ==> FlaggedFor(repo, old(g.model), RefOf(dep), transitive, r.value)
    ensures r.Err? ==> Grounded(repo, g.model, r.error)
    decreases |Pending(scope, g.model)|, 1, 0
  {
    var choice := ChooseVersion(g, repo, dep);
    if choice.Err? {
      return Err(choice.error);
    } else if choice.value.None? {
      NothingToAdd(repo, scope, g.model, of, RefOf(dep));
      return Ok([]);
    }
    r := AddAndRecurse(g, repo, dep, choice.value.value, transitive, scope, of);
  }

  /** The branch of the loop body that installs a version and resolves its dependencies in turn */
  method AddAndRecurse(
    g: DependencyGraph, repo: Repository, dep: PackageRef, version: Version, transitive: bool, ghost scope: Scope,
    ghost of: Ref)
    returns (r: Result<seq<Requirement>, ResolveError>)
    requires g.Valid() && Covered(scope, g.model) && Closed(repo, scope) && Chosen(repo, g.model, dep, version)
    modifies g, g.repr
    ensures g.Valid() && forall v :: v in g.repr && v !in old(g.repr) ==> fresh(v)
    ensures r.Ok? ==> DependencyDone(repo, scope, old(g.model), g.model, of, RefOf(dep), r.value)
    ensures r.Ok? ==> FlaggedFor(repo, old(g.model), RefOf(dep), transitive, r.value)
    ensures r.Err? ==> Grounded(repo, g.model, r.error)
    decreases |Pending(scope, g.model)|, 0, 2
  {
    var m := repo.manifests[(dep.packageName, version.original)];
    ghost var g0 := g.model;
    var ok := AddChosen(g, repo, dep, version, scope);
    if !ok {
      return Err(InvalidConstraint(dep.packageName));
    }
    ghost var g1 := g.model;
    var added := AddDependencies(g, repo, dep.name, dep.namespace, true, scope);
    if added.Err? {
      return added;
    }
    AddedAndResolved(repo, scope, g0, g.model, of, dep, version, transitive, added.value);
    FlaggedPick(repo, g0, dep, version, transitive, g1, added.value);
    r := Ok([RequirementFor(dep, m.name, version, transitive)] + added.value);
  }

  /** `dm.add` of the version chosen for a dependency; the recursion that follows is justified. */
  method AddChosen(g: DependencyGraph, repo: Repository, dep: PackageRef, version: Version, ghost scope: Scope)
    returns (ok: bool)
    requires g.Valid() && Covered(scope, g.model) && Closed(repo, scope) && Chosen(repo, g.model, dep, version)
    modifies g, g.repr
    ensures g.Valid() && forall v :: v in g.repr && v !in old(g.repr) ==> fresh(v)
    ensures var m := repo.manifests[(dep.packageName, version.original)];
            (g.model, ok) ==
            Added(old(g.model), AddedRef(RefOf(dep), m), m, Parsed(version), ManualFlag(old(g.model), m.name))
    ensures ok ==> Covered(scope, g.model) &&
                   (|Pending(scope, g.model)| < |Pending(scope, old(g.model))| ||
                    (|Pending(scope, g.model)| == |Pending(scope, old(g.model))| && HasEdges(g.model, RefOf(dep)) == 0))
    ensures !ok ==> Grounded(repo, g.model, InvalidConstraint(dep.packageName))
  {
    var m := repo.manifests[(dep.packageName, version.original)];
    ghost var g0 := g.model;
    ok := Add(g, dep.name, dep.namespace, m, Parsed(version));
    if ok {
      Decreases(repo, scope, g0, dep, version);
    } else {
      AddedIffWellFormed(g0, AddedRef(RefOf(dep), m), m, version, ManualFlag(g0, m.name));
      AddedLabel(g0, AddedRef(RefOf(dep), m), m, version, ManualFlag(g0, m.name));
      assert AddedMalformed(repo, g.model, dep.packageName, AddedRef(RefOf(dep), m), version);
    }
  }

  /** The guards of the loop body: what to install for a dependency, if anything. */
  method ChooseVersion(g: DependencyGraph, repo: Repository, dep: PackageRef)
    returns (r: Result<Option<Version>, ResolveError>)
    requires g.Valid()
    requires RefOf(dep) in g.model && g.model[RefOf(dep)].packageName == dep.packageName
    ensures r == Ok(None) ==> Settled(repo, g.model, RefOf(dep))
    ensures r.Ok? && r.value.Some? ==> Chosen(repo, g.model, dep, r.value.value)
    ensures r.Err? ==> Lacks(g.model, RefOf(dep), dep.packageName)
    ensures r.Err? ==>
              match r.error
              case VersionsUnavailable(name) => name == dep.packageName && name !in repo.versions
              case ManifestUnavailable(name, version) =>
                && name == dep.packageName && name in repo.versions && (name, version) !in repo.manifests
                && exists v :: IsMax(g.model, RefOf(dep), repo.versions[name], Some(v)) && v.original == version
              case InvalidConstraint(_) => false
  {
    var installed := g.VersionOf(dep.name, dep.namespace);
    if installed.Some? {
      return Ok(None);
    }
    if dep.packageName !in repo.versions {
      return Err(VersionsUnavailable(dep.packageName));
    }
    var best := g.Max(dep.name, dep.namespace, repo.versions[dep.packageName]);
    if best.Some? && (dep.packageName, best.value.original) !in repo.manifests {
      return Err(ManifestUnavailable(dep.packageName, best.value.original));
    }
    r := Ok(best);
  }
}
