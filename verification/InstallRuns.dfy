/**
 What follows the admission of a package: the operator creates what is required, one live package after the other
 resolving its own dependencies on the cluster of the moment.  When the order of a resolution does not matter, it
 creates exactly what the webhook's check has listed, and does not stop before all of it is there.
 */
module InstallRuns {
  import opened Wrappers
  import opened Semver
  import opened GraphModel
  import opened Installation
  import opened Resolution
  import opened DependencyManager
  import opened Validation
  import opened ResolutionOrder
  import opened OwnedRefs
  import opened Operator
  import opened Ownership
  import opened Cascade
  import opened Admission
  import opened InstallAdmission
  import opened Recreation
  import opened WholeRuns

  // ---------------------------------------------------------------- picks on a graph in between

  /** The check of p has led from g to h, whatever the order; what was there before is complete. */
  ghost predicate Planned(repo: Repository, scope: Scope, g: Graph, h: Graph, p: Ref, run: seq<Requirement>) {
    && Request(repo, scope, g, p) && Tolerant(repo, scope, g, p) && Complete(repo, g, h, p, run)
    && forall w :: w in Installed(g) && w != p ==> g[w].edges.Keys <= Installed(g)
  }

  /** k has what g has and some of what h has, in the same versions and with the same edges. */
  ghost predicate Within(g: Graph, k: Graph, h: Graph) {
    && Installed(g) <= Installed(k) <= Installed(h)
    && forall r :: r in Installed(k) ==> k[r].version == h[r].version && k[r].edges == h[r].edges
  }

  /** One of the requirements is for the same package in the same version. */
  ghost predicate Planning(run: seq<Requirement>, e: Requirement) {
    exists i :: 0 <= i < |run| && SamePick(run[i], e)
  }

  predicate SamePick(a: Requirement, b: Requirement) {
    RequiredRef(a) == RequiredRef(b) && a.name == b.name && a.version == b.version
  }

  lemma FewerConstraints(k: Graph, h: Graph, r: Ref, v: Version)
    requires Installed(k) <= Installed(h) && forall q :: q in Installed(k) ==> k[q].edges == h[q].edges
    requires Acceptable(h, r, v)
    ensures Acceptable(k, r, v)
  {
    forall c | ConstrainedBy(k, r, c)
      ensures c.accepts(v)
    {
      var q :| DependsOn(k, q, r) && k[q].edges[r] == Some(c);
      assert DependsOn(h, q, r);
    }
  }

  /** What is acceptable in between was acceptable at the start. */
  lemma AcceptableBefore(
    repo: Repository, scope: Scope, g: Graph, h: Graph, p: Ref, run: seq<Requirement>, k: Graph, r: Ref, v: Version)
    requires Planned(repo, scope, g, h, p, run) && Within(g, k, h) && Acceptable(k, r, v)
    ensures Acceptable(g, r, v)
  {
    RunGrows(repo, g, {p}, run);
    forall q | q in Installed(g)
      ensures g[q].edges == k[q].edges
    {
      assert h[q] == g[q];
    }
    FewerConstraints(g, k, r, v);
  }

  lemma PickableHasBest(
    repo: Repository, scope: Scope, g: Graph, h: Graph, p: Ref, run: seq<Requirement>, k: Graph, owners: set<Ref>,
    e: Requirement)
    requires Planned(repo, scope, g, h, p, run) && Within(g, k, h) && Covered(scope, k)
    requires LegalPick(repo, k, owners, e)
    ensures HasBest(repo, scope, g, RequiredRef(e)) && (RequiredRef(e), e.name) in scope
    ensures RequiredRef(e) !in Installed(g) && Acceptable(g, RequiredRef(e), e.version)
  {
    var s := (RequiredRef(e), e.name);
    AcceptableBefore(repo, scope, g, h, p, run, k, s.0, e.version);
    var best := BestExists(g, s.0, repo.versions[e.name]);
    assert s in scope;
    assert s.0 == RequiredRef(e) && BestFor(repo, scope, g, s, best.value);
  }

  /** A dependency of a required package is named by the manifest of its best version. */
  lemma RequiredNames(
    repo: Repository, scope: Scope, g: Graph, h: Graph, p: Ref, run: seq<Requirement>, w: Ref, r: Ref)
    requires Planned(repo, scope, g, h, p, run) && w in RequiredRefs(run) && w in h && r in h[w].edges
    ensures Called(repo, scope, g, p, w) && Names(repo, scope, g, w, r)
  {
    CompletePicks(repo, scope, g, h, p, run);
    var i :| 0 <= i < |run| && RequiredRef(run[i]) == w;
    assert run[i] in run;
    PickedStays(repo, g, {p}, run, i);
    EdgesFromKeys(map[], Targets(w, ManifestOf(repo, run[i])));
    var s: Member := (w, run[i].name);
    var t :| t in Targets(w, ManifestOf(repo, run[i])) && t.ref == r;
    assert s.0 == w && BestFor(repo, scope, g, s, run[i].version);
  }

  /** Whatever graph in between it is made on, a pick is of something the check requires. */
  lemma PickIsPlanned(
    repo: Repository, scope: Scope, g: Graph, h: Graph, p: Ref, run: seq<Requirement>, k: Graph, owners: set<Ref>,
    e: Requirement)
    requires Planned(repo, scope, g, h, p, run) && Within(g, k, h) && Covered(scope, k)
    requires LegalPick(repo, k, owners, e) && owners <= Installed(k)
    ensures RequiredRef(e) in RequiredRefs(run)
  {
    var x := RequiredRef(e);
    PickableHasBest(repo, scope, g, h, p, run, k, owners, e);
    RunInstalls(repo, g, {p}, run);
    RunGrows(repo, g, {p}, run);
    var w :| w in owners && w in k && x in k[w].edges;
    assert x in h[w].edges;
    if w == p {
      assert h[p] == g[p];
      CalledFirst(repo, scope, g, p, x);
    } else if w in Installed(g) {
      assert h[w] == g[w];
    } else {
      RequiredNames(repo, scope, g, h, p, run, w, x);
      CalledNext(repo, scope, g, p, w, x);
    }
    AddsExactlyWhatIsCalled(repo, scope, g, h, p, run, x);
  }

  /** And it is of the same version: the best one, which everything that may be installed allows. */
  lemma PickIsAsPlanned(
    repo: Repository, scope: Scope, g: Graph, h: Graph, p: Ref, run: seq<Requirement>, k: Graph, owners: set<Ref>,
    e: Requirement)
    requires Planned(repo, scope, g, h, p, run) && Within(g, k, h) && Covered(scope, k)
    requires LegalPick(repo, k, owners, e) && owners <= Installed(k)
    ensures Planning(run, e)
  {
    var x := RequiredRef(e);
    PickableHasBest(repo, scope, g, h, p, run, k, owners, e);
    PickIsPlanned(repo, scope, g, h, p, run, k, owners, e);
    CompletePicks(repo, scope, g, h, p, run);
    var i :| 0 <= i < |run| && RequiredRef(run[i]) == x;
    assert run[i] in run;
    var s: Member := (x, run[i].name);
    assert s == (x, e.name);
    assert Called(repo, scope, g, p, s.0) && BestFor(repo, scope, g, s, run[i].version);
    FewerConstraints(k, h, x, run[i].version);
    SameMax(repo, scope, g, h, p, run, k, s, run[i].version, e.version);
    assert SamePick(run[i], e);
  }

  lemma SameMax(
    repo: Repository, scope: Scope, g: Graph, h: Graph, p: Ref, run: seq<Requirement>, k: Graph, s: Member,
    v: Version, w: Version)
    requires Planned(repo, scope, g, h, p, run) && Within(g, k, h)
    requires BestFor(repo, scope, g, s, v) && Acceptable(k, s.0, v)
    requires IsMax(k, s.0, repo.versions[s.1], Some(w))
    ensures v == w
  {
    var versions := repo.versions[s.1];
    RankedNeverClash(g, s.0, versions);
    forall u | Acceptable(k, s.0, u)
      ensures Acceptable(g, s.0, u)
    {
      AcceptableBefore(repo, scope, g, h, p, run, k, s.0, u);
    }
    assert NoClash(k, s.0, versions);
    assert RankedFor(g, s.0, versions);
  }

  lemma StaysWithin(
    repo: Repository, scope: Scope, g: Graph, h: Graph, p: Ref, run: seq<Requirement>, k: Graph, owners: set<Ref>,
    e: Requirement)
    requires Planned(repo, scope, g, h, p, run) && Within(g, k, h)
    requires LegalPick(repo, k, owners, e) && Planning(run, e)
    ensures Within(g, Step(repo, k, e), h)
  {
    var i :| 0 <= i < |run| && SamePick(run[i], e);
    PickGrows(repo, k, owners, e);
    PickedStays(repo, g, {p}, run, i);
    RunInstalls(repo, g, {p}, run);
    assert run[i] in run;
    var k' := Step(repo, k, e);
    forall r | r in Installed(k')
      ensures k'[r].version == h[r].version && k'[r].edges == h[r].edges
    {
      if r != RequiredRef(e) { assert k'[r] == k[r]; }
    }
  }

  /** So every resolution in between requires only what the check has required, in the same versions. */
  lemma {:induction false} RunIsAsPlanned(
    repo: Repository, scope: Scope, g: Graph, h: Graph, p: Ref, run: seq<Requirement>, k: Graph, owners: set<Ref>,
    some: seq<Requirement>)
    requires Planned(repo, scope, g, h, p, run) && Within(g, k, h) && Covered(scope, k)
    requires LegalRun(repo, k, owners, some) && owners <= Installed(k)
    ensures forall e :: e in some ==> Planning(run, e)
    ensures Within(g, Replay(repo, k, some), h)
    decreases |some|
  {
    if some != [] {
      var e := some[0];
      PickIsAsPlanned(repo, scope, g, h, p, run, k, owners, e);
      StaysWithin(repo, scope, g, h, p, run, k, owners, e);
      CoveredPick(repo, scope, k, owners, e);
      PickGrows(repo, k, owners, e);
      RunIsAsPlanned(repo, scope, g, h, p, run, Step(repo, k, e), owners + {RequiredRef(e)}, some[1..]);
      AllPlanning(run, some);
    }
  }

  lemma AllPlanning(run: seq<Requirement>, some: seq<Requirement>)
    requires some != [] && Planning(run, some[0]) && forall e :: e in some[1..] ==> Planning(run, e)
    ensures forall e :: e in some ==> Planning(run, e)
  {
    assert some == [some[0]] + some[1..];
  }

  // ---------------------------------------------------------------- clusters in between

  /** A required package is there as it was picked. */
  ghost predicate AsPicked(repo: Repository, run: seq<Requirement>, r: Ref, q: Package) {
    exists i :: 0 <= i < |run| && RequiredRef(run[i]) == r && Fetchable(repo, run[i]) &&
                q.version == run[i].version && q.manifest == ManifestOf(repo, run[i])
  }

  /** c is c0 with p and some of what the check requires, all of it live. */
  ghost predicate InBetween(
    repo: Repository, c0: Cluster, p: Ref, m: Manifest, v: Version, run: seq<Requirement>, c: Cluster)
  {
    && LivePackages(c) == c.Keys && c0.Keys + {p} <= c.Keys
    && c[p].version == v && c[p].manifest == m
    && forall r :: r in c && r != p ==>
         if r in c0 then c[r].version == c0[r].version && c[r].manifest == c0[r].manifest
         else AsPicked(repo, run, r, c[r])
  }

  /** Lists are of dependencies only. */
  ghost predicate OwnsNeeded(c: Cluster) {
    AllWellOwned(c) && forall r, x :: r in c && Owns(c[r], x) ==> x in ManifestEdges(r, c[r].manifest)
  }

  /**
   The webhook has checked p on a cluster at rest in which nothing is missing; names and namespaces are as they
   should be, and the order in which the resolver visits siblings does not matter.
   */
  ghost predicate Admitted(
    repo: Repository, scope: Scope, c0: Cluster, g: Graph, h: Graph, p: Ref, m: Manifest, v: Version,
    run: seq<Requirement>)
  {
    && AtRest(g, c0) && NothingMissing(g) && p !in c0
    && Checked(repo, scope, c0, g, h, p, m, v, run) && NothingNew(g, h)
    && AllTidy(repo, scope, c0, p, m) && Spans(scope, c0, p, m)
    && Request(repo, scope, Start(g, p, m, v), p) && Tolerant(repo, scope, Start(g, p, m, v), p)
  }

  /** The graph with p, on which the check resolves */
  ghost function Start(g: Graph, p: Ref, m: Manifest, v: Version): Graph {
    Added(g, p, m, Parsed(v), ManualFlag(g, m.name)).0
  }

  lemma StartOf(g: Graph, c: Cluster, p: Ref, m: Manifest, v: Version)
    requires Mirrors(g, c) && Added(g, p, m, Parsed(v), ManualFlag(g, m.name)).1
    ensures var g1 := Start(g, p, m, v);
            && Installed(g1) == LivePackages(c) + {p}
            && g1[p].version == Some(v) && g1[p].edges == ManifestEdges(p, m)
            && forall r :: r in LivePackages(c) && r != p ==>
                 g1[r].version == Some(c[r].version) && g1[r].edges == ManifestEdges(r, c[r].manifest)
  {
    AddedSelf(g, p, m, v, ManualFlag(g, m.name));
    MirrorsVersions(g, c);
  }

  lemma AdmittedIsTidy(
    repo: Repository, scope: Scope, c: Cluster, g: Graph, h: Graph, p: Ref, m: Manifest, v: Version,
    run: seq<Requirement>)
    requires Checked(repo, scope, c, g, h, p, m, v, run) && AllTidy(repo, scope, c, p, m)
    ensures Mirrors(g, c) && Added(g, p, m, Parsed(v), ManualFlag(g, m.name)).1
    ensures Complete(repo, Start(g, p, m, v), h, p, run)
  {
    ClusterIsTidy(g, c);
    AddedIsTidy(g, p, m, v, ManualFlag(g, m.name));
  }

  lemma AdmittedIsPlanned(
    repo: Repository, scope: Scope, c0: Cluster, g: Graph, h: Graph, p: Ref, m: Manifest, v: Version,
    run: seq<Requirement>)
    requires Admitted(repo, scope, c0, g, h, p, m, v, run)
    ensures Planned(repo, scope, Start(g, p, m, v), h, p, run)
  {
    var g1 := Start(g, p, m, v);
    AdmittedIsTidy(repo, scope, c0, g, h, p, m, v, run);
    StartOf(g, c0, p, m, v);
    MirrorsVersions(g, c0);
    forall w, x | w in Installed(g1) && w != p && x in g1[w].edges
      ensures x in Installed(g1)
    {
      assert DependsOn(g, w, x);
    }
  }

  /** What the checked graph says of every package that is there in between */
  lemma CheckedSays(
    repo: Repository, scope: Scope, c0: Cluster, g: Graph, h: Graph, p: Ref, m: Manifest, v: Version,
    run: seq<Requirement>, c: Cluster, r: Ref)
    requires Admitted(repo, scope, c0, g, h, p, m, v, run) && InBetween(repo, c0, p, m, v, run, c) && r in c
    ensures r in Installed(h) && h[r].version == Some(c[r].version) && h[r].edges == ManifestEdges(r, c[r].manifest)
  {
    var g1 := Start(g, p, m, v);
    AdmittedIsTidy(repo, scope, c0, g, h, p, m, v, run);
    StartOf(g, c0, p, m, v);
    RunGrows(repo, g1, {p}, run);
    RunInstalls(repo, g1, {p}, run);
    if r == p || r in c0 {
      assert r in LivePackages(c0) + {p};
      assert h[r] == g1[r];
    } else {
      var i :| 0 <= i < |run| && RequiredRef(run[i]) == r && Fetchable(repo, run[i]) &&
               c[r].version == run[i].version && c[r].manifest == ManifestOf(repo, run[i]);
      PickedStays(repo, g1, {p}, run, i);
      assert run[i] in run;
    }
  }

  /** The graph has every package of c in its version and with its edges. */
  ghost predicate Says(h: Graph, c: Cluster) {
    forall r :: r in c ==>
      r in Installed(h) && h[r].version == Some(c[r].version) && h[r].edges == ManifestEdges(r, c[r].manifest)
  }

  lemma CheckSays(
    repo: Repository, scope: Scope, c0: Cluster, g: Graph, h: Graph, p: Ref, m: Manifest, v: Version,
    run: seq<Requirement>, c: Cluster)
    requires Admitted(repo, scope, c0, g, h, p, m, v, run) && InBetween(repo, c0, p, m, v, run, c)
    ensures Says(h, c)
  {
    forall r | r in c
      ensures r in Installed(h) && h[r].version == Some(c[r].version) && h[r].edges == ManifestEdges(r, c[r].manifest)
    {
      CheckedSays(repo, scope, c0, g, h, p, m, v, run, c, r);
    }
  }

  lemma SayTheSame(g: Graph, k: Graph, h: Graph, c: Cluster)
    requires Says(k, c) && Says(h, c) && Installed(g) <= c.Keys == Installed(k)
    ensures Within(g, k, h)
  {
  }

  lemma StartSays(c: Cluster, k: Graph, q: Ref)
    requires LivePackages(c) == c.Keys && q in c && Mirrors(k, c)
    requires Added(k, q, c[q].manifest, Parsed(c[q].version), ManualFlag(k, c[q].manifest.name)).1
    ensures var k1 := Start(k, q, c[q].manifest, c[q].version); Says(k1, c) && Installed(k1) == c.Keys
  {
    StartOf(k, c, q, c[q].manifest, c[q].version);
    assert c.Keys + {q} == c.Keys;
  }

  lemma InBetweenIsWithin(
    repo: Repository, scope: Scope, c0: Cluster, g: Graph, h: Graph, p: Ref, m: Manifest, v: Version,
    run: seq<Requirement>, c: Cluster, k: Graph, q: Ref)
    requires Admitted(repo, scope, c0, g, h, p, m, v, run) && InBetween(repo, c0, p, m, v, run, c) && q in c
    requires Mirrors(k, c) && Added(k, q, c[q].manifest, Parsed(c[q].version), ManualFlag(k, c[q].manifest.name)).1
    ensures Within(Start(g, p, m, v), Start(k, q, c[q].manifest, c[q].version), h)
  {
    StartSays(c, k, q);
    AdmittedIsTidy(repo, scope, c0, g, h, p, m, v, run);
    StartOf(g, c0, p, m, v);
    CheckSays(repo, scope, c0, g, h, p, m, v, run, c);
    SayTheSame(Start(g, p, m, v), Start(k, q, c[q].manifest, c[q].version), h, c);
  }

  // ---------------------------------------------------------------- names and scopes in between

  /** A required package has the name and namespace that it should have, and is in the scope. */
  lemma PickedIsTidy(
    repo: Repository, scope: Scope, c0: Cluster, g: Graph, h: Graph, p: Ref, m: Manifest, v: Version,
    run: seq<Requirement>, r: Ref, q: Package)
    requires Admitted(repo, scope, c0, g, h, p, m, v, run) && AsPicked(repo, run, r, q)
    ensures (r, q.manifest.name) in scope && (q.manifest.name, q.version.original) in repo.manifests
    ensures repo.manifests[(q.manifest.name, q.version.original)] == q.manifest
    ensures (r.namespace == "" ==> q.manifest.name == r.name) && HasNamespace(r, q.manifest)
  {
    var g1 := Start(g, p, m, v);
    var i :| 0 <= i < |run| && RequiredRef(run[i]) == r && Fetchable(repo, run[i]) &&
             q.version == run[i].version && q.manifest == ManifestOf(repo, run[i]);
    AdmittedIsTidy(repo, scope, c0, g, h, p, m, v, run);
    CompletePicks(repo, scope, g1, h, p, run);
    assert run[i] in run;
    var s: Member := (r, run[i].name);
    assert BestFor(repo, scope, g1, s, run[i].version);
    assert s in scope && (s.1, q.version.original) in repo.manifests;
    RunIsProper(repo, g1, {p}, run, i);
  }

  lemma {:induction false} RunIsProper(repo: Repository, g: Graph, owners: set<Ref>, run: seq<Requirement>, i: nat)
    requires LegalRun(repo, g, owners, run) && i < |run|
    ensures Proper(repo, run[i])
    decreases |run|
  {
    if i > 0 {
      RunIsProper(repo, Step(repo, g, run[0]), owners + {RequiredRef(run[0])}, run[1..], i - 1);
    }
  }

  lemma StillTidyInBetween(
    repo: Repository, scope: Scope, c0: Cluster, g: Graph, h: Graph, p: Ref, m: Manifest, v: Version,
    run: seq<Requirement>, c: Cluster)
    requires Admitted(repo, scope, c0, g, h, p, m, v, run) && InBetween(repo, c0, p, m, v, run, c)
    ensures TidyCluster(c)
  {
    forall r | r in c
      ensures (r.namespace == "" ==> c[r].manifest.name == r.name) && HasNamespace(r, c[r].manifest)
    {
      if r != p && r !in c0 {
        PickedIsTidy(repo, scope, c0, g, h, p, m, v, run, r, c[r]);
      }
    }
  }

  /** The scope has all that the graph can be labelled with for one package. */
  ghost predicate SpannedFor(scope: Scope, r: Ref, m: Manifest) {
    (r, m.name) in scope && forall t :: t in Targets(r, m) ==> (t.ref, t.packageName) in scope
  }

  lemma SpansAll(scope: Scope, c: Cluster, q: Ref)
    requires q in c && forall r :: r in c ==> SpannedFor(scope, VertexOf(c, r), c[r].manifest)
    ensures Spans(scope, c, q, c[q].manifest)
  {
    assert SpannedFor(scope, VertexOf(c, q), c[q].manifest);
  }

  lemma SpannedBefore(scope: Scope, c0: Cluster, p: Ref, m: Manifest, r: Ref)
    requires Spans(scope, c0, p, m) && r in LivePackages(c0)
    ensures SpannedFor(scope, VertexOf(c0, r), c0[r].manifest)
  {
    var key := VertexOf(c0, r);
    assert LabelFrom(c0, key, c0[r].manifest.name);
    forall t | t in Targets(key, c0[r].manifest)
      ensures (t.ref, t.packageName) in scope
    {
      assert LabelFrom(c0, t.ref, t.packageName);
    }
  }

  lemma SpannedWhenPicked(repo: Repository, scope: Scope, r: Ref, v: Version, m: Manifest)
    requires Closed(repo, scope) && (r, m.name) in scope && (m.name, v.original) in repo.manifests
    requires repo.manifests[(m.name, v.original)] == m && (r.namespace == "" ==> m.name == r.name)
    ensures SpannedFor(scope, r, m)
  {
    assert AddedRef(r, m) == r;
  }

  lemma SpannedInBetween(
    repo: Repository, scope: Scope, c0: Cluster, g: Graph, h: Graph, p: Ref, m: Manifest, v: Version,
    run: seq<Requirement>, c: Cluster, r: Ref)
    requires Admitted(repo, scope, c0, g, h, p, m, v, run) && InBetween(repo, c0, p, m, v, run, c) && r in c
    ensures SpannedFor(scope, VertexOf(c, r), c[r].manifest)
  {
    if r == p {
      assert c[r].manifest == m && VertexOf(c, r) == AddedRef(p, m);
    } else if r in c0 {
      assert r in LivePackages(c0) && c[r].manifest == c0[r].manifest && VertexOf(c, r) == VertexOf(c0, r);
      SpannedBefore(scope, c0, p, m, r);
    } else {
      PickedIsTidy(repo, scope, c0, g, h, p, m, v, run, r, c[r]);
      assert VertexOf(c, r) == r;
      SpannedWhenPicked(repo, scope, r, c[r].version, c[r].manifest);
    }
  }

  lemma SpansInBetween(
    repo: Repository, scope: Scope, c0: Cluster, g: Graph, h: Graph, p: Ref, m: Manifest, v: Version,
    run: seq<Requirement>, c: Cluster, q: Ref)
    requires Admitted(repo, scope, c0, g, h, p, m, v, run) && InBetween(repo, c0, p, m, v, run, c) && q in c
    ensures Spans(scope, c, q, c[q].manifest)
  {
    forall r | r in c
      ensures SpannedFor(scope, VertexOf(c, r), c[r].manifest)
    {
      SpannedInBetween(repo, scope, c0, g, h, p, m, v, run, c, r);
    }
    SpansAll(scope, c, q);
  }

  // ---------------------------------------------------------------- what a live package requires in between

  /** The check of a live package in between requires only what the webhook's check has required. */
  lemma CheckInBetween(
    repo: Repository, scope: Scope, c0: Cluster, g: Graph, h: Graph, p: Ref, m: Manifest, v: Version,
    run: seq<Requirement>, c: Cluster, q: Ref, k: Graph, hk: Graph, some: seq<Requirement>)
    requires Admitted(repo, scope, c0, g, h, p, m, v, run) && InBetween(repo, c0, p, m, v, run, c) && q in c
    requires Checked(repo, scope, c, k, hk, q, c[q].manifest, c[q].version, some)
    ensures Complete(repo, Start(k, q, c[q].manifest, c[q].version), hk, q, some)
    ensures Within(Start(g, p, m, v), hk, h) && forall e :: e in some ==> Planning(run, e)
  {
    var n, w := c[q].manifest, c[q].version;
    StillTidyInBetween(repo, scope, c0, g, h, p, m, v, run, c);
    SpansInBetween(repo, scope, c0, g, h, p, m, v, run, c, q);
    AdmittedIsTidy(repo, scope, c, k, hk, q, n, w, some);
    InBetweenIsWithin(repo, scope, c0, g, h, p, m, v, run, c, k, q);
    AddedIsCovered(scope, k, c, q, n, w, ManualFlag(k, n.name));
    StartOf(k, c, q, n, w);
    AdmittedIsPlanned(repo, scope, c0, g, h, p, m, v, run);
    RunIsAsPlanned(repo, scope, Start(g, p, m, v), h, p, run, Start(k, q, n, w), {q}, some);
  }

  // ---------------------------------------------------------------- steps of the operator after the admission

  /** Package r as the pass of q creates it */
  ghost predicate CreatedBy(repo: Repository, scope: Scope, c: Cluster, q: Ref, r: Ref, made: Package) {
    exists k, hk, some: seq<Requirement>, e ::
      && q in LivePackages(c) && Checked(repo, scope, c, k, hk, q, c[q].manifest, c[q].version, some)
      && e in some && !e.transitive && RequiredRef(e) == r
      && Fetchable(repo, e) && made.version == e.version && made.manifest == ManifestOf(repo, e)
  }

  /** A step of the operator; what it creates, some live package requires in that version. */
  ghost predicate InstallAction(repo: Repository, scope: Scope, c: Cluster, a: Action) {
    OperatorAction(repo, c, a) && (a.Create? ==> exists q :: CreatedBy(repo, scope, c, q, a.r, a.p))
  }

  ghost predicate InstallRun(repo: Repository, scope: Scope, c: Cluster, actions: seq<Action>, d: Cluster)
    decreases |actions|
  {
    if actions == [] then c == d
    else InstallAction(repo, scope, c, actions[0]) && InstallRun(repo, scope, Apply(c, actions[0]), actions[1..], d)
  }

  /** Only statuses and finalizers differ. */
  ghost predicate SamePackages(c: Cluster, d: Cluster) {
    && d.Keys == c.Keys && LivePackages(d) == LivePackages(c)
    && forall r :: r in c ==> d[r].version == c[r].version && d[r].manifest == c[r].manifest
  }

  /** References to needed packages are kept by a pass that has found all of them. */
  lemma NothingPruned(c: Cluster, r: Ref, refs: seq<OwnedRef>, current: seq<OwnedRef>, env: Env)
    requires PackageRefs(refs) && forall x :: Lists(refs, RefTo(x)) ==> Lists(current, RefTo(x))
    ensures PackageScan(c, r, false, refs, current, env).deleted == []
  {
    if !env.listFails {
      var s, decide := Started(refs), PackageVisits(c, r, false, current, env.packageApi);
      forall k: nat, x | x in refs
        ensures decide(k, x) == Keep
      {
        ListsSame(current, x, RefTo(TargetOf(x)));
        ListsSame(refs, x, RefTo(TargetOf(x)));
        assert VisitPackage(c, r, false, current, env.packageApi(k), x) == Keep;
      }
      AllKept(s, 0, |refs|, decide);
    }
  }

  lemma LiveDeletesNothing(c: Cluster, r: Ref, f: Findings, env: Env)
    requires OwnsNeeded(c) && r in LivePackages(c) && Finds(c, r, f)
    ensures LiveOutcome(c, r, f, env).deleted == []
    ensures forall x :: Lists(LiveOutcome(c, r, f, env).package.ownedPackages, RefTo(x)) ==>
                          x in ManifestEdges(r, c[r].manifest)
  {
    var refs := WithAdded(c[r].ownedPackages, f.current);
    WithAddedLists(c[r].ownedPackages, f.current);
    assert WellOwned(c[r]);
    forall x | Lists(refs, RefTo(x))
      ensures x in ManifestEdges(r, c[r].manifest)
    {
      if Lists(c[r].ownedPackages, RefTo(x)) { assert Owns(c[r], x); }
    }
    if f.success {
      NothingPruned(c, r, refs, f.current, env);
      PackageScanLeaves(c, r, false, refs, f.current, env);
      SubsetLists(ListAfter(PackageScan(c, r, false, refs, f.current, env)), refs);
    }
  }

  lemma SubsetLists(some: seq<OwnedRef>, refs: seq<OwnedRef>)
    requires forall x :: x in some ==> x in refs
    ensures forall x :: Lists(some, x) ==> Lists(refs, x)
  {
  }

  /** So a live pass changes no package, and lists nothing that is not needed. */
  lemma LiveKeepsPackages(repo: Repository, c: Cluster, a: Action)
    requires OwnsNeeded(c) && OperatorAction(repo, c, a) && a.Live?
    ensures SamePackages(c, Apply(c, a)) && OwnsNeeded(Apply(c, a))
  {
    var d, o := Apply(c, a), LiveOutcome(c, a.r, a.findings, a.env);
    LiveDeletesNothing(c, a.r, a.findings, a.env);
    PersistEffect(c, a.r, o, a.env);
    StepWellOwned(c, a);
    forall r, x | r in d && Owns(d[r], x)
      ensures x in ManifestEdges(r, d[r].manifest)
    {
      if r != a.r || d[r].ownedPackages == c[r].ownedPackages {
        assert Owns(c[r], x);
      }
    }
  }

  /** What a pass creates is what the webhook's check has picked. */
  lemma CreatedAsPicked(
    repo: Repository, scope: Scope, c0: Cluster, g: Graph, h: Graph, p: Ref, m: Manifest, v: Version,
    run: seq<Requirement>, c: Cluster, q: Ref, r: Ref, made: Package)
    requires Admitted(repo, scope, c0, g, h, p, m, v, run) && InBetween(repo, c0, p, m, v, run, c)
    requires CreatedBy(repo, scope, c, q, r, made)
    ensures AsPicked(repo, run, r, made)
  {
    var k, hk, some: seq<Requirement>, e :|
      && q in LivePackages(c) && Checked(repo, scope, c, k, hk, q, c[q].manifest, c[q].version, some)
      && e in some && !e.transitive && RequiredRef(e) == r
      && Fetchable(repo, e) && made.version == e.version && made.manifest == ManifestOf(repo, e);
    CheckInBetween(repo, scope, c0, g, h, p, m, v, run, c, q, k, hk, some);
    var i :| 0 <= i < |run| && SamePick(run[i], e);
    assert Fetchable(repo, run[i]);
  }

  lemma StepInBetween(
    repo: Repository, scope: Scope, c0: Cluster, g: Graph, h: Graph, p: Ref, m: Manifest, v: Version,
    run: seq<Requirement>, c: Cluster, a: Action)
    requires Admitted(repo, scope, c0, g, h, p, m, v, run)
    requires InBetween(repo, c0, p, m, v, run, c) && OwnsNeeded(c) && InstallAction(repo, scope, c, a)
    ensures InBetween(repo, c0, p, m, v, run, Apply(c, a)) && OwnsNeeded(Apply(c, a))
  {
    if a.Live? {
      LiveKeepsPackages(repo, c, a);
      SameInBetween(repo, c0, p, m, v, run, c, Apply(c, a));
    } else if a.Create? {
      var q :| CreatedBy(repo, scope, c, q, a.r, a.p);
      CreatedAsPicked(repo, scope, c0, g, h, p, m, v, run, c, q, a.r, a.p);
      OneMoreInBetween(repo, c0, p, m, v, run, c, a.r, a.p);
    } else {
      NoneDeparts(repo, c, a);
    }
  }

  lemma SameInBetween(
    repo: Repository, c0: Cluster, p: Ref, m: Manifest, v: Version, run: seq<Requirement>, c: Cluster, d: Cluster)
    requires InBetween(repo, c0, p, m, v, run, c) && SamePackages(c, d)
    ensures InBetween(repo, c0, p, m, v, run, d)
  {
    forall r | r in d && r != p && r !in c0
      ensures AsPicked(repo, run, r, d[r])
    {
      assert AsPicked(repo, run, r, c[r]);
    }
  }

  lemma OneMoreInBetween(
    repo: Repository, c0: Cluster, p: Ref, m: Manifest, v: Version, run: seq<Requirement>, c: Cluster, r: Ref,
    made: Package)
    requires InBetween(repo, c0, p, m, v, run, c) && r !in c && IsNew(made) && AsPicked(repo, run, r, made)
    ensures InBetween(repo, c0, p, m, v, run, c[r := made])
    ensures OwnsNeeded(c) ==> OwnsNeeded(c[r := made])
  {
    OneMore(c, r, made);
  }

  /** While nothing is being deleted, there are no other steps. */
  lemma NoneDeparts(repo: Repository, c: Cluster, a: Action)
    requires LivePackages(c) == c.Keys && OperatorAction(repo, c, a)
    ensures a.Live? || a.Create?
  {
    if !a.Create? { assert a.r in LivePackages(c); }
  }

  lemma OneMore(c: Cluster, r: Ref, made: Package)
    requires r !in c && IsNew(made)
    ensures LivePackages(c[r := made]) == LivePackages(c) + {r}
    ensures OwnsNeeded(c) ==> OwnsNeeded(c[r := made])
  {
    var d := c[r := made];
    if OwnsNeeded(c) {
      forall q, x | q in d
        ensures WellOwned(d[q]) && (Owns(d[q], x) ==> x in ManifestEdges(q, d[q].manifest))
      {
        if q != r { assert WellOwned(c[q]) && d[q] == c[q]; }
      }
    }
  }

  /** In every state of every run, all that has been created is what the check has listed, as it was picked. */
  lemma {:induction false} InstallsOnlyWhatWasChecked(
    repo: Repository, scope: Scope, c0: Cluster, g: Graph, h: Graph, p: Ref, m: Manifest, v: Version,
    run: seq<Requirement>, c: Cluster, actions: seq<Action>, d: Cluster)
    requires Admitted(repo, scope, c0, g, h, p, m, v, run)
    requires InBetween(repo, c0, p, m, v, run, c) && OwnsNeeded(c) && InstallRun(repo, scope, c, actions, d)
    ensures InBetween(repo, c0, p, m, v, run, d) && OwnsNeeded(d)
    decreases |actions|
  {
    if actions != [] {
      StepInBetween(repo, scope, c0, g, h, p, m, v, run, c, actions[0]);
      InstallsOnlyWhatWasChecked(
        repo, scope, c0, g, h, p, m, v, run, Apply(c, actions[0]), actions[1..], d);
    }
  }

  /** The user has created p. */
  lemma CreatedIsInBetween(
    repo: Repository, scope: Scope, c0: Cluster, g: Graph, h: Graph, p: Ref, m: Manifest, v: Version,
    run: seq<Requirement>, made: Package)
    requires Admitted(repo, scope, c0, g, h, p, m, v, run)
    requires IsNew(made) && made.version == v && made.manifest == m
    ensures InBetween(repo, c0, p, m, v, run, c0[p := made]) && OwnsNeeded(c0[p := made])
  {
    RestOwnsNeeded(g, c0);
    FirstInBetween(repo, c0, p, run, made);
  }

  lemma FirstInBetween(repo: Repository, c0: Cluster, p: Ref, run: seq<Requirement>, made: Package)
    requires LivePackages(c0) == c0.Keys && OwnsNeeded(c0) && p !in c0 && IsNew(made)
    ensures InBetween(repo, c0, p, made.manifest, made.version, run, c0[p := made]) && OwnsNeeded(c0[p := made])
  {
    OneMore(c0, p, made);
  }

  lemma RestOwnsNeeded(g: Graph, c0: Cluster)
    requires AtRest(g, c0)
    ensures OwnsNeeded(c0) && LivePackages(c0) == c0.Keys
  {
    MirrorsVersions(g, c0);
    assert LivePackages(c0) == c0.Keys;
  }

  // ---------------------------------------------------------------- nothing stops before all is there

  /** What is needed and not there is among the requirements of the check. */
  lemma MissingIsPlanned(
    repo: Repository, scope: Scope, c0: Cluster, g: Graph, h: Graph, p: Ref, m: Manifest, v: Version,
    run: seq<Requirement>, c: Cluster, q: Ref, x: Ref)
    requires Admitted(repo, scope, c0, g, h, p, m, v, run) && InBetween(repo, c0, p, m, v, run, c)
    requires q in c && x in ManifestEdges(q, c[q].manifest) && x !in c
    ensures x in RequiredRefs(run)
  {
    if q in c0 {
      AllThereBefore(g, c0, q, x);
    } else {
      AdmittedIsTidy(repo, scope, c0, g, h, p, m, v, run);
      CheckedSays(repo, scope, c0, g, h, p, m, v, run, c, q);
      StartOf(g, c0, p, m, v);
      NewIsUnbroken(repo, scope, g, h, p, m, v, run, q, x);
    }
  }

  lemma AllThereBefore(g: Graph, c0: Cluster, q: Ref, x: Ref)
    requires AtRest(g, c0) && NothingMissing(g) && q in c0 && x in ManifestEdges(q, c0[q].manifest)
    ensures x in c0
  {
    assert q in LivePackages(c0);
    MirrorsVersions(g, c0);
    assert DependsOn(g, q, x);
  }

  /** Without a new error, the dependencies of what is new are installed. */
  lemma NewIsUnbroken(
    repo: Repository, scope: Scope, g: Graph, h: Graph, p: Ref, m: Manifest, v: Version, run: seq<Requirement>,
    q: Ref, x: Ref)
    requires WellFormed(g) && NothingNew(g, h) && q !in Installed(g)
    requires Added(g, p, m, Parsed(v), ManualFlag(g, m.name)).1 && Resolved(repo, Start(g, p, m, v), h, p, run)
    requires q in h && x in h[q].edges && x !in Installed(Start(g, p, m, v))
    ensures x in RequiredRefs(run)
  {
    AddedWellFormed(g, p, m, v, ManualFlag(g, m.name));
    RunWellFormed(repo, Start(g, p, m, v), run);
    RunInstalls(repo, Start(g, p, m, v), {p}, run);
    assert NodeFits(h.Keys, h[q]);
    assert !Broken(g, q, x) by {
      if q in g { assert NodeFits(g.Keys, g[q]); }
    }
    assert !Broken(h, q, x);
  }

  /** And no graph in between makes it unsatisfiable. */
  lemma PlannedIsSettled(
    repo: Repository, scope: Scope, g: Graph, h: Graph, p: Ref, run: seq<Requirement>, k: Graph, x: Ref)
    requires Planned(repo, scope, g, h, p, run) && Within(g, k, h) && Covered(scope, k)
    requires x in RequiredRefs(run) && Settled(repo, k, x)
    ensures x in Installed(k)
  {
    CompletePicks(repo, scope, g, h, p, run);
    var i :| 0 <= i < |run| && RequiredRef(run[i]) == x;
    assert run[i] in run;
    var s: Member := (x, run[i].name);
    assert Called(repo, scope, g, p, s.0) && BestFor(repo, scope, g, s, run[i].version);
    FewerConstraints(k, h, x, run[i].version);
  }

  /**
   As long as a live package lacks something, its check requires something directly that is not there: the
   operator does not stop before.
   */
  lemma MissingIsRequired(
    repo: Repository, scope: Scope, c0: Cluster, g: Graph, h: Graph, p: Ref, m: Manifest, v: Version,
    run: seq<Requirement>, c: Cluster, q: Ref, x: Ref, k: Graph, hk: Graph, some: seq<Requirement>)
    requires Admitted(repo, scope, c0, g, h, p, m, v, run) && InBetween(repo, c0, p, m, v, run, c)
    requires q in c && x in ManifestEdges(q, c[q].manifest) && x !in c
    requires Checked(repo, scope, c, k, hk, q, c[q].manifest, c[q].version, some)
    ensures some != [] && !some[0].transitive && Fetchable(repo, some[0])
    ensures RequiredRef(some[0]) in ManifestEdges(q, c[q].manifest) && RequiredRef(some[0]) !in c
  {
    var k1 := Start(k, q, c[q].manifest, c[q].version);
    MissingIsThereAfter(repo, scope, c0, g, h, p, m, v, run, c, q, x, k, hk, some);
    StillTidyInBetween(repo, scope, c0, g, h, p, m, v, run, c);
    AdmittedIsTidyIn(repo, scope, c0, g, h, p, m, v, run, c, q, k, hk, some);
    StartSays(c, k, q);
    FirstIsMissing(repo, k1, q, some);
    RunIsProper(repo, k1, {q}, some, 0);
  }

  /** And its pass may create that. */
  lemma MissingIsCreated(
    repo: Repository, scope: Scope, c0: Cluster, g: Graph, h: Graph, p: Ref, m: Manifest, v: Version,
    run: seq<Requirement>, c: Cluster, q: Ref, x: Ref, k: Graph, hk: Graph, some: seq<Requirement>, made: Package)
    requires Admitted(repo, scope, c0, g, h, p, m, v, run) && InBetween(repo, c0, p, m, v, run, c)
    requires q in c && x in ManifestEdges(q, c[q].manifest) && x !in c
    requires Checked(repo, scope, c, k, hk, q, c[q].manifest, c[q].version, some)
    requires IsNew(made) && some != [] && Fetchable(repo, some[0])
    requires made.version == some[0].version && made.manifest == ManifestOf(repo, some[0])
    ensures InstallAction(repo, scope, c, Create(RequiredRef(some[0]), made))
  {
    MissingIsRequired(repo, scope, c0, g, h, p, m, v, run, c, q, x, k, hk, some);
    assert q in LivePackages(c) && some[0] in some;
    CreatedIsRequired(repo, scope, c, k, hk, q, some, some[0]);
    CreateIsOperator(repo, c, RequiredRef(some[0]), made);
    assert CreatedBy(repo, scope, c, q, RequiredRef(some[0]), made);
  }

  lemma CreateIsOperator(repo: Repository, c: Cluster, r: Ref, made: Package)
    requires Required(repo, c, r) && r !in c && IsNew(made)
    ensures OperatorAction(repo, c, Create(r, made))
  {
  }

  lemma AdmittedIsTidyIn(
    repo: Repository, scope: Scope, c0: Cluster, g: Graph, h: Graph, p: Ref, m: Manifest, v: Version,
    run: seq<Requirement>, c: Cluster, q: Ref, k: Graph, hk: Graph, some: seq<Requirement>)
    requires Admitted(repo, scope, c0, g, h, p, m, v, run) && InBetween(repo, c0, p, m, v, run, c) && q in c
    requires Checked(repo, scope, c, k, hk, q, c[q].manifest, c[q].version, some)
    ensures Mirrors(k, c) && Added(k, q, c[q].manifest, Parsed(c[q].version), ManualFlag(k, c[q].manifest.name)).1
    ensures Complete(repo, Start(k, q, c[q].manifest, c[q].version), hk, q, some)
    ensures AddedRef(q, c[q].manifest) == q && Covered(scope, hk)
  {
    StillTidyInBetween(repo, scope, c0, g, h, p, m, v, run, c);
    AdmittedIsTidy(repo, scope, c, k, hk, q, c[q].manifest, c[q].version, some);
  }

  lemma MissingIsThereAfter(
    repo: Repository, scope: Scope, c0: Cluster, g: Graph, h: Graph, p: Ref, m: Manifest, v: Version,
    run: seq<Requirement>, c: Cluster, q: Ref, x: Ref, k: Graph, hk: Graph, some: seq<Requirement>)
    requires Admitted(repo, scope, c0, g, h, p, m, v, run) && InBetween(repo, c0, p, m, v, run, c)
    requires q in c && x in ManifestEdges(q, c[q].manifest) && x !in c
    requires Checked(repo, scope, c, k, hk, q, c[q].manifest, c[q].version, some)
    ensures x in Installed(hk) && some != []
  {
    var k1 := Start(k, q, c[q].manifest, c[q].version);
    MissingIsPlanned(repo, scope, c0, g, h, p, m, v, run, c, q, x);
    CheckInBetween(repo, scope, c0, g, h, p, m, v, run, c, q, k, hk, some);
    AdmittedIsTidyIn(repo, scope, c0, g, h, p, m, v, run, c, q, k, hk, some);
    AdmittedIsPlanned(repo, scope, c0, g, h, p, m, v, run);
    StartSays(c, k, q);
    RunGrows(repo, k1, {q}, some);
    assert hk[q] == k1[q];
    assert Settled(repo, hk, x);
    PlannedIsSettled(repo, scope, Start(g, p, m, v), h, p, run, hk, x);
  }

  // ---------------------------------------------------------------- and then all of it is there

  /** When every live package has what it needs, all that is called for is there. */
  lemma {:induction false} CalledIsThere(
    repo: Repository, scope: Scope, g: Graph, h: Graph, p: Ref, run: seq<Requirement>, c: Cluster, path: seq<Ref>)
    requires Planned(repo, scope, g, h, p, run) && Says(h, c) && LivePackages(c) == c.Keys && DependenciesLive(c)
    requires p in c && CallPath(repo, scope, g, p, path)
    ensures path[|path| - 1] in c
    decreases |path|
  {
    var n := |path| - 1;
    var w, r := path[n - 1], path[n];
    if n == 1 {
      RunGrows(repo, g, {p}, run);
      assert h[p] == g[p];
    } else {
      var before := path[..n];
      CallPrefix(repo, scope, g, p, path);
      CompletePicks(repo, scope, g, h, p, run);
      CalledIsRequired(repo, scope, g, h, p, run, before);
      NamedIsDependency(repo, scope, g, h, p, run, w, r);
      CalledIsThere(repo, scope, g, h, p, run, c, before);
    }
    NeededIsThere(h, c, w, r);
  }

  lemma NeededIsThere(h: Graph, c: Cluster, w: Ref, r: Ref)
    requires Says(h, c) && LivePackages(c) == c.Keys && DependenciesLive(c) && w in c && r in h[w].edges
    ensures r in c
  {
    assert w in LivePackages(c);
  }

  lemma AllIsThere(
    repo: Repository, scope: Scope, c0: Cluster, g: Graph, h: Graph, p: Ref, m: Manifest, v: Version,
    run: seq<Requirement>, c: Cluster)
    requires Admitted(repo, scope, c0, g, h, p, m, v, run) && InBetween(repo, c0, p, m, v, run, c)
    requires DependenciesLive(c)
    ensures RequiredRefs(run) <= c.Keys
  {
    var g1 := Start(g, p, m, v);
    AdmittedIsPlanned(repo, scope, c0, g, h, p, m, v, run);
    CheckSays(repo, scope, c0, g, h, p, m, v, run, c);
    forall r | r in RequiredRefs(run)
      ensures r in c
    {
      AddsExactlyWhatIsCalled(repo, scope, g1, h, p, run, r);
      var path :| CallPath(repo, scope, g1, p, path) && path[|path| - 1] == r;
      CalledIsThere(repo, scope, g1, h, p, run, c, path);
    }
  }

  /** Picks of one package are the same. */
  lemma PickedOnce(
    repo: Repository, scope: Scope, g: Graph, h: Graph, p: Ref, run: seq<Requirement>, a: Requirement, b: Requirement)
    requires Planned(repo, scope, g, h, p, run) && a in run && b in run && RequiredRef(a) == RequiredRef(b)
    ensures SamePick(a, b) && Fetchable(repo, a) && RequiredRef(a) !in Installed(g)
  {
    CompletePicks(repo, scope, g, h, p, run);
    RunInstalls(repo, g, {p}, run);
    var i :| 0 <= i < |run| && run[i] == a;
    RunIsProper(repo, g, {p}, run, i);
    var s: Member := (RequiredRef(a), a.name);
    assert s == (RequiredRef(b), b.name);
    BestIsUnique(repo, scope, g, s, a.version, b.version);
    assert RequiredRef(a) in RequiredRefs(run);
  }

  /** A requirement is there in the version in which it was picked. */
  lemma RequirementIsThere(
    repo: Repository, scope: Scope, c0: Cluster, g: Graph, h: Graph, p: Ref, m: Manifest, v: Version,
    run: seq<Requirement>, c: Cluster, e: Requirement)
    requires Planned(repo, scope, g, h, p, run) && Installed(g) == c0.Keys + {p}
    requires InBetween(repo, c0, p, m, v, run, c) && e in run && RequiredRef(e) in c
    ensures RequiredRef(e) !in c0 && RequiredRef(e) != p && Fetchable(repo, e)
    ensures c[RequiredRef(e)].version == e.version && c[RequiredRef(e)].manifest == ManifestOf(repo, e)
  {
    var r := RequiredRef(e);
    PickedOnce(repo, scope, g, h, p, run, e, e);
    var i :| 0 <= i < |run| && RequiredRef(run[i]) == r && Fetchable(repo, run[i]) &&
             c[r].version == run[i].version && c[r].manifest == ManifestOf(repo, run[i]);
    PickedOnce(repo, scope, g, h, p, run, run[i], e);
  }

  /**
   After an admitted creation, in every interleaving of the operator's passes: whenever every live package has all
   that it needs, p has been installed with exactly what the webhook's check has listed, in the versions that it has
   picked; and the cluster is sound if it was.
   */
  lemma InstallationCompletes(
    repo: Repository, scope: Scope, c0: Cluster, g: Graph, h: Graph, p: Ref, m: Manifest, v: Version,
    run: seq<Requirement>, made: Package, actions: seq<Action>, d: Cluster)
    requires Admitted(repo, scope, c0, g, h, p, m, v, run)
    requires IsNew(made) && made.version == v && made.manifest == m
    requires InstallRun(repo, scope, c0[p := made], actions, d) && DependenciesLive(d)
    ensures Installs(repo, c0, d, p, m, v, run)
    ensures ClusterSound(c0) ==> ClusterSound(d)
  {
    CreatedIsInBetween(repo, scope, c0, g, h, p, m, v, run, made);
    InstallsOnlyWhatWasChecked(repo, scope, c0, g, h, p, m, v, run, c0[p := made], actions, d);
    AllIsThere(repo, scope, c0, g, h, p, m, v, run, d);
    CompleteInstalls(repo, scope, c0, g, h, p, m, v, run, d);
    AdmittedIsConflictFree(repo, scope, c0, g, h, p, m, v, run);
    if ClusterSound(c0) {
      InstallKeepsSound(repo, scope, c0, g, h, d, p, m, v, run);
    }
  }

  lemma CompleteInstalls(
    repo: Repository, scope: Scope, c0: Cluster, g: Graph, h: Graph, p: Ref, m: Manifest, v: Version,
    run: seq<Requirement>, d: Cluster)
    requires Admitted(repo, scope, c0, g, h, p, m, v, run) && InBetween(repo, c0, p, m, v, run, d)
    requires RequiredRefs(run) <= d.Keys
    ensures Installs(repo, c0, d, p, m, v, run)
  {
    AdmittedIsPlanned(repo, scope, c0, g, h, p, m, v, run);
    AdmittedIsTidy(repo, scope, c0, g, h, p, m, v, run);
    StartOf(g, c0, p, m, v);
    RestOwnsNeeded(g, c0);
    InBetweenInstalls(repo, scope, c0, Start(g, p, m, v), h, p, m, v, run, d);
  }

  lemma InBetweenInstalls(
    repo: Repository, scope: Scope, c0: Cluster, g: Graph, h: Graph, p: Ref, m: Manifest, v: Version,
    run: seq<Requirement>, d: Cluster)
    requires Planned(repo, scope, g, h, p, run) && Installed(g) == c0.Keys + {p} && LivePackages(c0) == c0.Keys
    requires InBetween(repo, c0, p, m, v, run, d) && RequiredRefs(run) <= d.Keys
    ensures Installs(repo, c0, d, p, m, v, run)
  {
    forall e | e in run
      ensures Fetchable(repo, e) && RequiredRef(e) in d && d[RequiredRef(e)].version == e.version
      ensures d[RequiredRef(e)].manifest == ManifestOf(repo, e)
    {
      assert RequiredRef(e) in RequiredRefs(run);
      RequirementIsThere(repo, scope, c0, g, h, p, m, v, run, d, e);
    }
    OnlyRequired(repo, c0, p, m, v, run, d);
  }

  lemma OnlyRequired(
    repo: Repository, c0: Cluster, p: Ref, m: Manifest, v: Version, run: seq<Requirement>, d: Cluster)
    requires InBetween(repo, c0, p, m, v, run, d) && RequiredRefs(run) <= d.Keys
    ensures LivePackages(d) == c0.Keys + {p} + RequiredRefs(run)
  {
    forall r | r in d && r != p && r !in c0
      ensures r in RequiredRefs(run)
    {
      var i :| 0 <= i < |run| && RequiredRef(run[i]) == r && Fetchable(repo, run[i]) &&
               d[r].version == run[i].version && d[r].manifest == ManifestOf(repo, run[i]);
      assert run[i] in run;
    }
  }
}
