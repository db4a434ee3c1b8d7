/**
 Clusters over many installations and uninstallations: as long as the webhook admits each of them,
 every dependency stays installed and every version constraint stays satisfied.
 */
module WholeRuns {
  import opened Wrappers
  import opened Semver
  import opened GraphModel
  import opened Installation
  import opened Resolution
  import opened DependencyManager
  import opened Operator
  import opened Ownership
  import opened Cascade
  import opened Admission
  import opened CascadeRuns
  import opened InstallAdmission
  import opened Recreation

  /** Every dependency of a live package is live, in a version that satisfies the constraint on it. */
  ghost predicate ClusterSound(c: Cluster) {
    forall q, r :: q in LivePackages(c) && r in ManifestEdges(q, c[q].manifest) ==>
      && r in LivePackages(c)
      && var constraint := ManifestEdges(q, c[q].manifest)[r];
         constraint.Some? ==> constraint.value.accepts(c[r].version)
  }

  /** g has the live packages of c with their versions and edges, whatever their flags and labels. */
  ghost predicate SameVersions(g: Graph, c: Cluster) {
    && WellFormed(g)
    && Installed(g) == LivePackages(c)
    && forall r :: r in LivePackages(c) ==>
         g[r].version == Some(c[r].version) && g[r].edges == ManifestEdges(r, c[r].manifest)
  }

  lemma MirrorsVersions(g: Graph, c: Cluster)
    requires Mirrors(g, c)
    ensures SameVersions(g, c)
  {
    forall r | r in LivePackages(c)
      ensures g[r].version == Some(c[r].version) && g[r].edges == ManifestEdges(r, c[r].manifest)
    {
      assert Unlabelled(g[r]).version == g[r].version && Unlabelled(g[r]).edges == g[r].edges;
    }
  }

  /** The graph is sound exactly when the cluster is. */
  lemma SoundIff(g: Graph, c: Cluster)
    requires SameVersions(g, c)
    ensures Sound(g) <==> ClusterSound(c)
  {
    if Sound(g) {
      forall q, r | q in LivePackages(c) && r in ManifestEdges(q, c[q].manifest)
        ensures r in LivePackages(c)
        ensures var constraint := ManifestEdges(q, c[q].manifest)[r];
                constraint.Some? ==> constraint.value.accepts(c[r].version)
      {
        assert NodeFits(g.Keys, g[q]);
        assert !Broken(g, q, r);
      }
    }
    if ClusterSound(c) {
      forall q, r
        ensures !Broken(g, q, r)
      {
        if q in g { assert NodeFits(g.Keys, g[q]); }
      }
    }
  }

  // ---------------------------------------------------------------- installing

  /** d is c with p in version v and with the requirements, installed by whom and flagged however. */
  ghost predicate Installs(repo: Repository, c: Cluster, d: Cluster, p: Ref, m: Manifest, v: Version, run: seq<Requirement>) {
    && LivePackages(d) == LivePackages(c) + {p} + RequiredRefs(run)
    && d[p].version == v && d[p].manifest == m
    && (forall q :: q in run ==>
          Fetchable(repo, q) && RequiredRef(q) in d && d[RequiredRef(q)].version == q.version &&
          d[RequiredRef(q)].manifest == ManifestOf(repo, q))
    && (forall r :: r in LivePackages(c) && r != p && r !in RequiredRefs(run) ==>
          d[r].version == c[r].version && d[r].manifest == c[r].manifest)
  }

  /** What the checked graph says of a requirement is what the new cluster has. */
  lemma CheckedRequirement(
    repo: Repository, g1: Graph, p: Ref, run: seq<Requirement>, c: Cluster, d: Cluster, m: Manifest, v: Version, r: Ref)
    requires LegalRun(repo, g1, {p}, run) && Installs(repo, c, d, p, m, v, run) && r in RequiredRefs(run)
    ensures var h := Replay(repo, g1, run);
            r in h && h[r].version == Some(d[r].version) && h[r].edges == ManifestEdges(r, d[r].manifest)
  {
    var i :| 0 <= i < |run| && RequiredRef(run[i]) == r;
    PickedStays(repo, g1, {p}, run, i);
    assert run[i] in run;
  }

  /** What it says of p and of the packages that were there is what the new cluster has. */
  lemma CheckedOther(
    repo: Repository, c: Cluster, g: Graph, d: Cluster, p: Ref, m: Manifest, v: Version, run: seq<Requirement>, r: Ref)
    requires Mirrors(g, c) && Added(g, p, m, Parsed(v), ManualFlag(g, m.name)).1
    requires Installs(repo, c, d, p, m, v, run)
    requires r in LivePackages(d) && r !in RequiredRefs(run)
    ensures var g1 := Added(g, p, m, Parsed(v), ManualFlag(g, m.name)).0;
            r in Installed(g1) && g1[r].version == Some(d[r].version) && g1[r].edges == ManifestEdges(r, d[r].manifest)
  {
    AddedSelf(g, p, m, v, ManualFlag(g, m.name));
    MirrorsVersions(g, c);
  }

  /** The checked graph has exactly the versions and edges of the new cluster. */
  lemma CheckedGraphIsInstalled(
    repo: Repository, scope: Scope, c: Cluster, g: Graph, h: Graph, d: Cluster, p: Ref, m: Manifest, v: Version,
    run: seq<Requirement>)
    requires ConflictFree(repo, scope, c, g, h, p, m, v, run) && Installs(repo, c, d, p, m, v, run)
    ensures SameVersions(h, d)
  {
    var g1 := Added(g, p, m, Parsed(v), ManualFlag(g, m.name)).0;
    AddedSelf(g, p, m, v, ManualFlag(g, m.name));
    RunInstalls(repo, g1, {p}, run);
    RunWellFormed(repo, g1, run);
    RunGrows(repo, g1, {p}, run);
    forall r | r in LivePackages(d)
      ensures h[r].version == Some(d[r].version) && h[r].edges == ManifestEdges(r, d[r].manifest)
    {
      if r in RequiredRefs(run) {
        CheckedRequirement(repo, g1, p, run, c, d, m, v, r);
      } else {
        CheckedOther(repo, c, g, d, p, m, v, run, r);
        assert h[r] == g1[r];
      }
    }
  }

  /** Installing or updating a package with all its requirements keeps a sound cluster sound. */
  lemma InstallKeepsSound(
    repo: Repository, scope: Scope, c: Cluster, g: Graph, h: Graph, d: Cluster, p: Ref, m: Manifest, v: Version,
    run: seq<Requirement>)
    requires ClusterSound(c)
    requires ConflictFree(repo, scope, c, g, h, p, m, v, run) && Installs(repo, c, d, p, m, v, run)
    ensures ClusterSound(d)
  {
    MirrorsVersions(g, c);
    SoundIff(g, c);
    CheckedGraphIsInstalled(repo, scope, c, g, h, d, p, m, v, run);
    SoundIff(h, d);
  }

  // ---------------------------------------------------------------- uninstalling

  /** d is c without n and everything pruned after it. */
  ghost predicate Uninstalls(c: Cluster, d: Cluster, g: Graph, n: Ref) {
    && Mirrors(g, c) && n in LivePackages(c)
    && LivePackages(d) == Survivors(Delete(g, n))
    && forall r :: r in LivePackages(d) ==> r in c && d[r].version == c[r].version && d[r].manifest == c[r].manifest
  }

  /** An admitted deletion of a cluster package, carried through, leaves a sound cluster. */
  lemma UninstallKeepsSound(c: Cluster, d: Cluster, g: Graph, n: Ref)
    requires Uninstalls(c, d, g, n) && n.namespace == "" && Admits(c, n)
    ensures ClusterSound(d)
  {
    var k := Delete(g, n);
    VerdictOf(g, c, n);
    MirrorsVersions(g, c);
    DeletedWellFormed(g, n);
    PrunedInstalled(k);
    SurvivorsAreGreatest(k);
    KeepUninstalled(g, n, {});
    assert SameVersions(Pruned(k), d) by {
      forall r | r in LivePackages(d)
        ensures Pruned(k)[r].version == Some(d[r].version) && Pruned(k)[r].edges == ManifestEdges(r, d[r].manifest)
      {
        assert r in Installed(k) && k[r] == g[r];
      }
    }
    SoundIff(Pruned(k), d);
  }

  /** A finished run of the operator after an undisturbed deletion is such an uninstallation. */
  lemma CascadeUninstalls(repo: Repository, g: Graph, c0: Cluster, n: Ref, actions: seq<Action>, d: Cluster)
    requires AtRest(g, c0) && n in c0 && NothingMissing(g) && Undisturbed(g, n) && Reliable(repo, g, c0, n)
    requires Operates(repo, Apply(c0, RequestDelete(n)), actions, d) && Quiet(d)
    ensures Uninstalls(c0, d, g, n)
  {
    CascadeBegins(g, c0, n);
    BeginsLive(g, c0, n);
    OperatorStates(repo, g, c0, n, Apply(c0, RequestDelete(n)), actions, d);
    PreviewEqualsReality(g, c0, n, d);
    assert LivePackages(d) == d.Keys;
  }

  // ---------------------------------------------------------------- any number of transactions

  datatype Transaction =
    | Install(repo: Repository, scope: Scope, g: Graph, h: Graph, p: Ref, m: Manifest, v: Version, run: seq<Requirement>)
    | Uninstall(g: Graph, n: Ref)

  /** The transaction was admitted on c and turned it into d. */
  ghost predicate Transacts(c: Cluster, t: Transaction, d: Cluster) {
    match t
    case Install(repo, scope, g, h, p, m, v, run) =>
      ConflictFree(repo, scope, c, g, h, p, m, v, run) && Installs(repo, c, d, p, m, v, run)
    case Uninstall(g, n) =>
      Uninstalls(c, d, g, n) && n.namespace == "" && Admits(c, n)
  }

  ghost predicate IsHistory(cs: seq<Cluster>, ts: seq<Transaction>) {
    && |cs| == |ts| + 1
    && forall i :: 0 <= i < |ts| ==> Transacts(cs[i], ts[i], cs[i + 1])
  }

  /** From a sound cluster, every history of admitted transactions stays sound throughout. */
  lemma {:induction false} HistoriesStaySound(cs: seq<Cluster>, ts: seq<Transaction>, i: nat)
    requires IsHistory(cs, ts) && ClusterSound(cs[0]) && i < |cs|
    ensures ClusterSound(cs[i])
  {
    if i > 0 {
      var k := i - 1;
      HistoriesStaySound(cs, ts, k);
      assert Transacts(cs[k], ts[k], cs[k + 1]);
      match ts[k]
      case Install(repo, scope, g, h, p, m, v, run) =>
        InstallKeepsSound(repo, scope, cs[k], g, h, cs[k + 1], p, m, v, run);
      case Uninstall(g, n) =>
        UninstallKeepsSound(cs[k], cs[k + 1], g, n);
    }
  }
}
