/**
 The admission webhook of `internal/webhook/package_validator.go` on deletions, with the graph that
 `NewGraph` builds from the cluster; and what it says of the further deletions of a cascade.
 */
module Admission {
  import opened Wrappers
  import opened GraphModel
  import opened Installation
  import opened Resolution
  import opened GraphHeap
  import opened DependencyManager
  import opened Operator
  import opened Cascade

  // ---------------------------------------------------------------- NewGraph

  /** Cluster packages carry the name of their manifest. */
  ghost predicate ProperNames(c: Cluster) {
    forall r :: r in c && r.namespace == "" ==> c[r].manifest.name == r.name
  }

  /** The packages of done have been added. */
  ghost predicate MirrorsPart(g: Graph, c: Cluster, done: set<Ref>) {
    && WellFormed(g)
    && Installed(g) == LivePackages(c) * done
    && forall r {:trigger g[r]} :: r in LivePackages(c) * done ==>
         Unlabelled(g[r]) == Node("", Some(c[r].version), !c[r].asDependency, ManifestEdges(r, c[r].manifest))
  }

  /** The vertex of a package: cluster packages go by the name in their manifest. */
  function VertexOf(c: Cluster, r: Ref): Ref
    requires r in c
  {
    AddedRef(r, c[r].manifest)
  }

  /** Where a label of the graph comes from: a package of the cluster, or a target of a live one. */
  ghost predicate LabelFrom(c: Cluster, x: Ref, packageName: string) {
    || (exists r :: r in c && VertexOf(c, r) == x && packageName == c[r].manifest.name)
    || exists r, t :: r in LivePackages(c) && t in Targets(VertexOf(c, r), c[r].manifest) &&
                      t.ref == x && t.packageName == packageName
  }

  ghost predicate LabelsFrom(g: Graph, c: Cluster) {
    forall x {:trigger g[x]} :: x in g ==> LabelFrom(c, x, g[x].packageName)
  }

  lemma LiveLabels(g: Graph, c: Cluster, r: Ref, manual: bool)
    requires LabelsFrom(g, c) && r in LivePackages(c)
    ensures LabelsFrom(Added(g, VertexOf(c, r), c[r].manifest, Parsed(c[r].version), manual).0, c)
  {
    var m, v, key := c[r].manifest, c[r].version, VertexOf(c, r);
    var h := Added(g, key, m, Parsed(v), manual).0;
    AddedEffect(g, key, m, v, manual);
    AddedLabel(g, key, m, v, manual);
    forall x | x in h
      ensures LabelFrom(c, x, h[x].packageName)
    {
      if x in g {
        assert LabelFrom(c, x, g[x].packageName);
        if x != key { assert h[x] == g[x]; }
      } else if x == key {
        assert VertexOf(c, r) == x && h[x].packageName == m.name;
      } else {
        var t :| t in Targets(key, m) && t.ref == x && h[x] == Uninstalled(t.packageName);
      }
    }
  }

  lemma TerminatingLabels(g: Graph, c: Cluster, r: Ref, m: Manifest, manual: bool)
    requires LabelsFrom(g, c) && r in c && m.name == c[r].manifest.name
    ensures LabelsFrom(Added(g, VertexOf(c, r), m, NoVersion, manual).0, c)
  {
    assert LabelFrom(c, VertexOf(c, r), m.name);
  }

  /** Whether a manifest parses does not depend on the package. */
  lemma ParseableAnywhere(r: Ref, q: Ref, m: Manifest)
    requires Parseable(Targets(r, m))
    ensures Parseable(Targets(q, m))
  {
    forall t | t in Targets(q, m)
      ensures !t.spec.Malformed?
    {
      var i :| 0 <= i < |Targets(q, m)| && Targets(q, m)[i] == t;
      assert Targets(r, m)[i] in Targets(r, m);
    }
  }

  /** Adding a package that is being deleted installs nothing. */
  lemma AddTerminating(g: Graph, c: Cluster, done: set<Ref>, r: Ref, m: Manifest, manual: bool)
    requires MirrorsPart(g, c, done) && r in c && c[r].terminating
    ensures MirrorsPart(Added(g, r, m, NoVersion, manual).0, c, done + {r})
  {
    var h := Touch(g, r, m.name);
    TouchWellFormed(g, r, m.name);
    assert r !in Installed(g);
    UninstallUninstalled(h, r);
    assert LivePackages(c) * (done + {r}) == LivePackages(c) * done;
    assert forall x :: x in Installed(g) ==> h[x] == g[x];
  }

  lemma AddLive(g: Graph, c: Cluster, done: set<Ref>, r: Ref)
    requires MirrorsPart(g, c, done) && r in c && !c[r].terminating
    requires Added(g, r, c[r].manifest, Parsed(c[r].version), !c[r].asDependency).1
    ensures MirrorsPart(Added(g, r, c[r].manifest, Parsed(c[r].version), !c[r].asDependency).0, c, done + {r})
  {
    var m, v, manual := c[r].manifest, c[r].version, !c[r].asDependency;
    var h := Added(g, r, m, Parsed(v), manual).0;
    AddedEffect(g, r, m, v, manual);
    AddedInstalls(g, r, m, v, manual);
    AddedWellFormed(g, r, m, v, manual);
    assert LivePackages(c) * (done + {r}) == LivePackages(c) * done + {r};
  }

  /** What fails while the graph is built: listing the packages, fetching manifests, or parsing versions. */
  datatype Lookups = Lookups(listFails: bool, unfetchable: set<Ref>, unparsable: set<Ref>)

  /** No live package has a malformed constraint in its manifest. */
  ghost predicate Parses(c: Cluster) {
    forall r :: r in LivePackages(c) ==> Parseable(Targets(r, c[r].manifest))
  }

  ghost predicate Buildable(c: Cluster, api: Lookups) {
    !api.listFails && Parses(c) && LivePackages(c) !! api.unfetchable + api.unparsable
  }

  /** The package is being deleted, or its manifest and version can be fetched and parsed. */
  ghost predicate Addable(c: Cluster, api: Lookups, r: Ref)
    requires r in c
  {
    c[r].terminating || (r !in api.unfetchable + api.unparsable && Parseable(Targets(r, c[r].manifest)))
  }

  /** It can be built exactly when listing succeeds, and each live package has a manifest and a version that parse. */
  lemma BuildableIff(c: Cluster, api: Lookups)
    ensures Buildable(c, api) <==>
            !api.listFails && forall r :: r in c && !c[r].terminating ==>
              r !in api.unfetchable && r !in api.unparsable && !IsMalformed(c[r].manifest)
  {
    forall r | r in c
      ensures Parseable(Targets(r, c[r].manifest)) <==> !IsMalformed(c[r].manifest)
    {
      ParseableIff(r, c[r].manifest);
    }
    assert forall r :: r in c && !c[r].terminating ==> r in LivePackages(c);
  }

  /** `NewGraph`: adds every package; with proper names the order of the lists does not matter. */
  method NewGraph(c: Cluster, api: Lookups) returns (g: DependencyGraph, ok: bool)
    ensures fresh(g) && g.Valid() && forall v :: v in g.repr ==> fresh(v)
    ensures ok ==> LabelsFrom(g.model, c)
    ensures ok && ProperNames(c) ==> Mirrors(g.model, c)
    ensures ok <==> Buildable(c, api)
  {
    g := new DependencyGraph();
    ok := !api.listFails;
    if !ok { return; }
    var rest := c.Keys;
    ghost var done := {};
    while rest != {}
      invariant rest <= c.Keys <= rest + done
      invariant fresh(g) && g.Valid() && forall v :: v in g.repr ==> fresh(v)
      invariant LabelsFrom(g.model, c) && (ProperNames(c) ==> MirrorsPart(g.model, c, done))
      invariant done <= c.Keys && forall r :: r in done ==> Addable(c, api, r)
    {
      var r :| r in rest;
      ok := AddPackage(g, c, api, r, done);
      if !ok { return; }
      Visited(c.Keys, rest, done, r);
      rest, done := rest - {r}, done + {r};
    }
    assert LivePackages(c) * done == LivePackages(c);
  }

  /** The loop body of `NewGraph` */
  method AddPackage(g: DependencyGraph, c: Cluster, api: Lookups, r: Ref, ghost done: set<Ref>) returns (ok: bool)
    requires g.Valid() && r in c && LabelsFrom(g.model, c) && (ProperNames(c) ==> MirrorsPart(g.model, c, done))
    modifies g, g.repr
    ensures g.Valid() && forall v :: v in g.repr && v !in old(g.repr) ==> fresh(v)
    ensures ok ==> LabelsFrom(g.model, c) && (ProperNames(c) ==> MirrorsPart(g.model, c, done + {r}))
    ensures ok <==> Addable(c, api, r)
  {
    var p := c[r];
    if p.terminating {
      var fake := Manifest(p.manifest.name, "", [], []);
      if ProperNames(c) { AddTerminating(g.model, c, done, r, fake, !p.asDependency); }
      TerminatingLabels(g.model, c, r, fake, !p.asDependency);
      ok := AddScoped(g, r, fake, NoVersion, !p.asDependency);
    } else if r in api.unfetchable {
      ok := false;
    } else {
      AddsLive(g.model, c, done, r);
      ok := AddScoped(
        g, r, p.manifest, if r in api.unparsable then Unparsable else Parsed(p.version), !p.asDependency);
    }
  }

  /** What adding a live package comes to */
  lemma AddsLive(g: Graph, c: Cluster, done: set<Ref>, r: Ref)
    requires r in LivePackages(c) && LabelsFrom(g, c) && (ProperNames(c) ==> MirrorsPart(g, c, done))
    ensures var (h, ok) := Added(g, VertexOf(c, r), c[r].manifest, Parsed(c[r].version), !c[r].asDependency);
            && (ok <==> Parseable(Targets(r, c[r].manifest)))
            && (ok ==> LabelsFrom(h, c) && (ProperNames(c) ==> MirrorsPart(h, c, done + {r})))
  {
    var p, key := c[r], VertexOf(c, r);
    AddedEffect(g, key, p.manifest, p.version, !p.asDependency);
    if Parseable(Targets(r, p.manifest)) { ParseableAnywhere(r, key, p.manifest); }
    if Parseable(Targets(key, p.manifest)) {
      ParseableAnywhere(key, r, p.manifest);
      LiveLabels(g, c, r, !p.asDependency);
      if ProperNames(c) { AddLive(g, c, done, r); }
    }
  }

  /** `AddCluster` or `AddNamespaced` */
  method AddScoped(g: DependencyGraph, r: Ref, m: Manifest, version: VersionText, manual: bool) returns (ok: bool)
    requires g.Valid()
    modifies g, g.repr
    ensures g.Valid() && forall v :: v in g.repr && v !in old(g.repr) ==> fresh(v)
    ensures (g.model, ok) == Added(old(g.model), AddedRef(r, m), m, version, manual)
  {
    if r.namespace != "" {
      ok := g.Add(Ref(r.name, r.namespace), m, version, manual);
    } else {
      ok := g.Add(Ref(m.name, ""), m, version, manual);
    }
  }

  // ---------------------------------------------------------------- the verdict on a deletion

  /**
   The verdict of the webhook, when nothing fails: the graph can be built and has no error after pruning; for
   namespaced packages it is built, but not checked.
   */
  ghost predicate Admits(c: Cluster, x: Ref) {
    Parses(c) && (x.namespace != "" || forall g :: Mirrors(g, c) ==> Sound(DeletedAndPruned(g, x)))
  }

  lemma DeletedWellFormed(g: Graph, x: Ref)
    requires WellFormed(g)
    ensures WellFormed(DeletedAndPruned(g, x))
  {
    TouchWellFormed(g, x, "");
    UninstallWellFormed(Touch(g, x, ""), x);
    PrunedWellFormed(Delete(g, x));
  }

  lemma TouchInstalls(g: Graph, x: Ref)
    ensures Installed(Touch(g, x, "")) == Installed(g)
    ensures forall r :: r in Installed(g) ==> Touch(g, x, "")[r] == g[r]
  {
  }

  lemma SameDeleted(g: Graph, h: Graph, x: Ref)
    requires WellFormed(g) && WellFormed(h) && SameInstalled(g, h)
    ensures SameInstalled(DeletedAndPruned(g, x), DeletedAndPruned(h, x))
    ensures Sound(DeletedAndPruned(g, x)) <==> Sound(DeletedAndPruned(h, x))
  {
    if x in Installed(g) {
      KeepUninstalled(g, x, {});
      KeepUninstalled(h, x, {});
      assert SameInstalled(Delete(g, x), Delete(h, x));
      SameInstalledSurvivors(Delete(g, x), Delete(h, x));
    } else {
      TouchInstalls(g, x);
      TouchInstalls(h, x);
    }
    DeletedWellFormed(g, x);
    DeletedWellFormed(h, x);
    SameInstalledSound(DeletedAndPruned(g, x), DeletedAndPruned(h, x));
  }

  /** Any graph that mirrors the cluster gives the verdict. */
  lemma VerdictOf(g: Graph, c: Cluster, x: Ref)
    requires Mirrors(g, c) && x.namespace == ""
    ensures Admits(c, x) <==> Parses(c) && Sound(DeletedAndPruned(g, x))
  {
    forall h | Mirrors(h, c)
      ensures Sound(DeletedAndPruned(h, x)) <==> Sound(DeletedAndPruned(g, x))
    {
      MirrorsAgree(g, h, c);
      SameDeleted(g, h, x);
    }
  }

  /** Why a deletion is refused */
  datatype DeletionRefusal = NoGraph | WouldBreak(errors: seq<DependencyError>)

  /** `ValidateDelete` of the webhook; an error of `NewGraph` refuses the deletion. */
  method ValidateDelete(c: Cluster, api: Lookups, name: string, namespace: string)
    returns (refusal: Option<DeletionRefusal>, ghost g0: Graph)
    ensures refusal == Some(NoGraph) <==> !Buildable(c, api)
    ensures refusal.None? <==>
            Buildable(c, api) && (namespace != "" || Sound(DeletedAndPruned(g0, Ref(name, namespace))))
    ensures ProperNames(c) ==> (refusal.None? <==> Buildable(c, api) && Admits(c, Ref(name, namespace)))
    ensures Buildable(c, api) ==> LabelsFrom(g0, c) && (ProperNames(c) ==> Mirrors(g0, c))
    ensures refusal.Some? && refusal.value.WouldBreak? ==>
              var h := DeletedAndPruned(g0, Ref(name, namespace));
              forall e :: e in refusal.value.errors <==> exists q, r :: Broken(h, q, r) && e == ErrorFor(h, q, r)
  {
    var g, ok := NewGraph(c, api);
    g0 := g.model;
    if !ok {
      refusal := Some(NoGraph);
      return;
    }
    refusal := None;
    if namespace == "" {
      var _, errors := g.ValidateDelete(name, namespace);
      if ProperNames(c) { VerdictOf(g.model, c, Ref(name, namespace)); }
      if errors != [] {
        refusal := Some(WouldBreak(errors));
      }
    }
  }

  // ---------------------------------------------------------------- the verdict on the deletions of a cascade

  /**
   Whatever part of the doomed packages is already gone, deleting any further one leads to the same
   pruned graph as the first deletion did.
   */
  lemma SamePrunedGraph(g: Graph, n: Ref, h: Graph, x: Ref)
    requires WellFormed(g) && WellFormed(h) && n in Installed(g)
    requires SameInstalled(h, KeepOnly(g, Installed(h)))
    requires Survivors(Delete(g, n)) <= Installed(h) <= Installed(g) - {n}
    requires x in Installed(h) && x !in Survivors(Delete(g, n))
    ensures SameInstalled(DeletedAndPruned(h, x), DeletedAndPruned(g, n))
    ensures Sound(DeletedAndPruned(h, x)) <==> Sound(DeletedAndPruned(g, n))
  {
    var a := Installed(h);
    var k := KeepOnly(g, a);
    KeepInstalled(g, a);
    KeepWellFormed(g, a);
    SameDeleted(h, k, x);
    KeepLess(g, a, x);
    SurvivorsAreGreatest(Delete(g, n));
    PartialStatesPruneAlike(g, n, a - {x});
    assert DeletedAndPruned(k, x) == DeletedAndPruned(g, n);
  }

  lemma KeepWellFormed(g: Graph, a: set<Ref>)
    requires WellFormed(g)
    ensures WellFormed(KeepOnly(g, a))
  {
    var h := KeepOnly(g, a);
    forall q | q in h
      ensures NodeFits(h.Keys, h[q])
    {
      assert NodeFits(g.Keys, g[q]);
    }
  }

  /** Some of what deleting n dooms is gone or going, n among it; what is live is as it was. */
  ghost predicate Partial(g: Graph, c0: Cluster, n: Ref, c: Cluster) {
    && Survivors(Delete(g, n)) <= LivePackages(c) <= c0.Keys - {n}
    && forall r :: r in LivePackages(c) ==>
         c[r].asDependency == c0[r].asDependency && c[r].version == c0[r].version && c[r].manifest == c0[r].manifest
  }

  lemma CascadeIsPartial(g: Graph, c0: Cluster, n: Ref, c: Cluster)
    requires AtRest(g, c0) && n in c0 && CascadeState(g, c0, n, c)
    ensures Partial(g, c0, n, c)
  {
    assert LivePackages(c0) == c0.Keys;
    OnlyDoomedIsPartial(g, c0, n, c);
  }

  lemma OnlyDoomedIsPartial(g: Graph, c0: Cluster, n: Ref, c: Cluster)
    requires Installed(g) == c0.Keys && n in c0 && c.Keys <= c0.Keys && OnlyDoomed(g, c0, n, c)
    requires forall r :: r in c ==>
               c[r].asDependency == c0[r].asDependency && c[r].version == c0[r].version && c[r].manifest == c0[r].manifest
    ensures Partial(g, c0, n, c)
  {
    SurvivorsAreGreatest(Delete(g, n));
    KeepUninstalled(g, n, {});
  }

  /** What is left of the graph is a graph of what is left of the cluster. */
  lemma MirrorOfPart(g: Graph, c0: Cluster, n: Ref, c: Cluster)
    requires Mirrors(g, c0) && LivePackages(c0) == c0.Keys && Partial(g, c0, n, c)
    ensures LivePackages(c) <= Installed(g) && Mirrors(KeepOnly(g, LivePackages(c)), c)
  {
    KeepInstalled(g, LivePackages(c));
    KeepWellFormed(g, LivePackages(c));
  }

  lemma PartParses(g: Graph, c0: Cluster, n: Ref, c: Cluster)
    requires LivePackages(c0) == c0.Keys && Partial(g, c0, n, c) && Parses(c0)
    ensures Parses(c)
  {
    forall r | r in LivePackages(c)
      ensures Parseable(Targets(r, c[r].manifest))
    {
      assert r in LivePackages(c0);
    }
  }

  /**
   The verdict on a doomed package is the same in every partial state: namespaced ones may go, and cluster
   packages exactly when the graph that the first deletion leads to is sound, whether that was checked or not.
   */
  lemma CascadeVerdict(g: Graph, c0: Cluster, n: Ref, c: Cluster, x: Ref)
    requires AtRest(g, c0) && n in c0 && Partial(g, c0, n, c)
    requires x in LivePackages(c) && x in Doomed(g, n)
    ensures Parses(c0) ==> Parses(c)
    ensures Admits(c, x) <==> Parses(c) && (x.namespace != "" || Sound(DeletedAndPruned(g, n)))
  {
    assert LivePackages(c0) == c0.Keys;
    var h := KeepOnly(g, LivePackages(c));
    MirrorOfPart(g, c0, n, c);
    if Parses(c0) { PartParses(g, c0, n, c); }
    SamePrunedGraph(g, n, h, x);
    if x.namespace == "" {
      VerdictOf(h, c, x);
    }
  }
}
