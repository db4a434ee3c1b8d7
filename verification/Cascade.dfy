/**
 The graph's preview of an uninstall and the operator's cascade of deletions: which packages go.
 */
module Cascade {
  import opened Wrappers
  import opened Semver
  import opened GraphModel
  import opened Installation
  import opened Resolution
  import opened OwnedRefs
  import opened Operator
  import opened Ownership

  // ---------------------------------------------------------------- graphs that agree on what is installed

  lemma SameInstalledSupported(g: Graph, h: Graph, s: set<Ref>)
    requires SameInstalled(g, h) && Supported(g, s)
    ensures Supported(h, s)
  {
    forall r | r in s
      ensures h[r].manual || exists q :: q in s && DependsOn(h, q, r)
    {
      assert Unlabelled(g[r]).manual == Unlabelled(h[r]).manual;
      if !g[r].manual {
        var q :| q in s && DependsOn(g, q, r);
        assert Unlabelled(g[q]).edges == Unlabelled(h[q]).edges;
        assert DependsOn(h, q, r);
      }
    }
  }

  lemma SameInstalledSurvivors(g: Graph, h: Graph)
    requires SameInstalled(g, h)
    ensures Survivors(g) == Survivors(h)
    ensures SameInstalled(Pruned(g), Pruned(h))
  {
    forall s: set<Ref>
      ensures Supported(g, s) <==> Supported(h, s)
    {
      if Supported(g, s) { SameInstalledSupported(g, h, s); }
      if Supported(h, s) { SameInstalledSupported(h, g, s); }
    }
    SameSupported(g, h);
    PrunedInstalled(g);
    PrunedInstalled(h);
    SurvivorsAreGreatest(g);
    forall r | r in Survivors(g)
      ensures Unlabelled(Pruned(g)[r]) == Unlabelled(Pruned(h)[r])
    {
      assert r in Installed(g);
    }
  }

  lemma SameInstalledSound(g: Graph, h: Graph)
    requires WellFormed(g) && WellFormed(h) && SameInstalled(g, h)
    ensures Sound(g) <==> Sound(h)
  {
    forall q, r
      ensures Broken(g, q, r) <==> Broken(h, q, r)
    {
      SameInstalledSameErrors(g, h, q, r);
    }
  }

  // ---------------------------------------------------------------- every partial state, the same pruned graph

  lemma SupportedInPart(g: Graph, a: set<Ref>, s: set<Ref>)
    requires a <= Installed(g) && s <= a
    ensures Supported(KeepOnly(g, a), s) <==> Supported(g, s)
  {
    var h := KeepOnly(g, a);
    assert forall q, r :: q in s ==> (DependsOn(h, q, r) <==> DependsOn(g, q, r));
    assert forall r :: r in s ==> h[r] == g[r];
  }

  lemma KeepTwice(g: Graph, a: set<Ref>, s: set<Ref>)
    requires s <= a
    ensures KeepOnly(KeepOnly(g, a), s) == KeepOnly(g, s)
  {
  }

  lemma PartialSurvivors(g: Graph, n: Ref, a: set<Ref>)
    requires n in Installed(g)
    requires Survivors(Delete(g, n)) <= a <= Installed(g) - {n}
    ensures Survivors(KeepOnly(g, a)) == Survivors(Delete(g, n))
  {
    var h, k := KeepOnly(g, a), Delete(g, n);
    var s, t := Survivors(k), Survivors(h);
    SurvivorsAreGreatest(h);
    SurvivorsAreGreatest(k);
    assert s <= t by {
      SupportedWithout(g, n, s);
      SupportedInPart(g, a, s);
    }
    assert t <= s by {
      KeepInstalled(g, a);
      SupportedInPart(g, a, t);
      SupportedWithout(g, n, t);
    }
  }

  /**
   Take any set between the survivors of deleting n and what is installed besides n: pruning what is
   left of the graph on that set gives the same graph.
   */
  lemma PartialStatesPruneAlike(g: Graph, n: Ref, a: set<Ref>)
    requires n in Installed(g)
    requires Survivors(Delete(g, n)) <= a <= Installed(g) - {n}
    ensures Pruned(KeepOnly(g, a)) == Pruned(Delete(g, n))
  {
    var s := Survivors(Delete(g, n));
    PartialSurvivors(g, n, a);
    KeepTwice(g, a, s);
    KeepUninstalled(g, n, s);
  }

  lemma KeepInstalled(g: Graph, a: set<Ref>)
    requires a <= Installed(g)
    ensures Installed(KeepOnly(g, a)) == a
  {
  }

  lemma KeepLess(g: Graph, a: set<Ref>, x: Ref)
    requires x in g && a <= Installed(g)
    ensures Delete(KeepOnly(g, a), x) == KeepOnly(g, a - {x})
  {
  }

  // ---------------------------------------------------------------- clusters and their graphs

  ghost function LivePackages(c: Cluster): set<Ref> {
    set r | r in c && !c[r].terminating
  }

  ghost function ManifestEdges(r: Ref, m: Manifest): map<Ref, Option<Constraint>> {
    EdgesFrom(map[], Targets(r, m))
  }

  /** g is what `NewGraph` builds from c, whatever the order and the labels. */
  ghost predicate Mirrors(g: Graph, c: Cluster) {
    && WellFormed(g)
    && Installed(g) == LivePackages(c)
    && forall r :: r in LivePackages(c) ==>
         Unlabelled(g[r]) == Node("", Some(c[r].version), !c[r].asDependency, ManifestEdges(r, c[r].manifest))
  }

  lemma AddedSelf(g: Graph, p: Ref, m: Manifest, v: Version, manual: bool)
    requires WellFormed(g) && Added(g, p, m, Parsed(v), manual).1
    ensures var g1 := Added(g, p, m, Parsed(v), manual).0;
            && WellFormed(g1) && Installed(g1) == Installed(g) + {p}
            && g1[p].version == Some(v) && g1[p].edges == ManifestEdges(p, m)
            && (forall r :: r in Installed(g) && r != p ==> g1[r] == g[r])
  {
    AddedEffect(g, p, m, v, manual);
    AddedInstalls(g, p, m, v, manual);
    AddedWellFormed(g, p, m, v, manual);
  }

  lemma MirrorsAgree(g: Graph, h: Graph, c: Cluster)
    requires Mirrors(g, c) && Mirrors(h, c)
    ensures SameInstalled(g, h)
  {
  }

  /**
   A cluster at rest: nothing is being deleted, finalizers are persisted, every package lists exactly
   its dependencies, and no dependency is orphaned.
   */
  ghost predicate AtRest(g: Graph, c: Cluster) {
    && Mirrors(g, c)
    && AllWellOwned(c)
    && (forall r :: r in c ==> !c[r].terminating && c[r].finalizer)
    && (forall r, x :: r in c ==> (Owns(c[r], x) <==> DependsOn(g, r, x)))
    && Survivors(g) == Installed(g)
  }

  /** What the preview says will go when n is deleted. */
  ghost function Doomed(g: Graph, n: Ref): set<Ref> {
    Installed(g) - Survivors(Delete(g, n))
  }

  lemma DoomedIsPreview(g: Graph, n: Ref)
    requires WellFormed(g) && n in Installed(g)
    ensures Doomed(g, n) == Installed(g) - Installed(DeletedAndPruned(g, n))
    ensures n in Doomed(g, n)
  {
    PrunedInstalled(Delete(g, n));
    SurvivorsAreGreatest(Delete(g, n));
    KeepUninstalled(g, n, {});
  }

  // ---------------------------------------------------------------- the cascade

  /** A reconcile pass that finds no more dependencies than the package lists, and all of them when it succeeds. */
  ghost predicate Faithful(p: Package, f: Findings) {
    && PackageRefs(f.current)
    && (forall x :: x in f.current ==> Lists(p.ownedPackages, x))
    && (f.success ==> forall x :: x in p.ownedPackages ==> Lists(f.current, x))
  }

  /**
   Steps that create nothing, and in which a live pass finds what its package lists: passes with any API outcomes,
   and departures.  Module `Recreation` says when these are all the steps there are.
   */
  ghost predicate CascadeAction(c: Cluster, a: Action) {
    && Enabled(c, a)
    && match a
       case Vanish(_) => true
       case Deletion(_, _) => true
       case RequestDelete(r) => c[r].terminating
       case Live(r, f, _) => Faithful(c[r], f)
       case Create(_, _) => false
  }

  /** The packages of c are those of c0; live ones are unchanged, and lists have only shrunk. */
  ghost predicate Remnant(g: Graph, c0: Cluster, c: Cluster) {
    && c.Keys <= c0.Keys
    && (forall r :: r in c ==>
          c[r].asDependency == c0[r].asDependency && c[r].version == c0[r].version && c[r].manifest == c0[r].manifest)
    && (forall r :: r in c && !c[r].terminating ==> c[r].ownedPackages == c0[r].ownedPackages && c[r].finalizer)
    && (forall r, x :: r in c && Owns(c[r], x) ==> DependsOn(g, r, x))
  }

  ghost predicate AllRemembered(c: Cluster) {
    forall x :: x in c ==> Remembered(c, x)
  }

  /** Only doomed packages have left or are leaving, among them n. */
  ghost predicate OnlyDoomed(g: Graph, c0: Cluster, n: Ref, c: Cluster) {
    && n !in LivePackages(c)
    && forall r :: r in c0 && r !in LivePackages(c) ==> r in Doomed(g, n)
  }

  /** What holds of every state of the cascade that deleting n from c0 starts. */
  ghost predicate CascadeState(g: Graph, c0: Cluster, n: Ref, c: Cluster) {
    Remnant(g, c0, c) && AllWellOwned(c) && OrderlyDeparture(c) && AllRemembered(c) && OnlyDoomed(g, c0, n, c)
  }

  lemma CascadeBegins(g: Graph, c0: Cluster, n: Ref)
    requires AtRest(g, c0) && n in c0
    ensures CascadeState(g, c0, n, Apply(c0, RequestDelete(n)))
  {
    var a, c := RequestDelete(n), Apply(c0, RequestDelete(n));
    StepWellOwned(c0, a);
    StepOrderly(c0, a);
    BeginsRemembered(g, c0, n);
    BeginsRemnant(g, c0, n);
    assert LivePackages(c0) == c0.Keys;
    DoomedIsPreview(g, n);
  }

  lemma BeginsRemnant(g: Graph, c0: Cluster, n: Ref)
    requires AtRest(g, c0) && n in c0
    ensures Remnant(g, c0, Apply(c0, RequestDelete(n)))
  {
    var c := Apply(c0, RequestDelete(n));
    forall r, x | r in c && Owns(c[r], x)
      ensures DependsOn(g, r, x)
    {
      assert Owns(c0[r], x);
    }
  }

  lemma BeginsRemembered(g: Graph, c0: Cluster, n: Ref)
    requires AtRest(g, c0) && n in c0
    ensures AllRemembered(Apply(c0, RequestDelete(n)))
  {
    var a := RequestDelete(n);
    forall x | x in c0
      ensures Remembered(Apply(c0, a), x)
    {
      if c0[x].asDependency { NotOrphaned(g, c0, x); }
      StepRemembers(c0, a, x);
    }
  }

  lemma NotOrphaned(g: Graph, c0: Cluster, x: Ref)
    requires AtRest(g, c0) && x in c0 && c0[x].asDependency
    ensures Listed(c0, x)
  {
    SurvivorsAreGreatest(g);
    assert x in Survivors(g);
    assert Unlabelled(g[x]).manual == false;
    var q :| q in Survivors(g) && DependsOn(g, q, x);
    assert Owns(c0[q], x);
  }

  /** A reference that leads a faithful pass: everything stays current. */
  lemma FaithfulKeeps(c: Cluster, self: Ref, f: Findings, env: Env)
    requires self in c && !c[self].terminating && WellOwned(c[self]) && Faithful(c[self], f)
    ensures LiveOutcome(c, self, f, env).package.ownedPackages == c[self].ownedPackages
    ensures LiveOutcome(c, self, f, env).deleted == []
    ensures LiveOutcome(c, self, f, env).package.finalizer
  {
    var refs := c[self].ownedPackages;
    NothingNewToAdd(refs, f.current);
    if f.success && !env.listFails {
      var s, decide := Started(refs), PackageVisits(c, self, false, f.current, env.packageApi);
      forall k: nat, x | x in refs
        ensures decide(k, x) == Keep
      {
        assert Lists(f.current, x);
        assert VisitPackage(c, self, false, f.current, env.packageApi(k), x) == Keep;
      }
      AllKept(s, 0, |refs|, decide);
      assert Elements(s.slice) == refs;
    }
  }

  lemma {:induction false} NothingNewToAdd(refs: seq<OwnedRef>, current: seq<OwnedRef>)
    requires forall x :: x in current ==> Lists(refs, x)
    ensures WithAdded(refs, current) == refs
    decreases |current|
  {
    if current != [] {
      NothingNewToAdd(refs, current[..|current| - 1]);
    }
  }

  lemma {:induction false} AllKept(s: Scan, i: nat, n: nat, decide: (nat, OwnedRef) -> Visit)
    requires InBounds(s.slice) && n <= |s.slice.memory|
    requires forall k: nat, x :: x in s.slice.memory ==> decide(k, x) == Keep
    ensures RangePrune(s, i, n, decide) == s
    decreases n - i
  {
    if i < n && !s.aborted {
      assert s.slice.memory[i] in s.slice.memory;
      AllKept(s, i + 1, n, decide);
    }
  }

  /** Lists only shrink in a cascade. */
  lemma CascadeLists(c: Cluster, a: Action, r: Ref, x: Ref)
    requires CascadeAction(c, a) && AllWellOwned(c) && r in Apply(c, a)
    ensures r in c
    ensures Owns(Apply(c, a)[r], x) ==> Owns(c[r], x)
    ensures !Apply(c, a)[r].terminating ==>
              Apply(c, a)[r].ownedPackages == c[r].ownedPackages && (c[r].finalizer ==> Apply(c, a)[r].finalizer)
  {
    assert r in c && WellOwned(c[r]);
    if a.Deletion? {
      var o := DeletionOutcome(c, a.r, a.env);
      PersistEffect(c, a.r, o, a.env);
      if r == a.r {
        PackageScanLeaves(c, r, true, c[r].ownedPackages, [], a.env);
      }
    } else if a.Live? {
      PersistEffect(c, a.r, LiveOutcome(c, a.r, a.findings, a.env), a.env);
      assert WellOwned(c[a.r]);
      FaithfulKeeps(c, a.r, a.findings, a.env);
    }
  }

  lemma CascadeRemnant(g: Graph, c0: Cluster, c: Cluster, a: Action)
    requires Remnant(g, c0, c) && AllWellOwned(c) && CascadeAction(c, a)
    ensures Remnant(g, c0, Apply(c, a))
  {
    var d := Apply(c, a);
    if a.Deletion? {
      PersistEffect(c, a.r, DeletionOutcome(c, a.r, a.env), a.env);
    } else if a.Live? {
      PersistEffect(c, a.r, LiveOutcome(c, a.r, a.findings, a.env), a.env);
    }
    forall r | r in d
      ensures r in c && (!d[r].terminating ==> d[r].ownedPackages == c[r].ownedPackages && (c[r].finalizer ==> d[r].finalizer))
      ensures !d[r].terminating ==> !c[r].terminating
      ensures d[r].asDependency == c[r].asDependency && d[r].version == c[r].version && d[r].manifest == c[r].manifest
    {
      CascadeLists(c, a, r, r);
    }
    forall r, x | r in d && Owns(d[r], x)
      ensures DependsOn(g, r, x)
    {
      CascadeLists(c, a, r, x);
    }
  }

  /** A surviving dependency is held by a live package throughout. */
  lemma SurvivorHeld(g: Graph, c0: Cluster, n: Ref, c: Cluster, x: Ref) returns (q: Ref)
    requires AtRest(g, c0) && n in c0 && Remnant(g, c0, c) && OnlyDoomed(g, c0, n, c)
    requires x in Survivors(Delete(g, n)) && x in c0 && c0[x].asDependency
    ensures q in c && !c[q].terminating && Owns(c[q], x)
  {
    var k, s := Delete(g, n), Survivors(Delete(g, n));
    SurvivorsAreGreatest(k);
    assert Unlabelled(g[x]).manual == false;
    q :| q in s && DependsOn(k, q, x);
    assert DependsOn(g, q, x);
    assert q in LivePackages(c0);
    assert q in LivePackages(c);
    assert Owns(c0[q], x);
  }

  /** No pass deletes a survivor: it is installed by a user, or held by a live survivor. */
  lemma DeletedAreDoomed(g: Graph, c0: Cluster, n: Ref, c: Cluster, a: Action, x: Ref)
    requires AtRest(g, c0) && n in c0 && CascadeState(g, c0, n, c) && CascadeAction(c, a)
    requires x in LivePackages(c) && x !in LivePackages(Apply(c, a))
    ensures x in Doomed(g, n)
  {
    OnlyPassesDelete(c, a, x);
    NoPrematureDeletion(c, a, x, x);
    if x in Survivors(Delete(g, n)) {
      var q := SurvivorHeld(g, c0, n, c, x);
      NoPrematureDeletion(c, a, x, q);
    }
  }

  /** In a cascade, only passes of packages that are being deleted delete others. */
  lemma OnlyPassesDelete(c: Cluster, a: Action, x: Ref)
    requires CascadeAction(c, a) && AllWellOwned(c)
    requires x in LivePackages(c) && x !in LivePackages(Apply(c, a))
    ensures a.Deletion? && c[a.r].terminating && x in Apply(c, a) && Apply(c, a)[x].terminating
  {
    if a.Live? {
      PersistEffect(c, a.r, LiveOutcome(c, a.r, a.findings, a.env), a.env);
      assert WellOwned(c[a.r]);
      FaithfulKeeps(c, a.r, a.findings, a.env);
    } else if a.Deletion? {
      PersistEffect(c, a.r, DeletionOutcome(c, a.r, a.env), a.env);
    }
  }

  lemma CascadeOrderly(g: Graph, c0: Cluster, c: Cluster, a: Action)
    requires Remnant(g, c0, c) && CascadeAction(c, a)
    ensures Orderly(c, Apply(c, a))
  {
    if a.Deletion? {
      PersistEffect(c, a.r, DeletionOutcome(c, a.r, a.env), a.env);
    } else if a.Live? {
      PersistEffect(c, a.r, LiveOutcome(c, a.r, a.findings, a.env), a.env);
    }
  }

  /** Every such step keeps the invariant of the cascade. */
  lemma CascadeContinues(g: Graph, c0: Cluster, n: Ref, c: Cluster, a: Action)
    requires AtRest(g, c0) && n in c0 && CascadeState(g, c0, n, c) && CascadeAction(c, a)
    ensures CascadeState(g, c0, n, Apply(c, a))
  {
    StepWellOwned(c, a);
    CascadeOrderly(g, c0, c, a);
    StepOrderly(c, a);
    CascadeRemnant(g, c0, c, a);
    CascadeRemembers(c, a);
    CascadeDooms(g, c0, n, c, a);
  }

  lemma CascadeRemembers(c: Cluster, a: Action)
    requires AllWellOwned(c) && OrderlyDeparture(c) && AllRemembered(c) && CascadeAction(c, a)
    ensures AllRemembered(Apply(c, a))
  {
    forall x | x in Apply(c, a)
      ensures Remembered(Apply(c, a), x)
    {
      CascadeLists(c, a, x, x);
      StepRemembers(c, a, x);
    }
  }

  lemma CascadeDooms(g: Graph, c0: Cluster, n: Ref, c: Cluster, a: Action)
    requires AtRest(g, c0) && n in c0 && CascadeState(g, c0, n, c) && CascadeAction(c, a)
    requires Remnant(g, c0, Apply(c, a))
    ensures OnlyDoomed(g, c0, n, Apply(c, a))
  {
    var d := Apply(c, a);
    StillDying(c, a, n);
    forall r | r in c0 && r !in LivePackages(d)
      ensures r in Doomed(g, n)
    {
      if r in LivePackages(c) {
        DeletedAreDoomed(g, c0, n, c, a, r);
      }
    }
  }

  lemma StillDying(c: Cluster, a: Action, r: Ref)
    requires CascadeAction(c, a) && r !in LivePackages(c)
    ensures r !in LivePackages(Apply(c, a))
  {
    if a.Deletion? {
      PersistEffect(c, a.r, DeletionOutcome(c, a.r, a.env), a.env);
    } else if a.Live? {
      PersistEffect(c, a.r, LiveOutcome(c, a.r, a.findings, a.env), a.env);
    }
  }

  /** Nothing is being deleted any more. */
  ghost predicate Quiet(c: Cluster) {
    forall r :: r in c ==> !c[r].terminating
  }

  /**
   The preview equals reality: once the cascade is over, the packages that are left are exactly the
   survivors, so those that went are exactly the ones the graph listed beforehand.
   */
  lemma PreviewEqualsReality(g: Graph, c0: Cluster, n: Ref, c: Cluster)
    requires AtRest(g, c0) && n in c0 && CascadeState(g, c0, n, c) && Quiet(c)
    ensures c.Keys == Survivors(Delete(g, n))
    ensures c0.Keys - c.Keys == Installed(g) - Installed(DeletedAndPruned(g, n))
  {
    assert LivePackages(c) == c.Keys && LivePackages(c0) == c0.Keys;
    DoomedIsPreview(g, n);
    QuietIsSupported(g, c0, n, c);
    SurvivorsAreGreatest(Delete(g, n));
    forall r | r in Survivors(Delete(g, n))
      ensures r in c
    {
      KeepUninstalled(g, n, {});
      assert r in c0 && r !in Doomed(g, n);
    }
  }

  /** In a quiet remnant, every dependency is listed by a package that stays. */
  lemma QuietSupports(g: Graph, c0: Cluster, n: Ref, c: Cluster, r: Ref)
    requires AtRest(g, c0) && n in c0 && CascadeState(g, c0, n, c) && Quiet(c) && r in c
    ensures r in Installed(g) && r != n
    ensures g[r].manual || exists q :: q in c.Keys && q != n && DependsOn(g, q, r)
  {
    assert r in LivePackages(c) && r in LivePackages(c0);
    assert Unlabelled(g[r]).manual == !c0[r].asDependency;
    if c[r].asDependency {
      assert Remembered(c, r);
      var o :| o in c && Owns(c[o], r);
      assert o in LivePackages(c);
      assert DependsOn(g, o, r);
    }
  }

  lemma QuietIsSupported(g: Graph, c0: Cluster, n: Ref, c: Cluster)
    requires AtRest(g, c0) && n in c0 && CascadeState(g, c0, n, c) && Quiet(c)
    ensures Supported(Delete(g, n), c.Keys)
  {
    forall r | r in c.Keys
      ensures r in Installed(g) && r != n && (g[r].manual || exists q :: q in c.Keys && q != n && DependsOn(g, q, r))
    {
      QuietSupports(g, c0, n, c, r);
    }
    assert Supported(g, c.Keys);
    SupportedWithout(g, n, c.Keys);
  }
}
