/**
 What every run of operator passes keeps: no package installed as a dependency is forgotten, none is
 deleted while another package still lists it, and a finalizer goes only when nothing is owned.
 */
module Ownership {
  import opened GraphModel
  import opened OwnedRefs
  import opened PruneLoops
  import opened Operator

  // ---------------------------------------------------------------- references

  /** A reference to a package has the kind that goes with its namespace. */
  lemma SameRef(x: OwnedRef, r: Ref)
    ensures RefersToSameResource(x, RefTo(r)) <==>
            && x.group == "packages.glasskube.dev" && x.version == "v1alpha1" && TargetOf(x) == r
            && x.kind == (if x.namespace == "" then "ClusterPackage" else "Package")
  {
  }

  /** Lists of references to packages, none twice. */
  ghost predicate WellOwned(p: Package) {
    PackageRefs(p.ownedPackages) && Distinct(p.ownedPackages) && Distinct(p.ownedInfos)
  }

  ghost predicate AllWellOwned(c: Cluster) {
    forall r :: r in c ==> WellOwned(c[r])
  }

  lemma PackageRefsSubset(refs: seq<OwnedRef>, some: seq<OwnedRef>)
    requires PackageRefs(refs) && forall x :: x in some ==> x in refs
    ensures PackageRefs(some)
  {
  }

  lemma ValidKind(c: Cluster, self: Ref, all: bool, current: seq<OwnedRef>, api: Api, x: OwnedRef)
    requires RefersToSameResource(x, RefTo(TargetOf(x)))
    ensures !VisitPackage(c, self, all, current, api, x).Abort?
  {
  }

  /** References to packages have a valid kind: the loop never returns early. */
  lemma {:induction false} NeverAborts(
    c: Cluster, self: Ref, all: bool, current: seq<OwnedRef>, api: nat -> Api, s: Scan, i: nat, n: nat)
    requires InBounds(s.slice) && n <= |s.slice.memory| && !s.aborted && PackageRefs(s.slice.memory)
    ensures !RangePrune(s, i, n, PackageVisits(c, self, all, current, api)).aborted
    decreases n - i
  {
    if i < n {
      var x := s.slice.memory[i];
      var v := VisitPackage(c, self, all, current, api(i), x);
      assert x in s.slice.memory;
      ValidKind(c, self, all, current, api(i), x);
      AfterVisitMembers(s, x, v);
      PackageRefsSubset(s.slice.memory, AfterVisit(s, x, v).slice.memory);
      NeverAborts(c, self, all, current, api, AfterVisit(s, x, v), i + 1, n);
    }
  }

  /** What one scan of an owned-packages list leaves, whatever the API answers. */
  lemma PackageScanLeaves(
    c: Cluster, self: Ref, all: bool, refs: seq<OwnedRef>, current: seq<OwnedRef>, env: Env)
    requires PackageRefs(refs) && Distinct(refs)
    ensures var t := PackageScan(c, self, all, refs, current, env);
            && !t.aborted && ListAfter(t) == Elements(t.slice)
            && (forall x :: x in ListAfter(t) ==> x in refs)
            && PackageRefs(ListAfter(t)) && Distinct(ListAfter(t))
  {
    var s, decide := Started(refs), PackageVisits(c, self, all, current, env.packageApi);
    assert Elements(s.slice) == refs;
    if !env.listFails {
      NeverAborts(c, self, all, current, env.packageApi, s, 0, |refs|);
      OnlyOriginals(s, 0, |refs|, decide);
      StaysDistinct(s, 0, |refs|, decide);
      PackageRefsSubset(refs, Elements(PackageScan(c, self, all, refs, current, env).slice));
    }
  }

  /** What it deletes: dependencies that no other package uses, and that are not current. */
  lemma PackageScanDeletes(
    c: Cluster, self: Ref, all: bool, refs: seq<OwnedRef>, current: seq<OwnedRef>, env: Env, x: OwnedRef)
    requires x in PackageScan(c, self, all, refs, current, env).deleted
    ensures x in refs && TargetOf(x) in c && c[TargetOf(x)].asDependency
    ensures !StillUsed(c, self, x) && (all || !Lists(current, x))
  {
    if !env.listFails {
      var decide := PackageVisits(c, self, all, current, env.packageApi);
      OnlyOriginalsDeleted(Started(refs), 0, |refs|, decide, x);
      var k: nat :| decide(k, x) == Drop(true);
      assert VisitPackage(c, self, all, current, env.packageApi(k), x) == Drop(true);
    }
  }

  /**
   A dependency leaves a list only if it is not current, and if it is still used elsewhere, or not
   there any more, or not installed as a dependency, or its deletion was issued.
   */
  lemma DroppedForAReason(
    c: Cluster, self: Ref, all: bool, refs: seq<OwnedRef>, current: seq<OwnedRef>, env: Env, x: OwnedRef)
    requires x in refs && x !in Elements(PackageScan(c, self, all, refs, current, env).slice)
    ensures var t := PackageScan(c, self, all, refs, current, env);
            || StillUsed(c, self, x) || TargetOf(x) !in c || !c[TargetOf(x)].asDependency
            || exists y :: y in t.deleted && TargetOf(y) == TargetOf(x)
    ensures all || !Lists(current, x)
  {
    var s, decide := Started(refs), PackageVisits(c, self, all, current, env.packageApi);
    var t := PackageScan(c, self, all, refs, current, env);
    assert Elements(s.slice) == refs;
    assert !env.listFails;
    LeavesForAReason(s, 0, |refs|, decide, x);
    var k: nat, y :| y in refs && RefersToSameResource(x, y) && Drops(decide, k, y) &&
                     (decide(k, y) == Drop(true) ==> y in t.deleted);
    var v := VisitPackage(c, self, all, current, env.packageApi(k), y);
    assert v == decide(k, y);
    SameLists(c, self, current, x, y);
  }

  /** References to the same resource are listed alike. */
  lemma SameLists(c: Cluster, self: Ref, current: seq<OwnedRef>, x: OwnedRef, y: OwnedRef)
    requires RefersToSameResource(x, y)
    ensures Lists(current, x) <==> Lists(current, y)
    ensures StillUsed(c, self, x) <==> StillUsed(c, self, y)
    ensures TargetOf(x) == TargetOf(y)
  {
    ListsSame(current, x, y);
    forall o | o in c
      ensures Lists(c[o].ownedPackages, x) <==> Lists(c[o].ownedPackages, y)
    {
      ListsSame(c[o].ownedPackages, x, y);
    }
  }

  lemma ListsSame(refs: seq<OwnedRef>, x: OwnedRef, y: OwnedRef)
    requires RefersToSameResource(x, y)
    ensures Lists(refs, x) <==> Lists(refs, y)
  {
  }

  // ---------------------------------------------------------------- steps of a cluster

  datatype Action =
    | Create(r: Ref, p: Package)
    | RequestDelete(r: Ref)
    | Vanish(r: Ref)
    | Deletion(r: Ref, env: Env)
    | Live(r: Ref, findings: Findings, env: Env)

  /** As `Create` leaves a package */
  ghost predicate IsNew(p: Package) {
    !p.terminating && !p.finalizer && !p.deletionReported && p.ownedPackages == [] && p.ownedInfos == []
  }

  ghost predicate Enabled(c: Cluster, a: Action) {
    match a
    case Create(r, p) => r !in c && IsNew(p)
    case RequestDelete(r) => r in c
    case Vanish(r) => r in c && c[r].terminating && !c[r].finalizer
    case Deletion(r, env) => r in c && c[r].terminating
    case Live(r, findings, env) => r in c && !c[r].terminating && PackageRefs(findings.current)
  }

  ghost function Apply(c: Cluster, a: Action): Cluster
    requires Enabled(c, a)
  {
    match a
    case Create(r, p) => c[r := p]
    case RequestDelete(r) => c[r := c[r].(terminating := true)]
    case Vanish(r) => c - {r}
    case Deletion(r, env) => DeletionPass(c, r, env)
    case Live(r, findings, env) => LivePass(c, r, findings, env)
  }

  /** Every package that starts terminating has its finalizer persisted, or owns nothing. */
  ghost predicate Orderly(c: Cluster, d: Cluster) {
    forall r :: r in c && r in d && !c[r].terminating && d[r].terminating ==> d[r].finalizer || d[r].ownedPackages == []
  }

  ghost predicate OrderlyDeparture(c: Cluster) {
    forall r :: r in c && c[r].terminating && !c[r].finalizer ==> c[r].ownedPackages == []
  }

  /** Some existing package lists x. */
  ghost predicate Listed(c: Cluster, x: Ref) {
    exists o :: o in c && Owns(c[o], x)
  }

  /** Not forgotten: installed by a user, being deleted, or still listed. */
  ghost predicate Remembered(c: Cluster, x: Ref) {
    x in c && (!c[x].asDependency || c[x].terminating || Listed(c, x))
  }

  // ---------------------------------------------------------------- one pass, field by field

  /** What a pass leaves alone, and what becomes of the other packages. */
  ghost predicate PassFrame(c: Cluster, d: Cluster, self: Ref) {
    && d.Keys == c.Keys
    && (forall r :: r in c ==>
          && d[r].asDependency == c[r].asDependency && (c[r].terminating ==> d[r].terminating)
          && d[r].version == c[r].version && d[r].manifest == c[r].manifest && d[r].infoName == c[r].infoName)
    && (forall r :: r in c && r != self ==> d[r] == c[r].(terminating := d[r].terminating))
  }

  ghost predicate Deletes(o: Outcome, r: Ref) {
    exists y :: y in o.deleted && TargetOf(y) == r
  }

  /** What is persisted of an outcome: deletions always, the rest as far as the update goes through. */
  lemma PersistEffect(c: Cluster, self: Ref, o: Outcome, env: Env)
    requires self in c && o.package.asDependency == c[self].asDependency
    ensures var d := Persist(c, self, o, env);
            && PassFrame(c, d, self)
            && (forall r :: r in c ==> (d[r].terminating <==> c[r].terminating || Deletes(o, r)))
            && (d[self].ownedPackages == c[self].ownedPackages || d[self].ownedPackages == o.package.ownedPackages)
            && (d[self].ownedInfos == c[self].ownedInfos || d[self].ownedInfos == o.package.ownedInfos)
  {
    var d, m := Persist(c, self, o, env), MarkTerminating(c, o.deleted);
    assert d.Keys == c.Keys;
    forall r | r in c
      ensures d[r].terminating <==> c[r].terminating || Deletes(o, r)
      ensures r != self ==> d[r] == c[r].(terminating := d[r].terminating)
      ensures d[r].asDependency == c[r].asDependency && d[r].version == c[r].version
      ensures d[r].manifest == c[r].manifest && d[r].infoName == c[r].infoName
    {
      MarkEffect(c, o, r);
    }
    MarkEffect(c, o, self);
  }

  lemma MarkEffect(c: Cluster, o: Outcome, r: Ref)
    requires r in c
    ensures var m := MarkTerminating(c, o.deleted);
            m[r] == c[r].(terminating := m[r].terminating) && (m[r].terminating <==> c[r].terminating || Deletes(o, r))
  {
  }

  // ---------------------------------------------------------------- nothing is forgotten

  /** A pass that scans a list holding all of self's references forgets nothing. */
  lemma ScanRemembers(
    c: Cluster, self: Ref, all: bool, refs: seq<OwnedRef>, current: seq<OwnedRef>, o: Outcome, env: Env, x: Ref)
    requires self in c && PackageRefs(refs) && Distinct(refs) && o.package.asDependency == c[self].asDependency
    requires forall y :: y in c[self].ownedPackages ==> y in refs
    requires var t := PackageScan(c, self, all, refs, current, env);
             o.deleted == t.deleted && o.package.ownedPackages == ListAfter(t)
    requires Remembered(c, x)
    ensures Remembered(Persist(c, self, o, env), x)
  {
    var d := Persist(c, self, o, env);
    PersistEffect(c, self, o, env);
    if c[x].asDependency && !c[x].terminating {
      var w :| w in c && Owns(c[w], x);
      if w != self || d[self].ownedPackages == c[self].ownedPackages {
        assert Owns(d[w], x);
      } else {
        PackageScanLeaves(c, self, all, refs, current, env);
        var y :| y in c[self].ownedPackages && RefersToSameResource(y, RefTo(x));
        if y in d[self].ownedPackages {
          assert Owns(d[self], x);
        } else {
          DroppedForAReason(c, self, all, refs, current, env, y);
          assert TargetOf(y) == x;
          if StillUsed(c, self, y) {
            var q :| q in c && q != self && !c[q].terminating && Lists(c[q].ownedPackages, y);
            ListsSame(c[q].ownedPackages, y, RefTo(x));
            assert Owns(d[q], x);
          }
        }
      }
    }
  }

  /** A pass that keeps listing what it listed forgets nothing. */
  lemma KeepingRemembers(c: Cluster, self: Ref, o: Outcome, env: Env, x: Ref)
    requires self in c && o.package.asDependency == c[self].asDependency
    requires forall y :: y in c[self].ownedPackages ==> y in o.package.ownedPackages
    requires Remembered(c, x)
    ensures Remembered(Persist(c, self, o, env), x)
  {
    PersistEffect(c, self, o, env);
    if c[x].asDependency && !c[x].terminating {
      var w :| w in c && Owns(c[w], x);
      assert Owns(Persist(c, self, o, env)[w], x);
    }
  }

  lemma DeletionRemembers(c: Cluster, self: Ref, env: Env, x: Ref)
    requires self in c && AllWellOwned(c) && Remembered(c, x)
    ensures Remembered(DeletionPass(c, self, env), x)
  {
    var o := DeletionOutcome(c, self, env);
    assert WellOwned(c[self]);
    if c[self].finalizer && c[self].ownedPackages != [] {
      ScanRemembers(c, self, true, c[self].ownedPackages, [], o, env, x);
    } else {
      KeepingRemembers(c, self, o, env, x);
    }
  }

  lemma LiveRemembers(c: Cluster, self: Ref, f: Findings, env: Env, x: Ref)
    requires self in c && AllWellOwned(c) && PackageRefs(f.current) && Remembered(c, x)
    ensures Remembered(LivePass(c, self, f, env), x)
  {
    var o, packages := LiveOutcome(c, self, f, env), WithAdded(c[self].ownedPackages, f.current);
    WithAddedLists(c[self].ownedPackages, f.current);
    assert WellOwned(c[self]);
    if f.success {
      ScanRemembers(c, self, false, packages, f.current, o, env, x);
    } else {
      KeepingRemembers(c, self, o, env, x);
    }
  }

  /** The last package that lists the dependency x leaves, and x is not being deleted. */
  ghost predicate Forgets(c: Cluster, a: Action, x: Ref) {
    && a.Vanish? && x != a.r
    && x in c && c[x].asDependency && !c[x].terminating
    && forall o :: o in c && o != a.r ==> !Owns(c[o], x)
  }

  /** A step forgets a package that stays in the cluster exactly when it is the departure of its last owner. */
  lemma StepForgetsIff(c: Cluster, a: Action, x: Ref)
    requires Enabled(c, a) && AllWellOwned(c)
    requires Remembered(c, x) && x in Apply(c, a)
    ensures Remembered(Apply(c, a), x) <==> !Forgets(c, a, x)
  {
    var d := Apply(c, a);
    match a
    case Deletion(r, env) => DeletionRemembers(c, r, env, x);
    case Live(r, f, env) => LiveRemembers(c, r, f, env, x);
    case Vanish(r) =>
      assert forall o :: o in d <==> o in c && o != r;
      assert forall o :: o in d ==> d[o] == c[o];
    case _ =>
      if c[x].asDependency && !c[x].terminating {
        var o :| o in c && Owns(c[o], x);
        assert Owns(d[o], x);
      }
  }

  /** No step forgets a dependency that stays in the cluster, when departures are orderly. */
  lemma StepRemembers(c: Cluster, a: Action, x: Ref)
    requires Enabled(c, a) && AllWellOwned(c) && OrderlyDeparture(c)
    requires Remembered(c, x) && x in Apply(c, a)
    ensures Remembered(Apply(c, a), x)
  {
    StepForgetsIff(c, a, x);
  }

  lemma InfoScanDistinct(c: Cluster, self: Ref, all: bool, refs: seq<OwnedRef>, infoName: string, env: Env)
    requires Distinct(refs)
    ensures Distinct(Elements(InfoScan(c, self, all, refs, infoName, env).slice))
  {
    assert Elements(Started(refs).slice) == refs;
    if !env.infoListFails {
      StaysDistinct(Started(refs), 0, |refs|, InfoVisits(c, self, all, infoName, env.infoApi));
    }
  }

  lemma DeletionOutcomeWellOwned(c: Cluster, self: Ref, env: Env)
    requires self in c && WellOwned(c[self])
    ensures WellOwned(DeletionOutcome(c, self, env).package)
  {
    var p := c[self];
    PackageScanLeaves(c, self, true, p.ownedPackages, [], env);
    InfoScanDistinct(c, self, true, p.ownedInfos, p.infoName, env);
  }

  lemma LiveOutcomeWellOwned(c: Cluster, self: Ref, f: Findings, env: Env)
    requires self in c && WellOwned(c[self]) && PackageRefs(f.current)
    ensures WellOwned(LiveOutcome(c, self, f, env).package)
  {
    var p := c[self];
    var packages, infos := WithAdded(p.ownedPackages, f.current), WithAdded(p.ownedInfos, [f.infoRef]);
    WithAddedLists(p.ownedPackages, f.current);
    WithAddedLists(p.ownedInfos, [f.infoRef]);
    PackageScanLeaves(c, self, false, packages, f.current, env);
    InfoScanDistinct(c, self, false, infos, p.infoName, env);
  }

  lemma StepWellOwned(c: Cluster, a: Action)
    requires Enabled(c, a) && AllWellOwned(c)
    ensures AllWellOwned(Apply(c, a))
  {
    var d := Apply(c, a);
    if a.Deletion? {
      DeletionOutcomeWellOwned(c, a.r, a.env);
      PersistEffect(c, a.r, DeletionOutcome(c, a.r, a.env), a.env);
    } else if a.Live? {
      LiveOutcomeWellOwned(c, a.r, a.findings, a.env);
      PersistEffect(c, a.r, LiveOutcome(c, a.r, a.findings, a.env), a.env);
    }
    forall r | r in d
      ensures WellOwned(d[r])
    {
      if r in c { assert WellOwned(c[r]); }
    }
  }

  /** The finalizer of a package goes only in a pass that found both lists empty and changed no status. */
  lemma FinalizerGoesLast(c: Cluster, self: Ref, env: Env)
    requires self in c && c[self].finalizer && !DeletionPass(c, self, env)[self].finalizer
    ensures c[self].ownedPackages == [] && c[self].ownedInfos == [] && c[self].deletionReported
    ensures DeletionPass(c, self, env) == c[self := c[self].(finalizer := false)]
  {
    assert MarkTerminating(c, []) == c;
  }

  lemma StepOrderly(c: Cluster, a: Action)
    requires Enabled(c, a) && OrderlyDeparture(c) && Orderly(c, Apply(c, a))
    ensures OrderlyDeparture(Apply(c, a))
  {
    var d := Apply(c, a);
    if a.Deletion? {
      PersistEffect(c, a.r, DeletionOutcome(c, a.r, a.env), a.env);
      if c[a.r].finalizer && !d[a.r].finalizer {
        FinalizerGoesLast(c, a.r, a.env);
      }
    } else if a.Live? {
      PersistEffect(c, a.r, LiveOutcome(c, a.r, a.findings, a.env), a.env);
    }
    forall r | r in d && d[r].terminating && !d[r].finalizer
      ensures d[r].ownedPackages == []
    {
      assert r in c;
      if c[r].terminating && !c[r].finalizer {
        assert c[r].ownedPackages == [];
      }
    }
  }

  // ---------------------------------------------------------------- over whole runs

  /** cs is what the actions make of cs[0], step by step. */
  ghost predicate IsRun(cs: seq<Cluster>, actions: seq<Action>) {
    && |cs| == |actions| + 1
    && forall i :: 0 <= i < |actions| ==> Enabled(cs[i], actions[i]) && cs[i + 1] == Apply(cs[i], actions[i])
  }

  /** Every departure begins orderly. */
  ghost predicate OrderlyRun(cs: seq<Cluster>, actions: seq<Action>) {
    IsRun(cs, actions) && forall i :: 0 <= i < |actions| ==> Orderly(cs[i], cs[i + 1])
  }

  lemma {:induction false} RunWellOwned(cs: seq<Cluster>, actions: seq<Action>, i: nat)
    requires IsRun(cs, actions) && i < |cs| && AllWellOwned(cs[0])
    ensures AllWellOwned(cs[i])
  {
    if i > 0 {
      var k := i - 1;
      RunWellOwned(cs, actions, k);
      assert cs[k + 1] == Apply(cs[k], actions[k]);
      StepWellOwned(cs[k], actions[k]);
    }
  }

  /**
   Over any run, a package that stays in the cluster stays remembered exactly as long as no step is the
   departure of its last owner.
   */
  lemma {:induction false} RemembersUnlessForgotten(cs: seq<Cluster>, actions: seq<Action>, x: Ref, i: nat, j: nat)
    requires IsRun(cs, actions) && i <= j < |cs| && AllWellOwned(cs[0])
    requires Remembered(cs[i], x) && forall k :: i <= k <= j ==> x in cs[k]
    ensures (forall k :: i <= k <= j ==> Remembered(cs[k], x)) <==>
            (forall k :: i <= k < j ==> !Forgets(cs[k], actions[k], x))
    decreases j - i
  {
    if i < j {
      var n := j - 1;
      RemembersUnlessForgotten(cs, actions, x, i, n);
      RunWellOwned(cs, actions, n);
      assert cs[n + 1] == Apply(cs[n], actions[n]);
      if Remembered(cs[n], x) {
        StepForgetsIff(cs[n], actions[n], x);
      }
    }
  }

  lemma {:induction false} RunInvariant(cs: seq<Cluster>, actions: seq<Action>, i: nat)
    requires OrderlyRun(cs, actions) && i < |cs|
    requires AllWellOwned(cs[0]) && OrderlyDeparture(cs[0])
    ensures AllWellOwned(cs[i]) && OrderlyDeparture(cs[i])
  {
    if i > 0 {
      var k := i - 1;
      RunInvariant(cs, actions, k);
      assert cs[k + 1] == Apply(cs[k], actions[k]);
      StepWellOwned(cs[k], actions[k]);
      StepOrderly(cs[k], actions[k]);
    }
  }

  /**
   No leak: in every run, a dependency that was once listed and stays in the cluster is being deleted,
   or is still listed by an existing package.
   */
  lemma {:induction false} NoLeak(cs: seq<Cluster>, actions: seq<Action>, x: Ref, i: nat, j: nat)
    requires OrderlyRun(cs, actions) && i <= j < |cs|
    requires AllWellOwned(cs[0]) && OrderlyDeparture(cs[0])
    requires Remembered(cs[i], x) && forall k :: i <= k <= j ==> x in cs[k]
    ensures Remembered(cs[j], x)
    decreases j - i
  {
    if i < j {
      var k := j - 1;
      NoLeak(cs, actions, x, i, k);
      RunInvariant(cs, actions, k);
      assert cs[k + 1] == Apply(cs[k], actions[k]);
      StepRemembers(cs[k], actions[k], x);
    }
  }

  const APP := Ref("app", "")
  const LIB := Ref("lib", "")

  /** One live pass of a package without a finalizer: the status is written, and the finalizer is lost. */
  lemma StatusBeforeFinalizer(c: Cluster, f: Findings, env: Env)
    requires APP in c && LIB in c && !c[APP].finalizer && c[APP].ownedPackages == []
    requires f.current == [RefTo(LIB)] && !f.success && !env.updateFails
    ensures var d := LivePass(c, APP, f, env);
            && d.Keys == c.Keys && d[LIB] == c[LIB]
            && d[APP].ownedPackages == [RefTo(LIB)] && !d[APP].finalizer && d[APP].terminating == c[APP].terminating
  {
    assert MarkTerminating(c, []) == c;
    var added := WithAdded([], [RefTo(LIB)]);
    assert [RefTo(LIB)][..0] == [] && WithAdded([], []) == [];
    assert added == [RefTo(LIB)];
  }

  /**
   A leak, reached: a package and its dependency have been created, one pass lists the dependency but does
   not write the finalizer, and the package is deleted before the next one.
   */
  lemma LeakIsReached(c: Cluster, f: Findings, env: Env)
    requires c.Keys == {APP, LIB} && IsNew(c[APP]) && IsNew(c[LIB]) && c[LIB].asDependency
    requires f.current == [RefTo(LIB)] && !f.success && !env.updateFails
    ensures exists cs, actions ::
              && IsRun(cs, actions) && cs[0] == c
              && |cs| == 4 && Remembered(cs[1], LIB) && Forgets(cs[2], actions[2], LIB)
              && LIB in cs[3] && !Remembered(cs[3], LIB)
  {
    var a := Live(APP, f, env);
    var c1 := Apply(c, a);
    StatusBeforeFinalizer(c, f, env);
    LeavesAfter(c, a, c1);
  }

  lemma LeavesAfter(c: Cluster, a: Action, c1: Cluster)
    requires Enabled(c, a) && Apply(c, a) == c1
    requires c1.Keys == {APP, LIB} && c1[APP].ownedPackages == [RefTo(LIB)] && c1[LIB].ownedPackages == []
    requires !c1[APP].finalizer && !c1[APP].terminating && c1[LIB].asDependency && !c1[LIB].terminating
    ensures exists cs, actions ::
              && IsRun(cs, actions) && cs[0] == c
              && |cs| == 4 && Remembered(cs[1], LIB) && Forgets(cs[2], actions[2], LIB)
              && LIB in cs[3] && !Remembered(cs[3], LIB)
  {
    var c2 := c1[APP := c1[APP].(terminating := true)];
    var c3 := c2 - {APP};
    LastOwnerLeaves(c1, c2);
    var cs, actions := [c, c1, c2, c3], [a, RequestDelete(APP), Vanish(APP)];
    ThreeSteps(c, a, c1, RequestDelete(APP), c2, Vanish(APP), c3);
  }

  lemma ThreeSteps(c: Cluster, a0: Action, c1: Cluster, a1: Action, c2: Cluster, a2: Action, c3: Cluster)
    requires Enabled(c, a0) && Apply(c, a0) == c1 && Enabled(c1, a1) && Apply(c1, a1) == c2
    requires Enabled(c2, a2) && Apply(c2, a2) == c3
    ensures IsRun([c, c1, c2, c3], [a0, a1, a2])
  {
  }

  lemma LastOwnerLeaves(c3: Cluster, c4: Cluster)
    requires c3.Keys == {APP, LIB} && c3[APP].ownedPackages == [RefTo(LIB)] && c3[LIB].ownedPackages == []
    requires c3[LIB].asDependency && !c3[LIB].terminating
    requires c4 == c3[APP := c3[APP].(terminating := true)]
    ensures Remembered(c3, LIB) && Forgets(c4, Vanish(APP), LIB) && !Remembered(c4 - {APP}, LIB)
  {
    assert RefTo(LIB) in c3[APP].ownedPackages;
    assert Owns(c3[APP], LIB);
  }

  // ---------------------------------------------------------------- nothing is deleted too early

  lemma DeletedUnused(
    c: Cluster, self: Ref, all: bool, refs: seq<OwnedRef>, current: seq<OwnedRef>, env: Env, x: Ref, o: Ref)
    requires PackageRefs(refs)
    requires exists y :: y in PackageScan(c, self, all, refs, current, env).deleted && TargetOf(y) == x
    ensures x in c && c[x].asDependency && Lists(refs, RefTo(x))
    ensures o in c && o != self && !c[o].terminating ==> !Owns(c[o], x)
    ensures all || !Lists(current, RefTo(x))
  {
    var y :| y in PackageScan(c, self, all, refs, current, env).deleted && TargetOf(y) == x;
    PackageScanDeletes(c, self, all, refs, current, env, y);
    assert RefersToSameResource(y, RefTo(x));
    SameLists(c, self, current, y, RefTo(x));
  }

  /**
   A pass starts the deletion of a package only if that exists, was installed as a dependency and was
   listed by the package in question, and no other package that is not itself being deleted lists it.
   */
  lemma NoPrematureDeletion(c: Cluster, a: Action, x: Ref, o: Ref)
    requires Enabled(c, a) && (a.Deletion? || a.Live?) && AllWellOwned(c)
    requires x in c && !c[x].terminating && Apply(c, a)[x].terminating
    ensures c[x].asDependency
    ensures o in c && o != a.r && !c[o].terminating ==> !Owns(c[o], x)
    ensures a.Deletion? ==> Owns(c[a.r], x)
    ensures a.Live? ==> !Lists(a.findings.current, RefTo(x))
  {
    var p := c[a.r];
    assert WellOwned(p);
    if a.Deletion? {
      PersistEffect(c, a.r, DeletionOutcome(c, a.r, a.env), a.env);
      DeletedUnused(c, a.r, true, p.ownedPackages, [], a.env, x, o);
    } else {
      var f, packages := a.findings, WithAdded(p.ownedPackages, a.findings.current);
      WithAddedLists(p.ownedPackages, f.current);
      PersistEffect(c, a.r, LiveOutcome(c, a.r, f, a.env), a.env);
      DeletedUnused(c, a.r, false, packages, f.current, a.env, x, o);
    }
  }

  // ---------------------------------------------------------------- how long a deletion takes

  ghost predicate ErrorFree(env: Env) {
    && !env.listFails && !env.infoListFails && !env.updateFails
    && forall i: nat :: env.packageApi(i) == Api(false, false) && env.infoApi(i) == Api(false, false)
  }

  /** The passes until the finalizer is gone: floor(log2(n + 1)) for each list, and the final ones. */
  ghost function Remaining(p: Package): nat {
    if !p.finalizer then 0
    else
      PassesToEmpty(|p.ownedPackages|) + PassesToEmpty(|p.ownedInfos|) + 1 +
      if !p.deletionReported && p.ownedPackages == [] && p.ownedInfos == [] then 1 else 0
  }

  lemma PackagesAlwaysDrop(c: Cluster, self: Ref, refs: seq<OwnedRef>, env: Env)
    requires PackageRefs(refs) && ErrorFree(env)
    ensures AlwaysDrops(PackageVisits(c, self, true, [], env.packageApi), refs)
  {
    forall i: nat, x | x in refs
      ensures Drops(PackageVisits(c, self, true, [], env.packageApi), i, x)
    {
      assert env.packageApi(i) == Api(false, false);
      assert RefersToSameResource(x, RefTo(TargetOf(x)));
    }
  }

  lemma InfosAlwaysDrop(c: Cluster, self: Ref, refs: seq<OwnedRef>, infoName: string, env: Env)
    requires ErrorFree(env)
    ensures AlwaysDrops(InfoVisits(c, self, true, infoName, env.infoApi), refs)
  {
    forall i: nat, x | x in refs
      ensures Drops(InfoVisits(c, self, true, infoName, env.infoApi), i, x)
    {
      assert env.infoApi(i) == Api(false, false);
    }
  }

  lemma OwnFields(c: Cluster, self: Ref, o: Outcome, env: Env)
    requires self in c && !env.updateFails
    ensures var p := Persist(c, self, o, env)[self];
            && p.finalizer == (if o.updateResource && !o.updateStatus then o.package.finalizer else c[self].finalizer)
            && p.ownedPackages == (if o.updateStatus then o.package.ownedPackages else c[self].ownedPackages)
            && p.ownedInfos == (if o.updateStatus then o.package.ownedInfos else c[self].ownedInfos)
            && p.deletionReported == (if o.updateStatus then o.package.deletionReported else c[self].deletionReported)
  {
    MarkEffect(c, o, self);
  }

  /** An error-free scan of a nonempty list leaves (n - 1) / 2 of n references. */
  lemma ScanHalves(c: Cluster, self: Ref, p: Package, env: Env)
    requires WellOwned(p) && ErrorFree(env)
    ensures p.ownedPackages != [] ==>
              var t := PackageScan(c, self, true, p.ownedPackages, [], env);
              !t.aborted && |ListAfter(t)| == t.slice.length == (|p.ownedPackages| - 1) / 2
    ensures p.ownedInfos != [] ==>
              var t := InfoScan(c, self, true, p.ownedInfos, p.infoName, env);
              |Elements(t.slice)| == t.slice.length == (|p.ownedInfos| - 1) / 2
  {
    PackagesAlwaysDrop(c, self, p.ownedPackages, env);
    PruneAllLeavesOdds(p.ownedPackages, PackageVisits(c, self, true, [], env.packageApi));
    InfosAlwaysDrop(c, self, p.ownedInfos, p.infoName, env);
    PruneAllLeavesOdds(p.ownedInfos, InfoVisits(c, self, true, p.infoName, env.infoApi));
  }

  /**
   Every error-free pass over a package that is being deleted brings its end one pass closer, whatever
   the other packages look like.
   */
  lemma ErrorFreePassAdvances(c: Cluster, self: Ref, env: Env)
    requires self in c && c[self].terminating && c[self].finalizer && WellOwned(c[self]) && ErrorFree(env)
    ensures Remaining(DeletionPass(c, self, env)[self]) == Remaining(c[self]) - 1
  {
    var p := c[self];
    ScanHalves(c, self, p, env);
    OwnFields(c, self, DeletionOutcome(c, self, env), env);
    assert PassesToEmpty(0) == 0;
  }
}
