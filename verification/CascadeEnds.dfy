/**
 When a cascade of deletions comes to an end: exactly when the webhook admits what is still to be deleted.  It takes
 finitely many passes then, and never happens otherwise.
 */
module CascadeEnds {
  import opened GraphModel
  import opened Resolution
  import opened OwnedRefs
  import opened PruneLoops
  import opened Operator
  import opened Ownership
  import opened Cascade
  import opened Admission
  import opened Recreation
  import opened CascadeRuns

  // ---------------------------------------------------------------- how far a cluster is from being quiet

  ghost function WeightIn(weight: Package -> nat, c: Cluster, r: Ref): nat {
    if r in c then weight(c[r]) else 0
  }

  ghost function Total(weight: Package -> nat, c: Cluster, keys: set<Ref>): nat
    decreases |keys|
  {
    if keys == {} then 0
    else
      var r :| r in keys;
      WeightIn(weight, c, r) + Total(weight, c, keys - {r})
  }

  lemma {:induction false} TotalSplit(weight: Package -> nat, c: Cluster, keys: set<Ref>, r: Ref)
    requires r in keys
    ensures Total(weight, c, keys) == WeightIn(weight, c, r) + Total(weight, c, keys - {r})
    decreases |keys|
  {
    var q :| q in keys && Total(weight, c, keys) == WeightIn(weight, c, q) + Total(weight, c, keys - {q});
    if q != r {
      TotalSplit(weight, c, keys - {q}, r);
      TotalSplit(weight, c, keys - {r}, q);
      assert keys - {q} - {r} == keys - {r} - {q};
    }
  }

  lemma {:induction false} TotalMonotone(weight: Package -> nat, c: Cluster, d: Cluster, keys: set<Ref>)
    requires forall r :: r in keys ==> WeightIn(weight, d, r) <= WeightIn(weight, c, r)
    ensures Total(weight, d, keys) <= Total(weight, c, keys)
    decreases |keys|
  {
    if keys != {} {
      var r :| r in keys;
      TotalSplit(weight, c, keys, r);
      TotalSplit(weight, d, keys, r);
      TotalMonotone(weight, c, d, keys - {r});
    }
  }

  lemma TotalFalls(weight: Package -> nat, c: Cluster, d: Cluster, keys: set<Ref>, r: Ref)
    requires r in keys && WeightIn(weight, d, r) < WeightIn(weight, c, r)
    requires forall q :: q in keys && q != r ==> WeightIn(weight, d, q) <= WeightIn(weight, c, q)
    ensures Total(weight, d, keys) < Total(weight, c, keys)
  {
    TotalSplit(weight, c, keys, r);
    TotalSplit(weight, d, keys, r);
    TotalMonotone(weight, c, d, keys - {r});
  }

  // ---------------------------------------------------------------- error-free passes

  /** An upper bound on the error-free steps a package still takes until it is gone. */
  ghost function Steps(p: Package): nat {
    var passes := PassesToEmpty(|p.ownedPackages|) + PassesToEmpty(|p.ownedInfos|);
    if !p.terminating then passes + 4
    else if p.finalizer then Remaining(p) + 1
    else 1
  }

  /** A departure, or an error-free pass of a package whose finalizer is still there. */
  ghost predicate Progressing(c: Cluster, a: Action) {
    CascadeAction(c, a) && (a.Vanish? || (a.Deletion? && c[a.r].finalizer && ErrorFree(a.env)))
  }

  lemma ProgressOfOne(c: Cluster, a: Action)
    requires Progressing(c, a) && AllWellOwned(c)
    ensures WeightIn(Steps, Apply(c, a), a.r) < WeightIn(Steps, c, a.r)
  {
    if a.Deletion? {
      assert WellOwned(c[a.r]);
      PersistEffect(c, a.r, DeletionOutcome(c, a.r, a.env), a.env);
      ErrorFreePassAdvances(c, a.r, a.env);
    }
  }

  lemma OthersProgress(c: Cluster, a: Action, r: Ref)
    requires Progressing(c, a) && r != a.r
    ensures WeightIn(Steps, Apply(c, a), r) <= WeightIn(Steps, c, r)
    ensures r in Apply(c, a) ==> r in c
  {
    if a.Deletion? {
      PersistEffect(c, a.r, DeletionOutcome(c, a.r, a.env), a.env);
    }
  }

  /** Every such step brings the end of the cascade closer. */
  lemma ProgressingWeighsLess(c: Cluster, a: Action, keys: set<Ref>)
    requires Progressing(c, a) && AllWellOwned(c) && c.Keys <= keys
    ensures Total(Steps, Apply(c, a), keys) < Total(Steps, c, keys)
    ensures Apply(c, a).Keys <= keys
  {
    ProgressOfOne(c, a);
    forall r | r != a.r
      ensures WeightIn(Steps, Apply(c, a), r) <= WeightIn(Steps, c, r)
      ensures r in Apply(c, a) ==> r in c
    {
      OthersProgress(c, a, r);
    }
    TotalFalls(Steps, c, Apply(c, a), keys, a.r);
  }

  // ---------------------------------------------------------------- passes in which the webhook may refuse

  /** The decisions when nothing fails but the deletions that the webhook refuses */
  ghost function AnsweredVisits(c: Cluster, self: Ref): (nat, OwnedRef) -> Visit {
    (i: nat, x) => VisitPackage(c, self, true, [], Api(false, !Admits(c, TargetOf(x))), x)
  }

  /** The API in such a pass: the k-th delete call fails when the webhook refuses what the k-th visit comes to. */
  ghost function Answers(c: Cluster, self: Ref): Env
    requires self in c
  {
    var refs := c[self].ownedPackages;
    var visited := (k: nat) requires k < |refs| => VisitedAt(Started(refs), 0, |refs|, AnsweredVisits(c, self), k);
    Env(false, (k: nat) => Api(false, k < |refs| && !Admits(c, TargetOf(visited(k)))), false,
        (k: nat) => Api(false, false), false)
  }

  lemma AnsweredScan(c: Cluster, self: Ref)
    requires self in c
    ensures PackageScan(c, self, true, c[self].ownedPackages, [], Answers(c, self)) ==
            PrunePass(c[self].ownedPackages, AnsweredVisits(c, self))
  {
    var refs, decide := c[self].ownedPackages, AnsweredVisits(c, self);
    var other := PackageVisits(c, self, true, [], Answers(c, self).packageApi);
    forall k | 0 <= k < |refs|
      ensures AgreeAt(Started(refs), 0, |refs|, decide, other, k)
    {
    }
    SameVisits(Started(refs), 0, |refs|, decide, other);
  }

  /** Such a pass is one that the webhook allows. */
  lemma AnsweredIsAdmitted(c: Cluster, r: Ref)
    requires r in c && c[r].terminating
    ensures DeletionsAdmitted(c, Deletion(r, Answers(c, r)))
  {
    var refs := c[r].ownedPackages;
    AnsweredScan(c, r);
    forall y | y in PrunePass(refs, AnsweredVisits(c, r)).deleted
      ensures Admits(c, TargetOf(y))
    {
      OnlyOriginalsDeleted(Started(refs), 0, |refs|, AnsweredVisits(c, r), y);
      var k: nat :| AnsweredVisits(c, r)(k, y) == Drop(true);
    }
  }

  /** The webhook refuses every deletion that stands between r and its end. */
  ghost predicate Stuck(c: Cluster, r: Ref)
    requires r in c
  {
    && c[r].finalizer && c[r].ownedPackages != []
    && forall y :: y in c[r].ownedPackages ==> RefusedFor(c, r, y)
  }

  ghost predicate RefusedFor(c: Cluster, r: Ref, y: OwnedRef) {
    && !StillUsed(c, r, y) && TargetOf(y) in c && c[TargetOf(y)].asDependency && !Admits(c, TargetOf(y))
  }

  lemma AnsweredShrinks(c: Cluster, r: Ref)
    requires r in c && WellOwned(c[r]) && c[r].ownedPackages != [] && c[r].finalizer && !Stuck(c, r)
    ensures PrunePass(c[r].ownedPackages, AnsweredVisits(c, r)).slice.length < |c[r].ownedPackages|
  {
    var refs, decide := c[r].ownedPackages, AnsweredVisits(c, r);
    var j :| 0 <= j < |refs| && !RefusedFor(c, r, refs[j]);
    forall k | 0 <= k < |refs|
      ensures !decide(k, refs[k]).Abort?
    {
      assert refs[k] in refs;
    }
    SomeDropShrinks(refs, Started(refs), 0, j, decide);
  }

  /** The references, conditions, finalizers and objects still to go. */
  ghost function Left(p: Package): nat {
    |p.ownedPackages| + |p.ownedInfos| + (if p.deletionReported then 0 else 1) + (if p.finalizer then 1 else 0) +
    if p.terminating then 1 else 2
  }

  /** A package that is being deleted and not stuck gets on. */
  lemma AnsweredAdvances(c: Cluster, r: Ref)
    requires r in c && c[r].terminating && c[r].finalizer && WellOwned(c[r]) && !Stuck(c, r)
    ensures Left(DeletionPass(c, r, Answers(c, r))[r]) < Left(c[r])
  {
    var env, p := Answers(c, r), c[r];
    OwnFields(c, r, DeletionOutcome(c, r, env), env);
    PersistEffect(c, r, DeletionOutcome(c, r, env), env);
    if p.ownedPackages != [] {
      AnsweredScan(c, r);
      AnsweredShrinks(c, r);
      PackageScanLeaves(c, r, true, p.ownedPackages, [], env);
    } else if p.ownedInfos != [] {
      InfosShrink(c, r, env);
    }
  }

  lemma InfosShrink(c: Cluster, r: Ref, env: Env)
    requires r in c && c[r].ownedInfos != [] && !env.infoListFails && env.infoApi(0) == Api(false, false)
    ensures InfoScan(c, r, true, c[r].ownedInfos, c[r].infoName, env).slice.length < |c[r].ownedInfos|
  {
    var refs := c[r].ownedInfos;
    SomeDropShrinks(refs, Started(refs), 0, 0, InfoVisits(c, r, true, c[r].infoName, env.infoApi));
  }

  // ---------------------------------------------------------------- not all are stuck

  /** Nothing that is still to go is a cluster package, or the webhook accepts what the first deletion leads to. */
  ghost predicate Unblocked(g: Graph, n: Ref, c: Cluster) {
    Sound(DeletedAndPruned(g, n)) || forall x :: x in c && x in Doomed(g, n) ==> x.namespace != ""
  }

  /** A dependency that no other live package uses is doomed. */
  lemma UnusedIsDoomed(g: Graph, c0: Cluster, n: Ref, c: Cluster, r: Ref, y: OwnedRef)
    requires AtRest(g, c0) && n in c0 && CascadeState(g, c0, n, c)
    requires r in c && c[r].terminating && y in c[r].ownedPackages
    requires TargetOf(y) in c && c[TargetOf(y)].asDependency && !StillUsed(c, r, y)
    ensures TargetOf(y) in Doomed(g, n)
  {
    var x := TargetOf(y);
    if x in Survivors(Delete(g, n)) {
      var q := SurvivorHeld(g, c0, n, c, x);
      assert WellOwned(c[r]);
      SameLists(c, r, [], y, RefTo(x));
    }
  }

  /** So what a stuck package waits for is being deleted already. */
  lemma StuckWaits(g: Graph, c0: Cluster, n: Ref, c: Cluster, r: Ref, y: OwnedRef)
    requires AtRest(g, c0) && n in c0 && CascadeState(g, c0, n, c) && Parses(c0) && Unblocked(g, n, c)
    requires r in c && c[r].terminating && Stuck(c, r) && y in c[r].ownedPackages
    ensures c[TargetOf(y)].terminating && TargetOf(y) in Doomed(g, n) && TargetOf(y) in c
  {
    assert RefusedFor(c, r, y);
    UnusedIsDoomed(g, c0, n, c, r, y);
    if !c[TargetOf(y)].terminating {
      CascadeIsPartial(g, c0, n, c);
      CascadeVerdict(g, c0, n, c, TargetOf(y));
    }
  }

  ghost predicate AllStuck(c: Cluster) {
    forall r :: r in c && c[r].terminating ==> Stuck(c, r)
  }

  /** When all that are being deleted are stuck, then only survivors are live. */
  lemma OnlySurvivorsAreLive(g: Graph, c0: Cluster, n: Ref, c: Cluster)
    requires AtRest(g, c0) && n in c0 && CascadeState(g, c0, n, c) && Parses(c0) && Unblocked(g, n, c)
    requires AllStuck(c)
    ensures LivePackages(c) == Survivors(Delete(g, n))
  {
    var live := LivePackages(c);
    CascadeIsPartial(g, c0, n, c);
    assert Supported(g, live) by {
      forall r | r in live
        ensures r in Installed(g) && (g[r].manual || exists q :: q in live && DependsOn(g, q, r))
      {
        HeldByLive(g, c0, n, c, r);
      }
    }
    SupportedWithout(g, n, live);
    assert Delete(g, n) == Uninstall(g, n);
    SurvivorsAreGreatest(Delete(g, n));
  }

  lemma HeldByLive(g: Graph, c0: Cluster, n: Ref, c: Cluster, r: Ref)
    requires AtRest(g, c0) && n in c0 && CascadeState(g, c0, n, c) && Parses(c0) && Unblocked(g, n, c)
    requires AllStuck(c) && r in LivePackages(c)
    ensures r in Installed(g) && (g[r].manual || exists q :: q in LivePackages(c) && DependsOn(g, q, r))
  {
    assert r in LivePackages(c0) && Unlabelled(g[r]).manual == !c0[r].asDependency;
    if c[r].asDependency {
      assert Remembered(c, r);
      var o :| o in c && Owns(c[o], r);
      assert DependsOn(g, o, r);
      if c[o].terminating {
        var y :| y in c[o].ownedPackages && RefersToSameResource(y, RefTo(r));
        StuckWaits(g, c0, n, c, o, y);
      }
    }
  }

  /** Then nothing is refused any more. */
  lemma RepeatedIsAdmitted(g: Graph, c0: Cluster, n: Ref, c: Cluster, x: Ref)
    requires AtRest(g, c0) && n in c0 && CascadeState(g, c0, n, c) && Parses(c0) && Unblocked(g, n, c)
    requires LivePackages(c) == Survivors(Delete(g, n)) && x in c && c[x].terminating && x in Doomed(g, n)
    ensures Admits(c, x)
  {
    var h := KeepOnly(g, LivePackages(c));
    assert LivePackages(c0) == c0.Keys;
    CascadeIsPartial(g, c0, n, c);
    MirrorOfPart(g, c0, n, c);
    PartParses(g, c0, n, c);
    KeepInstalled(g, LivePackages(c));
    KeepUninstalled(g, n, LivePackages(c));
    assert Delete(g, n) == Uninstall(g, n);
    if x.namespace == "" {
      DeleteOfUninstalled(h, x);
      VerdictOf(h, c, x);
    }
  }

  lemma AllStuckIsQuiet(g: Graph, c0: Cluster, n: Ref, c: Cluster)
    requires AtRest(g, c0) && n in c0 && CascadeState(g, c0, n, c) && Parses(c0) && Unblocked(g, n, c)
    requires AllStuck(c)
    ensures Quiet(c)
  {
    OnlySurvivorsAreLive(g, c0, n, c);
    forall r | r in c && c[r].terminating
      ensures false
    {
      var y := c[r].ownedPackages[0];
      assert RefusedFor(c, r, y);
      StuckWaits(g, c0, n, c, r, y);
      RepeatedIsAdmitted(g, c0, n, c, TargetOf(y));
    }
  }

  // ---------------------------------------------------------------- the end

  /** A departure, or a pass that only the webhook hinders, of a package that is not stuck. */
  ghost predicate GetsOn(c: Cluster, a: Action) {
    && Enabled(c, a)
    && (a.Vanish? || (a.Deletion? && c[a.r].finalizer && !Stuck(c, a.r) && a.env == Answers(c, a.r)))
  }

  lemma OthersGetOn(c: Cluster, a: Action, r: Ref)
    requires GetsOn(c, a) && r != a.r
    ensures WeightIn(Left, Apply(c, a), r) <= WeightIn(Left, c, r)
  {
    if a.Deletion? {
      PersistEffect(c, a.r, DeletionOutcome(c, a.r, a.env), a.env);
    }
  }

  /** Each such step is one that the operator can take, and leaves less to do. */
  lemma GettingOn(repo: Repository, c: Cluster, a: Action, keys: set<Ref>)
    requires GetsOn(c, a) && AllWellOwned(c) && c.Keys <= keys
    ensures CascadeAction(c, a) && OperatorAction(repo, c, a) && !a.Create?
    ensures Total(Left, Apply(c, a), keys) < Total(Left, c, keys)
  {
    if a.Deletion? {
      assert WellOwned(c[a.r]);
      AnsweredIsAdmitted(c, a.r);
      AnsweredAdvances(c, a.r);
      PersistEffect(c, a.r, DeletionOutcome(c, a.r, a.env), a.env);
    }
    forall r | r in keys && r != a.r
      ensures WeightIn(Left, Apply(c, a), r) <= WeightIn(Left, c, r)
    {
      OthersGetOn(c, a, r);
    }
    TotalFalls(Left, c, Apply(c, a), keys, a.r);
  }

  lemma OperatesCons(repo: Repository, c: Cluster, a: Action, rest: seq<Action>, d: Cluster)
    requires OperatorAction(repo, c, a) && !a.Create? && Operates(repo, Apply(c, a), rest, d) && NoneCreated(rest)
    ensures Operates(repo, c, [a] + rest, d) && NoneCreated([a] + rest)
  {
    assert ([a] + rest)[1..] == rest;
  }

  /** From every state of a cascade that is not blocked, finitely many passes and departures end it. */
  lemma {:induction false} CascadeEnds(repo: Repository, g: Graph, c0: Cluster, n: Ref, c: Cluster)
    returns (actions: seq<Action>, d: Cluster)
    requires AtRest(g, c0) && n in c0 && CascadeState(g, c0, n, c) && Parses(c0) && Unblocked(g, n, c)
    ensures Operates(repo, c, actions, d) && NoneCreated(actions) && Quiet(d)
    ensures d.Keys == Survivors(Delete(g, n)) && CascadeState(g, c0, n, d)
    ensures |actions| <= Total(Left, c, c0.Keys)
    decreases Total(Left, c, c0.Keys)
  {
    if Quiet(c) {
      PreviewEqualsReality(g, c0, n, c);
      actions, d := [], c;
    } else {
      if AllStuck(c) { AllStuckIsQuiet(g, c0, n, c); }
      var r :| r in c && c[r].terminating && !Stuck(c, r);
      var a := if c[r].finalizer then Deletion(r, Answers(c, r)) else Vanish(r);
      GettingOn(repo, c, a, c0.Keys);
      CascadeContinues(g, c0, n, c, a);
      OnlyLess(c, a);
      var rest;
      rest, d := CascadeEnds(repo, g, c0, n, Apply(c, a));
      OperatesCons(repo, c, a, rest, d);
      actions := [a] + rest;
    }
  }

  lemma OnlyLess(c: Cluster, a: Action)
    requires CascadeAction(c, a)
    ensures Apply(c, a).Keys <= c.Keys
  {
    if a.Deletion? {
      PersistEffect(c, a.r, DeletionOutcome(c, a.r, a.env), a.env);
    } else if a.Live? {
      PersistEffect(c, a.r, LiveOutcome(c, a.r, a.findings, a.env), a.env);
    }
  }

  // ---------------------------------------------------------------- no end

  /** Cluster packages of a broken preview stay. */
  ghost predicate Blocks(g: Graph, n: Ref, x: Ref) {
    x != n && x in Doomed(g, n) && x.namespace == "" && !Sound(DeletedAndPruned(g, n))
  }

  lemma BlockedStays(g: Graph, c0: Cluster, n: Ref, c: Cluster, a: Action, x: Ref)
    requires AtRest(g, c0) && n in c0 && CascadeState(g, c0, n, c)
    requires CascadeAction(c, a) && DeletionsAdmitted(c, a)
    requires Blocks(g, n, x) && x in LivePackages(c)
    ensures x in LivePackages(Apply(c, a))
  {
    if x !in LivePackages(Apply(c, a)) {
      OnlyPassesDelete(c, a, x);
      PersistEffect(c, a.r, DeletionOutcome(c, a.r, a.env), a.env);
      assert Deletes(DeletionOutcome(c, a.r, a.env), x);
      CascadeIsPartial(g, c0, n, c);
      CascadeVerdict(g, c0, n, c, x);
    }
  }

  lemma {:induction false} StaysBlocked(
    repo: Repository, g: Graph, c0: Cluster, n: Ref, c: Cluster, actions: seq<Action>, d: Cluster, x: Ref)
    requires AtRest(g, c0) && n in c0 && CascadeState(g, c0, n, c)
    requires Operates(repo, c, actions, d) && NoneCreated(actions)
    requires Blocks(g, n, x) && x in LivePackages(c)
    ensures CascadeState(g, c0, n, d) && x in LivePackages(d)
    decreases |actions|
  {
    if actions != [] {
      var a := actions[0];
      OperatorIsCascade(repo, g, c0, n, c, a);
      CascadeContinues(g, c0, n, c, a);
      BlockedStays(g, c0, n, c, a, x);
      StaysBlocked(repo, g, c0, n, Apply(c, a), actions[1..], d, x);
    }
  }

  /** The operator can bring the cascade to an end. */
  ghost predicate CanEnd(repo: Repository, c: Cluster) {
    exists actions, d :: Operates(repo, c, actions, d) && NoneCreated(actions) && Quiet(d)
  }

  /** While a package blocks it, there is no end from any state of the cascade in which that is live. */
  lemma BlockedNeverEnds(repo: Repository, g: Graph, c0: Cluster, n: Ref, c: Cluster, x: Ref)
    requires AtRest(g, c0) && n in c0 && CascadeState(g, c0, n, c)
    requires Blocks(g, n, x) && x in LivePackages(c)
    ensures !CanEnd(repo, c)
  {
    forall actions, d | Operates(repo, c, actions, d) && NoneCreated(actions)
      ensures !Quiet(d)
    {
      StaysBlocked(repo, g, c0, n, c, actions, d, x);
      if Quiet(d) { PreviewEqualsReality(g, c0, n, d); }
    }
  }

  /** What the first verdict says of the webhook's later ones */
  lemma AdmittedIsSound(g: Graph, c0: Cluster, n: Ref)
    requires AtRest(g, c0) && n in c0 && Admits(c0, n)
    ensures Parses(c0) && (n.namespace == "" ==> Sound(DeletedAndPruned(g, n)))
  {
    if n.namespace == "" { VerdictOf(g, c0, n); }
  }

  /**
   A cascade that the webhook let begin comes to an end, unless the user has deleted a namespaced package, whose
   deletion is not checked, this leaves a broken graph, and a cluster package is to go with it: then there is no end.
   */
  lemma CascadeEndsIff(repo: Repository, g: Graph, c0: Cluster, n: Ref)
    requires AtRest(g, c0) && n in c0 && Admits(c0, n)
    ensures CanEnd(repo, Apply(c0, RequestDelete(n))) <==>
            Sound(DeletedAndPruned(g, n)) || forall x :: x in Doomed(g, n) ==> x.namespace != ""
  {
    var c := Apply(c0, RequestDelete(n));
    CascadeBegins(g, c0, n);
    AdmittedIsSound(g, c0, n);
    if Sound(DeletedAndPruned(g, n)) || forall x :: x in Doomed(g, n) ==> x.namespace != "" {
      var actions, d := CascadeEnds(repo, g, c0, n, c);
    } else {
      var x :| x in Doomed(g, n) && x.namespace == "";
      LiveAtStart(g, c0, n, x);
      BlockedNeverEnds(repo, g, c0, n, c, x);
    }
  }

  lemma LiveAtStart(g: Graph, c0: Cluster, n: Ref, x: Ref)
    requires AtRest(g, c0) && n in c0 && x in Installed(g) && x != n
    ensures x in LivePackages(Apply(c0, RequestDelete(n)))
  {
  }
}
