/**
 Deletions that leave a dependant behind: exactly when the operator can come to a state in which the package is gone
 and a live one depends on it, that the package is required again there, and when it hangs instead.
 */
module LeftBehind {
  import opened GraphModel
  import opened Resolution
  import opened OwnedRefs
  import opened PruneLoops
  import opened Operator
  import opened Ownership
  import opened Cascade
  import opened Admission
  import opened InstallAdmission
  import opened Recreation
  import opened CascadeRuns
  import opened CascadeEnds

  /** What the webhook refuses to delete does not keep n: something else depends on it, too. */
  ghost predicate Freed(g: Graph, n: Ref) {
    forall x :: Blocks(g, n, x) && DependsOn(g, n, x) ==> exists o :: o != n && DependsOn(g, o, x)
  }

  // ---------------------------------------------------------------- what keeps n

  /** n waits for x, which only it lists and the webhook does not let go. */
  ghost predicate WaitsFor(g: Graph, n: Ref, c: Cluster, x: Ref) {
    n in c && c[n].terminating && Owns(c[n], x) && x in LivePackages(c)
  }

  lemma HeldByN(g: Graph, c0: Cluster, n: Ref, c: Cluster, x: Ref)
    requires AtRest(g, c0) && n in c0 && CascadeState(g, c0, n, c)
    requires Blocks(g, n, x) && (forall o :: o != n ==> !DependsOn(g, o, x)) && x in LivePackages(c)
    ensures WaitsFor(g, n, c, x)
  {
    assert x in LivePackages(c0) && Unlabelled(g[x]).manual == !c0[x].asDependency;
    if g[x].manual {
      ManualSurvives(g, n, x);
    } else {
      assert Remembered(c, x);
      var o :| o in c && Owns(c[o], x);
      assert DependsOn(g, o, x);
    }
  }

  /** As long as n is there, nothing is created. */
  lemma NothingCreatedBefore(repo: Repository, g: Graph, c0: Cluster, n: Ref, c: Cluster, a: Action)
    requires AtRest(g, c0) && n in c0 && TidyCluster(c0) && NamesMatch(repo)
    requires CascadeState(g, c0, n, c) && LiveHoldsLive(g, n, c) && n in c && OperatorAction(repo, c, a)
    ensures !a.Create?
  {
    if a.Create? { OnlyNIsCreated(repo, g, c0, n, c, a); }
  }

  /**
   A deletion of a namespaced package that would leave a dependant behind hangs when n alone depends on a cluster
   package that is to go: whatever the operator does, n is never gone and still waits for that package, which stays.
   */
  lemma {:induction false} UncheckedDeletionHangs(
    repo: Repository, g: Graph, c0: Cluster, n: Ref, c: Cluster, actions: seq<Action>, d: Cluster, x: Ref)
    requires AtRest(g, c0) && n in c0 && CascadeState(g, c0, n, c) && Operates(repo, c, actions, d)
    requires NoneCreated(actions) || (TidyCluster(c0) && NamesMatch(repo) && LiveHoldsLive(g, n, c))
    requires Blocks(g, n, x) && (forall o :: o != n ==> !DependsOn(g, o, x)) && x in LivePackages(c)
    ensures WaitsFor(g, n, d, x) && NoneCreated(actions)
    decreases |actions|
  {
    HeldByN(g, c0, n, c, x);
    if actions != [] {
      var a := actions[0];
      if !NoneCreated(actions) {
        NothingCreatedBefore(repo, g, c0, n, c, a);
      }
      OperatorIsCascade(repo, g, c0, n, c, a);
      CascadeContinues(g, c0, n, c, a);
      BlockedStays(g, c0, n, c, a, x);
      if !NoneCreated(actions) {
        StaysLive(g, c0, n, c, a);
      }
      UncheckedDeletionHangs(repo, g, c0, n, Apply(c, a), actions[1..], d, x);
      NoneCreatedCons(actions);
    }
  }

  // ---------------------------------------------------------------- passes in which no deletion succeeds

  ghost predicate DeletesFail(env: Env) {
    && !env.listFails && !env.infoListFails && !env.updateFails
    && forall k: nat :: env.packageApi(k) == Api(false, true)
  }

  lemma FailuresDeleteNothing(c: Cluster, self: Ref, refs: seq<OwnedRef>, env: Env)
    requires DeletesFail(env)
    ensures PackageScan(c, self, true, refs, [], env).deleted == []
  {
    var decide := PackageVisits(c, self, true, [], env.packageApi);
    var t := PackageScan(c, self, true, refs, [], env);
    if t.deleted != [] {
      var x := t.deleted[0];
      forall k: nat
        ensures decide(k, x) != Drop(true)
      {
        assert env.packageApi(k) == Api(false, true);
      }
      OnlyOriginalsDeleted(Started(refs), 0, |refs|, decide, x);
    }
  }

  lemma UsedIsDropped(c: Cluster, n: Ref, y: OwnedRef, env: Env)
    requires n in c && WellOwned(c[n]) && y in c[n].ownedPackages && StillUsed(c, n, y) && DeletesFail(env)
    ensures PackageScan(c, n, true, c[n].ownedPackages, [], env).slice.length < |c[n].ownedPackages|
  {
    var refs := c[n].ownedPackages;
    var decide := PackageVisits(c, n, true, [], env.packageApi);
    var j :| 0 <= j < |refs| && refs[j] == y;
    forall k | 0 <= k < |refs|
      ensures !decide(k, refs[k]).Abort?
    {
      assert refs[k] in refs;
      ValidKind(c, n, true, [], env.packageApi(k), refs[k]);
    }
    assert decide(j, refs[j]) == Drop(false);
    SomeDropShrinks(refs, Started(refs), 0, j, decide);
  }

  /** What is still used leaves the list, and nothing else changes. */
  lemma FailuresShrink(c: Cluster, n: Ref, y: OwnedRef, env: Env)
    requires n in c && WellOwned(c[n]) && c[n].finalizer && y in c[n].ownedPackages && StillUsed(c, n, y)
    requires DeletesFail(env)
    ensures var d := DeletionPass(c, n, env);
            && d.Keys == c.Keys && (forall r :: r in c && r != n ==> d[r] == c[r])
            && d[n].finalizer && d[n].terminating == c[n].terminating
            && |d[n].ownedPackages| < |c[n].ownedPackages|
  {
    var refs := c[n].ownedPackages;
    UsedIsDropped(c, n, y, env);
    PackageScanLeaves(c, n, true, refs, [], env);
    FailuresDeleteNothing(c, n, refs, env);
    OwnFields(c, n, DeletionOutcome(c, n, env), env);
    PersistEffect(c, n, DeletionOutcome(c, n, env), env);
  }

  lemma FailuresAreAdmitted(repo: Repository, c: Cluster, n: Ref, env: Env)
    requires n in c && c[n].terminating && DeletesFail(env)
    ensures OperatorAction(repo, c, Deletion(n, env))
  {
    FailuresDeleteNothing(c, n, c[n].ownedPackages, env);
  }

  /** Such passes of n end with a list of what nothing else uses; meanwhile nothing else changes. */
  lemma {:induction false} DropsUsed(repo: Repository, g: Graph, c0: Cluster, n: Ref, c: Cluster)
    returns (actions: seq<Action>, d: Cluster)
    requires AtRest(g, c0) && n in c0 && CascadeState(g, c0, n, c)
    requires n in c && c[n].terminating && c[n].finalizer
    ensures Operates(repo, c, actions, d) && NoneCreated(actions) && CascadeState(g, c0, n, d)
    ensures d.Keys == c.Keys && (forall r :: r in c && r != n ==> d[r] == c[r])
    ensures d[n].terminating && d[n].finalizer
    ensures forall y :: y in d[n].ownedPackages ==> !StillUsed(d, n, y)
    decreases |c[n].ownedPackages|
  {
    if y :| y in c[n].ownedPackages && StillUsed(c, n, y) {
      var env := Env(false, (k: nat) => Api(false, true), false, (k: nat) => Api(false, false), false);
      var a := Deletion(n, env);
      assert WellOwned(c[n]);
      FailuresShrink(c, n, y, env);
      FailuresAreAdmitted(repo, c, n, env);
      CascadeContinues(g, c0, n, c, a);
      var rest;
      rest, d := DropsUsed(repo, g, c0, n, Apply(c, a));
      OperatesCons(repo, c, a, rest, d);
      actions := [a] + rest;
    } else {
      actions, d := [], c;
    }
  }

  // ---------------------------------------------------------------- and then n departs

  /** n lists only live packages that nothing else depends on. */
  ghost predicate Alone(g: Graph, n: Ref, c: Cluster) {
    n in c && forall x :: Owns(c[n], x) ==> AloneWith(g, n, c, x)
  }

  ghost predicate AloneWith(g: Graph, n: Ref, c: Cluster, x: Ref) {
    x != n && (x in c ==> !c[x].terminating) && forall o :: o != n ==> !DependsOn(g, o, x)
  }

  /** What nothing else uses is what nothing else depends on. */
  lemma UnusedIsAlone(g: Graph, c0: Cluster, n: Ref, d: Cluster, q: Ref)
    requires AtRest(g, c0) && n in c0 && d.Keys == c0.Keys && forall r :: r in c0 && r != n ==> d[r] == c0[r]
    requires forall y :: y in d[n].ownedPackages ==> !StillUsed(d, n, y)
    requires q != n && DependsOn(g, q, n)
    ensures Alone(g, n, d)
  {
    forall x | Owns(d[n], x)
      ensures AloneWith(g, n, d, x)
    {
      var y :| y in d[n].ownedPackages && RefersToSameResource(y, RefTo(x));
      forall o | o != n
        ensures !DependsOn(g, o, x)
      {
        if DependsOn(g, o, x) {
          assert o in LivePackages(c0) && Owns(c0[o], x);
          ListsSame(c0[o].ownedPackages, y, RefTo(x));
        }
      }
    }
  }

  /** The webhook does not stand in the way of a package that is freed. */
  lemma FreedIsNotStuck(g: Graph, c0: Cluster, n: Ref, c: Cluster)
    requires AtRest(g, c0) && n in c0 && CascadeState(g, c0, n, c) && Parses(c0) && Freed(g, n)
    requires Alone(g, n, c)
    ensures !Stuck(c, n)
  {
    if Stuck(c, n) {
      var y := c[n].ownedPackages[0];
      RefusedBlocks(g, c0, n, c, y);
    }
  }

  lemma RefusedBlocks(g: Graph, c0: Cluster, n: Ref, c: Cluster, y: OwnedRef)
    requires AtRest(g, c0) && n in c0 && CascadeState(g, c0, n, c) && Parses(c0) && Alone(g, n, c)
    requires y in c[n].ownedPackages && RefusedFor(c, n, y)
    ensures AloneWith(g, n, c, TargetOf(y)) && DependsOn(g, n, TargetOf(y)) && Blocks(g, n, TargetOf(y))
  {
    var x := TargetOf(y);
    assert WellOwned(c[n]);
    assert Owns(c[n], x);
    assert AloneWith(g, n, c, x);
    assert n !in LivePackages(c);
    UnusedIsDoomed(g, c0, n, c, n, y);
    CascadeIsPartial(g, c0, n, c);
    CascadeVerdict(g, c0, n, c, x);
  }

  lemma StaysAlone(g: Graph, c0: Cluster, n: Ref, c: Cluster, d: Cluster, x: Ref)
    requires AtRest(g, c0) && n in c0 && CascadeState(g, c0, n, c) && Alone(g, n, c)
    requires c[n].terminating && c[n].finalizer && !Stuck(c, n) && d == Apply(c, Deletion(n, Answers(c, n)))
    requires n in d && Owns(d[n], x)
    ensures AloneWith(g, n, d, x)
  {
    CascadeLists(c, Deletion(n, Answers(c, n)), n, x);
    assert AloneWith(g, n, c, x);
    SameKeys(c, n, Answers(c, n));
    if x in c && d[x].terminating {
      assert WellOwned(c[n]);
      DeletedUnlisted(c, n, x);
    }
  }

  lemma SameKeys(c: Cluster, n: Ref, env: Env)
    requires n in c
    ensures DeletionPass(c, n, env).Keys == c.Keys
  {
    PersistEffect(c, n, DeletionOutcome(c, n, env), env);
  }

  /** In such a pass, what it deletes leaves the list. */
  lemma DeletedUnlisted(c: Cluster, n: Ref, x: Ref)
    requires n in c && c[n].terminating && c[n].finalizer && WellOwned(c[n]) && !Stuck(c, n)
    requires x in c && !c[x].terminating && Apply(c, Deletion(n, Answers(c, n)))[x].terminating
    ensures !Owns(Apply(c, Deletion(n, Answers(c, n)))[n], x)
  {
    var env := Answers(c, n);
    var o := DeletionOutcome(c, n, env);
    PersistEffect(c, n, o, env);
    var y :| y in o.deleted && TargetOf(y) == x;
    OutcomeUnlists(c, n, y);
    OwnFields(c, n, o, env);
  }

  lemma OutcomeUnlists(c: Cluster, n: Ref, y: OwnedRef)
    requires n in c && c[n].finalizer && WellOwned(c[n]) && !Stuck(c, n)
    requires y in DeletionOutcome(c, n, Answers(c, n)).deleted
    ensures DeletionOutcome(c, n, Answers(c, n)).updateStatus
    ensures !Lists(DeletionOutcome(c, n, Answers(c, n)).package.ownedPackages, RefTo(TargetOf(y)))
  {
    var env, refs := Answers(c, n), c[n].ownedPackages;
    AnsweredScan(c, n);
    AnsweredShrinks(c, n);
    PackageScanDeletes(c, n, true, refs, [], env, y);
    PackageScanLeaves(c, n, true, refs, [], env);
    assert Elements(Started(refs).slice) == refs;
    DeletedLeaves(Started(refs), 0, |refs|, AnsweredVisits(c, n), y);
    ListsSame(DeletionOutcome(c, n, env).package.ownedPackages, y, RefTo(TargetOf(y)));
  }

  /** q stays live beside n: it survives, or n does not list it. */
  ghost predicate Beside(g: Graph, n: Ref, c: Cluster, q: Ref) {
    n in c && q in LivePackages(c) && (q in Survivors(Delete(g, n)) || !Owns(c[n], q))
  }

  lemma StaysBeside(g: Graph, c0: Cluster, n: Ref, c: Cluster, env: Env, q: Ref)
    requires AtRest(g, c0) && n in c0 && CascadeState(g, c0, n, c) && n in c && c[n].terminating
    requires Beside(g, n, c, q)
    ensures Beside(g, n, Apply(c, Deletion(n, env)), q)
  {
    var a := Deletion(n, env);
    PersistEffect(c, n, DeletionOutcome(c, n, env), env);
    CascadeLists(c, a, n, q);
    if q !in LivePackages(Apply(c, a)) {
      NoPrematureDeletion(c, a, q, q);
      DeletedAreDoomed(g, c0, n, c, a, q);
    }
  }

  lemma PassKeepsAlone(g: Graph, c0: Cluster, n: Ref, c: Cluster, d: Cluster, q: Ref)
    requires AtRest(g, c0) && n in c0 && CascadeState(g, c0, n, c) && Alone(g, n, c) && Beside(g, n, c, q)
    requires c[n].terminating && c[n].finalizer && !Stuck(c, n) && d == Apply(c, Deletion(n, Answers(c, n)))
    ensures Alone(g, n, d) && Beside(g, n, d, q)
  {
    SameKeys(c, n, Answers(c, n));
    StaysBeside(g, c0, n, c, Answers(c, n), q);
    forall x | Owns(d[n], x)
      ensures AloneWith(g, n, d, x)
    {
      StaysAlone(g, c0, n, c, d, x);
    }
  }

  /** A pass of n that is answered keeps all that, and leaves less to do. */
  lemma PassAlone(repo: Repository, g: Graph, c0: Cluster, n: Ref, c: Cluster, q: Ref)
    requires AtRest(g, c0) && n in c0 && CascadeState(g, c0, n, c) && Parses(c0) && Freed(g, n)
    requires Alone(g, n, c) && c[n].terminating && c[n].finalizer && Beside(g, n, c, q)
    ensures var a := Deletion(n, Answers(c, n));
            var d := Apply(c, a);
            && OperatorAction(repo, c, a) && CascadeState(g, c0, n, d)
            && Alone(g, n, d) && d[n].terminating && Beside(g, n, d, q) && Left(d[n]) < Left(c[n])
  {
    var a := Deletion(n, Answers(c, n));
    FreedIsNotStuck(g, c0, n, c);
    AnsweredIsAdmitted(c, n);
    CascadeContinues(g, c0, n, c, a);
    assert WellOwned(c[n]);
    AnsweredAdvances(c, n);
    PersistEffect(c, n, DeletionOutcome(c, n, a.env), a.env);
    PassKeepsAlone(g, c0, n, c, Apply(c, a), q);
  }

  lemma LastStep(repo: Repository, g: Graph, c0: Cluster, n: Ref, c: Cluster, q: Ref)
    requires AtRest(g, c0) && n in c0 && CascadeState(g, c0, n, c)
    requires n in c && c[n].terminating && !c[n].finalizer && q in LivePackages(c)
    ensures Operates(repo, c, [Vanish(n)], c - {n}) && CascadeState(g, c0, n, c - {n}) && q in LivePackages(c - {n})
  {
    OthersStay(c, n, q);
    OneAction(repo, c, Vanish(n));
    CascadeContinues(g, c0, n, c, Vanish(n));
  }

  lemma OthersStay(c: Cluster, n: Ref, q: Ref)
    requires n in c && c[n].terminating && q in LivePackages(c)
    ensures q in LivePackages(c - {n})
  {
  }

  lemma OneAction(repo: Repository, c: Cluster, a: Action)
    requires OperatorAction(repo, c, a)
    ensures Operates(repo, c, [a], Apply(c, a))
  {
    assert [a][1..] == [];
    assert Operates(repo, Apply(c, a), [], Apply(c, a));
  }

  /** The passes of n alone make it depart, and what is beside it stays live. */
  lemma {:induction false} Departs(repo: Repository, g: Graph, c0: Cluster, n: Ref, c: Cluster, q: Ref)
    returns (actions: seq<Action>, d: Cluster)
    requires AtRest(g, c0) && n in c0 && CascadeState(g, c0, n, c) && Parses(c0) && Freed(g, n)
    requires Alone(g, n, c) && c[n].terminating && Beside(g, n, c, q)
    ensures Operates(repo, c, actions, d) && NoneCreated(actions) && CascadeState(g, c0, n, d)
    ensures n !in d && q in LivePackages(d)
    decreases Left(c[n])
  {
    if c[n].finalizer {
      var a := Deletion(n, Answers(c, n));
      PassAlone(repo, g, c0, n, c, q);
      var rest;
      rest, d := Departs(repo, g, c0, n, Apply(c, a), q);
      OperatesCons(repo, c, a, rest, d);
      actions := [a] + rest;
    } else {
      LastStep(repo, g, c0, n, c, q);
      actions, d := [Vanish(n)], c - {n};
    }
  }

  // ---------------------------------------------------------------- exactly when

  /** The operator can come to a state in which n is gone and a live package depends on it. */
  ghost predicate CanLeaveBehind(repo: Repository, g: Graph, n: Ref, c: Cluster) {
    exists actions, d, q ::
      Operates(repo, c, actions, d) && NoneCreated(actions) && n !in d && q in LivePackages(d) && DependsOn(g, q, n)
  }

  lemma OperatesAppend(
    repo: Repository, c: Cluster, some: seq<Action>, d: Cluster, more: seq<Action>, e: Cluster)
    requires Operates(repo, c, some, d) && NoneCreated(some) && Operates(repo, d, more, e) && NoneCreated(more)
    ensures Operates(repo, c, some + more, e) && NoneCreated(some + more)
    decreases |some|
  {
    if some == [] {
      assert some + more == more;
    } else {
      assert (some + more)[1..] == some[1..] + more;
      OperatesAppend(repo, Apply(c, some[0]), some[1..], d, more, e);
    }
  }

  /** q depends on n, and survives the deletion or has a dependant besides n. */
  ghost predicate Outlives(g: Graph, n: Ref, q: Ref) {
    && q != n && DependsOn(g, q, n)
    && (q in Survivors(Delete(g, n)) || exists o :: o != n && DependsOn(g, o, q))
  }

  lemma BesideIsLeft(g: Graph, c0: Cluster, n: Ref, d: Cluster, q: Ref)
    requires AtRest(g, c0) && n in c0 && d.Keys == c0.Keys && forall r :: r in c0 && r != n ==> d[r] == c0[r]
    requires forall y :: y in d[n].ownedPackages ==> !StillUsed(d, n, y)
    requires Outlives(g, n, q)
    ensures Alone(g, n, d) && Beside(g, n, d, q)
  {
    UnusedIsAlone(g, c0, n, d, q);
    assert d[q] == c0[q];
    if Owns(d[n], q) {
      assert AloneWith(g, n, d, q);
    }
  }

  lemma OnlyNTerminates(g: Graph, c0: Cluster, n: Ref)
    requires AtRest(g, c0) && n in c0
    ensures var c := Apply(c0, RequestDelete(n));
            c.Keys == c0.Keys && c[n].terminating && c[n].finalizer && forall r :: r in c0 && r != n ==> c[r] == c0[r]
  {
  }

  /** First, passes with failing deletions make n list only what nothing else depends on. */
  lemma ListsOnlyItsOwn(repo: Repository, g: Graph, c0: Cluster, n: Ref, q: Ref)
    returns (actions: seq<Action>, d: Cluster)
    requires AtRest(g, c0) && n in c0 && Outlives(g, n, q)
    ensures Operates(repo, Apply(c0, RequestDelete(n)), actions, d) && NoneCreated(actions)
    ensures CascadeState(g, c0, n, d) && Alone(g, n, d) && d[n].terminating && Beside(g, n, d, q)
  {
    var c := Apply(c0, RequestDelete(n));
    CascadeBegins(g, c0, n);
    OnlyNTerminates(g, c0, n);
    actions, d := DropsUsed(repo, g, c0, n, c);
    BesideIsLeft(g, c0, n, d, q);
  }

  /** A run that leaves q behind: passes of n with failing deletions, and then those that the webhook answers. */
  lemma LeavesBehind(repo: Repository, g: Graph, c0: Cluster, n: Ref, q: Ref)
    returns (actions: seq<Action>, d: Cluster)
    requires AtRest(g, c0) && n in c0 && Parses(c0) && Freed(g, n) && Outlives(g, n, q)
    ensures Operates(repo, Apply(c0, RequestDelete(n)), actions, d) && NoneCreated(actions)
    ensures CascadeState(g, c0, n, d) && n !in d && q in LivePackages(d)
  {
    var some, between := ListsOnlyItsOwn(repo, g, c0, n, q);
    var more;
    more, d := Departs(repo, g, c0, n, between, q);
    OperatesAppend(repo, Apply(c0, RequestDelete(n)), some, between, more, d);
    actions := some + more;
  }

  lemma DisturbedIff(g: Graph, n: Ref)
    requires WellFormed(g) && n in Installed(g)
    ensures Undisturbed(g, n) <==> forall q :: !Outlives(g, n, q)
  {
    SurvivorsAreGreatest(Delete(g, n));
    KeepUninstalled(g, n, {});
    if forall q :: !Outlives(g, n, q) {
      forall q | q in Survivors(Delete(g, n))
        ensures n !in g[q].edges
      {
        assert !Outlives(g, n, q);
      }
      forall q, o | q != n && DependsOn(g, q, n) && DependsOn(g, o, q)
        ensures o == n
      {
        assert !Outlives(g, n, q);
      }
    }
  }

  /**
   The operator can come to a state in which n is gone and a live package still depends on it exactly when the
   deletion is not undisturbed, and the webhook does not keep n by refusing what n alone depends on.
   */
  lemma LeavesBehindIff(repo: Repository, g: Graph, c0: Cluster, n: Ref)
    requires AtRest(g, c0) && n in c0 && Parses(c0)
    ensures CanLeaveBehind(repo, g, n, Apply(c0, RequestDelete(n))) <==> !Undisturbed(g, n) && Freed(g, n)
  {
    var c := Apply(c0, RequestDelete(n));
    DisturbedIff(g, n);
    if !Undisturbed(g, n) && Freed(g, n) {
      var q :| Outlives(g, n, q);
      var actions, d := LeavesBehind(repo, g, c0, n, q);
    } else {
      forall actions, d, q |
        Operates(repo, c, actions, d) && NoneCreated(actions) && q in LivePackages(d) && DependsOn(g, q, n)
        ensures n in d
      {
        StaysWithDependant(repo, g, c0, n, actions, d, q);
      }
    }
  }

  lemma StaysWithDependant(
    repo: Repository, g: Graph, c0: Cluster, n: Ref, actions: seq<Action>, d: Cluster, q: Ref)
    requires AtRest(g, c0) && n in c0 && (Undisturbed(g, n) || !Freed(g, n))
    requires Operates(repo, Apply(c0, RequestDelete(n)), actions, d) && NoneCreated(actions)
    requires q in LivePackages(d) && DependsOn(g, q, n)
    ensures n in d
  {
    var c := Apply(c0, RequestDelete(n));
    CascadeBegins(g, c0, n);
    if Undisturbed(g, n) {
      OperatorReaches(repo, g, c0, n, c, actions, d);
      GoesBeforeN(g, c0, n, d, q);
    } else {
      var x :| Blocks(g, n, x) && DependsOn(g, n, x) && forall o :: o != n ==> !DependsOn(g, o, x);
      LiveAtStart(g, c0, n, x);
      UncheckedDeletionHangs(repo, g, c0, n, c, actions, d, x);
    }
  }

  /**
   A deletion that leaves a dependant behind is undone: a finite run of passes leads to a state in which n is gone,
   and there resolving the dependant requires n again, in every order, unless no version of n is acceptable any more;
   and when no dependency was missing, it requires n directly, so that the operator may create it.
   */
  lemma UncheckedDeletionIsUndone(repo: Repository, g: Graph, c0: Cluster, n: Ref)
    returns (actions: seq<Action>, d: Cluster, q: Ref)
    requires AtRest(g, c0) && n in c0 && Parses(c0) && !Undisturbed(g, n) && Freed(g, n)
    ensures Operates(repo, Apply(c0, RequestDelete(n)), actions, d) && NoneCreated(actions)
    ensures n !in d && q in LivePackages(d) && DependsOn(g, q, n)
    ensures forall scope, k, h, run ::
              Checked(repo, scope, d, k, h, q, d[q].manifest, d[q].version, run) &&
              AllTidy(repo, scope, d, q, d[q].manifest) && !Unsatisfiable(repo, h, n) ==>
                n in RequiredRefs(run) && (NothingMissing(g) ==> Direct(run, n) && Required(repo, d, n))
  {
    DisturbedIff(g, n);
    q :| Outlives(g, n, q);
    actions, d := LeavesBehind(repo, g, c0, n, q);
    if NothingMissing(g) {
      StillHoldsLive(repo, g, c0, n, actions, d);
    }
    forall scope, k, h, run |
      Checked(repo, scope, d, k, h, q, d[q].manifest, d[q].version, run) &&
      AllTidy(repo, scope, d, q, d[q].manifest) && !Unsatisfiable(repo, h, n)
      ensures n in RequiredRefs(run) && (NothingMissing(g) ==> Direct(run, n) && Required(repo, d, n))
    {
      UncheckedDeletionComesBack(repo, scope, g, c0, n, d, q, k, h, run);
    }
  }

  lemma StillHoldsLive(repo: Repository, g: Graph, c0: Cluster, n: Ref, actions: seq<Action>, d: Cluster)
    requires AtRest(g, c0) && n in c0 && NothingMissing(g)
    requires Operates(repo, Apply(c0, RequestDelete(n)), actions, d) && NoneCreated(actions)
    ensures LiveHoldsLive(g, n, d)
  {
    CascadeBegins(g, c0, n);
    BeginsLive(g, c0, n);
    HoldsLiveAfter(repo, g, c0, n, Apply(c0, RequestDelete(n)), actions, d);
  }

  lemma {:induction false} HoldsLiveAfter(
    repo: Repository, g: Graph, c0: Cluster, n: Ref, c: Cluster, actions: seq<Action>, d: Cluster)
    requires AtRest(g, c0) && n in c0 && CascadeState(g, c0, n, c) && LiveHoldsLive(g, n, c)
    requires Operates(repo, c, actions, d) && NoneCreated(actions)
    ensures LiveHoldsLive(g, n, d)
    decreases |actions|
  {
    if actions != [] {
      var a := actions[0];
      OperatorIsCascade(repo, g, c0, n, c, a);
      CascadeContinues(g, c0, n, c, a);
      StaysLive(g, c0, n, c, a);
      HoldsLiveAfter(repo, g, c0, n, Apply(c, a), actions[1..], d);
    }
  }
}
