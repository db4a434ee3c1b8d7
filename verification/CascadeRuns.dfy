/**
 Whole runs of the operator after a deletion: what they delete, what the webhook says of it, and that they create
 nothing when no dependant is left behind.
 */
module CascadeRuns {
  import opened GraphModel
  import opened Resolution
  import opened Operator
  import opened Ownership
  import opened Cascade
  import opened Admission
  import opened Recreation

  /** The operator gets from c to d by the actions. */
  ghost predicate Operates(repo: Repository, c: Cluster, actions: seq<Action>, d: Cluster)
    decreases |actions|
  {
    if actions == [] then c == d
    else OperatorAction(repo, c, actions[0]) && Operates(repo, Apply(c, actions[0]), actions[1..], d)
  }

  /** The same, by actions that create nothing. */
  ghost predicate Reaches(c: Cluster, actions: seq<Action>, d: Cluster)
    decreases |actions|
  {
    if actions == [] then c == d
    else CascadeAction(c, actions[0]) && Reaches(Apply(c, actions[0]), actions[1..], d)
  }

  lemma {:induction false} CascadeStates(g: Graph, c0: Cluster, n: Ref, c: Cluster, actions: seq<Action>, d: Cluster)
    requires AtRest(g, c0) && n in c0 && CascadeState(g, c0, n, c) && Reaches(c, actions, d)
    ensures CascadeState(g, c0, n, d)
    decreases |actions|
  {
    if actions != [] {
      CascadeContinues(g, c0, n, c, actions[0]);
      CascadeStates(g, c0, n, Apply(c, actions[0]), actions[1..], d);
    }
  }

  ghost predicate NoneCreated(actions: seq<Action>) {
    forall a :: a in actions ==> !a.Create?
  }

  /** Without creations, every step of the operator keeps the invariant of the cascade. */
  lemma {:induction false} OperatorReaches(
    repo: Repository, g: Graph, c0: Cluster, n: Ref, c: Cluster, actions: seq<Action>, d: Cluster)
    requires AtRest(g, c0) && n in c0 && CascadeState(g, c0, n, c)
    requires Operates(repo, c, actions, d) && NoneCreated(actions)
    ensures Reaches(c, actions, d) && CascadeState(g, c0, n, d)
    decreases |actions|
  {
    if actions != [] {
      var a := actions[0];
      OperatorIsCascade(repo, g, c0, n, c, a);
      CascadeContinues(g, c0, n, c, a);
      OperatorReaches(repo, g, c0, n, Apply(c, a), actions[1..], d);
    }
  }

  /**
   Only previewed packages go, as long as nothing is created; and of those still to go, the webhook admits the
   namespaced ones, and the others exactly when it accepts, or would have accepted, the first deletion.
   */
  lemma WithoutCreations(g: Graph, c0: Cluster, n: Ref, actions: seq<Action>, d: Cluster)
    requires AtRest(g, c0) && n in c0
    requires Reaches(Apply(c0, RequestDelete(n)), actions, d)
    ensures CascadeState(g, c0, n, d)
    ensures var preview := Installed(g) - Installed(DeletedAndPruned(g, n));
            && c0.Keys - LivePackages(d) <= preview
            && (Quiet(d) ==> c0.Keys - d.Keys == preview)
            && (Parses(c0) ==>
                  forall x :: x in LivePackages(d) && x in preview ==>
                    (Admits(d, x) <==> x.namespace != "" || Sound(DeletedAndPruned(g, n))))
  {
    CascadeBegins(g, c0, n);
    CascadeStates(g, c0, n, Apply(c0, RequestDelete(n)), actions, d);
    assert LivePackages(c0) == c0.Keys;
    DoomedIsPreview(g, n);
    if Quiet(d) {
      PreviewEqualsReality(g, c0, n, d);
    }
    CascadeIsPartial(g, c0, n, d);
    forall x | x in LivePackages(d) && x in Doomed(g, n)
      ensures Parses(c0) ==> (Admits(d, x) <==> x.namespace != "" || Sound(DeletedAndPruned(g, n)))
    {
      CascadeVerdict(g, c0, n, d, x);
    }
  }

  /** The operator creates nothing in any state of an undisturbed cascade, so its run is one of deletions only. */
  lemma {:induction false} OperatorStates(
    repo: Repository, g: Graph, c0: Cluster, n: Ref, c: Cluster, actions: seq<Action>, d: Cluster)
    requires AtRest(g, c0) && n in c0 && Undisturbed(g, n) && Reliable(repo, g, c0, n)
    requires CascadeState(g, c0, n, c) && LiveHoldsLive(g, n, c) && Operates(repo, c, actions, d)
    ensures Reaches(c, actions, d) && NoneCreated(actions)
    ensures CascadeState(g, c0, n, d) && LiveHoldsLive(g, n, d)
    decreases |actions|
  {
    if actions != [] {
      var a := actions[0];
      OperatorOnlyDeletes(repo, g, c0, n, c, a);
      CascadeContinues(g, c0, n, c, a);
      StaysLive(g, c0, n, c, a);
      OperatorStates(repo, g, c0, n, Apply(c, a), actions[1..], d);
      NoneCreatedCons(actions);
    }
  }

  lemma NoneCreatedCons(actions: seq<Action>)
    requires actions != [] && !actions[0].Create? && NoneCreated(actions[1..])
    ensures NoneCreated(actions)
  {
    assert actions == [actions[0]] + actions[1..];
  }

  /** Nor does any live package require what is not there. */
  lemma NothingMoreRequired(repo: Repository, g: Graph, c0: Cluster, n: Ref, c: Cluster, x: Ref)
    requires AtRest(g, c0) && n in c0 && Undisturbed(g, n) && Reliable(repo, g, c0, n)
    requires CascadeState(g, c0, n, c) && LiveHoldsLive(g, n, c) && x !in c
    ensures !Required(repo, c, x)
  {
    if Required(repo, c, x) {
      var q :| q in LivePackages(c);
      var p := c[q].(finalizer := false, deletionReported := false, ownedPackages := [], ownedInfos := []);
      OperatorOnlyDeletes(repo, g, c0, n, c, Create(x, p));
    }
  }

  /**
   Deleting n from a cluster at rest, when no dependant of n survives and all of them are dependencies of n alone: in
   every interleaving of passes with any API outcomes, in which live packages resolve their dependencies and may
   create what is required, nothing that is gone is ever required or created; only previewed packages are deleted;
   whenever nothing is being deleted any more, exactly they are gone; and until then the webhook's verdict on those
   still to go is the one that it gives, or for a namespaced n would have given, on n.
   */
  lemma UninstallFollowsThePreview(repo: Repository, g: Graph, c0: Cluster, n: Ref, actions: seq<Action>, d: Cluster)
    requires AtRest(g, c0) && n in c0 && NothingMissing(g)
    requires Undisturbed(g, n) && Reliable(repo, g, c0, n)
    requires Operates(repo, Apply(c0, RequestDelete(n)), actions, d)
    ensures NoneCreated(actions)
    ensures forall x :: x !in d ==> !Required(repo, d, x)
    ensures NoDependant(g, n) ==> DependenciesLive(d)
    ensures var preview := Installed(g) - Installed(DeletedAndPruned(g, n));
            && c0.Keys - LivePackages(d) <= preview
            && (Quiet(d) ==> c0.Keys - d.Keys == preview)
            && (Parses(c0) ==>
                  forall x :: x in LivePackages(d) && x in preview ==>
                    (Admits(d, x) <==> x.namespace != "" || Sound(DeletedAndPruned(g, n))))
  {
    var c := Apply(c0, RequestDelete(n));
    CascadeBegins(g, c0, n);
    BeginsLive(g, c0, n);
    OperatorStates(repo, g, c0, n, c, actions, d);
    WithoutCreations(g, c0, n, actions, d);
    if NoDependant(g, n) { LiveDependencies(g, c0, n, d); }
    forall x | x !in d
      ensures !Required(repo, d, x)
    {
      NothingMoreRequired(repo, g, c0, n, d, x);
    }
  }
}
