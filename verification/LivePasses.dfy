/**
 What passes do to the lists of a package: package infos that are dropped are deleted unless they are used elsewhere,
 and passes of a live package take away what it no longer needs.
 */
module LivePasses {
  import opened GraphModel
  import opened OwnedRefs
  import opened PruneLoops
  import opened Operator
  import opened Ownership
  import opened Cascade

  // ---------------------------------------------------------------- package infos

  /** A package info is deleted only when it was listed, is not the package's own and no other package lists it. */
  lemma InfoScanDeletes(
    c: Cluster, self: Ref, all: bool, refs: seq<OwnedRef>, infoName: string, env: Env, x: OwnedRef)
    requires x in InfoScan(c, self, all, refs, infoName, env).deleted
    ensures x in refs && (all || x.name != infoName)
    ensures forall o, y :: o in c && o != self && y in c[o].ownedInfos ==> y.name != x.name
  {
    if !env.infoListFails {
      var decide := InfoVisits(c, self, all, infoName, env.infoApi);
      OnlyOriginalsDeleted(Started(refs), 0, |refs|, decide, x);
      var k: nat :| decide(k, x) == Drop(true);
      assert VisitInfo(c, self, all, infoName, env.infoApi(k), x) == Drop(true);
    }
  }

  /** One that leaves the list is listed by another package, or its deletion was issued. */
  lemma InfoDroppedForAReason(
    c: Cluster, self: Ref, all: bool, refs: seq<OwnedRef>, infoName: string, env: Env, x: OwnedRef)
    requires x in refs && x !in Elements(InfoScan(c, self, all, refs, infoName, env).slice)
    ensures all || x.name != infoName
    ensures || (exists o, y :: o in c && o != self && y in c[o].ownedInfos && y.name == x.name)
            || exists y :: y in InfoScan(c, self, all, refs, infoName, env).deleted && RefersToSameResource(x, y)
  {
    var s, decide := Started(refs), InfoVisits(c, self, all, infoName, env.infoApi);
    assert Elements(s.slice) == refs;
    assert !env.infoListFails;
    LeavesForAReason(s, 0, |refs|, decide, x);
    var k: nat, y :| y in refs && RefersToSameResource(x, y) && Drops(decide, k, y) &&
                     (decide(k, y) == Drop(true) ==> y in InfoScan(c, self, all, refs, infoName, env).deleted);
    assert VisitInfo(c, self, all, infoName, env.infoApi(k), y) == decide(k, y);
  }

  /** A pass deletes only infos that its package lists, and that no other one lists; packages go before infos. */
  lemma DeletionPassInfos(c: Cluster, self: Ref, env: Env, x: OwnedRef)
    requires self in c && x in DeletionOutcome(c, self, env).deletedInfos
    ensures c[self].finalizer && c[self].ownedPackages == [] && x in c[self].ownedInfos
    ensures forall o, y :: o in c && o != self && y in c[o].ownedInfos ==> y.name != x.name
  {
    InfoScanDeletes(c, self, true, c[self].ownedInfos, c[self].infoName, env, x);
  }

  lemma LivePassInfos(c: Cluster, self: Ref, f: Findings, env: Env, x: OwnedRef)
    requires self in c && x in LiveOutcome(c, self, f, env).deletedInfos
    ensures f.success && x.name != c[self].infoName
    ensures x in c[self].ownedInfos || x == f.infoRef
    ensures forall o, y :: o in c && o != self && y in c[o].ownedInfos ==> y.name != x.name
  {
    var infos := WithAdded(c[self].ownedInfos, [f.infoRef]);
    WithAddedLists(c[self].ownedInfos, [f.infoRef]);
    InfoScanDeletes(c, self, false, infos, c[self].infoName, env, x);
  }

  /** A live pass without success deletes nothing, and adds what it has found to what was listed. */
  lemma UnsuccessfulPassKeeps(c: Cluster, self: Ref, f: Findings, env: Env)
    requires self in c && !f.success
    ensures LiveOutcome(c, self, f, env).deletedInfos == []
    ensures var d := LivePass(c, self, f, env);
            && d.Keys == c.Keys && (forall r :: r in c && r != self ==> d[r] == c[r])
            && d[self].terminating == c[self].terminating
            && (!env.updateFails ==>
                  forall x :: Lists(d[self].ownedPackages, x) <==>
                    Lists(c[self].ownedPackages, x) || Lists(f.current, x))
            && (!env.updateFails ==>
                  forall x :: Lists(d[self].ownedInfos, x) <==>
                    Lists(c[self].ownedInfos, x) || RefersToSameResource(f.infoRef, x))
  {
    var o := LiveOutcome(c, self, f, env);
    assert MarkTerminating(c, []) == c;
    WithAddedLists(c[self].ownedPackages, f.current);
    WithAddedLists(c[self].ownedInfos, [f.infoRef]);
    forall x
      ensures Lists([f.infoRef], x) <==> RefersToSameResource(f.infoRef, x)
    {
      ListsAppend([], f.infoRef);
      assert [] + [f.infoRef] == [f.infoRef];
    }
    if !env.updateFails { OwnFields(c, self, o, env); }
  }

  // ---------------------------------------------------------------- failures

  /** When the final update fails, only the deletions that were issued remain of a pass. */
  lemma FailedUpdateOnlyDeletes(c: Cluster, self: Ref, o: Outcome, env: Env)
    requires self in c && env.updateFails
    ensures Persist(c, self, o, env).Keys == c.Keys
    ensures forall r :: r in c ==>
              Persist(c, self, o, env)[r] ==
              c[r].(terminating := c[r].terminating || exists y :: y in o.deleted && TargetOf(y) == r)
  {
    forall r | r in c
      ensures Persist(c, self, o, env)[r] ==
              c[r].(terminating := c[r].terminating || exists y :: y in o.deleted && TargetOf(y) == r)
    {
      MarkEffect(c, o, r);
    }
  }

  /** Visit k comes to a reference that is to go and is not used, and that is odd or the API fails on. */
  ghost predicate PackageVisitFails(
    c: Cluster, self: Ref, all: bool, refs: seq<OwnedRef>, current: seq<OwnedRef>, env: Env, k: nat)
    requires k < |refs|
  {
    var x := VisitedAt(Started(refs), 0, |refs|, PackageVisits(c, self, all, current, env.packageApi), k);
    && (all || !Lists(current, x))
    && (forall o, y :: o in c && o != self && !c[o].terminating && y in c[o].ownedPackages ==>
          !RefersToSameResource(y, x))
    && (|| (x.kind != "ClusterPackage" && x.kind != "Package")
        || env.packageApi(k).getFails
        || (TargetOf(x) in c && c[TargetOf(x)].asDependency && env.packageApi(k).deleteFails))
  }

  lemma PackageScanFailsIff(c: Cluster, self: Ref, all: bool, refs: seq<OwnedRef>, current: seq<OwnedRef>, env: Env)
    ensures PackageScan(c, self, all, refs, current, env).failed <==>
            env.listFails || exists k :: 0 <= k < |refs| && PackageVisitFails(c, self, all, refs, current, env, k)
  {
    var decide := PackageVisits(c, self, all, current, env.packageApi);
    FailsIff(refs, decide);
    forall k | 0 <= k < |refs|
      ensures VisitFails(refs, decide, k) <==> PackageVisitFails(c, self, all, refs, current, env, k)
    {
      var x := VisitedAt(Started(refs), 0, |refs|, decide, k);
      assert decide(k, x) == VisitPackage(c, self, all, current, env.packageApi(k), x);
    }
  }

  /** Visit k comes to an info that is to go and is not used, and its deletion fails. */
  ghost predicate InfoVisitFails(
    c: Cluster, self: Ref, all: bool, refs: seq<OwnedRef>, infoName: string, env: Env, k: nat)
    requires k < |refs|
  {
    var x := VisitedAt(Started(refs), 0, |refs|, InfoVisits(c, self, all, infoName, env.infoApi), k);
    && (all || x.name != infoName)
    && (forall o, y :: o in c && o != self && y in c[o].ownedInfos ==> y.name != x.name)
    && env.infoApi(k).deleteFails
  }

  lemma InfoScanFailsIff(c: Cluster, self: Ref, all: bool, refs: seq<OwnedRef>, infoName: string, env: Env)
    ensures InfoScan(c, self, all, refs, infoName, env).failed <==>
            env.infoListFails || exists k :: 0 <= k < |refs| && InfoVisitFails(c, self, all, refs, infoName, env, k)
  {
    var decide := InfoVisits(c, self, all, infoName, env.infoApi);
    FailsIff(refs, decide);
    forall k | 0 <= k < |refs|
      ensures VisitFails(refs, decide, k) <==> InfoVisitFails(c, self, all, refs, infoName, env, k)
    {
      var x := VisitedAt(Started(refs), 0, |refs|, decide, k);
      assert decide(k, x) == VisitInfo(c, self, all, infoName, env.infoApi(k), x);
    }
  }

  /** A visit to an unused reference to nothing removes two references to it, when that many are listed. */
  lemma AbsentGoesTwice(
    c: Cluster, self: Ref, all: bool, current: seq<OwnedRef>, api: Api, s: Scan, x: OwnedRef, i: nat, j: nat)
    requires InBounds(s.slice) && i < j < s.slice.length
    requires RefersToSameResource(s.slice.memory[i], x) && RefersToSameResource(s.slice.memory[j], x)
    requires all || !Lists(current, x)
    requires forall o :: o in c && o != self && !c[o].terminating ==> !Lists(c[o].ownedPackages, x)
    requires x.kind == "ClusterPackage" || x.kind == "Package"
    requires !api.getFails && TargetOf(x) !in c
    ensures AfterVisit(s, x, VisitPackage(c, self, all, current, api, x)).slice.length == s.slice.length - 2
  {
    assert VisitPackage(c, self, all, current, api, x) == DropTwice;
    RemovedTwice(s.slice, x, i, j);
  }

  lemma RemovedTwice(s: Slice, x: OwnedRef, i: nat, j: nat)
    requires InBounds(s) && i < j < s.length
    requires RefersToSameResource(s.memory[i], x) && RefersToSameResource(s.memory[j], x)
    ensures Removed(Removed(s, x), x).length == s.length - 2
  {
    Removes(s, x, i);
    MovesDown(s, x, j);
    Removes(Removed(s, x), x, j - 1);
  }

  lemma MovesDown(s: Slice, x: OwnedRef, j: nat)
    requires InBounds(s) && IndexOf(Elements(s), x) < j < s.length
    ensures Removed(s, x).memory[j - 1] == s.memory[j]
  {
  }

  lemma Removes(s: Slice, x: OwnedRef, i: nat)
    requires InBounds(s) && i < s.length && RefersToSameResource(s.memory[i], x)
    ensures IndexOf(Elements(s), x) <= i && Removed(s, x).length == s.length - 1
  {
    assert Elements(s)[i] == s.memory[i];
  }

  // ---------------------------------------------------------------- one pass of a live package

  /** A pass without errors drops something, as long as something is not current. */
  lemma StaleShrinks(c: Cluster, self: Ref, refs: seq<OwnedRef>, current: seq<OwnedRef>, env: Env, x: OwnedRef)
    requires PackageRefs(refs) && ErrorFree(env) && x in refs && !Lists(current, x)
    ensures PackageScan(c, self, false, refs, current, env).slice.length < |refs|
  {
    var decide := PackageVisits(c, self, false, current, env.packageApi);
    var j :| 0 <= j < |refs| && refs[j] == x;
    forall k | 0 <= k < |refs|
      ensures !decide(k, refs[k]).Abort?
    {
      assert refs[k] in refs;
      ValidKind(c, self, false, current, env.packageApi(k), refs[k]);
    }
    assert env.packageApi(j) == Api(false, false);
    ValidKind(c, self, false, current, env.packageApi(j), x);
    assert Drops(decide, j, refs[j]);
    SomeDropShrinks(refs, Started(refs), 0, j, decide);
  }

  /** What is current is kept. */
  lemma CurrentStays(c: Cluster, self: Ref, refs: seq<OwnedRef>, current: seq<OwnedRef>, env: Env, x: OwnedRef)
    requires PackageRefs(refs) && x in refs && Lists(current, x)
    ensures x in Elements(PackageScan(c, self, false, refs, current, env).slice)
  {
    if x !in Elements(PackageScan(c, self, false, refs, current, env).slice) {
      DroppedForAReason(c, self, false, refs, current, env, x);
    }
  }

  /** What a scan without errors leaves: nothing goes that is current, and something that is not. */
  lemma ScanPrunes(c: Cluster, self: Ref, refs: seq<OwnedRef>, current: seq<OwnedRef>, env: Env)
    requires PackageRefs(refs) && Distinct(refs) && ErrorFree(env)
    ensures var t := PackageScan(c, self, false, refs, current, env);
            && ListAfter(t) == Elements(t.slice) && |ListAfter(t)| == t.slice.length <= |refs|
            && (forall x :: x in ListAfter(t) ==> x in refs)
            && (forall x :: x in refs && Lists(current, x) ==> x in ListAfter(t))
            && (if exists x :: x in refs && !Lists(current, x) then t.slice.length < |refs| else ListAfter(t) == refs)
  {
    var t := PackageScan(c, self, false, refs, current, env);
    var decide := PackageVisits(c, self, false, current, env.packageApi);
    PackageScanLeaves(c, self, false, refs, current, env);
    NeverLonger(Started(refs), 0, |refs|, decide);
    forall x | x in refs && Lists(current, x)
      ensures x in Elements(t.slice)
    {
      CurrentStays(c, self, refs, current, env, x);
    }
    if x :| x in refs && !Lists(current, x) {
      StaleShrinks(c, self, refs, current, env, x);
    } else {
      AllCurrentKept(c, self, refs, current, env);
    }
  }

  lemma AllCurrentKept(c: Cluster, self: Ref, refs: seq<OwnedRef>, current: seq<OwnedRef>, env: Env)
    requires !env.listFails && forall x :: x in refs ==> Lists(current, x)
    ensures PackageScan(c, self, false, refs, current, env) == Started(refs) && Elements(Started(refs).slice) == refs
  {
    var decide := PackageVisits(c, self, false, current, env.packageApi);
    forall k: nat, x | x in refs
      ensures decide(k, x) == Keep
    {
      assert decide(k, x) == VisitPackage(c, self, false, current, env.packageApi(k), x);
      assert Lists(current, x);
    }
    AllKept(Started(refs), 0, |refs|, decide);
  }

  /** The list that is written is what the scan leaves. */
  lemma LiveListIsScanned(c: Cluster, self: Ref, f: Findings, env: Env)
    requires self in c && WellOwned(c[self]) && PackageRefs(f.current) && f.success && ErrorFree(env)
    ensures var before := WithAdded(c[self].ownedPackages, f.current);
            && PackageRefs(before) && Distinct(before)
            && LivePass(c, self, f, env)[self].ownedPackages ==
               ListAfter(PackageScan(c, self, false, before, f.current, env))
  {
    var before := WithAdded(c[self].ownedPackages, f.current);
    WithAddedLists(c[self].ownedPackages, f.current);
    ScanPrunes(c, self, before, f.current, env);
    OwnFields(c, self, LiveOutcome(c, self, f, env), env);
  }

  /** What a successful pass without errors makes of the list of a live package. */
  lemma LivePassPrunes(c: Cluster, self: Ref, f: Findings, env: Env)
    requires self in c && WellOwned(c[self]) && PackageRefs(f.current) && f.success && ErrorFree(env)
    ensures var before := WithAdded(c[self].ownedPackages, f.current);
            var after := LivePass(c, self, f, env)[self].ownedPackages;
            && (forall x :: x in after ==> x in before)
            && (forall x :: x in before && Lists(f.current, x) ==> x in after)
            && (if exists x :: x in before && !Lists(f.current, x) then |after| < |before| else after == before)
  {
    LiveListIsScanned(c, self, f, env);
    ScanPrunes(c, self, WithAdded(c[self].ownedPackages, f.current), f.current, env);
  }

  /** A reference that goes is not current; and its package is used elsewhere, or being deleted, or none to delete. */
  lemma GoesForAReason(c: Cluster, self: Ref, f: Findings, env: Env, x: OwnedRef)
    requires self in c && WellOwned(c[self]) && PackageRefs(f.current) && f.success && ErrorFree(env)
    requires x in WithAdded(c[self].ownedPackages, f.current) && x !in LivePass(c, self, f, env)[self].ownedPackages
    ensures !Lists(f.current, x)
    ensures || (exists o :: o in c && o != self && !c[o].terminating && Lists(c[o].ownedPackages, x))
            || TargetOf(x) !in c || !c[TargetOf(x)].asDependency
            || LivePass(c, self, f, env)[TargetOf(x)].terminating
  {
    var before := WithAdded(c[self].ownedPackages, f.current);
    LiveListIsScanned(c, self, f, env);
    PackageScanLeaves(c, self, false, before, f.current, env);
    PersistEffect(c, self, LiveOutcome(c, self, f, env), env);
    DroppedForAReason(c, self, false, before, f.current, env, x);
  }

  /** The same of package infos: the package's own stay. */
  lemma LivePassPrunesInfos(c: Cluster, self: Ref, f: Findings, env: Env)
    requires self in c && f.success && ErrorFree(env)
    ensures var before := WithAdded(c[self].ownedInfos, [f.infoRef]);
            var after := LivePass(c, self, f, env)[self].ownedInfos;
            && (forall x :: x in after ==> x in before)
            && (forall x :: x in before && x.name == c[self].infoName ==> x in after)
            && (if exists x :: x in before && x.name != c[self].infoName then |after| < |before| else after == before)
  {
    InfoScanPrunes(c, self, WithAdded(c[self].ownedInfos, [f.infoRef]), c[self].infoName, env);
    WithAddedLists(c[self].ownedInfos, [f.infoRef]);
    OwnFields(c, self, LiveOutcome(c, self, f, env), env);
  }

  lemma InfoScanPrunes(c: Cluster, self: Ref, refs: seq<OwnedRef>, infoName: string, env: Env)
    requires ErrorFree(env)
    ensures var t := InfoScan(c, self, false, refs, infoName, env);
            && t.slice.length <= |refs|
            && (forall x :: x in Elements(t.slice) ==> x in refs)
            && (forall x :: x in refs && x.name == infoName ==> x in Elements(t.slice))
            && (if exists x :: x in refs && x.name != infoName then t.slice.length < |refs| else Elements(t.slice) == refs)
  {
    var t, decide := InfoScan(c, self, false, refs, infoName, env), InfoVisits(c, self, false, infoName, env.infoApi);
    assert Elements(Started(refs).slice) == refs;
    OnlyOriginals(Started(refs), 0, |refs|, decide);
    NeverLonger(Started(refs), 0, |refs|, decide);
    forall x | x in refs && x.name == infoName
      ensures x in Elements(t.slice)
    {
      if x !in Elements(t.slice) { InfoDroppedForAReason(c, self, false, refs, infoName, env, x); }
    }
    if x :| x in refs && x.name != infoName {
      StaleInfoShrinks(c, self, refs, infoName, env, x);
    } else {
      AllKept(Started(refs), 0, |refs|, decide);
    }
  }

  lemma StaleInfoShrinks(c: Cluster, self: Ref, refs: seq<OwnedRef>, infoName: string, env: Env, x: OwnedRef)
    requires ErrorFree(env) && x in refs && x.name != infoName
    ensures InfoScan(c, self, false, refs, infoName, env).slice.length < |refs|
  {
    var decide := InfoVisits(c, self, false, infoName, env.infoApi);
    var j :| 0 <= j < |refs| && refs[j] == x;
    assert env.infoApi(j) == Api(false, false);
    SomeDropShrinks(refs, Started(refs), 0, j, decide);
  }

  // ---------------------------------------------------------------- finitely many of them

  lemma LivePassKeepsWellOwned(c: Cluster, self: Ref, f: Findings, env: Env)
    requires self in c && WellOwned(c[self]) && PackageRefs(f.current)
    ensures self in LivePass(c, self, f, env) && WellOwned(LivePass(c, self, f, env)[self])
  {
    LiveOutcomeWellOwned(c, self, f, env);
    PersistEffect(c, self, LiveOutcome(c, self, f, env), env);
  }

  ghost predicate AllListed(some: seq<OwnedRef>, refs: seq<OwnedRef>) {
    some == [] || (Lists(refs, some[0]) && AllListed(some[1..], refs))
  }

  lemma {:induction false} AllListedIff(some: seq<OwnedRef>, refs: seq<OwnedRef>)
    ensures AllListed(some, refs) <==> forall x :: x in some ==> Lists(refs, x)
  {
    if some != [] {
      AllListedIff(some[1..], refs);
      assert some == [some[0]] + some[1..];
    }
  }

  /** The list holds what is current, and nothing else. */
  ghost predicate Exact(refs: seq<OwnedRef>, current: seq<OwnedRef>) {
    AllListed(current, refs) && AllListed(refs, current)
  }

  /** After a pass the list is exact, or shorter than what the pass looked at; and it stays exact. */
  ghost predicate Closer(refs: seq<OwnedRef>, after: seq<OwnedRef>, current: seq<OwnedRef>) {
    && (Exact(after, current) || |WithAdded(after, current)| < |WithAdded(refs, current)|)
    && (Exact(refs, current) ==> Exact(after, current))
  }

  lemma PassComesCloser(c: Cluster, self: Ref, f: Findings, env: Env)
    requires self in c && WellOwned(c[self]) && PackageRefs(f.current) && f.success && ErrorFree(env)
    ensures Closer(c[self].ownedPackages, LivePass(c, self, f, env)[self].ownedPackages, f.current)
  {
    LivePassPrunes(c, self, f, env);
    WithAddedLists(c[self].ownedPackages, f.current);
    PrunedIsCloser(c[self].ownedPackages, LivePass(c, self, f, env)[self].ownedPackages, f.current);
  }

  lemma PrunedIsCloser(refs: seq<OwnedRef>, after: seq<OwnedRef>, current: seq<OwnedRef>)
    requires forall r :: Lists(current, r) ==> Lists(WithAdded(refs, current), r)
    requires forall x :: x in after ==> x in WithAdded(refs, current)
    requires forall x :: x in WithAdded(refs, current) && Lists(current, x) ==> x in after
    requires if exists x :: x in WithAdded(refs, current) && !Lists(current, x)
             then |after| < |WithAdded(refs, current)| else after == WithAdded(refs, current)
    ensures Closer(refs, after, current)
  {
    AllListedIff(current, after);
    AllListedIff(after, current);
    CurrentIsListed(refs, after, current);
    NothingNewToAdd(after, current);
    if Exact(refs, current) {
      AllListedIff(current, refs);
      AllListedIff(refs, current);
      NothingNewToAdd(refs, current);
    }
  }

  lemma CurrentIsListed(refs: seq<OwnedRef>, after: seq<OwnedRef>, current: seq<OwnedRef>)
    requires forall r :: Lists(current, r) ==> Lists(WithAdded(refs, current), r)
    requires forall x :: x in WithAdded(refs, current) && Lists(current, x) ==> x in after
    ensures forall x :: x in current ==> Lists(after, x)
  {
    forall x | x in current
      ensures Lists(after, x)
    {
      assert Lists(current, x);
      var y :| y in WithAdded(refs, current) && RefersToSameResource(y, x);
      ListsSame(current, x, y);
    }
  }

  /** Lists that come closer more often than there were references are exact in the end. */
  lemma {:induction false} CloserIsExact(lists: seq<seq<OwnedRef>>, current: seq<OwnedRef>)
    requires lists != [] && forall i :: 0 <= i < |lists| - 1 ==> Closer(lists[i], lists[i + 1], current)
    requires Exact(lists[0], current) || |WithAdded(lists[0], current)| < |lists| - 1
    ensures Exact(lists[|lists| - 1], current)
    decreases |lists|
  {
    if |lists| > 1 {
      assert Closer(lists[0], lists[1], current);
      CloserIsExact(lists[1..], current);
    }
  }

  /** Successful passes without errors, one after the other, that find the same dependencies. */
  ghost predicate IsLiveRun(cs: seq<Cluster>, envs: seq<Env>, self: Ref, f: Findings) {
    && |cs| == |envs| + 1 && self in cs[0] && f.success
    && forall i :: 0 <= i < |envs| ==> IsPass(cs, envs, self, f, i)
  }

  ghost predicate IsPass(cs: seq<Cluster>, envs: seq<Env>, self: Ref, f: Findings, i: nat)
    requires i < |envs| < |cs|
  {
    self in cs[i] && ErrorFree(envs[i]) && cs[i + 1] == LivePass(cs[i], self, f, envs[i])
  }

  lemma {:induction false} RunFits(cs: seq<Cluster>, envs: seq<Env>, self: Ref, f: Findings, i: nat)
    requires IsLiveRun(cs, envs, self, f) && WellOwned(cs[0][self]) && PackageRefs(f.current) && i < |cs|
    ensures self in cs[i] && WellOwned(cs[i][self])
  {
    if i > 0 {
      var k := i - 1;
      RunFits(cs, envs, self, f, k);
      assert IsPass(cs, envs, self, f, k);
      LivePassKeepsWellOwned(cs[k], self, f, envs[k]);
    }
  }

  lemma RunComesCloser(cs: seq<Cluster>, envs: seq<Env>, self: Ref, f: Findings, i: nat)
    requires IsLiveRun(cs, envs, self, f) && WellOwned(cs[0][self]) && PackageRefs(f.current) && i < |envs|
    ensures self in cs[i] && self in cs[i + 1]
    ensures Closer(cs[i][self].ownedPackages, cs[i + 1][self].ownedPackages, f.current)
  {
    RunFits(cs, envs, self, f, i);
    RunFits(cs, envs, self, f, i + 1);
    assert IsPass(cs, envs, self, f, i);
    PassComesCloser(cs[i], self, f, envs[i]);
  }

  /** After more such passes than there are references to look at, the package lists exactly what is current. */
  lemma PassesLeaveCurrent(cs: seq<Cluster>, envs: seq<Env>, self: Ref, f: Findings)
    requires IsLiveRun(cs, envs, self, f) && WellOwned(cs[0][self]) && PackageRefs(f.current)
    requires |WithAdded(cs[0][self].ownedPackages, f.current)| < |envs|
    ensures self in cs[|envs|]
    ensures forall x :: Lists(cs[|envs|][self].ownedPackages, x) <==> Lists(f.current, x)
  {
    forall i | 0 <= i < |cs|
      ensures self in cs[i]
    {
      RunFits(cs, envs, self, f, i);
    }
    var lists := seq(|cs|, i requires 0 <= i < |cs| => cs[i][self].ownedPackages);
    forall i | 0 <= i < |lists| - 1
      ensures Closer(lists[i], lists[i + 1], f.current)
    {
      RunComesCloser(cs, envs, self, f, i);
    }
    CloserIsExact(lists, f.current);
    ExactLists(lists[|envs|], f.current);
  }

  ghost predicate AllNamed(refs: seq<OwnedRef>, name: string) {
    forall x :: x in refs ==> x.name == name
  }

  /** After i passes only own infos are left, or the list is shorter by i. */
  lemma {:induction false} InfosAfter(cs: seq<Cluster>, envs: seq<Env>, self: Ref, f: Findings, i: nat)
    requires IsLiveRun(cs, envs, self, f) && f.infoRef.name == cs[0][self].infoName && i <= |envs|
    ensures self in cs[i] && cs[i][self].infoName == cs[0][self].infoName
    ensures var infos := cs[i][self].ownedInfos;
            i > 0 ==>
              && Lists(infos, f.infoRef)
              && (AllNamed(infos, cs[0][self].infoName) ||
                  |infos| + i <= |WithAdded(cs[0][self].ownedInfos, [f.infoRef])|)
  {
    if i > 0 {
      var k := i - 1;
      InfosAfter(cs, envs, self, f, k);
      assert IsPass(cs, envs, self, f, k);
      OwnInfoStays(cs[k], self, f, envs[k]);
      if k > 0 { NothingNewToAdd(cs[k][self].ownedInfos, [f.infoRef]); }
    }
  }

  lemma OwnInfoStays(c: Cluster, self: Ref, f: Findings, env: Env)
    requires self in c && f.success && ErrorFree(env) && f.infoRef.name == c[self].infoName
    ensures var d := LivePass(c, self, f, env);
            && self in d && d[self].infoName == c[self].infoName
            && Lists(d[self].ownedInfos, f.infoRef)
            && (AllNamed(d[self].ownedInfos, c[self].infoName) ||
                |d[self].ownedInfos| < |WithAdded(c[self].ownedInfos, [f.infoRef])|)
            && (AllNamed(WithAdded(c[self].ownedInfos, [f.infoRef]), c[self].infoName) ==>
                  AllNamed(d[self].ownedInfos, c[self].infoName))
  {
    PersistEffect(c, self, LiveOutcome(c, self, f, env), env);
    LivePassPrunesInfos(c, self, f, env);
    WithAddedLists(c[self].ownedInfos, [f.infoRef]);
    assert Lists([f.infoRef], f.infoRef) by { assert f.infoRef in [f.infoRef]; }
    assert Lists(WithAdded(c[self].ownedInfos, [f.infoRef]), f.infoRef);
  }

  /** After more such passes than there are infos to look at, the package lists its own package info and no other. */
  lemma PassesLeaveOwnInfo(cs: seq<Cluster>, envs: seq<Env>, self: Ref, f: Findings)
    requires IsLiveRun(cs, envs, self, f) && f.infoRef.name == cs[0][self].infoName
    requires |WithAdded(cs[0][self].ownedInfos, [f.infoRef])| < |envs|
    ensures self in cs[|envs|]
    ensures forall x :: x in cs[|envs|][self].ownedInfos ==> x.name == cs[0][self].infoName
    ensures exists x :: x in cs[|envs|][self].ownedInfos && RefersToSameResource(x, f.infoRef)
  {
    InfosAfter(cs, envs, self, f, |envs|);
  }

  lemma ExactLists(a: seq<OwnedRef>, b: seq<OwnedRef>)
    requires Exact(a, b)
    ensures forall x :: Lists(a, x) <==> Lists(b, x)
  {
    AllListedIff(a, b);
    AllListedIff(b, a);
    forall x
      ensures Lists(a, x) <==> Lists(b, x)
    {
      if y :| y in a && RefersToSameResource(y, x) { ListsSame(b, y, x); }
      if y :| y in b && RefersToSameResource(y, x) { ListsSame(a, y, x); }
    }
  }
}
