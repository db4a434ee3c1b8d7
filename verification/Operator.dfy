/**
 The package operator of `internal/controller/common.go`: what one reconcile pass does to the
 packages of a cluster.  A pass is one atomic step; the outcomes of its API calls are arbitrary.
 */
module Operator {
  import opened Semver
  import opened GraphModel
  import opened Installation
  import opened OwnedRefs

  /** What the operator reads and writes of a Package or ClusterPackage. */
  datatype Package = Package(
    version: Version,
    manifest: Manifest,
    infoName: string,                // names.PackageInfoName
    asDependency: bool,              // InstalledAsDependency
    terminating: bool,               // has a deletion timestamp
    finalizer: bool,                 // packageDeletionFinalizer is persisted
    deletionReported: bool,          // the conditions already say "Package is being deleted"
    ownedPackages: seq<OwnedRef>,
    ownedInfos: seq<OwnedRef>)

  type Cluster = map<Ref, Package>

  /** The reference to a package; cluster packages have no namespace. */
  function RefTo(r: Ref): OwnedRef {
    OwnedRef("packages.glasskube.dev", "v1alpha1", if r.namespace == "" then "ClusterPackage" else "Package",
             r.name, r.namespace, false)
  }

  function TargetOf(x: OwnedRef): Ref {
    Ref(x.name, x.namespace)
  }

  /** References made by `ToOwnedResourceRef` from a package. */
  ghost predicate PackageRefs(refs: seq<OwnedRef>) {
    forall x :: x in refs ==> RefersToSameResource(x, RefTo(TargetOf(x)))
  }

  ghost predicate Owns(p: Package, r: Ref) {
    Lists(p.ownedPackages, RefTo(r))
  }

  // ---------------------------------------------------------------- one visit of the prune loops

  /** Errors of the API calls made for one element, other than not-found. */
  datatype Api = Api(getFails: bool, deleteFails: bool)

  /** Another package that is not being deleted lists x. */
  ghost predicate StillUsed(c: Cluster, self: Ref, x: OwnedRef) {
    exists o :: o in c && o != self && !c[o].terminating && Lists(c[o].ownedPackages, x)
  }

  /** The loop body of `pruneOwnedPackages` */
  ghost function VisitPackage(c: Cluster, self: Ref, all: bool, current: seq<OwnedRef>, api: Api, x: OwnedRef): Visit {
    if !all && Lists(current, x) then Keep
    else if StillUsed(c, self, x) then Drop(false)
    else if x.kind != "ClusterPackage" && x.kind != "Package" then Abort
    else if api.getFails then Failed
    else if TargetOf(x) !in c then DropTwice
    else if !c[TargetOf(x)].asDependency then Drop(false)
    else if api.deleteFails then Failed
    else Drop(true)
  }

  ghost function PackageVisits(c: Cluster, self: Ref, all: bool, current: seq<OwnedRef>, api: nat -> Api):
    (nat, OwnedRef) -> Visit
  {
    (i: nat, x) => VisitPackage(c, self, all, current, api(i), x)
  }

  /** Another package, deleted or not, lists the PackageInfo of that name. */
  ghost predicate InfoStillUsed(c: Cluster, self: Ref, name: string) {
    exists o, x :: o in c && o != self && x in c[o].ownedInfos && x.name == name
  }

  /** The loop body of `pruneOwnedPackageInfos` */
  ghost function VisitInfo(c: Cluster, self: Ref, all: bool, infoName: string, api: Api, x: OwnedRef): Visit {
    if !all && x.name == infoName then Keep
    else if InfoStillUsed(c, self, x.name) then Drop(false)
    else if api.deleteFails then Failed
    else Drop(true)
  }

  ghost function InfoVisits(c: Cluster, self: Ref, all: bool, infoName: string, api: nat -> Api): (nat, OwnedRef) -> Visit {
    (i: nat, x) => VisitInfo(c, self, all, infoName, api(i), x)
  }

  // ---------------------------------------------------------------- the loops on the array

  /** The inner loop over all packages of `pruneOwnedPackages` */
  method FindUser(c: Cluster, self: Ref, x: OwnedRef) returns (stillUsed: bool)
    ensures stillUsed <==>
            exists o, y :: o in c && o != self && !c[o].terminating &&
                           y in c[o].ownedPackages && RefersToSameResource(y, x)
  {
    stillUsed := false;
    var rest := c.Keys;
    while rest != {}
      invariant rest <= c.Keys
      invariant !stillUsed
      invariant forall o :: o in c && o !in rest && o != self && !c[o].terminating ==> !Lists(c[o].ownedPackages, x)
    {
      var o :| o in rest;
      rest := rest - {o};
      if c[o].terminating || o == self {
        continue;
      }
      if Lists(c[o].ownedPackages, x) {
        return true;
      }
    }
  }

  /** The guards of the loop body of `pruneOwnedPackages`; a deletion is issued where it says so. */
  method DecidePackage(c: Cluster, self: Ref, all: bool, current: seq<OwnedRef>, api: Api, x: OwnedRef)
    returns (v: Visit)
    ensures v == VisitPackage(c, self, all, current, api, x)
  {
    if !all && Lists(current, x) {
      return Keep;
    }
    var stillUsed := FindUser(c, self, x);
    if !stillUsed {
      if x.kind != "ClusterPackage" && x.kind != "Package" {
        return Abort;
      }
      if api.getFails {
        return Failed;
      } else if TargetOf(x) !in c {
        return DropTwice;
      } else if c[TargetOf(x)].asDependency {
        return if api.deleteFails then Failed else Drop(true);
      }
    }
    v := Drop(false);
  }

  /** What the loop bodies do to the list, the errors and the cluster. */
  method ApplyVisit(a: array<OwnedRef>, length: nat, failed: bool, deleted: seq<OwnedRef>, x: OwnedRef, v: Visit)
    returns (length': nat, failed': bool, deleted': seq<OwnedRef>)
    requires length <= a.Length && !v.Abort?
    modifies a
    ensures Scan(Slice(a[..], length'), failed', false, deleted') ==
            AfterVisit(Scan(Slice(old(a[..]), length), failed, false, deleted), x, v)
  {
    length', failed', deleted' := length, failed, deleted;
    match v {
      case Keep =>
      case Failed => failed' := true;
      case Drop(delete) =>
        if delete { deleted' := deleted + [x]; }
        var shorter, _ := Remove(a, length, x);
        length' := shorter;
      case DropTwice =>
        var shorter, _ := Remove(a, length, x);
        var shortest, _ := Remove(a, shorter, x);
        length' := shortest;
    }
  }

  /** `pruneOwnedPackages` on the backing array of the status list */
  method PruneOwnedPackages(c: Cluster, self: Ref, all: bool, current: seq<OwnedRef>, api: nat -> Api, a: array<OwnedRef>)
    returns (length: nat, failed: bool, aborted: bool, deleted: seq<OwnedRef>)
    modifies a
    ensures Scan(Slice(a[..], length), failed, aborted, deleted) ==
            PrunePass(old(a[..]), PackageVisits(c, self, all, current, api))
  {
    ghost var decide := PackageVisits(c, self, all, current, api);
    ghost var start := Started(a[..]);
    length, failed, aborted, deleted := a.Length, false, false, [];
    for i := 0 to a.Length
      invariant length <= a.Length && !aborted
      invariant RangePrune(Scan(Slice(a[..], length), failed, false, deleted), i, a.Length, decide) ==
                RangePrune(start, 0, a.Length, decide)
    {
      var x := a[i];
      var v := DecidePackage(c, self, all, current, api(i), x);
      if v.Abort? {
        failed, aborted := true, true;
        return;
      }
      length, failed, deleted := ApplyVisit(a, length, failed, deleted, x, v);
    }
  }

  /** `pruneOwnedPackageInfos` on the backing array of the status list */
  method PruneOwnedPackageInfos(c: Cluster, self: Ref, all: bool, infoName: string, api: nat -> Api, a: array<OwnedRef>)
    returns (length: nat, failed: bool, deleted: seq<OwnedRef>)
    modifies a
    ensures Scan(Slice(a[..], length), failed, false, deleted) ==
            PrunePass(old(a[..]), InfoVisits(c, self, all, infoName, api))
  {
    ghost var decide := InfoVisits(c, self, all, infoName, api);
    ghost var start := Started(a[..]);
    length, failed, deleted := a.Length, false, [];
    for i := 0 to a.Length
      invariant length <= a.Length
      invariant RangePrune(Scan(Slice(a[..], length), failed, false, deleted), i, a.Length, decide) ==
                RangePrune(start, 0, a.Length, decide)
    {
      var x := a[i];
      var v := DecideInfo(c, self, all, infoName, api(i), x);
      length, failed, deleted := ApplyVisit(a, length, failed, deleted, x, v);
    }
  }

  /** The guards of the loop body of `pruneOwnedPackageInfos` */
  method DecideInfo(c: Cluster, self: Ref, all: bool, infoName: string, api: Api, x: OwnedRef) returns (v: Visit)
    ensures v == VisitInfo(c, self, all, infoName, api, x) && !v.Abort?
  {
    if !all && x.name == infoName {
      return Keep;
    }
    var stillUsed := FindInfoUser(c, self, x.name);
    v := if stillUsed then Drop(false) else if api.deleteFails then Failed else Drop(true);
  }

  /** The inner loop over all packages of `pruneOwnedPackageInfos` */
  method FindInfoUser(c: Cluster, self: Ref, name: string) returns (stillUsed: bool)
    ensures stillUsed <==> exists o, x :: o in c && o != self && x in c[o].ownedInfos && x.name == name
  {
    stillUsed := false;
    var rest := c.Keys;
    while rest != {}
      invariant rest <= c.Keys
      invariant !stillUsed
      invariant forall o, x :: o in c && o !in rest && o != self && x in c[o].ownedInfos ==> x.name != name
    {
      var o :| o in rest;
      rest := rest - {o};
      if o != self && exists x :: x in c[o].ownedInfos && x.name == name {
        return true;
      }
    }
  }

  // ---------------------------------------------------------------- passes

  /** What the API answers during one pass. */
  datatype Env = Env(
    listFails: bool,                 // listing all packages in pruneOwnedPackages
    packageApi: nat -> Api,
    infoListFails: bool,             // listing all packages in pruneOwnedPackageInfos
    infoApi: nat -> Api,
    updateFails: bool)               // the final status or resource update

  /** A delete call sets the deletion timestamp; the object stays until its finalizers are gone. */
  function MarkTerminating(c: Cluster, deleted: seq<OwnedRef>): Cluster {
    map r | r in c :: if exists x :: x in deleted && TargetOf(x) == r then c[r].(terminating := true) else c[r]
  }

  /** The list `pruneOwnedPackages` leaves: on an early return the old header over the shifted memory. */
  ghost function ListAfter(t: Scan): seq<OwnedRef>
    requires InBounds(t.slice)
  {
    if t.aborted then t.slice.memory else Elements(t.slice)
  }

  /** What a pass has computed when it comes to `actualFinalize`, and the deletions that it has issued. */
  datatype Outcome = Outcome(
    package: Package,
    updateStatus: bool,              // shouldUpdateStatus
    updateResource: bool,            // shouldUpdateResource
    deleted: seq<OwnedRef>,
    deletedInfos: seq<OwnedRef>)

  /**
   The end of `actualFinalize`: with a status change only the status is written, and a pending change
   of the finalizers is lost until a later pass.
   */
  ghost function Persist(c: Cluster, self: Ref, o: Outcome, env: Env): Cluster
    requires self in c
  {
    var d := MarkTerminating(c, o.deleted);
    var p := o.package;
    if env.updateFails then d
    else if o.updateStatus then
      d[self := d[self].(deletionReported := p.deletionReported, ownedPackages := p.ownedPackages, ownedInfos := p.ownedInfos)]
    else if o.updateResource then d[self := d[self].(finalizer := p.finalizer)]
    else d
  }

  ghost function PackageScan(c: Cluster, self: Ref, all: bool, refs: seq<OwnedRef>, current: seq<OwnedRef>, env: Env): (t: Scan)
    ensures InBounds(t.slice)
  {
    if env.listFails then Started(refs).(failed := true)
    else PrunePass(refs, PackageVisits(c, self, all, current, env.packageApi))
  }

  ghost function InfoScan(c: Cluster, self: Ref, all: bool, refs: seq<OwnedRef>, infoName: string, env: Env): (t: Scan)
    ensures InBounds(t.slice)
  {
    if env.infoListFails then Started(refs).(failed := true)
    else PrunePass(refs, InfoVisits(c, self, all, infoName, env.infoApi))
  }

  /** `reconcileAfterDeletion` */
  ghost function DeletionOutcome(c: Cluster, self: Ref, env: Env): Outcome
    requires self in c
  {
    var p := c[self].(deletionReported := true);
    var dirty := !c[self].deletionReported;
    if !p.finalizer then Outcome(p, dirty, false, [], [])
    else if p.ownedPackages != [] then
      var t := PackageScan(c, self, true, p.ownedPackages, [], env);
      Outcome(p.(ownedPackages := ListAfter(t)), dirty || t.slice.length < |p.ownedPackages|, false, t.deleted, [])
    else if p.ownedInfos != [] then
      var t := InfoScan(c, self, true, p.ownedInfos, p.infoName, env);
      Outcome(p.(ownedInfos := Elements(t.slice)), dirty || t.slice.length < |p.ownedInfos|, false, [], t.deleted)
    else Outcome(p.(finalizer := false), dirty, true, [], [])
  }

  ghost function DeletionPass(c: Cluster, self: Ref, env: Env): Cluster
    requires self in c
  {
    Persist(c, self, DeletionOutcome(c, self, env), env)
  }

  /** What a reconcile pass of a package that is not being deleted finds out before it finalizes. */
  datatype Findings = Findings(
    infoRef: OwnedRef,               // the package's own PackageInfo
    current: seq<OwnedRef>,          // currentOwnedPackages: its dependencies, when all are ready
    success: bool,                   // isSuccess: only then cleanup runs
    conditionsChanged: bool)         // some Set... of the conditions reports a change

  /** `reconcile` of a package that is not being deleted: `ensureFinalizer`, `Add`, and `cleanup` on success. */
  ghost function LiveOutcome(c: Cluster, self: Ref, f: Findings, env: Env): Outcome
    requires self in c
  {
    var p := c[self];
    var packages, infos := WithAdded(p.ownedPackages, f.current), WithAdded(p.ownedInfos, [f.infoRef]);
    var dirty := f.conditionsChanged || packages != p.ownedPackages || infos != p.ownedInfos;
    if f.success then
      var ti := InfoScan(c, self, false, infos, p.infoName, env);
      var tp := PackageScan(c, self, false, packages, f.current, env);
      Outcome(
        p.(finalizer := true, ownedPackages := ListAfter(tp), ownedInfos := Elements(ti.slice)),
        dirty || ti.slice.length < |infos| || tp.slice.length < |packages|,
        !p.finalizer, tp.deleted, ti.deleted)
    else
      Outcome(p.(finalizer := true, ownedPackages := packages, ownedInfos := infos), dirty, !p.finalizer, [], [])
  }

  ghost function LivePass(c: Cluster, self: Ref, f: Findings, env: Env): Cluster
    requires self in c
  {
    Persist(c, self, LiveOutcome(c, self, f, env), env)
  }
}
