/**
 `PackageReconcilationContext` of `internal/controller/common.go`: the object that one reconcile pass
 updates, proved to do what module `Operator` says of a pass.
 */
module Reconciler {
  import opened GraphModel
  import opened OwnedRefs
  import opened Operator

  class PackageReconcilation {
    const self: Ref
    /** The local copy of the package. */
    var pkg: Package
    var isSuccess: bool
    var shouldUpdateStatus: bool
    var shouldUpdateResource: bool
    var currentOwnedPackages: seq<OwnedRef>
    /** The deletions issued through the API, of packages and of package infos. */
    var deleted: seq<OwnedRef>
    var deletedInfos: seq<OwnedRef>

    constructor (c: Cluster, self: Ref)
      requires self in c
      ensures this.self == self && pkg == c[self]
      ensures !isSuccess && !shouldUpdateStatus && !shouldUpdateResource
      ensures currentOwnedPackages == [] && deleted == [] && deletedInfos == []
    {
      this.self := self;
      pkg := c[self];
      isSuccess, shouldUpdateStatus, shouldUpdateResource := false, false, false;
      currentOwnedPackages, deleted, deletedInfos := [], [], [];
    }

    ghost function Computed(): Outcome
      reads this
    {
      Outcome(pkg, shouldUpdateStatus, shouldUpdateResource, deleted, deletedInfos)
    }

    method SetShouldUpdate(value: bool)
      modifies this`shouldUpdateStatus
      ensures shouldUpdateStatus == (old(shouldUpdateStatus) || value)
    {
      shouldUpdateStatus := shouldUpdateStatus || value;
    }

    /** `pruneOwnedPackages`; on an early return the header still covers the whole shifted array. */
    method PruneOwnedPackages(c: Cluster, all: bool, env: Env) returns (failed: bool)
      modifies this`pkg, this`shouldUpdateStatus, this`deleted
      ensures var refs := old(pkg.ownedPackages);
              var t := PackageScan(c, self, all, refs, currentOwnedPackages, env);
              && pkg == old(pkg).(ownedPackages := ListAfter(t))
              && shouldUpdateStatus == (old(shouldUpdateStatus) || t.slice.length < |refs|)
              && deleted == old(deleted) + t.deleted
              && failed == t.failed
    {
      if env.listFails {
        assert ListAfter(Started(pkg.ownedPackages).(failed := true)) == pkg.ownedPackages;
        return true;
      }
      var refs := pkg.ownedPackages;
      var a := new OwnedRef[|refs|](i requires 0 <= i < |refs| => refs[i]);
      assert a[..] == refs;
      var length, aborted, issued;
      length, failed, aborted, issued :=
        Operator.PruneOwnedPackages(c, self, all, currentOwnedPackages, env.packageApi, a);
      deleted := deleted + issued;
      SetShouldUpdate(length < |refs|);
      pkg := pkg.(ownedPackages := if aborted then a[..] else a[..length]);
    }

    /** `pruneOwnedPackageInfos` */
    method PruneOwnedPackageInfos(c: Cluster, all: bool, env: Env) returns (failed: bool)
      modifies this`pkg, this`shouldUpdateStatus, this`deletedInfos
      ensures var refs := old(pkg.ownedInfos);
              var t := InfoScan(c, self, all, refs, old(pkg.infoName), env);
              && pkg == old(pkg).(ownedInfos := Elements(t.slice))
              && shouldUpdateStatus == (old(shouldUpdateStatus) || t.slice.length < |refs|)
              && deletedInfos == old(deletedInfos) + t.deleted
              && failed == t.failed
    {
      if env.infoListFails {
        assert Elements(Started(pkg.ownedInfos).slice) == pkg.ownedInfos;
        return true;
      }
      var refs := pkg.ownedInfos;
      var a := new OwnedRef[|refs|](i requires 0 <= i < |refs| => refs[i]);
      assert a[..] == refs;
      var length, issued;
      length, failed, issued := Operator.PruneOwnedPackageInfos(c, self, all, pkg.infoName, env.infoApi, a);
      deletedInfos := deletedInfos + issued;
      SetShouldUpdate(length < |refs|);
      pkg := pkg.(ownedInfos := a[..length]);
    }

    /** The writes at the end of `actualFinalize`: the status, or else the resource. */
    method Write(c: Cluster, env: Env) returns (d: Cluster)
      requires self in c
      ensures d == Persist(c, self, Computed(), env)
    {
      d := MarkTerminating(c, deleted);
      if shouldUpdateStatus {
        if !env.updateFails {
          d := d[self := d[self].(
            deletionReported := pkg.deletionReported, ownedPackages := pkg.ownedPackages, ownedInfos := pkg.ownedInfos)];
        }
      } else if shouldUpdateResource {
        if !env.updateFails {
          d := d[self := d[self].(finalizer := pkg.finalizer)];
        }
      }
    }

    /** `reconcileAfterDeletion` of a fresh context */
    method ReconcileAfterDeletion(c: Cluster, env: Env) returns (d: Cluster)
      requires self in c && pkg == c[self]
      requires !shouldUpdateStatus && !shouldUpdateResource && currentOwnedPackages == []
      requires deleted == [] && deletedInfos == []
      modifies this
      ensures d == DeletionPass(c, self, env) && Computed() == DeletionOutcome(c, self, env)
    {
      SetShouldUpdate(!pkg.deletionReported);
      pkg := pkg.(deletionReported := true);
      if pkg.finalizer {
        if |pkg.ownedPackages| != 0 {
          var _ := PruneOwnedPackages(c, true, env);
        } else if |pkg.ownedInfos| != 0 {
          var _ := PruneOwnedPackageInfos(c, true, env);
        } else {
          pkg := pkg.(finalizer := false);
          shouldUpdateResource := true;
        }
      }
      assert Computed() == DeletionOutcome(c, self, env);
      d := Write(c, env);
    }

    /** `ensureFinalizer` */
    method EnsureFinalizer()
      modifies this`pkg, this`shouldUpdateResource
      ensures pkg == old(pkg).(finalizer := true)
      ensures shouldUpdateResource == (old(shouldUpdateResource) || !old(pkg.finalizer))
    {
      if !pkg.finalizer {
        pkg := pkg.(finalizer := true);
        shouldUpdateResource := true;
      }
    }

    /** `ensurePackageInfo`, and the start of `actualFinalize`: both lists get what the pass has found. */
    method AddOwned(f: Findings)
      modifies this`pkg, this`shouldUpdateStatus
      ensures var packages := WithAdded(old(pkg.ownedPackages), currentOwnedPackages);
              var infos := WithAdded(old(pkg.ownedInfos), [f.infoRef]);
              && pkg == old(pkg).(ownedPackages := packages, ownedInfos := infos)
              && shouldUpdateStatus ==
                 (old(shouldUpdateStatus) || packages != old(pkg.ownedPackages) || infos != old(pkg.ownedInfos))
    {
      var infos, infoChanged := OwnedRefs.Add(pkg.ownedInfos, [f.infoRef]);
      SetShouldUpdate(infoChanged);
      var packages, changed := OwnedRefs.Add(pkg.ownedPackages, currentOwnedPackages);
      SetShouldUpdate(changed);
      pkg := pkg.(ownedPackages := packages, ownedInfos := infos);
    }

    /** `cleanup`: a failure of one loop does not keep the other from running, and either is reported. */
    method Cleanup(c: Cluster, env: Env) returns (failed: bool)
      modifies this`pkg, this`shouldUpdateStatus, this`deleted, this`deletedInfos
      ensures var p := old(pkg);
              var ti := InfoScan(c, self, false, p.ownedInfos, p.infoName, env);
              var tp := PackageScan(c, self, false, p.ownedPackages, currentOwnedPackages, env);
              && pkg == p.(ownedPackages := ListAfter(tp), ownedInfos := Elements(ti.slice))
              && shouldUpdateStatus ==
                 (old(shouldUpdateStatus) || ti.slice.length < |p.ownedInfos| || tp.slice.length < |p.ownedPackages|)
              && deleted == old(deleted) + tp.deleted
              && deletedInfos == old(deletedInfos) + ti.deleted
              && failed == (ti.failed || tp.failed)
    {
      var infosFailed := PruneOwnedPackageInfos(c, false, env);
      var packagesFailed := PruneOwnedPackages(c, false, env);
      failed := infosFailed || packagesFailed;
    }

    /** `reconcile` of a package that is not being deleted, from `ensureFinalizer` to `actualFinalize` */
    method ReconcileLive(c: Cluster, f: Findings, env: Env) returns (d: Cluster)
      requires self in c && pkg == c[self]
      requires !shouldUpdateStatus && !shouldUpdateResource && deleted == [] && deletedInfos == []
      modifies this
      ensures d == LivePass(c, self, f, env) && Computed() == LiveOutcome(c, self, f, env)
    {
      EnsureFinalizer();
      SetShouldUpdate(f.conditionsChanged);
      currentOwnedPackages := f.current;
      isSuccess := f.success;
      AddOwned(f);
      if isSuccess {
        var _ := Cleanup(c, env);
      }
      assert Computed() == LiveOutcome(c, self, f, env);
      d := Write(c, env);
    }
  }
}
