/**
 The admission webhook of `internal/webhook/package_validator.go` on creations and updates: an admitted
 package has been resolved without a conflict on a graph of the cluster.
 */
module InstallAdmission {
  import opened Wrappers
  import opened Semver
  import opened GraphModel
  import opened Installation
  import opened Resolution
  import opened DependencyManager
  import opened Validation
  import opened Operator
  import opened Cascade
  import opened Admission

  /** `PackageScope`; a manifest without one is for the cluster. */
  datatype ManifestScope = Unscoped | ScopeCluster | ScopeNamespaced

  predicate IsCluster(s: ManifestScope) { !s.ScopeNamespaced? }

  predicate IsNamespaced(s: ManifestScope) { s.ScopeNamespaced? }

  /** The manifest of the requested version, and whether the package's values are valid for it. */
  datatype Fetched = Fetched(manifest: Manifest, scope: ManifestScope, valuesValid: bool)

  datatype Refusal = NotFetched | WrongScope | InvalidValues | BrokenCluster | NotValidated(error: ValidationError) | Conflicts

  // ---------------------------------------------------------------- the graph and the scope

  /** The scope has all that the graph of c can be labelled with, and what m asks for. */
  ghost predicate Spans(scope: Scope, c: Cluster, ref: Ref, m: Manifest) {
    && (forall x, packageName :: LabelFrom(c, x, packageName) ==> (x, packageName) in scope)
    && (AddedRef(ref, m), m.name) in scope
    && forall t :: t in Targets(AddedRef(ref, m), m) ==> (t.ref, t.packageName) in scope
  }

  lemma AddedIsCovered(scope: Scope, g: Graph, c: Cluster, ref: Ref, m: Manifest, v: Version, manual: bool)
    requires LabelsFrom(g, c) && Spans(scope, c, ref, m)
    ensures Covered(scope, Added(g, AddedRef(ref, m), m, Parsed(v), manual).0)
  {
    var p := AddedRef(ref, m);
    var h := Added(g, p, m, Parsed(v), manual).0;
    AddedEffect(g, p, m, v, manual);
    AddedLabel(g, p, m, v, manual);
    forall x | x in h
      ensures (x, h[x].packageName) in scope
    {
      if x in g {
        assert LabelFrom(c, x, g[x].packageName);
        if x != p { assert h[x] == g[x]; }
      } else if x != p {
        var t :| t in Targets(p, m) && t.ref == x && h[x] == Uninstalled(t.packageName);
      }
    }
  }

  /** Manifests of the cluster are as those of a tidy repository. */
  ghost predicate TidyCluster(c: Cluster) {
    ProperNames(c) && forall r :: r in c ==> HasNamespace(r, c[r].manifest)
  }

  lemma ClusterIsTidy(g: Graph, c: Cluster)
    requires LabelsFrom(g, c) && TidyCluster(c)
    ensures ClusterLabels(g)
  {
    forall x | x in g && x.namespace == ""
      ensures g[x].packageName == x.name
    {
      assert LabelFrom(c, x, g[x].packageName);
      if !exists r :: r in c && VertexOf(c, r) == x && g[x].packageName == c[r].manifest.name {
        var r, t :| r in LivePackages(c) && t in Targets(VertexOf(c, r), c[r].manifest) &&
                    t.ref == x && t.packageName == g[x].packageName;
        TargetLabels(r, c[r].manifest, t);
      }
    }
  }

  lemma AddedIsTidy(g: Graph, p: Ref, m: Manifest, v: Version, manual: bool)
    requires ClusterLabels(g) && (p.namespace == "" ==> m.name == p.name)
    requires HasNamespace(p, m)
    ensures ClusterLabels(Added(g, p, m, Parsed(v), manual).0)
  {
    var h := Added(g, p, m, Parsed(v), manual).0;
    AddedEffect(g, p, m, v, manual);
    AddedLabel(g, p, m, v, manual);
    forall x | x in h && x.namespace == ""
      ensures h[x].packageName == x.name
    {
      if x in g && x != p {
        assert h[x] == g[x];
      } else if x != p {
        var t :| t in Targets(p, m) && t.ref == x && h[x] == Uninstalled(t.packageName);
        TargetLabels(p, m, t);
      }
    }
  }

  // ---------------------------------------------------------------- the verdict

  /** Validating package p in version v on c found no conflict; h is the graph that was checked. */
  ghost predicate ConflictFree(
    repo: Repository, scope: Scope, c: Cluster, g: Graph, h: Graph, p: Ref, m: Manifest, v: Version,
    run: seq<Requirement>)
  {
    var (g1, ok) := Added(g, p, m, Parsed(v), ManualFlag(g, m.name));
    && Mirrors(g, c) && ok && Tidy(repo, scope, g1)
    && PackageDone(repo, scope, g1, h, p, run)
    && NothingNew(g, h)
  }

  /** g is the cluster's graph, and resolving p on it has led to h. */
  ghost predicate Checked(
    repo: Repository, scope: Scope, c: Cluster, g: Graph, h: Graph, p: Ref, m: Manifest, v: Version,
    run: seq<Requirement>)
  {
    var (g1, ok) := Added(g, AddedRef(p, m), m, Parsed(v), ManualFlag(g, m.name));
    && (ProperNames(c) ==> Mirrors(g, c)) && LabelsFrom(g, c) && ok
    && PackageDone(repo, scope, g1, h, p, run) && Flagged(repo, g1, p, false, run)
  }

  /** Manifests have the names and namespaces that they should have. */
  ghost predicate AllTidy(repo: Repository, scope: Scope, c: Cluster, p: Ref, m: Manifest) {
    && TidyRepository(repo, scope) && TidyCluster(c)
    && (p.namespace == "" ==> m.name == p.name)
    && HasNamespace(p, m)
  }

  /** With tidy manifests, a check without a new error is what keeps clusters sound. */
  lemma AdmittedIsConflictFree(
    repo: Repository, scope: Scope, c: Cluster, g: Graph, h: Graph, p: Ref, m: Manifest, v: Version,
    run: seq<Requirement>)
    requires Checked(repo, scope, c, g, h, p, m, v, run) && NothingNew(g, h) && AllTidy(repo, scope, c, p, m)
    ensures ConflictFree(repo, scope, c, g, h, p, m, v, run)
  {
    ClusterIsTidy(g, c);
    AddedIsTidy(g, p, m, v, ManualFlag(g, m.name));
  }

  /** The grounds on which validating p fails. */
  ghost predicate HasGround(repo: Repository, c: Cluster, p: Ref, m: Manifest, g: Graph, h: Graph, e: ValidationError) {
    match e
    case CannotAdd => !Parseable(Targets(AddedRef(p, m), m))
    case CannotResolve(error) => Grounded(repo, h, error)
    case StillMissing(_) => LabelsFrom(g, c) && (ProperNames(c) ==> Mirrors(g, c)) && !NothingNew(g, h)
  }

  ghost predicate ScopeFits(p: Ref, s: ManifestScope) {
    s.ScopeNamespaced? <==> p.namespace != ""
  }

  /** `validateCreateOrUpdate`: refused on exactly these grounds, and admitted when nothing is new. */
  method ValidateCreateOrUpdate(
    c: Cluster, api: Lookups, repo: Repository, p: Ref, fetched: Option<Fetched>, v: Version, ghost scope: Scope)
    returns (refusal: Option<Refusal>, ghost g: Graph, ghost h: Graph, ghost run: seq<Requirement>)
    requires Closed(repo, scope)
    requires fetched.Some? ==> Spans(scope, c, p, fetched.value.manifest)
    ensures refusal == Some(NotFetched) <==> fetched.None?
    ensures refusal == Some(WrongScope) <==>
            fetched.Some? && (fetched.value.scope == ScopeNamespaced <==> p.namespace == "")
    ensures refusal == Some(InvalidValues) <==>
            fetched.Some? && ScopeFits(p, fetched.value.scope) && !fetched.value.valuesValid
    ensures refusal == Some(BrokenCluster) <==>
            fetched.Some? && ScopeFits(p, fetched.value.scope) && fetched.value.valuesValid && !Buildable(c, api)
    ensures refusal.Some? && refusal.value.NotValidated? ==>
              fetched.Some? && HasGround(repo, c, p, fetched.value.manifest, g, h, refusal.value.error)
    ensures refusal.None? || refusal == Some(Conflicts) ==>
              && fetched.Some?
              && Checked(repo, scope, c, g, h, p, fetched.value.manifest, v, run)
              && (refusal.None? <==> NothingNew(g, h))
  {
    g, h, run := map[], map[], [];
    if fetched.None? {
      refusal := Some(NotFetched);
      return;
    }
    var m := fetched.value.manifest;
    if IsCluster(fetched.value.scope) && p.namespace != "" {
      refusal := Some(WrongScope);
    } else if IsNamespaced(fetched.value.scope) && p.namespace == "" {
      refusal := Some(WrongScope);
    } else if !fetched.value.valuesValid {
      refusal := Some(InvalidValues);
    } else {
      refusal, g, h, run := CheckConflicts(c, api, repo, p, m, v, scope);
    }
  }

  /** `NewGraph` and `Validate` */
  method CheckConflicts(
    c: Cluster, api: Lookups, repo: Repository, p: Ref, m: Manifest, v: Version, ghost scope: Scope)
    returns (refusal: Option<Refusal>, ghost g0: Graph, ghost h: Graph, ghost run: seq<Requirement>)
    requires Closed(repo, scope) && Spans(scope, c, p, m)
    ensures refusal.None? || refusal.value.BrokenCluster? || refusal.value.NotValidated? || refusal.value.Conflicts?
    ensures refusal.None? || refusal == Some(Conflicts) ==>
              Checked(repo, scope, c, g0, h, p, m, v, run) && (refusal.None? <==> NothingNew(g0, h))
    ensures refusal.Some? && refusal.value.NotValidated? ==> HasGround(repo, c, p, m, g0, h, refusal.value.error)
    ensures refusal == Some(BrokenCluster) <==> !Buildable(c, api)
  {
    var g, ok := NewGraph(c, api);
    g0, h, run := g.model, g.model, [];
    if !ok {
      refusal := Some(BrokenCluster);
      return;
    }
    AddedIsCovered(scope, g0, c, p, m, v, ManualFlag(g0, m.name));
    AddedEffect(g0, AddedRef(p, m), m, v, ManualFlag(g0, m.name));
    var r;
    r, run := Validate(g, repo, p.name, p.namespace, m, Parsed(v), scope);
    h := g.model;
    refusal := match r
      case Err(e) => Some(NotValidated(e))
      case Ok(value) => if value.conflicts == [] then None else Some(Conflicts);
  }
}
