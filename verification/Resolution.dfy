/**
 The resolver of `internal/dependency/manager.go` on graph values: which packages a resolution adds,
 in which order, and what holds of the graph it leaves behind.
 */
module Resolution {
  import opened Wrappers
  import opened Semver
  import opened GraphModel
  import opened Installation

  /** What the repositories offer; a missing entry is one that cannot be fetched or parsed. */
  datatype Repository = Repository(
    versions: map<string, seq<Version>>,
    manifests: map<(string, string), Manifest>)

  datatype ComponentMetadata = ComponentMetadata(name: string, namespace: string)

  datatype Requirement = Requirement(
    name: string,
    version: Version,
    component: Option<ComponentMetadata>,
    transitive: bool)

  /** The vertex a requirement installs. */
  function RequiredRef(q: Requirement): Ref {
    match q.component
    case None => Ref(q.name, "")
    case Some(c) => Ref(c.name, c.namespace)
  }

  ghost predicate Fetchable(repo: Repository, q: Requirement) {
    (q.name, q.version.original) in repo.manifests
  }

  function ManifestOf(repo: Repository, q: Requirement): Manifest
    requires Fetchable(repo, q)
  {
    repo.manifests[(q.name, q.version.original)]
  }

  /** `Manual(manifest.Name, "")`, the flag `dm.add` passes on. */
  predicate ManualFlag(g: Graph, name: string) {
    Ref(name, "") in g && g[Ref(name, "")].manual
  }

  // ---------------------------------------------------------------- what adding does to the graph

  function EdgesFrom(edges: map<Ref, Option<Constraint>>, ts: seq<Target>): map<Ref, Option<Constraint>>
    decreases |ts|
  {
    if ts == [] then edges
    else EdgesFrom(edges[ts[0].ref := AsConstraint(ts[0].spec)], ts[1..])
  }

  ghost predicate Parseable(ts: seq<Target>) {
    forall t :: t in ts ==> !t.spec.Malformed?
  }

  ghost predicate Named(ts: seq<Target>, r: Ref, n: Node) {
    exists t :: t in ts && t.ref == r && n == Uninstalled(t.packageName)
  }

  /** h extends g by uninstalled vertices for targets, and changes nothing else outside q. */
  ghost predicate Touched(g: Graph, h: Graph, q: Ref, ts: seq<Target>) {
    && g.Keys <= h.Keys
    && (forall r {:trigger h[r]} :: r in g && r != q ==> h[r] == g[r])
    && (forall r {:trigger h[r]} :: r in h && r !in g && r != q ==> Named(ts, r, h[r]))
  }

  lemma {:induction false} AddTargetsTouch(g: Graph, q: Ref, ts: seq<Target>)
    requires q in g
    ensures Touched(g, AddTargets(g, q, ts).0, q, ts)
    decreases |ts|
  {
    if ts != [] {
      var t := ts[0];
      assert t in ts;
      var g1 := Touch(g, t.ref, t.packageName);
      assert Touched(g, g1, q, ts) by {
        forall r | r in g1 && r !in g
          ensures Named(ts, r, g1[r])
        {
          assert t in ts && t.ref == r && g1[r] == Uninstalled(t.packageName);
        }
      }
      if !t.spec.Malformed? {
        var g2 := Connect(g1, q, t.ref, AsConstraint(t.spec));
        assert Touched(g, g2, q, ts);
        AddTargetsTouch(g2, q, ts[1..]);
        TouchedTrans(g, g2, AddTargets(g2, q, ts[1..]).0, q, ts);
      }
    }
  }

  lemma TouchedTrans(g: Graph, h: Graph, k: Graph, q: Ref, ts: seq<Target>)
    requires ts != [] && q in h && Touched(g, h, q, ts) && Touched(h, k, q, ts[1..])
    ensures Touched(g, k, q, ts)
  {
    forall r | r in k && r !in g && r != q
      ensures Named(ts, r, k[r])
    {
      if r in h {
        assert h[r] == k[r];
      } else {
        var t :| t in ts[1..] && t.ref == r && k[r] == Uninstalled(t.packageName);
        assert t in ts;
      }
    }
    forall r | r in g && r != q
      ensures k[r] == g[r]
    {
      assert h[r] == g[r];
    }
  }

  lemma {:induction false} AddTargetsEdges(g: Graph, q: Ref, ts: seq<Target>)
    requires q in g
    ensures AddTargets(g, q, ts).1 <==> Parseable(ts)
    ensures Parseable(ts) ==> AddTargets(g, q, ts).0[q] == g[q].(edges := EdgesFrom(g[q].edges, ts))
    decreases |ts|
  {
    if ts != [] {
      var t := ts[0];
      assert ts == [t] + ts[1..];
      if !t.spec.Malformed? {
        var g2 := Connect(Touch(g, t.ref, t.packageName), q, t.ref, AsConstraint(t.spec));
        assert g2[q] == g[q].(edges := g[q].edges[t.ref := AsConstraint(t.spec)]);
        AddTargetsEdges(g2, q, ts[1..]);
      }
    }
  }

  /** Installing a parsed version: the vertex gets its edges, new targets appear uninstalled. */
  lemma AddedEffect(g: Graph, ref: Ref, m: Manifest, v: Version, manual: bool)
    ensures var (h, ok) := Added(g, ref, m, Parsed(v), manual);
            var packageName := if ref in g then g[ref].packageName else m.name;
            && ref in h && Touched(g, h, ref, Targets(ref, m))
            && (ok <==> Parseable(Targets(ref, m)))
            && (ok ==> h[ref] == Node(packageName, Some(v), manual, EdgesFrom(map[], Targets(ref, m))))
  {
    var ts := Targets(ref, m);
    var g1 := Touch(g, ref, m.name);
    var g2 := g1[ref := Node(g1[ref].packageName, Some(v), manual, map[])];
    AddTargetsTouch(g2, ref, ts);
    AddTargetsEdges(g2, ref, ts);
    assert Touched(g, AddTargets(g2, ref, ts).0, ref, ts) by {
      var h := AddTargets(g2, ref, ts).0;
      forall r | r in g && r != ref
        ensures h[r] == g[r]
      {
        assert g2[r] == g[r];
      }
      forall r | r in h && r !in g && r != ref
        ensures Named(ts, r, h[r])
      {
        assert r !in g2;
      }
    }
  }

  lemma AddedLabel(g: Graph, r: Ref, m: Manifest, v: Version, manual: bool)
    ensures var h := Added(g, r, m, Parsed(v), manual).0;
            && r in h && h[r].packageName == (if r in g then g[r].packageName else m.name)
            && h[r].version == Some(v) && h[r].manual == manual
  {
    var h := Touch(g, r, m.name);
    AddTargetsLabel(h[r := Node(h[r].packageName, Some(v), manual, map[])], r, Targets(r, m));
  }

  lemma {:induction false} AddTargetsLabel(g: Graph, q: Ref, ts: seq<Target>)
    requires q in g
    ensures var n := AddTargets(g, q, ts).0[q];
            n.packageName == g[q].packageName && n.version == g[q].version && n.manual == g[q].manual
    decreases |ts|
  {
    if ts != [] && !ts[0].spec.Malformed? {
      AddTargetsLabel(
        Connect(Touch(g, ts[0].ref, ts[0].packageName), q, ts[0].ref, AsConstraint(ts[0].spec)), q, ts[1..]);
    }
  }

  lemma AddedInstalls(g: Graph, ref: Ref, m: Manifest, v: Version, manual: bool)
    requires Added(g, ref, m, Parsed(v), manual).1
    ensures Installed(Added(g, ref, m, Parsed(v), manual).0) == Installed(g) + {ref}
  {
    AddedEffect(g, ref, m, v, manual);
    var h := Added(g, ref, m, Parsed(v), manual).0;
    forall r | r in h && r != ref
      ensures r in Installed(h) <==> r in Installed(g)
    {
      assert h[r] == h[r];
    }
  }

  lemma {:induction false} EdgesFromKeys(edges: map<Ref, Option<Constraint>>, ts: seq<Target>)
    ensures forall r :: r in EdgesFrom(edges, ts) <==> r in edges || exists t :: t in ts && t.ref == r
    decreases |ts|
  {
    if ts != [] {
      assert ts == [ts[0]] + ts[1..];
      EdgesFromKeys(edges[ts[0].ref := AsConstraint(ts[0].spec)], ts[1..]);
    }
  }

  /** The dependency is one of cluster packages, by its name. */
  ghost predicate IsDependency(m: Manifest, r: Ref) {
    exists d :: d in m.dependencies && r == Ref(d.name, "")
  }

  /** The component belongs to a package of its own, named after its parent, in the default namespace or beside it. */
  ghost predicate IsComponent(parent: Ref, m: Manifest, r: Ref) {
    exists c :: c in m.components && NamedAfter(parent, m, c, r)
  }

  ghost predicate NamedAfter(parent: Ref, m: Manifest, c: Component, r: Ref) {
    && r.name == parent.name + "-" + (if c.installedName == "" then c.name else c.installedName)
    && r.namespace == (if parent.namespace == "" then m.defaultNamespace else parent.namespace)
  }

  lemma TargetRefs(ref: Ref, m: Manifest, r: Ref)
    ensures (exists t :: t in Targets(ref, m) && t.ref == r) <==> IsDependency(m, r) || IsComponent(ref, m, r)
  {
    var ts, n := Targets(ref, m), |m.dependencies|;
    if exists t :: t in ts && t.ref == r {
      var i :| 0 <= i < |ts| && ts[i].ref == r;
      if i < n {
        assert m.dependencies[i] in m.dependencies;
      } else {
        ComponentAt(ref, m, r, i - n);
      }
    }
    if IsDependency(m, r) {
      var i :| 0 <= i < n && r == Ref(m.dependencies[i].name, "");
      assert ts[i].ref == r;
    }
    if IsComponent(ref, m, r) {
      var c :| c in m.components && NamedAfter(ref, m, c, r);
      var i :| 0 <= i < |m.components| && m.components[i] == c;
      ComponentAt(ref, m, r, i);
    }
  }

  lemma ComponentAt(ref: Ref, m: Manifest, r: Ref, i: nat)
    requires i < |m.components|
    ensures m.components[i] in m.components && Targets(ref, m)[|m.dependencies| + i] in Targets(ref, m)
    ensures Targets(ref, m)[|m.dependencies| + i].ref == r <==> NamedAfter(ref, m, m.components[i], r)
  {
    assert Targets(ref, m)[|m.dependencies| + i] == ComponentTarget(ref, m, m.components[i]);
  }

  /** An added package depends on exactly the dependencies and components of its manifest. */
  lemma AddedDependsOn(g: Graph, ref: Ref, m: Manifest, v: Version, manual: bool, r: Ref)
    requires Added(g, ref, m, Parsed(v), manual).1
    ensures DependsOn(Added(g, ref, m, Parsed(v), manual).0, ref, r) <==> IsDependency(m, r) || IsComponent(ref, m, r)
  {
    AddedEffect(g, ref, m, v, manual);
    EdgesFromKeys(map[], Targets(ref, m));
    TargetRefs(ref, m, r);
  }

  /** When a manifest names a package more than once, the last entry decides the constraint. */
  lemma {:induction false} LastTargetDecides(edges: map<Ref, Option<Constraint>>, ts: seq<Target>, i: nat)
    requires i < |ts| && forall j :: i < j < |ts| ==> ts[j].ref != ts[i].ref
    ensures ts[i].ref in EdgesFrom(edges, ts) && EdgesFrom(edges, ts)[ts[i].ref] == AsConstraint(ts[i].spec)
    decreases |ts|
  {
    var next := edges[ts[0].ref := AsConstraint(ts[0].spec)];
    if i > 0 {
      LastTargetDecides(next, ts[1..], i - 1);
    } else {
      UntouchedEdge(next, ts[1..], ts[0].ref);
    }
  }

  lemma {:induction false} UntouchedEdge(edges: map<Ref, Option<Constraint>>, ts: seq<Target>, r: Ref)
    requires r in edges && forall t :: t in ts ==> t.ref != r
    ensures r in EdgesFrom(edges, ts) && EdgesFrom(edges, ts)[r] == edges[r]
    decreases |ts|
  {
    if ts != [] {
      assert ts[0] in ts;
      UntouchedEdge(edges[ts[0].ref := AsConstraint(ts[0].spec)], ts[1..], r);
    }
  }

  // ---------------------------------------------------------------- what the entries of the manifest say

  /** Adding succeeds exactly when no entry of the manifest has a malformed version. */
  lemma AddedIffWellFormed(g: Graph, ref: Ref, m: Manifest, v: Version, manual: bool)
    ensures Added(g, ref, m, Parsed(v), manual).1 <==> !IsMalformed(m)
  {
    AddedEffect(g, ref, m, v, manual);
    ParseableIff(ref, m);
  }

  lemma ParseableIff(ref: Ref, m: Manifest)
    ensures Parseable(Targets(ref, m)) <==> !IsMalformed(m)
  {
    var ts, n := Targets(ref, m), |m.dependencies|;
    if Parseable(ts) {
      forall d | d in m.dependencies
        ensures !d.version.Malformed?
      {
        var i :| 0 <= i < n && m.dependencies[i] == d;
        assert ts[i] in ts;
      }
      forall c | c in m.components
        ensures !c.version.Malformed?
      {
        var i :| 0 <= i < |m.components| && m.components[i] == c;
        assert ts[n + i] in ts;
      }
    } else {
      var i :| 0 <= i < |ts| && ts[i].spec.Malformed?;
      if i < n {
        assert m.dependencies[i] in m.dependencies;
      } else {
        assert m.components[i - n] in m.components;
      }
    }
  }

  /** The last component that goes by the name r decides the constraint on r. */
  lemma LastComponentDecides(g: Graph, ref: Ref, m: Manifest, v: Version, manual: bool, r: Ref, i: nat)
    requires Added(g, ref, m, Parsed(v), manual).1
    requires i < |m.components| && NamedAfter(ref, m, m.components[i], r)
    requires forall j :: i < j < |m.components| ==> !NamedAfter(ref, m, m.components[j], r)
    ensures var edges := Added(g, ref, m, Parsed(v), manual).0[ref].edges;
            r in edges && match m.components[i].version
                          case AnyVersion => edges[r] == None
                          case Constrained(constraint) => edges[r] == Some(constraint)
                          case Malformed => false
  {
    var ts, n := Targets(ref, m), |m.dependencies|;
    ComponentAt(ref, m, r, i);
    forall j | n + i < j < |ts|
      ensures ts[j].ref != r
    {
      ComponentAt(ref, m, r, j - n);
    }
    AddedEffect(g, ref, m, v, manual);
    LastTargetDecides(map[], ts, n + i);
  }

  /** When no component does, the last dependency of that name decides it. */
  lemma LastDependencyDecides(g: Graph, ref: Ref, m: Manifest, v: Version, manual: bool, i: nat)
    requires Added(g, ref, m, Parsed(v), manual).1 && i < |m.dependencies|
    requires forall j :: i < j < |m.dependencies| ==> m.dependencies[j].name != m.dependencies[i].name
    requires !IsComponent(ref, m, Ref(m.dependencies[i].name, ""))
    ensures var edges, r := Added(g, ref, m, Parsed(v), manual).0[ref].edges, Ref(m.dependencies[i].name, "");
            r in edges && match m.dependencies[i].version
                          case AnyVersion => edges[r] == None
                          case Constrained(constraint) => edges[r] == Some(constraint)
                          case Malformed => false
  {
    var ts, n, r := Targets(ref, m), |m.dependencies|, Ref(m.dependencies[i].name, "");
    forall j | i < j < |ts|
      ensures ts[j].ref != r
    {
      if j >= n { ComponentAt(ref, m, r, j - n); }
    }
    AddedEffect(g, ref, m, v, manual);
    assert ts[i] in ts;
    LastTargetDecides(map[], ts, i);
  }

  /** A new vertex is labelled by the first target that comes to it. */
  lemma {:induction false} FirstTargetLabels(g: Graph, q: Ref, ts: seq<Target>, i: nat)
    requires q in g && Parseable(ts) && i < |ts| && ts[i].ref !in g
    requires forall j :: 0 <= j < i ==> ts[j].ref != ts[i].ref
    ensures ts[i].ref in AddTargets(g, q, ts).0 && AddTargets(g, q, ts).0[ts[i].ref] == Uninstalled(ts[i].packageName)
    decreases |ts|
  {
    var r := ts[i].ref;
    assert ts[0] in ts && forall t :: t in ts[1..] ==> t in ts;
    var g1 := Connect(Touch(g, ts[0].ref, ts[0].packageName), q, ts[0].ref, AsConstraint(ts[0].spec));
    if i > 0 {
      FirstTargetLabels(g1, q, ts[1..], i - 1);
    } else {
      AddTargetsTouch(g1, q, ts[1..]);
      var h := AddTargets(g1, q, ts[1..]).0;
      assert h[r] == g1[r];
    }
  }

  /** A vertex that is new is not installed; its label is the name in the first entry that names it. */
  lemma FirstDependencyLabels(g: Graph, ref: Ref, m: Manifest, v: Version, manual: bool, i: nat)
    requires Added(g, ref, m, Parsed(v), manual).1 && i < |m.dependencies|
    requires var r := Ref(m.dependencies[i].name, ""); r !in g && r != ref
    ensures var h, r := Added(g, ref, m, Parsed(v), manual).0, Ref(m.dependencies[i].name, "");
            r in h && h[r] == Node(m.dependencies[i].name, None, false, map[])
  {
    var ts, r := Targets(ref, m), Ref(m.dependencies[i].name, "");
    var k := FirstAt(ts, r, i);
    NewVertexIsLabelled(g, ref, m, v, manual, k);
  }

  lemma FirstComponentLabels(g: Graph, ref: Ref, m: Manifest, v: Version, manual: bool, r: Ref, i: nat)
    requires Added(g, ref, m, Parsed(v), manual).1 && i < |m.components| && r !in g && r != ref
    requires NamedAfter(ref, m, m.components[i], r) && !IsDependency(m, r)
    requires forall j :: 0 <= j < i ==> !NamedAfter(ref, m, m.components[j], r)
    ensures var h := Added(g, ref, m, Parsed(v), manual).0;
            r in h && h[r] == Node(m.components[i].name, None, false, map[])
  {
    var ts, n := Targets(ref, m), |m.dependencies|;
    ComponentAt(ref, m, r, i);
    forall j | 0 <= j < n + i
      ensures ts[j].ref != r
    {
      if j < n {
        assert m.dependencies[j] in m.dependencies;
      } else {
        ComponentAt(ref, m, r, j - n);
      }
    }
    NewVertexIsLabelled(g, ref, m, v, manual, n + i);
  }

  /** The first target of that name up to i. */
  lemma {:induction false} FirstAt(ts: seq<Target>, r: Ref, i: nat) returns (k: nat)
    requires i < |ts| && ts[i].ref == r
    ensures k <= i && ts[k].ref == r && forall j :: 0 <= j < k ==> ts[j].ref != r
  {
    if j :| 0 <= j < i && ts[j].ref == r {
      k := FirstAt(ts, r, j);
    } else {
      k := i;
    }
  }

  lemma NewVertexIsLabelled(g: Graph, ref: Ref, m: Manifest, v: Version, manual: bool, k: nat)
    requires Added(g, ref, m, Parsed(v), manual).1 && k < |Targets(ref, m)|
    requires var r := Targets(ref, m)[k].ref; r !in g && r != ref
    requires forall j :: 0 <= j < k ==> Targets(ref, m)[j].ref != Targets(ref, m)[k].ref
    ensures var h, t := Added(g, ref, m, Parsed(v), manual).0, Targets(ref, m)[k];
            t.ref in h && h[t.ref] == Uninstalled(t.packageName)
  {
    var g1 := Touch(g, ref, m.name);
    AddedEffect(g, ref, m, v, manual);
    FirstTargetLabels(g1[ref := Node(g1[ref].packageName, Some(v), manual, map[])], ref, Targets(ref, m), k);
  }

  /** An empty version uninstalls the package; an unparsable one only leaves its vertex behind. */
  lemma AddedUnparsed(g: Graph, ref: Ref, m: Manifest, manual: bool)
    ensures var (h, ok) := Added(g, ref, m, NoVersion, manual);
            && ok && h.Keys == g.Keys + {ref} && (forall r :: r in g && r != ref ==> h[r] == g[r])
            && h[ref] == Node(if ref in g then g[ref].packageName else m.name, None, false, map[])
    ensures var (h, ok) := Added(g, ref, m, Unparsable, manual);
            && !ok && h.Keys == g.Keys + {ref} && (forall r :: r in g ==> h[r] == g[r])
            && (ref !in g ==> h[ref] == Node(m.name, None, false, map[]))
  {
  }

  lemma AddedWellFormed(g: Graph, ref: Ref, m: Manifest, v: Version, manual: bool)
    requires WellFormed(g)
    ensures WellFormed(Added(g, ref, m, Parsed(v), manual).0)
  {
    var g1 := Touch(g, ref, m.name);
    TouchWellFormed(g, ref, m.name);
    var n := Node(g1[ref].packageName, Some(v), manual, map[]);
    UpdateWellFormed(g1, ref, n);
    AddTargetsWellFormed(g1[ref := n], ref, Targets(ref, m));
  }

  lemma {:induction false} AddTargetsWellFormed(g: Graph, q: Ref, ts: seq<Target>)
    requires WellFormed(g) && q in Installed(g)
    ensures WellFormed(AddTargets(g, q, ts).0)
    decreases |ts|
  {
    if ts != [] {
      TouchWellFormed(g, ts[0].ref, ts[0].packageName);
      var h := Touch(g, ts[0].ref, ts[0].packageName);
      if !ts[0].spec.Malformed? {
        ConnectWellFormed(h, q, ts[0].ref, AsConstraint(ts[0].spec));
        AddTargetsWellFormed(Connect(h, q, ts[0].ref, AsConstraint(ts[0].spec)), q, ts[1..]);
      }
    }
  }

  // ---------------------------------------------------------------- runs

  /** `dm.add` for one requirement; without a manifest nothing is added. */
  ghost function Step(repo: Repository, g: Graph, q: Requirement): Graph {
    if Fetchable(repo, q) then
      var m := ManifestOf(repo, q);
      Added(g, RequiredRef(q), m, Parsed(q.version), ManualFlag(g, m.name)).0
    else g
  }

  /** Adds the requirements in order. */
  ghost function Replay(repo: Repository, g: Graph, reqs: seq<Requirement>): Graph
    decreases |reqs|
  {
    if reqs == [] then g else Replay(repo, Step(repo, g, reqs[0]), reqs[1..])
  }

  /** The manifest names the package it was fetched for, and only namespaced packages are components. */
  ghost predicate Proper(repo: Repository, q: Requirement) {
    && Fetchable(repo, q) && ManifestOf(repo, q).name == q.name
    && (q.component.Some? ==> q.component.value.namespace != "")
  }

  ghost predicate Wanted(g: Graph, owners: set<Ref>, r: Ref) {
    exists w :: w in owners && w in g && r in g[w].edges
  }

  /**
   What the resolver may add next: a dependency of the owners that is not installed, in a greatest
   version that satisfies all constraints of the moment, with the manifest of that version.
   */
  ghost predicate LegalPick(repo: Repository, g: Graph, owners: set<Ref>, q: Requirement) {
    var ref := RequiredRef(q);
    && Proper(repo, q)
    && ref in g && g[ref].version.None? && g[ref].packageName == q.name
    && Wanted(g, owners, ref)
    && q.name in repo.versions && IsMax(g, ref, repo.versions[q.name], Some(q.version))
    && Parseable(Targets(ref, ManifestOf(repo, q)))
  }

  /** Each pick is legal at its moment; what was added joins the owners. */
  ghost predicate LegalRun(repo: Repository, g: Graph, owners: set<Ref>, reqs: seq<Requirement>)
    decreases |reqs|
  {
    reqs == [] ||
    (LegalPick(repo, g, owners, reqs[0]) &&
     LegalRun(repo, Step(repo, g, reqs[0]), owners + {RequiredRef(reqs[0])}, reqs[1..]))
  }

  ghost function RequiredRefs(reqs: seq<Requirement>): set<Ref> {
    set q | q in reqs :: RequiredRef(q)
  }

  /** h only adds: installed vertices are the same, labels stay, and constraints can only be added. */
  ghost predicate Grows(g: Graph, h: Graph) {
    && g.Keys <= h.Keys
    && Installed(g) <= Installed(h)
    && (forall r {:trigger h[r]} :: r in g ==> h[r].packageName == g[r].packageName)
    && (forall r {:trigger h[r]} :: r in Installed(g) ==> h[r] == g[r])
  }

  lemma GrowsTrans(g: Graph, h: Graph, k: Graph)
    requires Grows(g, h) && Grows(h, k)
    ensures Grows(g, k)
  {
    forall r | r in g
      ensures k[r].packageName == g[r].packageName
      ensures r in Installed(g) ==> k[r] == g[r]
    {
      assert h[r] == h[r];
    }
  }

  lemma PickGrows(repo: Repository, g: Graph, owners: set<Ref>, q: Requirement)
    requires LegalPick(repo, g, owners, q)
    ensures var h := Step(repo, g, q);
            && Grows(g, h)
            && Installed(h) == Installed(g) + {RequiredRef(q)} && RequiredRef(q) !in Installed(g)
            && h[RequiredRef(q)].version == Some(q.version)
            && h[RequiredRef(q)].edges == EdgesFrom(map[], Targets(RequiredRef(q), ManifestOf(repo, q)))
  {
    var ref, m := RequiredRef(q), ManifestOf(repo, q);
    AddedEffect(g, ref, m, q.version, ManualFlag(g, m.name));
    AddedInstalls(g, ref, m, q.version, ManualFlag(g, m.name));
  }

  lemma PickWellFormed(repo: Repository, g: Graph, q: Requirement)
    requires WellFormed(g)
    ensures WellFormed(Step(repo, g, q))
  {
    if Fetchable(repo, q) {
      var m := ManifestOf(repo, q);
      AddedWellFormed(g, RequiredRef(q), m, q.version, ManualFlag(g, m.name));
    }
  }

  lemma RequiredRefsCons(reqs: seq<Requirement>)
    requires reqs != []
    ensures RequiredRefs(reqs) == {RequiredRef(reqs[0])} + RequiredRefs(reqs[1..])
  {
    assert reqs == [reqs[0]] + reqs[1..];
  }

  lemma {:induction false} RunGrows(repo: Repository, g: Graph, owners: set<Ref>, reqs: seq<Requirement>)
    requires LegalRun(repo, g, owners, reqs)
    ensures Grows(g, Replay(repo, g, reqs))
    decreases |reqs|
  {
    if reqs != [] {
      PickGrows(repo, g, owners, reqs[0]);
      RunGrows(repo, Step(repo, g, reqs[0]), owners + {RequiredRef(reqs[0])}, reqs[1..]);
      GrowsTrans(g, Step(repo, g, reqs[0]), Replay(repo, g, reqs));
    }
  }

  lemma {:induction false} RunWellFormed(repo: Repository, g: Graph, reqs: seq<Requirement>)
    requires WellFormed(g)
    ensures WellFormed(Replay(repo, g, reqs))
    decreases |reqs|
  {
    if reqs != [] {
      PickWellFormed(repo, g, reqs[0]);
      RunWellFormed(repo, Step(repo, g, reqs[0]), reqs[1..]);
    }
  }

  lemma {:induction false} RunInstalls(repo: Repository, g: Graph, owners: set<Ref>, reqs: seq<Requirement>)
    requires LegalRun(repo, g, owners, reqs)
    ensures Installed(Replay(repo, g, reqs)) == Installed(g) + RequiredRefs(reqs)
    ensures Installed(g) !! RequiredRefs(reqs)
    decreases |reqs|
  {
    if reqs != [] {
      PickGrows(repo, g, owners, reqs[0]);
      RunInstalls(repo, Step(repo, g, reqs[0]), owners + {RequiredRef(reqs[0])}, reqs[1..]);
      RequiredRefsCons(reqs);
    } else {
      assert RequiredRefs(reqs) == {};
    }
  }

  lemma {:induction false} RunDistinct(repo: Repository, g: Graph, owners: set<Ref>, reqs: seq<Requirement>)
    requires LegalRun(repo, g, owners, reqs)
    ensures |RequiredRefs(reqs)| == |reqs|
    decreases |reqs|
  {
    if reqs != [] {
      var ref, g1 := RequiredRef(reqs[0]), Step(repo, g, reqs[0]);
      PickGrows(repo, g, owners, reqs[0]);
      RunInstalls(repo, g1, owners + {ref}, reqs[1..]);
      RunDistinct(repo, g1, owners + {ref}, reqs[1..]);
      RequiredRefsCons(reqs);
    } else {
      assert RequiredRefs(reqs) == {};
    }
  }

  /**
   Requirements are exact: packages installed before keep version, edges and label, and the newly
   installed ones are those named by the requirements, each named once.
   */
  lemma RequirementsAreExact(repo: Repository, g: Graph, owners: set<Ref>, reqs: seq<Requirement>)
    requires LegalRun(repo, g, owners, reqs)
    ensures var h := Replay(repo, g, reqs);
            && (forall r :: r in Installed(g) ==> r in h && h[r] == g[r])
            && (forall r :: r in g ==> r in h && h[r].packageName == g[r].packageName)
            && Installed(h) - Installed(g) == RequiredRefs(reqs)
            && |Installed(h) - Installed(g)| == |reqs|
  {
    RunGrows(repo, g, owners, reqs);
    RunInstalls(repo, g, owners, reqs);
    RunDistinct(repo, g, owners, reqs);
    assert Installed(Replay(repo, g, reqs)) - Installed(g) == RequiredRefs(reqs);
  }

  /** What a picked package is in the end: the version and the edges it was picked with. */
  lemma {:induction false} PickedStays(repo: Repository, g: Graph, owners: set<Ref>, reqs: seq<Requirement>, i: nat)
    requires LegalRun(repo, g, owners, reqs) && i < |reqs|
    ensures var ref, h := RequiredRef(reqs[i]), Replay(repo, g, reqs);
            && Fetchable(repo, reqs[i]) && ref in h
            && h[ref].version == Some(reqs[i].version)
            && h[ref].edges == EdgesFrom(map[], Targets(ref, ManifestOf(repo, reqs[i])))
    decreases |reqs|
  {
    var q, g1 := reqs[0], Step(repo, g, reqs[0]);
    PickGrows(repo, g, owners, q);
    RunGrows(repo, g1, owners + {RequiredRef(q)}, reqs[1..]);
    if i > 0 {
      PickedStays(repo, g1, owners + {RequiredRef(q)}, reqs[1..], i - 1);
    }
  }

  // ---------------------------------------------------------------- when the resolver gives up

  /** Constraints only grow, so fewer versions are acceptable. */
  lemma GrowsConstrains(g: Graph, h: Graph, r: Ref, v: Version)
    requires Grows(g, h) && Acceptable(h, r, v)
    ensures Acceptable(g, r, v)
  {
    forall c | ConstrainedBy(g, r, c)
      ensures c.accepts(v)
    {
      var q :| DependsOn(g, q, r) && g[q].edges[r] == Some(c);
      assert h[q] == g[q];
      assert DependsOn(h, q, r);
    }
  }

  /** No version the repositories list for d satisfies all constraints. */
  ghost predicate Unsatisfiable(repo: Repository, g: Graph, d: Ref) {
    && d in g && g[d].packageName in repo.versions
    && forall v :: v in repo.versions[g[d].packageName] ==> !Acceptable(g, d, v)
  }

  /** d is installed, or nothing could be installed for it. */
  ghost predicate Settled(repo: Repository, g: Graph, d: Ref) {
    d in Installed(g) || Unsatisfiable(repo, g, d)
  }

  /** All dependencies of the vertices in s are settled. */
  ghost predicate AllSettled(repo: Repository, g: Graph, s: set<Ref>) {
    forall w, d :: w in s && w in g && d in g[w].edges ==> Settled(repo, g, d)
  }

  lemma SettledStays(repo: Repository, g: Graph, h: Graph, d: Ref)
    requires Grows(g, h) && Settled(repo, g, d)
    ensures Settled(repo, h, d)
  {
    if d !in Installed(g) {
      assert h[d].packageName == g[d].packageName;
      forall v | v in repo.versions[h[d].packageName]
        ensures !Acceptable(h, d, v)
      {
        if Acceptable(h, d, v) { GrowsConstrains(g, h, d, v); }
      }
    }
  }

  // ---------------------------------------------------------------- blame for conflicts

  /** A pick satisfies every constraint of what is installed at that moment. */
  lemma PickSatisfies(repo: Repository, g: Graph, owners: set<Ref>, q: Requirement, p: Ref)
    requires LegalPick(repo, g, owners, q) && DependsOn(g, p, RequiredRef(q))
    ensures var c := g[p].edges[RequiredRef(q)]; c.Some? ==> c.value.accepts(q.version)
  {
    var c := g[p].edges[RequiredRef(q)];
    if c.Some? {
      assert ConstrainedBy(g, RequiredRef(q), c.value);
    }
  }

  /**
   A violated edge into a picked package starts at a package added with it or after it: the version
   was picked to satisfy everything that was installed at that moment.
   */
  lemma {:induction false} BlameTheLater(
    repo: Repository, g: Graph, owners: set<Ref>, reqs: seq<Requirement>, i: nat, p: Ref)
    requires WellFormed(g) && LegalRun(repo, g, owners, reqs) && i < |reqs|
    requires Broken(Replay(repo, g, reqs), p, RequiredRef(reqs[i]))
    ensures p in RequiredRefs(reqs[i..])
    decreases |reqs|
  {
    var q, g1 := reqs[0], Step(repo, g, reqs[0]);
    PickGrows(repo, g, owners, q);
    PickWellFormed(repo, g, q);
    if i > 0 {
      BlameTheLater(repo, g1, owners + {RequiredRef(q)}, reqs[1..], i - 1, p);
      assert reqs[1..][i - 1..] == reqs[i..];
    } else {
      var h := Replay(repo, g, reqs);
      RunGrows(repo, g, owners, reqs);
      RunInstalls(repo, g, owners, reqs);
      RunWellFormed(repo, g, reqs);
      PickedStays(repo, g, owners, reqs, 0);
      assert reqs[0..] == reqs;
      assert NodeFits(h.Keys, h[p]);
      if p in Installed(g) && RequiredRef(q) in g[p].edges {
        PickSatisfies(repo, g, owners, q, p);
      }
    }
  }

  // ---------------------------------------------------------------- composing runs

  lemma WantedMore(g: Graph, owners: set<Ref>, more: set<Ref>, r: Ref)
    requires Wanted(g, owners, r) && owners <= more
    ensures Wanted(g, more, r)
  {
    var w :| w in owners && w in g && r in g[w].edges;
    assert w in more;
  }

  lemma {:induction false} MoreOwners(repo: Repository, g: Graph, owners: set<Ref>, more: set<Ref>, reqs: seq<Requirement>)
    requires LegalRun(repo, g, owners, reqs) && owners <= more
    ensures LegalRun(repo, g, more, reqs)
    decreases |reqs|
  {
    if reqs != [] {
      var ref := RequiredRef(reqs[0]);
      WantedMore(g, owners, more, ref);
      MoreOwners(repo, Step(repo, g, reqs[0]), owners + {ref}, more + {ref}, reqs[1..]);
    }
  }

  lemma {:induction false} ReplayConcat(repo: Repository, g: Graph, a: seq<Requirement>, b: seq<Requirement>)
    ensures Replay(repo, g, a + b) == Replay(repo, Replay(repo, g, a), b)
    decreases |a|
  {
    if a == [] {
      assert a + b == b;
    } else {
      assert (a + b)[0] == a[0] && (a + b)[1..] == a[1..] + b;
      ReplayConcat(repo, Step(repo, g, a[0]), a[1..], b);
    }
  }

  /** A second run by owners that the first run provides extends the first. */
  lemma {:induction false} RunConcat(
    repo: Repository, g: Graph, owners: set<Ref>, a: seq<Requirement>, more: set<Ref>, b: seq<Requirement>)
    requires LegalRun(repo, g, owners, a)
    requires LegalRun(repo, Replay(repo, g, a), more, b)
    requires more <= owners + RequiredRefs(a)
    ensures LegalRun(repo, g, owners, a + b)
    decreases |a|
  {
    if a == [] {
      assert a + b == b;
      assert more <= owners;
      MoreOwners(repo, g, more, owners, b);
    } else {
      RequiredRefsCons(a);
      RunConcat(repo, Step(repo, g, a[0]), owners + {RequiredRef(a[0])}, a[1..], more, b);
      LegalCons(repo, g, owners, a[0], a[1..] + b);
      ConcatCons(a, b);
    }
  }

  lemma ConcatCons<T>(a: seq<T>, b: seq<T>)
    requires a != []
    ensures a + b == [a[0]] + (a[1..] + b)
  {
  }

  lemma LegalCons(repo: Repository, g: Graph, owners: set<Ref>, q: Requirement, rest: seq<Requirement>)
    requires LegalPick(repo, g, owners, q)
    requires LegalRun(repo, Step(repo, g, q), owners + {RequiredRef(q)}, rest)
    ensures LegalRun(repo, g, owners, [q] + rest)
  {
    assert ([q] + rest)[1..] == rest;
  }

  // ---------------------------------------------------------------- re-adding in another order

  ghost function Unlabelled(n: Node): Node {
    n.(packageName := "")
  }

  /** What a requirement installs, whatever the graph it is added to. */
  ghost function InstalledNode(repo: Repository, g: Graph, q: Requirement): Node
    requires Fetchable(repo, q)
  {
    var m := ManifestOf(repo, q);
    Node("", Some(q.version), ManualFlag(g, m.name), EdgesFrom(map[], Targets(RequiredRef(q), m)))
  }

  /** The requirements can be added to g in any order. */
  ghost predicate Independent(repo: Repository, g: Graph, reqs: seq<Requirement>) {
    && (forall q :: q in reqs ==> Proper(repo, q) && Parseable(Targets(RequiredRef(q), ManifestOf(repo, q))))
    && (forall q :: q in reqs ==> RequiredRef(q) !in Installed(g))
    && |RequiredRefs(reqs)| == |reqs|
  }

  lemma {:induction false} RefsBound(reqs: seq<Requirement>)
    ensures |RequiredRefs(reqs)| <= |reqs|
    decreases |reqs|
  {
    if reqs != [] {
      RequiredRefsCons(reqs);
      RefsBound(reqs[1..]);
    } else {
      assert RequiredRefs(reqs) == {};
    }
  }

  lemma DistinctTail(reqs: seq<Requirement>)
    requires reqs != [] && |RequiredRefs(reqs)| == |reqs|
    ensures |RequiredRefs(reqs[1..])| == |reqs| - 1 && RequiredRef(reqs[0]) !in RequiredRefs(reqs[1..])
  {
    RequiredRefsCons(reqs);
    RefsBound(reqs[1..]);
  }

  ghost predicate SameFlags(g: Graph, h: Graph) {
    forall name :: ManualFlag(g, name) == ManualFlag(h, name)
  }

  lemma StepNode(repo: Repository, g: Graph, start: Graph, q: Requirement)
    requires WellFormed(g) && SameFlags(start, g)
    requires Proper(repo, q) && Parseable(Targets(RequiredRef(q), ManifestOf(repo, q)))
    requires RequiredRef(q) !in Installed(g)
    ensures var h := Step(repo, g, q);
            && WellFormed(h) && SameFlags(start, h)
            && Installed(h) == Installed(g) + {RequiredRef(q)}
            && Unlabelled(h[RequiredRef(q)]) == InstalledNode(repo, start, q)
            && (forall r :: r in Installed(g) ==> h[r] == g[r])
  {
    var ref, m, h := RequiredRef(q), ManifestOf(repo, q), Step(repo, g, q);
    AddedEffect(g, ref, m, q.version, ManualFlag(g, m.name));
    AddedInstalls(g, ref, m, q.version, ManualFlag(g, m.name));
    AddedWellFormed(g, ref, m, q.version, ManualFlag(g, m.name));
    forall name
      ensures ManualFlag(g, name) == ManualFlag(h, name)
    {
      var r := Ref(name, "");
      if r in g {
        assert NodeFits(g.Keys, g[r]);
        assert h[r] == h[r];
      } else if r in h {
        assert NodeFits(h.Keys, h[r]);
        assert h[r] == h[r];
      }
    }
  }

  lemma IndependentTail(repo: Repository, g: Graph, start: Graph, reqs: seq<Requirement>)
    requires WellFormed(g) && SameFlags(start, g) && Independent(repo, g, reqs) && reqs != []
    ensures Independent(repo, Step(repo, g, reqs[0]), reqs[1..])
  {
    StepNode(repo, g, start, reqs[0]);
    DistinctTail(reqs);
    forall q | q in reqs[1..]
      ensures q in reqs && RequiredRef(q) in RequiredRefs(reqs[1..])
    {
    }
  }

  /** Adding independent requirements installs them, and nothing else. */
  lemma {:induction false} ReplayInstalls(repo: Repository, g: Graph, start: Graph, reqs: seq<Requirement>, r: Ref)
    requires WellFormed(g) && SameFlags(start, g) && Independent(repo, g, reqs)
    ensures r in Installed(Replay(repo, g, reqs)) <==> r in Installed(g) || r in RequiredRefs(reqs)
    decreases |reqs|
  {
    if reqs != [] {
      StepNode(repo, g, start, reqs[0]);
      IndependentTail(repo, g, start, reqs);
      ReplayInstalls(repo, Step(repo, g, reqs[0]), start, reqs[1..], r);
      RequiredRefsCons(reqs);
    }
  }

  /** It leaves what was installed. */
  lemma {:induction false} ReplayKeeps(repo: Repository, g: Graph, start: Graph, reqs: seq<Requirement>, r: Ref)
    requires WellFormed(g) && SameFlags(start, g) && Independent(repo, g, reqs) && r in Installed(g)
    ensures r in Replay(repo, g, reqs) && Replay(repo, g, reqs)[r] == g[r]
    decreases |reqs|
  {
    if reqs != [] {
      StepNode(repo, g, start, reqs[0]);
      IndependentTail(repo, g, start, reqs);
      ReplayKeeps(repo, Step(repo, g, reqs[0]), start, reqs[1..], r);
    }
  }

  /** What each of them installs does not depend on the order. */
  lemma {:induction false} ReplayNode(repo: Repository, g: Graph, start: Graph, reqs: seq<Requirement>, q: Requirement)
    requires WellFormed(g) && SameFlags(start, g) && Independent(repo, g, reqs) && q in reqs
    ensures RequiredRef(q) in Replay(repo, g, reqs)
    ensures Unlabelled(Replay(repo, g, reqs)[RequiredRef(q)]) == InstalledNode(repo, start, q)
    decreases |reqs|
  {
    var g1 := Step(repo, g, reqs[0]);
    StepNode(repo, g, start, reqs[0]);
    IndependentTail(repo, g, start, reqs);
    if q == reqs[0] {
      ReplayKeeps(repo, g1, start, reqs[1..], RequiredRef(q));
    } else {
      ReplayNode(repo, g1, start, reqs[1..], q);
    }
  }

  /** Same installed packages with the same version, flag and edges. */
  ghost predicate SameInstalled(g: Graph, h: Graph) {
    && Installed(g) == Installed(h)
    && forall r :: r in Installed(g) ==> Unlabelled(g[r]) == Unlabelled(h[r])
  }

  lemma SameInstalledSameErrors(g: Graph, h: Graph, q: Ref, r: Ref)
    requires WellFormed(g) && WellFormed(h) && SameInstalled(g, h)
    ensures Broken(g, q, r) <==> Broken(h, q, r)
  {
    if q in g { assert NodeFits(g.Keys, g[q]); }
    if q in h { assert NodeFits(h.Keys, h[q]); }
    if q in Installed(g) {
      assert Unlabelled(g[q]).edges == Unlabelled(h[q]).edges;
    }
    if r in Installed(g) {
      assert Unlabelled(g[r]).version == Unlabelled(h[r]).version;
    }
  }

  lemma {:induction false} RunIsProper(repo: Repository, g: Graph, owners: set<Ref>, reqs: seq<Requirement>)
    requires LegalRun(repo, g, owners, reqs)
    ensures forall q :: q in reqs ==> Proper(repo, q) && Parseable(Targets(RequiredRef(q), ManifestOf(repo, q)))
    decreases |reqs|
  {
    if reqs != [] {
      RunIsProper(repo, Step(repo, g, reqs[0]), owners + {RequiredRef(reqs[0])}, reqs[1..]);
      assert reqs == [reqs[0]] + reqs[1..];
    }
  }

  lemma RunIsIndependent(repo: Repository, g: Graph, owners: set<Ref>, reqs: seq<Requirement>, other: seq<Requirement>)
    requires LegalRun(repo, g, owners, reqs) && multiset(other) == multiset(reqs)
    ensures Independent(repo, g, other)
    ensures RequiredRefs(other) == RequiredRefs(reqs)
    ensures forall q :: q in other <==> q in reqs
  {
    RunIsProper(repo, g, owners, reqs);
    RunInstalls(repo, g, owners, reqs);
    RunDistinct(repo, g, owners, reqs);
    SameMembers(other, reqs);
    assert forall q :: q in reqs ==> RequiredRef(q) in RequiredRefs(reqs);
    assert |other| == |multiset(other)| == |reqs|;
  }

  lemma SameMembers(a: seq<Requirement>, b: seq<Requirement>)
    requires multiset(a) == multiset(b)
    ensures forall q :: q in a <==> q in b
    ensures RequiredRefs(a) == RequiredRefs(b)
  {
    assert forall q :: q in a <==> q in multiset(a);
    assert forall q :: q in b <==> q in multiset(b);
  }

  /**
   Installing the requirements in any order, such as the sorted one that `Validate` returns, gives
   the graph that was checked, up to labels: the same packages, the same errors.
   */
  lemma RebuildInAnyOrder(repo: Repository, g: Graph, owners: set<Ref>, reqs: seq<Requirement>, other: seq<Requirement>)
    requires WellFormed(g) && LegalRun(repo, g, owners, reqs) && multiset(other) == multiset(reqs)
    ensures SameInstalled(Replay(repo, g, reqs), Replay(repo, g, other))
    ensures Sound(Replay(repo, g, reqs)) <==> Sound(Replay(repo, g, other))
  {
    RunIsIndependent(repo, g, owners, reqs, reqs);
    RunIsIndependent(repo, g, owners, reqs, other);
    forall r
      ensures r in Installed(Replay(repo, g, reqs)) <==> r in Installed(g) || r in RequiredRefs(reqs)
      ensures r in Installed(Replay(repo, g, other)) <==> r in Installed(g) || r in RequiredRefs(reqs)
    {
      ReplayInstalls(repo, g, g, reqs, r);
      ReplayInstalls(repo, g, g, other, r);
    }
    RunWellFormed(repo, g, reqs);
    RunWellFormed(repo, g, other);
    var h, k := Replay(repo, g, reqs), Replay(repo, g, other);
    forall r | r in Installed(h)
      ensures Unlabelled(h[r]) == Unlabelled(k[r])
    {
      if r !in Installed(g) {
        var q :| q in reqs && RequiredRef(q) == r;
        ReplayNode(repo, g, g, reqs, q);
        ReplayNode(repo, g, g, other, q);
      } else {
        ReplayKeeps(repo, g, g, reqs, r);
        ReplayKeeps(repo, g, g, other, r);
      }
    }
    forall q, r
      ensures Broken(h, q, r) <==> Broken(k, q, r)
    {
      SameInstalledSameErrors(h, k, q, r);
    }
  }
}