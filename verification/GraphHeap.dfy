/**
 The mutable graph of `internal/dependency/graph/graph.go`: a map of vertex objects whose edges
 point back at the vertex objects of the same map.  Go's map iteration order is arbitrary, so
 every loop over a map here runs in an order the proofs know nothing about.
 */
module GraphHeap {
  import opened Wrappers
  import opened Semver
  import opened GraphModel
  import opened Installation

  /** An edge is never changed after it is created, so it is a value holding a vertex pointer. */
  datatype Edge = Edge(constraint: Option<Constraint>, vertex: Vertex)

  datatype PackageRef = PackageRef(name: string, namespace: string, packageName: string)

  datatype Cause =
    | NotInstalled
    | Violated(version: Version, constraint: Constraint)

  /** `DependencyError` */
  datatype DependencyError = DependencyError(package: PackageRef, dependency: PackageRef, cause: Cause)

  class Vertex {
    /** The key the vertex is stored under. */
    ghost const key: Ref
    var packageName: string
    var version: Option<Version>
    var manual: bool
    var edges: map<Ref, Edge>

    constructor (packageName: string, ghost key: Ref)
      ensures this.packageName == packageName && version == None && !manual && edges == map[]
      ensures this.key == key
    {
      this.key := key;
      this.packageName := packageName;
      version := None;
      manual := false;
      edges := map[];
    }
  }

  /** The keys of a map in the order Go happens to visit them. */
  method AnyOrder(keys: set<Ref>) returns (order: seq<Ref>)
    ensures forall r :: r in order <==> r in keys
    ensures forall i, j :: 0 <= i < j < |order| ==> order[i] != order[j]
  {
    var rest := keys;
    order := [];
    while rest != {}
      invariant rest <= keys
      invariant forall r :: r in order <==> r in keys - rest
      invariant forall i, j :: 0 <= i < j < |order| ==> order[i] != order[j]
      decreases rest
    {
      var r :| r in rest;
      rest := rest - {r};
      assert r !in order;
      order := order + [r];
    }
  }

  lemma Visited(keys: set<Ref>, rest: set<Ref>, done: set<Ref>, r: Ref)
    requires rest <= keys <= rest + done && r in rest
    ensures rest - {r} <= keys <= (rest - {r}) + (done + {r})
  {
  }

  function RefOf(p: PackageRef): Ref {
    Ref(p.name, p.namespace)
  }

  function Refs(ps: seq<PackageRef>): seq<Ref> {
    seq(|ps|, i requires 0 <= i < |ps| => RefOf(ps[i]))
  }

  lemma RefsAppend(ps: seq<PackageRef>, p: PackageRef)
    ensures Refs(ps + [p]) == Refs(ps) + [RefOf(p)]
  {
  }

  function Labelled(r: Ref, packageName: string): PackageRef {
    PackageRef(r.name, r.namespace, packageName)
  }

  /** Every reference carries the label of its vertex. */
  ghost predicate LabelledBy(g: Graph, ps: seq<PackageRef>) {
    forall p :: p in ps ==> RefOf(p) in g && p.packageName == g[RefOf(p)].packageName
  }

  ghost predicate DistinctRefs(ps: seq<PackageRef>) {
    forall i, j :: 0 <= i < j < |ps| ==> RefOf(ps[i]) != RefOf(ps[j])
  }

  /** The vertex object v stands for the node n, with its edges pointing into the map m. */
  ghost predicate Represents(m: map<Ref, Vertex>, v: Vertex, n: Node)
    reads v
  {
    && v.packageName == n.packageName && v.version == n.version && v.manual == n.manual
    && v.edges.Keys == n.edges.Keys
    && (forall r {:trigger v.edges[r]} :: r in v.edges ==>
          r in m && v.edges[r].vertex == m[r] && v.edges[r].constraint == n.edges[r])
  }

  /** The dependants of r among the listed vertices, in that order. */
  ghost function DependantsAmong(g: Graph, order: seq<Ref>, r: Ref): seq<PackageRef> {
    if order == [] then []
    else
      var q := order[|order| - 1];
      DependantsAmong(g, order[..|order| - 1], r) +
      if DependsOn(g, q, r) then [Labelled(q, g[q].packageName)] else []
  }

  /** Each vertex listed once gives one reference at most. */
  lemma {:induction false} DependantsDistinct(g: Graph, order: seq<Ref>, r: Ref)
    requires forall i, j :: 0 <= i < j < |order| ==> order[i] != order[j]
    ensures DistinctRefs(DependantsAmong(g, order, r))
  {
    if order != [] {
      var front := order[..|order| - 1];
      DependantsDistinct(g, front, r);
      DependantsAmongAll(g, front, r);
      var ps := DependantsAmong(g, front, r);
      forall i | 0 <= i < |ps|
        ensures RefOf(ps[i]) != order[|order| - 1]
      {
        assert ps[i] in ps;
      }
    }
  }

  lemma {:induction false} DependantsAmongAll(g: Graph, order: seq<Ref>, r: Ref)
    ensures forall d :: d in DependantsAmong(g, order, r) <==>
              RefOf(d) in order && DependsOn(g, RefOf(d), r) && d == Labelled(RefOf(d), g[RefOf(d)].packageName)
  {
    if order != [] {
      DependantsAmongAll(g, order[..|order| - 1], r);
      assert order == order[..|order| - 1] + [order[|order| - 1]];
    }
  }

  /** The constraints the listed vertices put on r, in that order. */
  ghost function ConstraintsAmong(g: Graph, order: seq<Ref>, r: Ref): seq<Constraint> {
    if order == [] then []
    else
      var q := order[|order| - 1];
      ConstraintsAmong(g, order[..|order| - 1], r) +
      if DependsOn(g, q, r) && g[q].edges[r].Some? then [g[q].edges[r].value] else []
  }

  lemma {:induction false} ConstraintsAmongAll(g: Graph, order: seq<Ref>, r: Ref)
    ensures forall c :: c in ConstraintsAmong(g, order, r) <==>
              exists q :: q in order && DependsOn(g, q, r) && g[q].edges[r] == Some(c)
  {
    if order != [] {
      ConstraintsAmongAll(g, order[..|order| - 1], r);
      assert order == order[..|order| - 1] + [order[|order| - 1]];
    }
  }

  /** What `Validate` reports for a broken edge. */
  ghost function ErrorFor(g: Graph, q: Ref, r: Ref): DependencyError
    requires Broken(g, q, r)
  {
    DependencyError(
      Labelled(q, g[q].packageName),
      Labelled(r, g[r].packageName),
      if g[r].version.None? then NotInstalled else Violated(g[r].version.value, g[q].edges[r].value))
  }

  ghost function ErrorsAmong(g: Graph, q: Ref, order: seq<Ref>): seq<DependencyError> {
    if order == [] then []
    else
      var r := order[|order| - 1];
      ErrorsAmong(g, q, order[..|order| - 1]) + if Broken(g, q, r) then [ErrorFor(g, q, r)] else []
  }

  lemma {:induction false} ErrorsAmongAll(g: Graph, q: Ref, order: seq<Ref>)
    ensures forall e :: e in ErrorsAmong(g, q, order) <==> exists r :: r in order && Broken(g, q, r) && e == ErrorFor(g, q, r)
  {
    if order != [] {
      ErrorsAmongAll(g, q, order[..|order| - 1]);
      assert order == order[..|order| - 1] + [order[|order| - 1]];
    }
  }

  /** What the fields of the reported errors say, and that none is left out */
  lemma ErrorFields(g: Graph, errors: seq<DependencyError>)
    requires forall e :: e in errors <==> exists q, r :: Broken(g, q, r) && e == ErrorFor(g, q, r)
    ensures forall e :: e in errors ==>
              var q, r := Ref(e.package.name, e.package.namespace), Ref(e.dependency.name, e.dependency.namespace);
              && q in g && r in g && r in g[q].edges
              && e.package.packageName == g[q].packageName && e.dependency.packageName == g[r].packageName
              && match g[r].version
                 case None => e.cause == NotInstalled
                 case Some(v) =>
                   && g[q].edges[r].Some? && !g[q].edges[r].value.accepts(v)
                   && e.cause == Violated(v, g[q].edges[r].value)
    ensures forall q, r :: q in g && r in g && r in g[q].edges ==>
              (g[r].version.None? || (g[q].edges[r].Some? && !g[q].edges[r].value.accepts(g[r].version.value))) ==>
                exists e :: e in errors && Ref(e.package.name, e.package.namespace) == q &&
                            Ref(e.dependency.name, e.dependency.namespace) == r
  {
    forall q, r |
      q in g && r in g && r in g[q].edges &&
      (g[r].version.None? || (g[q].edges[r].Some? && !g[q].edges[r].value.accepts(g[r].version.value)))
      ensures exists e :: e in errors && Ref(e.package.name, e.package.namespace) == q &&
                          Ref(e.dependency.name, e.dependency.namespace) == r
    {
      assert Broken(g, q, r);
      assert ErrorFor(g, q, r) in errors;
    }
  }

  /** The vertices of h are those of g, and the ones visited so far are finished. */
  ghost predicate CopiedUpTo(g: Graph, h: Graph, done: set<Ref>) {
    && done <= h.Keys <= g.Keys
    && forall r {:trigger h[r]} :: r in h ==> h[r] == if r in done then g[r] else Uninstalled(g[r].packageName)
  }

  ghost function Restrict<V>(m: map<Ref, V>, keys: set<Ref>): map<Ref, V> {
    map r | r in m && r in keys :: m[r]
  }

  /** As CopiedUpTo, and vertex q has its fields and the edges visited so far. */
  ghost predicate CopiedBut(g: Graph, h: Graph, done: set<Ref>, q: Ref, edges: set<Ref>) {
    && done <= h.Keys <= g.Keys
    && q in h && q in g
    && (forall r {:trigger h[r]} :: r in h && r != q ==> h[r] == if r in done then g[r] else Uninstalled(g[r].packageName))
    && h[q] == g[q].(edges := Restrict(g[q].edges, edges))
  }

  lemma CopyFields(g: Graph, h: Graph, done: set<Ref>, q: Ref)
    requires CopiedUpTo(g, h, done) && q in g
    ensures var h' := Touch(h, q, g[q].packageName);
            && h'[q].packageName == g[q].packageName
            && CopiedBut(g, h'[q := Node(g[q].packageName, g[q].version, g[q].manual, map[])], done, q, {})
  {
    assert Restrict(g[q].edges, {}) == map[];
  }

  lemma ConnectCopiedEdge(g: Graph, h: Graph, done: set<Ref>, q: Ref, edges: set<Ref>, e: Ref)
    requires CopiedBut(g, h, done, q, edges) && e in g[q].edges && e in g
    ensures CopiedBut(g, Connect(Touch(h, e, g[e].packageName), q, e, g[q].edges[e]), done, q, edges + {e})
  {
    var h' := Connect(Touch(h, e, g[e].packageName), q, e, g[q].edges[e]);
    assert h'[q].edges == Restrict(g[q].edges, edges + {e});
  }

  lemma CopyDone(g: Graph, h: Graph, done: set<Ref>, q: Ref, edges: set<Ref>)
    requires q in g && CopiedBut(g, h, done, q, edges) && g[q].edges.Keys <= edges
    ensures CopiedUpTo(g, h, done + {q})
  {
    assert Restrict(g[q].edges, edges) == g[q].edges;
  }

  lemma CopyComplete(g: Graph, h: Graph, done: set<Ref>)
    requires CopiedUpTo(g, h, done) && g.Keys <= done
    ensures h == g
  {
  }

  lemma RefsCons(p: PackageRef, ps: seq<PackageRef>)
    ensures multiset(Refs([p] + ps)) == multiset(Refs(ps)) + multiset{RefOf(p)}
  {
    assert Refs([p] + ps) == [RefOf(p)] + Refs(ps);
  }

  /** One more deletion of a round */
  lemma PrunedOne(g: Graph, removed: seq<PackageRef>, h: Graph, r: Ref, packageName: string)
    requires PruneRun(g, Refs(removed), h) && LabelledBy(g, removed)
    requires Removable(h, r) && packageName == h[r].packageName
    ensures PruneRun(g, Refs(removed + [Labelled(r, packageName)]), Uninstall(h, r))
    ensures LabelledBy(g, removed + [Labelled(r, packageName)])
    ensures |Installed(Uninstall(h, r))| < |Installed(h)|
  {
    PruneTakes(g, Refs(removed), h, r);
    PruneRunLabels(g, Refs(removed), h);
    RefsAppend(removed, Labelled(r, packageName));
  }

  lemma DeletedLabels(g: Graph, n: Ref, packageName: string, pruned: seq<PackageRef>)
    requires n in g && packageName == g[n].packageName && LabelledBy(GraphModel.Delete(g, n), pruned)
    ensures LabelledBy(g, [Labelled(n, packageName)] + pruned)
  {
  }

  /** Deleting n makes n and the non-survivors disappear, and nothing else. */
  lemma DeletedInstalled(g: Graph, n: Ref)
    requires WellFormed(g) && n in Installed(g)
    ensures var h := GraphModel.Delete(g, n);
            && n !in Installed(h)
            && (Installed(h) - Survivors(h)) + {n} == Installed(g) - Installed(DeletedAndPruned(g, n))
  {
    var h := GraphModel.Delete(g, n);
    KeepUninstalled(g, n, {});
    PrunedInstalled(h);
    SurvivorsAreGreatest(h);
    InsertBack(Installed(g), Survivors(h), n);
  }

  /** n and what pruning removed after it are together exactly what is no longer installed. */
  lemma DeletedRefs(g: Graph, n: Ref, packageName: string, pruned: seq<PackageRef>)
    requires WellFormed(g) && n in Installed(g)
    requires var h := GraphModel.Delete(g, n);
             multiset(Refs(pruned)) == multiset(Installed(h) - Survivors(h))
    ensures multiset(Refs([Labelled(n, packageName)] + pruned)) ==
            multiset(Installed(g) - Installed(DeletedAndPruned(g, n)))
  {
    var h := GraphModel.Delete(g, n);
    RefsCons(Labelled(n, packageName), pruned);
    DeletedInstalled(g, n);
    MultisetOfInsert(Installed(h) - Survivors(h), n);
  }

  class DependencyGraph {
    var vertices: map<Ref, Vertex>
    /** The value of the graph. */
    ghost var model: Graph
    /** The vertices ever created for this graph. */
    ghost var repr: set<Vertex>

    constructor ()
      ensures Valid() && model == map[] && repr == {}
    {
      vertices := map[];
      model := map[];
      repr := {};
    }

    /**
     Each vertex is stored under its own key only, and each edge points at the vertex stored in the
     map under the edge's key.  `deepCopy` and `Validate` rely on this aliasing.
     */
    ghost predicate Valid()
      reads this, repr
    {
      && vertices.Keys == model.Keys
      && (forall a {:trigger vertices[a]} :: a in vertices ==>
            vertices[a] in repr && vertices[a].key == a && Represents(vertices, vertices[a], model[a]))
      && WellFormed(model)
    }

    /** v is the vertex stored under its key. */
    ghost predicate Holds(v: Vertex)
      reads this
    {
      v.key in vertices && vertices[v.key] == v
    }

    // -------------------------------------------------------------- the vertex map

    /** `vertexMap.vertex` */
    method VertexOf(key: Ref, packageName: string) returns (v: Vertex)
      requires Valid()
      modifies this
      ensures Valid() && model == Touch(old(model), key, packageName)
      ensures v.key == key && Holds(v) && v in repr
      ensures vertices == if key in old(vertices) then old(vertices) else old(vertices)[key := v]
      ensures fresh(repr - old(repr)) && old(repr) <= repr
    {
      if key in vertices {
        assert model[key] == model[key];
        v := vertices[key];
      } else {
        v := CreateVertex(key, packageName);
      }
    }

    /** `vertexMap.createVertex` */
    method CreateVertex(key: Ref, packageName: string) returns (v: Vertex)
      requires Valid() && key !in vertices
      modifies this
      ensures Valid() && model == old(model)[key := Uninstalled(packageName)]
      ensures v.key == key && fresh(v)
      ensures vertices == old(vertices)[key := v] && repr == old(repr) + {v}
    {
      UpdateWellFormed(model, key, Uninstalled(packageName));
      v := new Vertex(packageName, key);
      vertices := vertices[key := v];
      model := model[key := Uninstalled(packageName)];
      repr := repr + {v};
      forall a | a in vertices && a != key
        ensures vertices[a] in repr && vertices[a].key == a && Represents(vertices, vertices[a], model[a])
      {
        assert model[a] == old(model)[a];
        assert old(vertices[a] in repr && vertices[a].key == a && Represents(vertices, vertices[a], model[a]));
      }
    }

    /** `vertexMap.edge` */
    method Link(from: Vertex, to: Ref, constraint: Option<Constraint>)
      requires Valid()
      requires Holds(from) && from.version.Some?
      modifies this, from
      ensures Valid() && model == Connect(old(model), from.key, to, constraint)
      ensures Holds(from) && from.version == old(from.version)
      ensures fresh(repr - old(repr)) && old(repr) <= repr
    {
      var target := VertexOf(to, "");
      StoreEdge(from, to, Edge(constraint, target));
    }

    method StoreEdge(from: Vertex, to: Ref, e: Edge)
      requires Valid()
      requires Holds(from) && from.version.Some?
      requires to in vertices && vertices[to] == e.vertex
      modifies `model, from`edges
      ensures Valid()
      ensures model == old(model)[from.key :=
                old(model)[from.key].(edges := old(model)[from.key].edges[to := e.constraint])]
    {
      from.edges := from.edges[to := e];
      model := model[from.key := model[from.key].(edges := model[from.key].edges[to := e.constraint])];
      OnlyChanged(from);
    }

    /** Writing one vertex, and its value in the model alike, keeps the graph valid. */
    twostate lemma OnlyChanged(v: Vertex)
      requires old(Valid()) && vertices == old(vertices) && repr == old(repr)
      requires Holds(v) && v.key in model
      requires model == old(model)[v.key := model[v.key]]
      requires forall a :: a in vertices && a != v.key ==> unchanged(vertices[a])
      requires Represents(vertices, v, model[v.key]) && NodeFits(model.Keys, model[v.key])
      ensures Valid()
    {
      UpdateWellFormed(old(model), v.key, model[v.key]);
      forall a | a in vertices
        ensures vertices[a] in repr && vertices[a].key == a && Represents(vertices, vertices[a], model[a])
      {
        assert old(vertices[a].key == a && Represents(vertices, vertices[a], model[a]));
        if a != v.key {
          assert model[a] == old(model)[a];
        }
      }
    }

    /** Sets the fields of a vertex and clears its edges. */
    method Assign(v: Vertex, version: Option<Version>, manual: bool)
      requires Valid() && Holds(v)
      requires version.None? ==> !manual
      modifies `model, v
      ensures Valid()
      ensures v.version == version
      ensures model == old(model)[v.key := Node(old(model)[v.key].packageName, version, manual, map[])]
    {
      v.version := version;
      v.manual := manual;
      v.edges := map[];
      model := model[v.key := Node(model[v.key].packageName, version, manual, map[])];
      OnlyChanged(v);
    }

    /** `delete` */
    method Erase(v: Vertex) returns (deleted: bool)
      requires Valid() && Holds(v)
      modifies `model, v
      ensures Valid() && model == Uninstall(old(model), v.key)
      ensures deleted <==> v.key in Installed(old(model))
    {
      deleted := v.version.Some?;
      Assign(v, None, false);
    }

    // -------------------------------------------------------------- installing

    /** `add`, behind `AddCluster` and `AddNamespaced` */
    method Add(ref: Ref, m: Manifest, version: VersionText, manual: bool) returns (ok: bool)
      requires Valid()
      modifies this, repr
      ensures Valid() && (model, ok) == Added(old(model), ref, m, version, manual)
      ensures fresh(repr - old(repr))
    {
      var v := VertexOf(ref, m.name);
      if version.NoVersion? {
        var _ := Erase(v);
        return true;
      } else if version.Unparsable? {
        return false;
      }
      Assign(v, Some(version.version), manual);
      ok := AddEdges(v, Targets(ref, m));
    }

    /** The loops of `add` over dependencies and components: each entry becomes one edge. */
    method AddEdges(v: Vertex, ts: seq<Target>) returns (ok: bool)
      requires Valid() && Holds(v) && v.version.Some?
      modifies this, v
      ensures Valid() && (model, ok) == AddTargets(old(model), v.key, ts)
      ensures fresh(repr - old(repr)) && old(repr) <= repr
    {
      for i := 0 to |ts|
        invariant Valid() && Holds(v) && v.version.Some?
        invariant fresh(repr - old(repr)) && old(repr) <= repr
        invariant AddTargets(model, v.key, ts[i..]) == AddTargets(old(model), v.key, ts)
      {
        assert ts[i..][0] == ts[i] && ts[i..][1..] == ts[i + 1..];
        ok := AddTarget(v, ts[i], ts[i..]);
        if !ok { return; }
      }
      ok := true;
    }

    /** One manifest entry becomes one edge. */
    method AddTarget(v: Vertex, t: Target, ghost ts: seq<Target>) returns (ok: bool)
      requires Valid() && Holds(v) && v.version.Some?
      requires ts != [] && ts[0] == t
      modifies this, v
      ensures Valid() && Holds(v) && v.version == old(v.version)
      ensures fresh(repr - old(repr)) && old(repr) <= repr
      ensures if ok then AddTargets(model, v.key, ts[1..]) == AddTargets(old(model), v.key, ts)
              else AddTargets(old(model), v.key, ts) == (model, false)
    {
      var _ := VertexOf(t.ref, t.packageName);
      if t.spec.Malformed? {
        return false;
      }
      Link(v, t.ref, AsConstraint(t.spec));
      ok := true;
    }

    // -------------------------------------------------------------- queries

    /** `Manual` */
    method Manual(name: string, namespace: string) returns (manual: bool)
      requires Valid()
      ensures manual <==> Ref(name, namespace) in model && model[Ref(name, namespace)].manual
    {
      var r := Ref(name, namespace);
      manual := r in vertices && vertices[r].manual;
      assert r in model ==> model[r] == model[r];
    }

    /** `Version` */
    method VersionOf(name: string, namespace: string) returns (version: Option<Version>)
      requires Valid()
      ensures version == if Ref(name, namespace) in model then model[Ref(name, namespace)].version else None
    {
      var r := Ref(name, namespace);
      assert r in model ==> model[r] == model[r];
      version := if r in vertices then vertices[r].version else None;
    }

    /** `Dependencies`, in arbitrary order */
    method Dependencies(name: string, namespace: string) returns (deps: seq<PackageRef>)
      requires Valid()
      ensures forall d :: d in deps ==>
                && Ref(name, namespace) in model && RefOf(d) in model[Ref(name, namespace)].edges
                && RefOf(d) in model && d.packageName == model[RefOf(d)].packageName
      ensures forall r :: (exists d :: d in deps && RefOf(d) == r) <==>
                Ref(name, namespace) in model && r in model[Ref(name, namespace)].edges
      ensures forall i, j :: 0 <= i < j < |deps| ==> RefOf(deps[i]) != RefOf(deps[j])
    {
      var of := Ref(name, namespace);
      if of !in vertices {
        return [];
      }
      assert model[of] == model[of];
      var edges := vertices[of].edges;
      var order := AnyOrder(edges.Keys);
      deps := [];
      for i := 0 to |order|
        invariant |deps| == i
        invariant forall k :: 0 <= k < i ==>
                    && RefOf(deps[k]) in model[of].edges && RefOf(deps[k]) == order[k]
                    && order[k] in model && deps[k].packageName == model[order[k]].packageName
      {
        var r := order[i];
        assert edges[r].vertex == vertices[r] && model[r] == model[r];
        deps := deps + [Labelled(r, edges[r].vertex.packageName)];
      }
      forall r | r in model[of].edges
        ensures exists d :: d in deps && RefOf(d) == r
      {
        var k :| 0 <= k < |order| && order[k] == r;
        assert deps[k] in deps && RefOf(deps[k]) == r;
      }
    }

    /** Reads the edge from q to r of an installed vertex, as the loops over all vertices do. */
    method EdgeOf(q: Ref, r: Ref) returns (dependant: bool, constraint: Option<Constraint>, packageName: string)
      requires Valid() && q in vertices
      ensures dependant <==> DependsOn(model, q, r)
      ensures constraint == if dependant then model[q].edges[r] else None
      ensures packageName == model[q].packageName
    {
      assert model[q] == model[q];
      var v := vertices[q];
      packageName := v.packageName;
      dependant := r in v.edges && v.version.Some?;
      constraint := if dependant then v.edges[r].constraint else None;
    }

    /** `Dependants`, in arbitrary order */
    method Dependants(name: string, namespace: string) returns (dependants: seq<PackageRef>)
      requires Valid()
      ensures forall q :: DependsOn(model, q, Ref(name, namespace)) <==> exists d :: d in dependants && RefOf(d) == q
      ensures LabelledBy(model, dependants) && DistinctRefs(dependants)
    {
      var of := Ref(name, namespace);
      var order := AnyOrder(vertices.Keys);
      dependants := [];
      for i := 0 to |order|
        invariant dependants == DependantsAmong(model, order[..i], of)
      {
        var dependant, _, packageName := EdgeOf(order[i], of);
        assert order[..i + 1][..i] == order[..i];
        if dependant {
          dependants := dependants + [Labelled(order[i], packageName)];
        }
      }
      assert order[..|order|] == order;
      DependantsAmongAll(model, order, of);
      DependantsDistinct(model, order, of);
      forall q | DependsOn(model, q, of)
        ensures Labelled(q, model[q].packageName) in dependants && RefOf(Labelled(q, model[q].packageName)) == q
      {
      }
    }

    /** `Constraints`, in arbitrary order */
    method Constraints(name: string, namespace: string) returns (constraints: seq<Constraint>)
      requires Valid()
      ensures forall c :: c in constraints <==> ConstrainedBy(model, Ref(name, namespace), c)
    {
      var of := Ref(name, namespace);
      var order := AnyOrder(vertices.Keys);
      constraints := [];
      for i := 0 to |order|
        invariant constraints == ConstraintsAmong(model, order[..i], of)
      {
        var dependant, constraint, _ := EdgeOf(order[i], of);
        assert order[..i + 1][..i] == order[..i];
        if dependant && constraint.Some? {
          constraints := constraints + [constraint.value];
        }
      }
      assert order[..|order|] == order;
      ConstraintsAmongAll(model, order, of);
    }

    /** The inner loop of `Max` */
    method Satisfies(of: Ref, version: Version) returns (ok: bool)
      requires Valid()
      ensures ok <==> Acceptable(model, of, version)
    {
      var constraints := Constraints(of.name, of.namespace);
      for j := 0 to |constraints|
        invariant forall k :: 0 <= k < j ==> constraints[k].accepts(version)
      {
        if !constraints[j].accepts(version) {
          assert constraints[j] in constraints;
          return false;
        }
      }
      ok := true;
    }

    /** `Max` */
    method Max(name: string, namespace: string, versions: seq<Version>) returns (best: Option<Version>)
      requires Valid()
      ensures IsMax(model, Ref(name, namespace), versions, best)
    {
      var of := Ref(name, namespace);
      best := None;
      for i := 0 to |versions|
        invariant IsMax(model, of, versions[..i], best)
      {
        ghost var before := best;
        var version := versions[i];
        if best.None? || IsVersionUpgradable(best.value, version) {
          var ok := Satisfies(of, version);
          if ok {
            best := Some(version);
          }
        }
        assert versions[..i + 1] == versions[..i] + [version];
        MaxStep(model, of, versions[..i], version, before, best);
      }
      assert versions[..|versions|] == versions;
    }

    // -------------------------------------------------------------- deleting and pruning

    /** `Delete` */
    method Delete(name: string, namespace: string) returns (deleted: bool)
      requires Valid()
      modifies this, repr
      ensures Valid() && model == GraphModel.Delete(old(model), Ref(name, namespace))
      ensures deleted <==> Ref(name, namespace) in Installed(old(model))
      ensures fresh(repr - old(repr))
    {
      var v := VertexOf(Ref(name, namespace), "");
      deleted := Erase(v);
    }

    /** `Prune`: rounds over all vertices, until a round deletes nothing */
    method Prune() returns (removed: seq<PackageRef>)
      requires Valid()
      modifies `model, repr
      ensures Valid() && model == Pruned(old(model))
      ensures multiset(Refs(removed)) == multiset(Installed(old(model)) - Survivors(old(model)))
      ensures LabelledBy(old(model), removed)
    {
      var stable := false;
      removed := [];
      while !stable
        invariant Valid() && PruneRun(old(model), Refs(removed), model) && LabelledBy(old(model), removed)
        invariant stable ==> forall r :: !Removable(model, r)
        decreases |Installed(model)|, !stable
      {
        stable, removed := PruneRound(removed, old(model));
      }
      PruneConfluent(old(model), Refs(removed), model);
    }

    /** One round of `Prune` */
    method PruneRound(before: seq<PackageRef>, ghost g: Graph) returns (stable: bool, removed: seq<PackageRef>)
      requires Valid() && PruneRun(g, Refs(before), model) && LabelledBy(g, before)
      modifies `model, repr
      ensures Valid() && PruneRun(g, Refs(removed), model) && LabelledBy(g, removed)
      ensures stable ==> model == old(model) && forall r :: !Removable(model, r)
      ensures !stable ==> |Installed(model)| < |Installed(old(model))|
    {
      stable := true;
      removed := before;
      var rest := vertices.Keys;
      while rest != {}
        invariant rest <= vertices.Keys
        invariant Valid() && PruneRun(g, Refs(removed), model) && LabelledBy(g, removed)
        invariant stable ==> model == old(model) && forall r :: Removable(model, r) ==> r in rest
        invariant !stable ==> |Installed(model)| < |Installed(old(model))|
      {
        var r :| r in rest;
        rest := rest - {r};
        ghost var h := model;
        var deleted, packageName := PruneVertex(r);
        if deleted {
          stable := false;
          PrunedOne(g, removed, h, r, packageName);
          removed := removed + [Labelled(r, packageName)];
        }
      }
    }

    /** The loop body of `Prune`; deleting what is not installed changes nothing. */
    method PruneVertex(r: Ref) returns (deleted: bool, packageName: string)
      requires Valid() && r in vertices
      modifies `model, repr
      ensures Valid()
      ensures deleted <==> Removable(old(model), r)
      ensures model == if deleted then Uninstall(old(model), r) else old(model)
      ensures r in old(model) && packageName == old(model)[r].packageName
    {
      deleted := false;
      assert model[r] == model[r];
      var v := vertices[r];
      packageName := v.packageName;
      if !v.manual {
        var dependants := Dependants(r.name, r.namespace);
        if |dependants| == 0 {
          deleted := Erase(v);
          if !deleted {
            UninstallUninstalled(old(model), r);
          }
        } else {
          assert DependsOn(model, RefOf(dependants[0]), r);
        }
      }
    }

    /** `DeleteAndPrune` */
    method DeleteAndPrune(name: string, namespace: string) returns (removed: seq<PackageRef>)
      requires Valid()
      modifies this, repr
      ensures Valid() && model == DeletedAndPruned(old(model), Ref(name, namespace))
      ensures var n := Ref(name, namespace);
              if n in Installed(old(model)) then
                && removed != [] && RefOf(removed[0]) == n
                && multiset(Refs(removed)) == multiset(Installed(old(model)) - Installed(model))
                && LabelledBy(old(model), removed)
              else removed == []
    {
      var n := Ref(name, namespace);
      var v := VertexOf(n, "");
      var packageName := v.packageName;
      TouchWellFormed(old(model), n, "");
      var deleted := Erase(v);
      if deleted {
        var pruned := Prune();
        removed := [Labelled(n, packageName)] + pruned;
        DeletedRefs(old(model), n, packageName, pruned);
        DeletedLabels(old(model), n, packageName, pruned);
      } else {
        UninstallUninstalled(Touch(old(model), n, ""), n);
        removed := [];
      }
    }

    // -------------------------------------------------------------- copying

    /** `DeepCopy` and `deepCopy`; nothing that existed before is written. */
    method DeepCopy() returns (copy: DependencyGraph)
      requires Valid()
      ensures fresh(copy) && fresh(copy.repr)
      ensures copy.Valid() && copy.model == model
    {
      copy := new DependencyGraph();
      var rest := vertices.Keys;
      ghost var done := {};
      while rest != {}
        invariant rest <= vertices.Keys <= rest + done
        invariant fresh(copy) && copy.Valid() && forall v :: v in copy.repr ==> fresh(v)
        invariant CopiedUpTo(model, copy.model, done)
      {
        var r :| r in rest;
        CopyNext(r, copy, done);
        Visited(vertices.Keys, rest, done, r);
        done := done + {r};
        rest := rest - {r};
      }
      CopyComplete(model, copy.model, done);
    }

    /** The loop body of `deepCopy` */
    method CopyNext(r: Ref, copy: DependencyGraph, ghost done: set<Ref>)
      requires Valid() && r in vertices
      requires copy != this && copy.Valid() && CopiedUpTo(model, copy.model, done)
      modifies copy, copy.repr
      ensures copy.Valid() && forall v :: v in copy.repr && v !in old(copy.repr) ==> fresh(v)
      ensures CopiedUpTo(model, copy.model, done + {r})
    {
      var packageName, version, manual, edges := ReadVertex(r);
      copy.CopyIn(r, packageName, version, manual, edges, model, done);
    }

    /** The fields of a vertex; each edge with the label and the constraint found through its pointer. */
    method ReadVertex(q: Ref)
      returns (packageName: string, version: Option<Version>, manual: bool, edges: map<Ref, (string, Option<Constraint>)>)
      requires Valid() && q in vertices
      ensures packageName == model[q].packageName && version == model[q].version && manual == model[q].manual
      ensures edges.Keys == model[q].edges.Keys
      ensures forall e :: e in edges ==> e in model && edges[e] == (model[e].packageName, model[q].edges[e])
    {
      assert model[q] == model[q];
      var v := vertices[q];
      packageName, version, manual := v.packageName, v.version, v.manual;
      forall e | e in v.edges
        ensures v.edges[e].vertex == vertices[e] && e in model && vertices[e].packageName == model[e].packageName
      {
        assert model[e] == model[e];
      }
      edges := map e | e in v.edges :: (v.edges[e].vertex.packageName, v.edges[e].constraint);
    }

    /** In the copy: the vertex r with its fields and its edges. */
    method CopyIn(r: Ref, packageName: string, version: Option<Version>, manual: bool,
                  edges: map<Ref, (string, Option<Constraint>)>, ghost g: Graph, ghost done: set<Ref>)
      requires Valid() && CopiedUpTo(g, model, done) && r in g && WellFormed(g)
      requires packageName == g[r].packageName && version == g[r].version && manual == g[r].manual
      requires edges.Keys == g[r].edges.Keys
      requires forall e :: e in edges ==> e in g && edges[e] == (g[e].packageName, g[r].edges[e])
      modifies this, repr
      ensures Valid() && fresh(repr - old(repr))
      ensures CopiedUpTo(g, model, done + {r})
    {
      var w := CopyVertex(r, packageName, version, manual, g, done);
      CopyEdges(w, edges, g, done);
    }

    /** In the copy: the vertex r with its fields and no edges. */
    method CopyVertex(r: Ref, packageName: string, version: Option<Version>, manual: bool, ghost g: Graph, ghost done: set<Ref>)
      returns (w: Vertex)
      requires Valid() && CopiedUpTo(g, model, done) && r in g
      requires packageName == g[r].packageName && version == g[r].version && manual == g[r].manual
      requires WellFormed(g)
      modifies this, repr
      ensures Valid() && fresh(repr - old(repr)) && old(repr) <= repr
      ensures Holds(w) && w in repr && w.key == r && w.version == version
      ensures CopiedBut(g, model, done, r, {})
    {
      CopyFields(g, model, done, r);
      assert NodeFits(g.Keys, g[r]);
      w := VertexOf(r, packageName);
      Assign(w, version, manual);
    }

    /** In the copy: the edges of w. */
    method CopyEdges(w: Vertex, edges: map<Ref, (string, Option<Constraint>)>, ghost g: Graph, ghost done: set<Ref>)
      requires Valid() && Holds(w) && WellFormed(g)
      requires CopiedBut(g, model, done, w.key, {})
      requires edges.Keys == g[w.key].edges.Keys && w.version == g[w.key].version
      requires forall e :: e in edges ==> e in g && edges[e] == (g[e].packageName, g[w.key].edges[e])
      modifies this, w
      ensures Valid() && fresh(repr - old(repr)) && old(repr) <= repr
      ensures CopiedUpTo(g, model, done + {w.key})
    {
      assert NodeFits(g.Keys, g[w.key]);
      var rest := edges.Keys;
      ghost var visited := {};
      while rest != {}
        invariant rest <= edges.Keys <= rest + visited
        invariant Valid() && Holds(w) && w.version == old(w.version)
        invariant fresh(repr - old(repr)) && old(repr) <= repr
        invariant CopiedBut(g, model, done, w.key, visited)
      {
        var e :| e in rest;
        CopyEdge(w, e, edges[e].0, edges[e].1, g, done, visited);
        Visited(edges.Keys, rest, visited, e);
        visited := visited + {e};
        rest := rest - {e};
      }
      CopyDone(g, model, done, w.key, visited);
    }

    method CopyEdge(w: Vertex, e: Ref, packageName: string, constraint: Option<Constraint>,
                    ghost g: Graph, ghost done: set<Ref>, ghost visited: set<Ref>)
      requires Valid() && Holds(w) && w.version.Some?
      requires CopiedBut(g, model, done, w.key, visited)
      requires e in g && e in g[w.key].edges && packageName == g[e].packageName && constraint == g[w.key].edges[e]
      modifies this, w
      ensures Valid() && Holds(w) && w.version == old(w.version)
      ensures fresh(repr - old(repr)) && old(repr) <= repr
      ensures CopiedBut(g, model, done, w.key, visited + {e})
    {
      ConnectCopiedEdge(g, model, done, w.key, visited, e);
      var _ := VertexOf(e, packageName);
      Link(w, e, constraint);
    }

    // -------------------------------------------------------------- validating

    /** `Validate` */
    method Validate() returns (errors: seq<DependencyError>)
      requires Valid()
      ensures forall e :: e in errors <==> exists q, r :: Broken(model, q, r) && e == ErrorFor(model, q, r)
      ensures forall e :: e in errors ==>
                var q, r := Ref(e.package.name, e.package.namespace), Ref(e.dependency.name, e.dependency.namespace);
                && q in model && r in model && r in model[q].edges
                && e.package.packageName == model[q].packageName && e.dependency.packageName == model[r].packageName
                && match model[r].version
                   case None => e.cause == NotInstalled
                   case Some(v) =>
                     && model[q].edges[r].Some? && !model[q].edges[r].value.accepts(v)
                     && e.cause == Violated(v, model[q].edges[r].value)
      ensures forall q, r :: q in model && r in model && r in model[q].edges ==>
                (model[r].version.None? ||
                 (model[q].edges[r].Some? && !model[q].edges[r].value.accepts(model[r].version.value))) ==>
                  exists e :: e in errors && Ref(e.package.name, e.package.namespace) == q &&
                              Ref(e.dependency.name, e.dependency.namespace) == r
    {
      var rest := vertices.Keys;
      errors := [];
      while rest != {}
        invariant rest <= vertices.Keys
        invariant forall e :: e in errors ==> exists q, r :: Broken(model, q, r) && e == ErrorFor(model, q, r)
        invariant forall q, r :: Broken(model, q, r) && q !in rest ==> ErrorFor(model, q, r) in errors
      {
        var q :| q in rest;
        rest := rest - {q};
        var more := ValidateVertex(q);
        errors := errors + more;
      }
      ErrorFields(model, errors);
    }

    method ValidateVertex(q: Ref) returns (errors: seq<DependencyError>)
      requires Valid() && q in vertices
      ensures forall e :: e in errors <==> exists r :: Broken(model, q, r) && e == ErrorFor(model, q, r)
    {
      assert model[q] == model[q];
      var v := vertices[q];
      var edges := v.edges;
      var order := AnyOrder(edges.Keys);
      errors := [];
      for i := 0 to |order|
        invariant errors == ErrorsAmong(model, q, order[..i])
      {
        var r := order[i];
        assert model[r] == model[r];
        assert order[..i + 1][..i] == order[..i];
        var target := edges[r].vertex;
        var from, to := Labelled(q, v.packageName), Labelled(r, target.packageName);
        if target.version.None? {
          errors := errors + [DependencyError(from, to, NotInstalled)];
        } else if edges[r].constraint.Some? {
          if !edges[r].constraint.value.accepts(target.version.value) {
            errors := errors + [DependencyError(from, to, Violated(target.version.value, edges[r].constraint.value))];
          }
        }
      }
      assert order[..|order|] == order;
      ErrorsAmongAll(model, q, order);
    }

    /** `ValidateDelete`: speculative deletion on a copy; this graph is not modified. */
    method ValidateDelete(name: string, namespace: string)
      returns (removed: seq<PackageRef>, errors: seq<DependencyError>)
      requires Valid()
      ensures errors == [] <==> Sound(DeletedAndPruned(model, Ref(name, namespace)))
      ensures var h := DeletedAndPruned(model, Ref(name, namespace));
              forall e :: e in errors <==> exists q, r :: Broken(h, q, r) && e == ErrorFor(h, q, r)
      ensures Ref(name, namespace) in Installed(model) ==>
                LabelledBy(model, removed) &&
                multiset(Refs(removed)) ==
                multiset(Installed(model) - Installed(DeletedAndPruned(model, Ref(name, namespace))))
      ensures Ref(name, namespace) !in Installed(model) ==> removed == []
    {
      var copy := DeepCopy();
      removed := copy.DeleteAndPrune(name, namespace);
      errors := copy.Validate();
      if errors != [] {
        assert errors[0] in errors;
      }
      assert forall q, r :: Broken(copy.model, q, r) ==> ErrorFor(copy.model, q, r) in errors;
    }
  }
}
