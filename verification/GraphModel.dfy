/**
 The dependency graph of `internal/dependency/graph/graph.go` as a value: what the heap graph of
 class `GraphHeap.DependencyGraph` means.  A vertex whose version is absent stands for a package that is not
 installed; it is kept because other vertices may still have edges to it.
 */
module GraphModel {
  import opened Wrappers
  import opened Semver

  /** `vertexRef`: cluster packages have the empty namespace. */
  datatype Ref = Ref(name: string, namespace: string)

  /** A version constraint: its text and which versions the semver library accepts for it. */
  datatype Constraint = Constraint(text: string, accepts: Version -> bool)

  datatype Node = Node(
    packageName: string,
    version: Option<Version>,
    manual: bool,
    edges: map<Ref, Option<Constraint>>)

  type Graph = map<Ref, Node>

  function Uninstalled(packageName: string): Node {
    Node(packageName, None, false, map[])
  }

  /** Edges stay among the keys, and a node without version has no edges and is not manual. */
  ghost predicate NodeFits(keys: set<Ref>, n: Node) {
    && n.edges.Keys <= keys
    && (n.version.None? ==> n == Uninstalled(n.packageName))
  }

  ghost predicate WellFormed(g: Graph) {
    forall q :: q in g ==> NodeFits(g.Keys, g[q])
  }

  ghost function Installed(g: Graph): set<Ref> {
    set r | r in g && g[r].version.Some?
  }

  /** The installed vertex q has an edge to r. */
  ghost predicate DependsOn(g: Graph, q: Ref, r: Ref) {
    q in Installed(g) && r in g[q].edges
  }

  // ---------------------------------------------------------------- updates

  /** `vertexMap.vertex`: the vertex of a key, created when missing. */
  function Touch(g: Graph, r: Ref, packageName: string): Graph {
    if r in g then g else g[r := Uninstalled(packageName)]
  }

  /** `vertexMap.edge` */
  function Connect(g: Graph, q: Ref, r: Ref, c: Option<Constraint>): Graph
    requires q in g
  {
    var h := Touch(g, r, "");
    h[q := h[q].(edges := h[q].edges[r := c])]
  }

  /** `delete` on a vertex of the graph */
  function Uninstall(g: Graph, r: Ref): Graph
    requires r in g
  {
    g[r := Uninstalled(g[r].packageName)]
  }

  /** `Delete` */
  function Delete(g: Graph, r: Ref): Graph {
    Uninstall(Touch(g, r, ""), r)
  }

  lemma UpdateWellFormed(g: Graph, q: Ref, n: Node)
    requires WellFormed(g) && NodeFits(g.Keys, n)
    ensures WellFormed(g[q := n])
  {
    var h := g[q := n];
    forall a | a in h
      ensures NodeFits(h.Keys, h[a])
    {
      assert g.Keys <= h.Keys;
    }
  }

  lemma TouchWellFormed(g: Graph, r: Ref, packageName: string)
    requires WellFormed(g)
    ensures WellFormed(Touch(g, r, packageName))
  {
    UpdateWellFormed(g, r, Uninstalled(packageName));
  }

  lemma ConnectWellFormed(g: Graph, q: Ref, r: Ref, c: Option<Constraint>)
    requires WellFormed(g) && q in Installed(g)
    ensures WellFormed(Connect(g, q, r, c))
  {
    TouchWellFormed(g, r, "");
    var h := Touch(g, r, "");
    assert NodeFits(h.Keys, h[q]);
    UpdateWellFormed(h, q, h[q].(edges := h[q].edges[r := c]));
  }

  // ---------------------------------------------------------------- validation

  /** `Validate` reports the edge from q to r: its target is missing, or violates the constraint. */
  ghost predicate Broken(g: Graph, q: Ref, r: Ref) {
    && q in g && r in g[q].edges && r in g
    && (g[r].version.None? ||
        (g[q].edges[r].Some? && !g[q].edges[r].value.accepts(g[r].version.value)))
  }

  ghost predicate Sound(g: Graph) {
    forall q, r :: !Broken(g, q, r)
  }

  // ---------------------------------------------------------------- survivors of pruning

  /** Every member is installed, and is manual or has a dependant among the members. */
  ghost predicate Supported(g: Graph, s: set<Ref>) {
    && s <= Installed(g)
    && forall r :: r in s ==> g[r].manual || exists q :: q in s && DependsOn(g, q, r)
  }

  /** The union of all supported sets. */
  ghost function Survivors(g: Graph): set<Ref> {
    set r | r in Installed(g) && exists s: set<Ref> :: Supported(g, s) && r in s
  }

  /** Everything outside s is uninstalled. */
  ghost function KeepOnly(g: Graph, s: set<Ref>): Graph {
    map r | r in g :: if r in s then g[r] else Uninstalled(g[r].packageName)
  }

  ghost function Pruned(g: Graph): Graph {
    KeepOnly(g, Survivors(g))
  }

  /** `Prune` may uninstall r now. */
  ghost predicate Removable(g: Graph, r: Ref) {
    r in Installed(g) && !g[r].manual && forall q :: !DependsOn(g, q, r)
  }

  lemma SurvivorsAreGreatest(g: Graph)
    ensures Supported(g, Survivors(g))
    ensures forall s :: Supported(g, s) ==> s <= Survivors(g)
  {
    var all := Survivors(g);
    forall r | r in all
      ensures g[r].manual || exists q :: q in all && DependsOn(g, q, r)
    {
      var s: set<Ref> :| Supported(g, s) && r in s;
      assert s <= all;
    }
  }

  lemma SameSupported(g: Graph, h: Graph)
    requires forall s :: Supported(g, s) <==> Supported(h, s)
    ensures Survivors(g) == Survivors(h)
  {
    SurvivorsAreGreatest(g);
    SurvivorsAreGreatest(h);
  }

  lemma SupportedSkipsRemovable(g: Graph, r: Ref, s: set<Ref>)
    requires Removable(g, r) && Supported(g, s)
    ensures r !in s
  {
  }

  /** Sets without r are supported in g and in g with r uninstalled alike. */
  lemma SupportedWithout(g: Graph, r: Ref, s: set<Ref>)
    requires r in g && r !in s
    ensures Supported(g, s) <==> Supported(Uninstall(g, r), s)
  {
    var h := Uninstall(g, r);
    assert forall q, x :: q in s ==> (DependsOn(g, q, x) <==> DependsOn(h, q, x));
    assert forall x :: x in s && x in g ==> h[x] == g[x];
  }

  lemma KeepUninstalled(g: Graph, r: Ref, s: set<Ref>)
    requires r in g && r !in s
    ensures KeepOnly(Uninstall(g, r), s) == KeepOnly(g, s)
    ensures Installed(Uninstall(g, r)) == Installed(g) - {r}
  {
  }

  /** Uninstalling a removable vertex changes neither the survivors nor the pruned graph. */
  lemma PruneStep(g: Graph, r: Ref)
    requires Removable(g, r)
    ensures Pruned(Uninstall(g, r)) == Pruned(g)
    ensures Survivors(Uninstall(g, r)) == Survivors(g)
    ensures Installed(Uninstall(g, r)) == Installed(g) - {r}
    ensures r !in Survivors(g)
  {
    var h := Uninstall(g, r);
    SurvivorsAreGreatest(g);
    SupportedSkipsRemovable(g, r, Survivors(g));
    forall s
      ensures Supported(g, s) <==> Supported(h, s)
    {
      if r in s {
        if Supported(g, s) { SupportedSkipsRemovable(g, r, s); }
      } else {
        SupportedWithout(g, r, s);
      }
    }
    SameSupported(g, h);
    KeepUninstalled(g, r, Survivors(g));
  }

  /** When nothing is removable any more, the graph is its own pruning. */
  lemma NothingRemovable(g: Graph)
    requires WellFormed(g)
    requires forall r :: !Removable(g, r)
    ensures Survivors(g) == Installed(g) && Pruned(g) == g
  {
    forall r | r in Installed(g)
      ensures g[r].manual || exists q :: q in Installed(g) && DependsOn(g, q, r)
    {
      if !g[r].manual {
        assert !Removable(g, r);
        var q :| DependsOn(g, q, r);
        assert DependsOn(g, q, r);
      }
    }
    assert Supported(g, Installed(g));
    SurvivorsAreGreatest(g);
  }

  /** Whatever removable vertices are uninstalled, in any order, until none is left: the result is Pruned. */
  ghost predicate PruneRun(g: Graph, order: seq<Ref>, h: Graph)
    decreases |order|
  {
    if order == [] then h == g
    else Removable(g, order[0]) && PruneRun(Uninstall(g, order[0]), order[1..], h)
  }

  lemma UninstallWellFormed(g: Graph, r: Ref)
    requires WellFormed(g) && r in g
    ensures WellFormed(Uninstall(g, r))
  {
  }

  lemma MultisetOfInsert(s: set<Ref>, r: Ref)
    requires r !in s
    ensures multiset(s + {r}) == multiset(s) + multiset{r}
  {
  }

  /** A run lists each vertex it uninstalls once. */
  lemma {:induction false} PruneRunRemoves(g: Graph, order: seq<Ref>, h: Graph)
    requires PruneRun(g, order, h)
    ensures Installed(h) <= Installed(g)
    ensures multiset(order) == multiset(Installed(g) - Installed(h))
    decreases |order|
  {
    if order != [] {
      var r := order[0];
      var g1 := Uninstall(g, r);
      KeepUninstalled(g, r, {});
      PruneRunRemoves(g1, order[1..], h);
      assert order == [r] + order[1..];
      MultisetOfInsert(Installed(g1) - Installed(h), r);
      InsertBack(Installed(g), Installed(h), r);
    }
  }

  lemma InsertBack(s: set<Ref>, t: set<Ref>, r: Ref)
    requires r in s && r !in t
    ensures (s - {r} - t) + {r} == s - t
  {
  }

  lemma {:induction false} PruneRunPruned(g: Graph, order: seq<Ref>, h: Graph)
    requires WellFormed(g) && PruneRun(g, order, h)
    ensures WellFormed(h) && Pruned(h) == Pruned(g) && Survivors(h) == Survivors(g)
    decreases |order|
  {
    if order != [] {
      PruneStep(g, order[0]);
      UninstallWellFormed(g, order[0]);
      PruneRunPruned(Uninstall(g, order[0]), order[1..], h);
    }
  }

  /** Confluence: every complete run ends in the pruned graph, having removed all non-survivors. */
  lemma PruneConfluent(g: Graph, order: seq<Ref>, h: Graph)
    requires WellFormed(g) && PruneRun(g, order, h)
    requires forall r :: !Removable(h, r)
    ensures h == Pruned(g)
    ensures multiset(order) == multiset(Installed(g) - Survivors(g))
  {
    PruneRunPruned(g, order, h);
    PruneRunRemoves(g, order, h);
    NothingRemovable(h);
  }

  /** Pruning keeps the vertices and their labels. */
  lemma {:induction false} PruneRunLabels(g: Graph, order: seq<Ref>, h: Graph)
    requires PruneRun(g, order, h)
    ensures h.Keys == g.Keys && forall r :: r in g ==> h[r].packageName == g[r].packageName
    decreases |order|
  {
    if order != [] {
      PruneRunLabels(Uninstall(g, order[0]), order[1..], h);
    }
  }

  lemma {:induction false} PruneRunAppend(g: Graph, order: seq<Ref>, h: Graph, r: Ref)
    requires PruneRun(g, order, h) && Removable(h, r)
    ensures PruneRun(g, order + [r], Uninstall(h, r))
    decreases |order|
  {
    if order == [] {
      assert (order + [r])[1..] == [];
    } else {
      PruneRunAppend(Uninstall(g, order[0]), order[1..], h, r);
      assert (order + [r])[1..] == order[1..] + [r];
    }
  }

  lemma UninstallUninstalled(g: Graph, r: Ref)
    requires WellFormed(g) && r in g && r !in Installed(g)
    ensures Uninstall(g, r) == g
  {
    assert NodeFits(g.Keys, g[r]);
  }

  lemma PruneTakes(g: Graph, order: seq<Ref>, h: Graph, r: Ref)
    requires PruneRun(g, order, h) && Removable(h, r)
    ensures PruneRun(g, order + [r], Uninstall(h, r))
    ensures |Installed(Uninstall(h, r))| < |Installed(h)|
  {
    PruneRunAppend(g, order, h, r);
    PruneStep(h, r);
    StrictSubsetSmaller(Installed(h) - {r}, Installed(h));
  }

  lemma PrunedInstalled(g: Graph)
    ensures Installed(Pruned(g)) == Survivors(g)
    ensures Pruned(g).Keys == g.Keys
  {
    SurvivorsAreGreatest(g);
  }

  // ---------------------------------------------------------------- survivors are what roots reach

  /** A nonempty path along edges of installed vertices. */
  ghost predicate IsPath(g: Graph, p: seq<Ref>) {
    && p != []
    && (forall i :: 0 <= i < |p| ==> p[i] in Installed(g))
    && (forall i :: 0 <= i < |p| - 1 ==> DependsOn(g, p[i], p[i + 1]))
  }

  ghost predicate OnCycle(g: Graph, r: Ref) {
    exists p :: IsPath(g, p) && |p| > 1 && p[0] == r && p[|p| - 1] == r
  }

  /** Kept whatever else is pruned: installed by a user, or on a dependency cycle. */
  ghost predicate Anchored(g: Graph, r: Ref) {
    r in Installed(g) && (g[r].manual || OnCycle(g, r))
  }

  ghost predicate ReachedFromAnchor(g: Graph, r: Ref) {
    exists p :: IsPath(g, p) && Anchored(g, p[0]) && p[|p| - 1] == r
  }

  lemma ReachedIsSupported(g: Graph)
    ensures Supported(g, set r | r in Installed(g) && ReachedFromAnchor(g, r))
  {
    var s := set r | r in Installed(g) && ReachedFromAnchor(g, r);
    forall r | r in s
      ensures g[r].manual || exists q :: q in s && DependsOn(g, q, r)
    {
      var p :| IsPath(g, p) && Anchored(g, p[0]) && p[|p| - 1] == r;
      if |p| > 1 {
        var front := p[..|p| - 1];
        assert IsPath(g, front);
        var q := p[|p| - 2];
        assert front[|front| - 1] == q;
        assert q in s && DependsOn(g, q, r);
      } else if !g[r].manual {
        var c :| IsPath(g, c) && |c| > 1 && c[0] == r && c[|c| - 1] == r;
        var front := c[..|c| - 1];
        assert IsPath(g, front) && Anchored(g, front[0]);
        var q := c[|c| - 2];
        assert front[|front| - 1] == q;
        assert q in s && DependsOn(g, q, r);
      }
    }
  }

  ghost function PathElements(p: seq<Ref>): set<Ref> {
    set i | 0 <= i < |p| :: p[i]
  }

  lemma CycleThrough(g: Graph, q: Ref, p: seq<Ref>, i: nat)
    requires IsPath(g, p) && i < |p| && p[i] == q && DependsOn(g, q, p[0])
    ensures OnCycle(g, q) && ReachedFromAnchor(g, p[|p| - 1])
  {
    var cycle := [q] + p[..i + 1];
    assert IsPath(g, cycle) && cycle[0] == q && cycle[|cycle| - 1] == q;
    assert IsPath(g, p[i..]) && Anchored(g, p[i..][0]);
  }

  /** From the head of a path of survivors, dependants lead back to an anchor. */
  lemma {:induction false} WalkBack(g: Graph, p: seq<Ref>)
    requires IsPath(g, p) && PathElements(p) <= Survivors(g)
    ensures ReachedFromAnchor(g, p[|p| - 1])
    decreases |Survivors(g) - PathElements(p)|
  {
    var s := Survivors(g);
    SurvivorsAreGreatest(g);
    var head := p[0];
    assert head in PathElements(p);
    if g[head].manual {
      assert Anchored(g, p[0]);
    } else {
      var q :| q in s && DependsOn(g, q, head);
      if q in PathElements(p) {
        var i :| 0 <= i < |p| && p[i] == q;
        CycleThrough(g, q, p, i);
      } else {
        var longer := [q] + p;
        assert IsPath(g, longer);
        PathElementsCons(q, p);
        assert s - PathElements(longer) < s - PathElements(p) by {
          assert q in s - PathElements(p) && q !in s - PathElements(longer);
        }
        StrictSubsetSmaller(s - PathElements(longer), s - PathElements(p));
        WalkBack(g, longer);
        assert longer[|longer| - 1] == p[|p| - 1];
      }
    }
  }

  lemma PathElementsCons(q: Ref, p: seq<Ref>)
    ensures PathElements([q] + p) == {q} + PathElements(p)
  {
    var longer := [q] + p;
    assert forall j :: 0 <= j < |p| ==> longer[j + 1] == p[j];
    assert longer[0] == q;
  }

  lemma StrictSubsetSmaller(a: set<Ref>, b: set<Ref>)
    requires a < b
    ensures |a| < |b|
  {
    var x :| x in b && x !in a;
    assert b == a + (b - a) && x in b - a;
    assert |b| == |a| + |b - a|;
  }

  /** What survives pruning is exactly what manual packages and dependency cycles reach. */
  lemma SurvivorsAreReached(g: Graph, r: Ref)
    ensures r in Survivors(g) <==> ReachedFromAnchor(g, r)
  {
    SurvivorsAreGreatest(g);
    if r in Survivors(g) {
      PathElementsCons(r, []);
      assert [r] + [] == [r] && PathElements([]) == {};
      assert IsPath(g, [r]);
      WalkBack(g, [r]);
    }
    if ReachedFromAnchor(g, r) {
      ReachedIsSupported(g);
      var p :| IsPath(g, p) && Anchored(g, p[0]) && p[|p| - 1] == r;
      assert r in Installed(g);
    }
  }

  /** On an acyclic graph: exactly what manual packages reach. */
  lemma SurvivorsAcyclic(g: Graph, r: Ref)
    requires forall q :: !OnCycle(g, q)
    ensures r in Survivors(g) <==>
            exists p :: IsPath(g, p) && g[p[0]].manual && p[|p| - 1] == r
  {
    SurvivorsAreReached(g, r);
    if r in Survivors(g) {
      var p :| IsPath(g, p) && Anchored(g, p[0]) && p[|p| - 1] == r;
      assert g[p[0]].manual;
    }
    if exists p :: IsPath(g, p) && g[p[0]].manual && p[|p| - 1] == r {
      var p :| IsPath(g, p) && g[p[0]].manual && p[|p| - 1] == r;
      assert Anchored(g, p[0]);
    }
  }

  // ---------------------------------------------------------------- pruning and validation

  /** What a survivor depends on, and is installed, survives too. */
  lemma SurvivorsClosed(g: Graph, q: Ref, r: Ref)
    requires q in Survivors(g) && DependsOn(g, q, r) && r in Installed(g)
    ensures r in Survivors(g)
  {
    SurvivorsAreGreatest(g);
    var s := Survivors(g) + {r};
    forall x | x in s
      ensures g[x].manual || exists p :: p in s && DependsOn(g, p, x)
    {
      if x != r && !g[x].manual {
        var p :| p in Survivors(g) && DependsOn(g, p, x);
        assert p in s;
      } else if x == r {
        assert q in s && DependsOn(g, q, r);
      }
    }
    assert Supported(g, s);
  }

  /** Pruning repairs nothing in what stays and breaks nothing: the broken edges are those whose source stays. */
  lemma PruneBreaksNothing(g: Graph, q: Ref, r: Ref)
    requires WellFormed(g)
    ensures Broken(Pruned(g), q, r) <==> Broken(g, q, r) && q in Survivors(g)
  {
    SurvivorsAreGreatest(g);
    if q in Survivors(g) && r in g[q].edges && r in Installed(g) {
      SurvivorsClosed(g, q, r);
    }
  }

  lemma PrunedWellFormed(g: Graph)
    requires WellFormed(g)
    ensures WellFormed(Pruned(g))
    ensures Survivors(Pruned(g)) == Survivors(g)
    ensures Pruned(Pruned(g)) == Pruned(g)
  {
    var h := Pruned(g);
    SurvivorsAreGreatest(g);
    SurvivorsAreGreatest(h);
    PrunedInstalled(g);
    forall r | r in Survivors(g)
      ensures h[r].manual || exists q :: q in Survivors(g) && DependsOn(h, q, r)
    {
      if !g[r].manual {
        var q :| q in Survivors(g) && DependsOn(g, q, r);
        assert DependsOn(h, q, r);
      }
    }
    assert Supported(h, Survivors(g));
  }

  // ---------------------------------------------------------------- deletion

  /** `DeleteAndPrune`: nothing is pruned when the vertex was not installed. */
  ghost function DeletedAndPruned(g: Graph, n: Ref): Graph {
    if n in Installed(g) then Pruned(Delete(g, n)) else Touch(g, n, "")
  }

  /** On a sound graph, deleting an installed n leaves a sound graph iff no dependant of n survives. */
  lemma DeleteAcceptedIffNoDependantSurvives(g: Graph, n: Ref)
    requires WellFormed(g) && Sound(g) && n in Installed(g)
    ensures Sound(DeletedAndPruned(g, n)) <==>
            forall q :: q in Survivors(Delete(g, n)) ==> n !in g[q].edges
  {
    var h := Delete(g, n);
    UninstallWellFormed(g, n);
    SurvivorsAreGreatest(h);
    forall q, r
      ensures Broken(h, q, r) <==> q in h && q != n && r == n && n in g[q].edges
    {
      assert !Broken(g, q, r);
    }
    forall q, r
      ensures Broken(Pruned(h), q, r) <==> Broken(h, q, r) && q in Survivors(h)
    {
      PruneBreaksNothing(h, q, r);
    }
    if q :| q in Survivors(h) && n in g[q].edges {
      assert Broken(Pruned(h), q, n);
    }
  }

  /** Deleting what is not installed prunes nothing: the verdict is that of the graph as it is. */
  lemma DeleteOfUninstalled(g: Graph, n: Ref)
    requires WellFormed(g) && n !in Installed(g)
    ensures Sound(DeletedAndPruned(g, n)) <==> Sound(g)
    ensures Installed(DeletedAndPruned(g, n)) == Installed(g)
  {
    var h := Touch(g, n, "");
    forall q, r
      ensures Broken(h, q, r) <==> Broken(g, q, r)
    {
    }
  }

  // ---------------------------------------------------------------- choosing a version

  /** The constraint c is on an edge from an installed vertex to r. */
  ghost predicate ConstrainedBy(g: Graph, r: Ref, c: Constraint) {
    exists q :: DependsOn(g, q, r) && g[q].edges[r] == Some(c)
  }

  /** v satisfies the constraints of all dependants of r. */
  ghost predicate Acceptable(g: Graph, r: Ref, v: Version) {
    forall c :: ConstrainedBy(g, r, c) ==> c.accepts(v)
  }

  /** A version is acceptable when the edges that lead to r from installed vertices all allow it. */
  lemma AcceptableIff(g: Graph, r: Ref, v: Version)
    ensures Acceptable(g, r, v) <==>
            forall q :: q in g && g[q].version.Some? && r in g[q].edges && g[q].edges[r].Some? ==>
              g[q].edges[r].value.accepts(v)
  {
    forall q | q in g && g[q].version.Some? && r in g[q].edges && g[q].edges[r].Some?
      ensures ConstrainedBy(g, r, g[q].edges[r].value)
    {
      assert DependsOn(g, q, r);
    }
  }

  /** What `Max` promises: a greatest acceptable version, or none when there is none. */
  ghost predicate IsMax(g: Graph, r: Ref, versions: seq<Version>, best: Option<Version>) {
    && (best.None? ==> forall v :: v in versions ==> !Acceptable(g, r, v))
    && (best.Some? ==>
          && best.value in versions && Acceptable(g, r, best.value)
          && (forall v :: v in versions && Acceptable(g, r, v) ==> Compare(v, best.value) <= 0)
          && (NoClash(g, r, versions) ==>
                forall v :: v in versions && Acceptable(g, r, v) ==> !IsVersionUpgradable(best.value, v)))
  }

  ghost predicate NoClash(g: Graph, r: Ref, versions: seq<Version>) {
    forall v, w :: v in versions && w in versions && Acceptable(g, r, v) && Acceptable(g, r, w) ==> !Clash(v, w)
  }

  /** One more candidate: it replaces the best so far when it upgrades it and is acceptable. */
  lemma MaxStep(g: Graph, r: Ref, seen: seq<Version>, v: Version, before: Option<Version>, best: Option<Version>)
    requires IsMax(g, r, seen, before)
    requires best == if (before.None? || IsVersionUpgradable(before.value, v)) && Acceptable(g, r, v) then Some(v) else before
    ensures IsMax(g, r, seen + [v], best)
  {
    var all := seen + [v];
    assert forall w :: w in all <==> w in seen || w == v;
    if best.Some? {
      forall w | w in all && Acceptable(g, r, w)
        ensures Compare(w, best.value) <= 0
        ensures NoClash(g, r, all) ==> !IsVersionUpgradable(best.value, w)
      {
        UpgradeRefinesPrecedence(best.value, best.value);
        CompareTotalPreorder(best.value, best.value, best.value);
        if before.Some? {
          CompareTotalPreorder(w, before.value, v);
          CompareTotalPreorder(v, before.value, w);
          UpgradeRefinesPrecedence(before.value, v);
          MutualUpgradeIffClash(before.value, v);
          if NoClash(g, r, all) {
            assert NoClash(g, r, seen);
            NotLessTransitive(best.value, before.value, w);
          }
        }
      }
    }
  }
}
