/**
 What `add` of `internal/dependency/graph/graph.go` does to the graph value: a package is set to a
 version and its edges are rebuilt from the manifest, dependencies first, then components.
 */
module Installation {
  import opened Wrappers
  import opened Semver
  import opened GraphModel

  /** The version field of a dependency or component: empty, unparsable, or a constraint. */
  datatype VersionSpec = AnyVersion | Malformed | Constrained(constraint: Constraint)

  datatype Dependency = Dependency(name: string, version: VersionSpec)

  datatype Component = Component(name: string, installedName: string, version: VersionSpec)

  datatype Manifest = Manifest(
    name: string,
    defaultNamespace: string,
    dependencies: seq<Dependency>,
    components: seq<Component>)

  /** The version argument of `add`: empty (not installed), unparsable, or a version. */
  datatype VersionText = NoVersion | Unparsable | Parsed(version: Version)

  /** Some dependency or component has a version that does not parse. */
  ghost predicate IsMalformed(m: Manifest) {
    (exists d :: d in m.dependencies && d.version.Malformed?) || (exists c :: c in m.components && c.version.Malformed?)
  }

  /** What one manifest entry asks for: the vertex, the label it gets if new, and the constraint. */
  datatype Target = Target(ref: Ref, packageName: string, spec: VersionSpec)

  function ComponentName(parent: string, c: Component): string {
    if c.installedName != "" then parent + "-" + c.installedName else parent + "-" + c.name
  }

  function DependencyTarget(d: Dependency): Target {
    Target(Ref(d.name, ""), d.name, d.version)
  }

  /** Components of a cluster package live in its default namespace, others beside their parent. */
  function ComponentTarget(ref: Ref, m: Manifest, c: Component): Target {
    var namespace := if ref.namespace == "" then m.defaultNamespace else ref.namespace;
    Target(Ref(ComponentName(ref.name, c), namespace), c.name, c.version)
  }

  function Targets(ref: Ref, m: Manifest): seq<Target> {
    seq(|m.dependencies|, i requires 0 <= i < |m.dependencies| => DependencyTarget(m.dependencies[i])) +
    seq(|m.components|, i requires 0 <= i < |m.components| => ComponentTarget(ref, m, m.components[i]))
  }

  function AsConstraint(s: VersionSpec): Option<Constraint> {
    if s.Constrained? then Some(s.constraint) else None
  }

  /** Adds the edges of q in order; stops with an error at the first malformed constraint. */
  function AddTargets(g: Graph, q: Ref, ts: seq<Target>): (r: (Graph, bool))
    requires q in g
    ensures q in r.0
    decreases |ts|
  {
    if ts == [] then (g, true)
    else
      var h := Touch(g, ts[0].ref, ts[0].packageName);
      if ts[0].spec.Malformed? then (h, false)
      else AddTargets(Connect(h, q, ts[0].ref, AsConstraint(ts[0].spec)), q, ts[1..])
  }

  /** `add`: the new graph, and whether there was no error. */
  function Added(g: Graph, ref: Ref, m: Manifest, version: VersionText, manual: bool): (Graph, bool) {
    var h := Touch(g, ref, m.name);
    match version
    case NoVersion => (Uninstall(h, ref), true)
    case Unparsable => (h, false)
    case Parsed(v) =>
      AddTargets(h[ref := Node(h[ref].packageName, Some(v), manual, map[])], ref, Targets(ref, m))
  }
}
