/**
 A request on which the map order of `internal/dependency/manager.go` decides.  An application needs a and b,
 both need x, and only b minds its version: if a is visited first, x is picked too new for b, and the
 check finds a conflict that the other order does not have.
 */
module OrderMatters {
  import opened Wrappers
  import opened Semver
  import opened GraphModel
  import opened Installation
  import opened Resolution
  import opened ResolutionOrder

  const APP := Ref("app", "")
  const A := Ref("a", "")
  const B := Ref("b", "")
  const X := Ref("x", "")

  const ONE := Version(1, 0, 0, [], "", "1.0.0")
  const TWO := Version(2, 0, 0, [], "", "2.0.0")

  const BELOW_TWO := Constraint("<2", (v: Version) => v.major < 2)

  const A_MANIFEST := Manifest("a", "", [Dependency("x", AnyVersion)], [])
  const B_MANIFEST := Manifest("b", "", [Dependency("x", Constrained(BELOW_TWO))], [])
  const X_MANIFEST := Manifest("x", "", [], [])

  const REPOSITORY := Repository(
    map["a" := [ONE], "b" := [ONE], "x" := [ONE, TWO]],
    map[
      ("a", "1.0.0") := A_MANIFEST, ("b", "1.0.0") := B_MANIFEST,
      ("x", "1.0.0") := X_MANIFEST, ("x", "2.0.0") := X_MANIFEST])

  function Needs(name: string, v: Version): Requirement {
    Requirement(name, v, None, false)
  }

  /** The application has been added: a and b are to be resolved. */
  const START: Graph := map[
    APP := Node("app", Some(ONE), true, map[A := None, B := None]),
    A := Uninstalled("a"),
    B := Uninstalled("b")]

  function WithA(g: Graph): Graph {
    Touch(g, X, "x")[A := Node("a", Some(ONE), false, map[X := None])]
  }

  function WithB(g: Graph): Graph {
    Touch(g, X, "x")[B := Node("b", Some(ONE), false, map[X := Some(BELOW_TWO)])]
  }

  function WithX(g: Graph, v: Version): Graph {
    g[X := Node("x", Some(v), false, map[])]
  }

  // ---------------------------------------------------------------- single steps

  lemma ManifestTargets()
    ensures Targets(A, A_MANIFEST) == [Target(X, "x", AnyVersion)]
    ensures Targets(B, B_MANIFEST) == [Target(X, "x", Constrained(BELOW_TWO))]
    ensures Targets(X, X_MANIFEST) == []
  {
  }

  /** Adding a package with one dependency that is not constrained against it. */
  lemma AddOne(g: Graph, r: Ref, n: Node, t: Target)
    requires r in g && r != t.ref && !t.spec.Malformed? && n.edges == map[]
    ensures AddTargets(g[r := n], r, [t]) ==
            (Touch(g, t.ref, t.packageName)[r := n.(edges := map[t.ref := AsConstraint(t.spec)])], true)
  {
    var h := Touch(g[r := n], t.ref, t.packageName);
    var k := Connect(h, r, t.ref, AsConstraint(t.spec));
    assert [t][1..] == [];
    assert AddTargets(k, r, []) == (k, true);
    assert k == Touch(g, t.ref, t.packageName)[r := n.(edges := map[t.ref := AsConstraint(t.spec)])];
  }

  ghost predicate Unresolved(g: Graph, r: Ref) {
    r in g && g[r] == Uninstalled(r.name)
  }

  lemma StepA(g: Graph)
    requires Unresolved(g, A)
    ensures Step(REPOSITORY, g, Needs("a", ONE)) == WithA(g)
  {
    ManifestTargets();
    AddOne(g, A, Node("a", Some(ONE), false, map[]), Target(X, "x", AnyVersion));
  }

  lemma StepB(g: Graph)
    requires Unresolved(g, B)
    ensures Step(REPOSITORY, g, Needs("b", ONE)) == WithB(g)
  {
    ManifestTargets();
    AddOne(g, B, Node("b", Some(ONE), false, map[]), Target(X, "x", Constrained(BELOW_TWO)));
  }

  lemma StepX(g: Graph, v: Version)
    requires Unresolved(g, X) && (v == ONE || v == TWO)
    ensures Step(REPOSITORY, g, Needs("x", v)) == WithX(g, v)
  {
    ManifestTargets();
  }

  // ---------------------------------------------------------------- legal picks

  /** The only version of a and b that there is, for the application. */
  lemma PickOnly(g: Graph, owners: set<Ref>, name: string)
    requires APP in owners && APP in g && g[APP] == START[APP]
    requires (name == "a" && Unresolved(g, A)) || (name == "b" && Unresolved(g, B))
    requires forall c :: !ConstrainedBy(g, Ref(name, ""), c)
    ensures LegalPick(REPOSITORY, g, owners, Needs(name, ONE))
  {
    ManifestTargets();
    CompareTotalPreorder(ONE, ONE, ONE);
    UpgradeRefinesPrecedence(ONE, ONE);
    assert Wanted(g, owners, Ref(name, ""));
    assert REPOSITORY.versions[name] == [ONE];
  }

  /** Unless b is there already, the newer x is picked. */
  lemma PickNewest(g: Graph, owners: set<Ref>)
    requires A in owners && A in g && X in g[A].edges && Unresolved(g, X)
    requires forall c :: !ConstrainedBy(g, X, c)
    ensures LegalPick(REPOSITORY, g, owners, Needs("x", TWO))
  {
    ManifestTargets();
    CompareTotalPreorder(TWO, TWO, TWO);
    UpgradeRefinesPrecedence(TWO, TWO);
    assert Compare(ONE, TWO) < 0;
    UpgradeRefinesPrecedence(ONE, TWO);
    assert Wanted(g, owners, X);
  }

  /** When b is there, its constraint leaves the older x. */
  lemma PickAllowed(g: Graph, owners: set<Ref>)
    requires B in owners && B in Installed(g) && g[B].edges == map[X := Some(BELOW_TWO)] && Unresolved(g, X)
    requires forall c :: ConstrainedBy(g, X, c) ==> c == BELOW_TWO
    ensures LegalPick(REPOSITORY, g, owners, Needs("x", ONE))
  {
    ManifestTargets();
    CompareTotalPreorder(ONE, ONE, ONE);
    UpgradeRefinesPrecedence(ONE, ONE);
    assert DependsOn(g, B, X);
    assert ConstrainedBy(g, X, BELOW_TWO);
    assert !Acceptable(g, X, TWO) && Acceptable(g, X, ONE);
    assert Wanted(g, owners, X);
  }

  // ---------------------------------------------------------------- the two orders

  function InOrder(p: Requirement, q: Requirement, r: Requirement): seq<Requirement> {
    [p] + ([q] + [r])
  }

  function AFirst(): seq<Requirement> {
    InOrder(Needs("a", ONE), Needs("x", TWO), Needs("b", ONE))
  }

  function BFirst(): seq<Requirement> {
    InOrder(Needs("b", ONE), Needs("x", ONE), Needs("a", ONE))
  }

  lemma ReplayCons(repo: Repository, g: Graph, q: Requirement, rest: seq<Requirement>)
    ensures Replay(repo, g, [q] + rest) == Replay(repo, Step(repo, g, q), rest)
  {
    assert ([q] + rest)[1..] == rest;
  }

  lemma RunOfThree(
    repo: Repository, g: Graph, of: Ref, g1: Graph, g2: Graph, g3: Graph, p: Requirement, q: Requirement, r: Requirement)
    requires Step(repo, g, p) == g1 && LegalPick(repo, g, {of}, p)
    requires Step(repo, g1, q) == g2 && LegalPick(repo, g1, {of} + {RequiredRef(p)}, q)
    requires Step(repo, g2, r) == g3
    requires LegalPick(repo, g2, {of} + {RequiredRef(p)} + {RequiredRef(q)}, r)
    ensures LegalRun(repo, g, {of}, InOrder(p, q, r)) && Replay(repo, g, InOrder(p, q, r)) == g3
  {
    assert [r] + [] == [r];
    ReplayCons(repo, g2, r, []);
    ReplayCons(repo, g1, q, [r]);
    ReplayCons(repo, g, p, [q] + [r]);
    LegalCons(repo, g2, {of} + {RequiredRef(p)} + {RequiredRef(q)}, r, []);
    LegalCons(repo, g1, {of} + {RequiredRef(p)}, q, [r]);
    LegalCons(repo, g, {of}, p, [q] + [r]);
  }

  lemma FirstPick(name: string)
    requires name == "a" || name == "b"
    ensures LegalPick(REPOSITORY, START, {APP}, Needs(name, ONE))
  {
    PickOnly(START, {APP}, name);
  }

  lemma SecondPickAfterA()
    ensures LegalPick(REPOSITORY, WithA(START), {APP} + {A}, Needs("x", TWO))
  {
    PickNewest(WithA(START), {APP} + {A});
  }

  lemma SecondPickAfterB()
    ensures LegalPick(REPOSITORY, WithB(START), {APP} + {B}, Needs("x", ONE))
  {
    PickAllowed(WithB(START), {APP} + {B});
  }

  lemma ThirdPick(g: Graph, first: Ref, name: string, v: Version)
    requires (g == WithX(WithA(START), v) && name == "b") || (g == WithX(WithB(START), v) && name == "a")
    ensures LegalPick(REPOSITORY, g, {APP} + {first} + {X}, Needs(name, ONE))
  {
    assert g[APP] == START[APP];
    assert forall q :: DependsOn(g, q, Ref(name, "")) ==> q == APP;
    PickOnly(g, {APP} + {first} + {X}, name);
  }

  lemma AFirstIsLegal()
    ensures LegalRun(REPOSITORY, START, {APP}, AFirst())
    ensures Replay(REPOSITORY, START, AFirst()) == WithB(WithX(WithA(START), TWO))
  {
    var g1 := WithA(START);
    var g2 := WithX(g1, TWO);
    StepA(START);
    StepX(g1, TWO);
    StepB(g2);
    FirstPick("a");
    SecondPickAfterA();
    ThirdPick(g2, A, "b", TWO);
    RunOfThree(REPOSITORY, START, APP, g1, g2, WithB(g2), Needs("a", ONE), Needs("x", TWO), Needs("b", ONE));
  }

  lemma BFirstIsLegal()
    ensures LegalRun(REPOSITORY, START, {APP}, BFirst())
    ensures Replay(REPOSITORY, START, BFirst()) == WithA(WithX(WithB(START), ONE))
  {
    var g1 := WithB(START);
    var g2 := WithX(g1, ONE);
    StepB(START);
    StepX(g1, ONE);
    StepA(g2);
    FirstPick("b");
    SecondPickAfterB();
    ThirdPick(g2, B, "a", ONE);
    RunOfThree(REPOSITORY, START, APP, g1, g2, WithA(g2), Needs("b", ONE), Needs("x", ONE), Needs("a", ONE));
  }

  /**
   With a constraint in the repositories, the map order can decide: both orders resolve the request
   completely, but one has a conflict and the other has none.
   */
  lemma OrderCanMatter()
    ensures Complete(REPOSITORY, START, Replay(REPOSITORY, START, AFirst()), APP, AFirst())
    ensures Complete(REPOSITORY, START, Replay(REPOSITORY, START, BFirst()), APP, BFirst())
    ensures !Sound(Replay(REPOSITORY, START, AFirst())) && Sound(Replay(REPOSITORY, START, BFirst()))
  {
    AFirstIsLegal();
    BFirstIsLegal();
    AFirstBreaks();
    BFirstIsSound();
    FourInstalled(Replay(REPOSITORY, START, AFirst()), TWO);
    FourInstalled(Replay(REPOSITORY, START, BFirst()), ONE);
    AllDone(Replay(REPOSITORY, START, AFirst()), AFirst());
    AllDone(Replay(REPOSITORY, START, BFirst()), BFirst());
  }

  lemma AFirstBreaks()
    ensures !Sound(WithB(WithX(WithA(START), TWO)))
  {
    assert Broken(WithB(WithX(WithA(START), TWO)), B, X);
  }

  lemma BFirstIsSound()
    ensures Sound(WithA(WithX(WithB(START), ONE)))
  {
  }

  ghost predicate AllFour(h: Graph) {
    && h.Keys == {APP, A, B, X} && Installed(h) == h.Keys
    && forall r :: r in h ==> h[r].packageName == r.name && h[r].edges.Keys <= h.Keys
  }

  lemma FourInstalled(h: Graph, v: Version)
    requires h == WithB(WithX(WithA(START), v)) || h == WithA(WithX(WithB(START), v))
    ensures AllFour(h)
  {
    assert h.Keys == {APP, A, B, X};
    assert forall r :: r in h ==> h[r].version.Some?;
  }

  lemma AllDone(h: Graph, reqs: seq<Requirement>)
    requires LegalRun(REPOSITORY, START, {APP}, reqs) && h == Replay(REPOSITORY, START, reqs) && AllFour(h)
    ensures Complete(REPOSITORY, START, h, APP, reqs)
  {
  }
}
