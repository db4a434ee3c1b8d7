/**
 `Validate` of `internal/dependency/manager.go`: would installing or updating a package introduce a
 conflict, and what would have to be installed with it?
 */
module Validation {
  import opened Wrappers
  import opened Semver
  import opened Slices
  import opened GraphModel
  import opened Installation
  import opened Resolution
  import opened GraphHeap
  import opened DependencyManager

  datatype Status = StatusOk | StatusResolvable | StatusConflict

  /** `Conflict`, with the error that caused it */
  datatype Conflict = Conflict(name: string, actual: Version, required: Constraint, cause: DependencyError)

  datatype ValidationResult = ValidationResult(status: Status, requirements: seq<Requirement>, conflicts: seq<Conflict>)

  datatype ValidationError =
    | CannotAdd
    | CannotResolve(error: ResolveError)
    | StillMissing(missing: DependencyError)

  function RequiredName(q: Requirement): string {
    q.name
  }

  // ---------------------------------------------------------------- new errors

  /** `isErrNew`: no earlier error is about the same package and dependency; the cause does not matter. */
  predicate IsErrNew(current: DependencyError, before: seq<DependencyError>) {
    forall i :: 0 <= i < |before| ==>
      before[i].package != current.package || before[i].dependency != current.dependency
  }

  /** Every error of h was an error of g already, perhaps for another reason. */
  ghost predicate NothingNew(g: Graph, h: Graph) {
    forall q, r :: Broken(h, q, r) ==> Broken(g, q, r)
  }

  ghost predicate Reports(errors: seq<DependencyError>, g: Graph) {
    forall e :: e in errors <==> exists q, r :: Broken(g, q, r) && e == ErrorFor(g, q, r)
  }

  /** An error is new exactly when its edge was not broken before. */
  lemma NewMeansUnbroken(g: Graph, h: Graph, before: seq<DependencyError>, q: Ref, r: Ref)
    requires LabelsKept(g, h) && Reports(before, g) && Broken(h, q, r)
    ensures IsErrNew(ErrorFor(h, q, r), before) <==> !Broken(g, q, r)
  {
    var e := ErrorFor(h, q, r);
    if Broken(g, q, r) {
      assert h[q].packageName == g[q].packageName && h[r].packageName == g[r].packageName;
      var b := ErrorFor(g, q, r);
      assert b in before && b.package == e.package && b.dependency == e.dependency;
      var i :| 0 <= i < |before| && before[i] == b;
    } else {
      forall i | 0 <= i < |before|
        ensures before[i].package != e.package || before[i].dependency != e.dependency
      {
        assert before[i] in before;
        var q', r' :| Broken(g, q', r') && before[i] == ErrorFor(g, q', r');
        assert RefOf(before[i].package) == q' && RefOf(before[i].dependency) == r';
      }
    }
  }

  /**
   Since the cause does not count, an error can hide a conflict: when a dependency d is installed that p was
   missing, in whatever version, only edges of d itself can be newly broken; the edge of p was broken before,
   and is still broken exactly when the version does not meet its constraint.
   */
  lemma MissingHidesConflict(
    g: Graph, p: Ref, d: Ref, m: Manifest, v: Version, manual: bool, constraint: Constraint)
    requires WellFormed(g) && p != d && p in g && d in g && g[d].version.None?
    requires d in g[p].edges && g[p].edges[d] == Some(constraint)
    requires Added(g, d, m, Parsed(v), manual).1
    ensures var h := Added(g, d, m, Parsed(v), manual).0;
            && (forall q, r :: Broken(h, q, r) && !Broken(g, q, r) ==> q == d)
            && (NothingNew(g, h) <==> forall r :: !Broken(h, d, r))
            && Broken(g, p, d) && (Broken(h, p, d) <==> !constraint.accepts(v))
  {
    var h := Added(g, d, m, Parsed(v), manual).0;
    AddedEffect(g, d, m, v, manual);
    assert NodeFits(g.Keys, g[d]);
    assert h[p] == g[p];
    forall q, r | Broken(h, q, r) && q != d
      ensures Broken(g, q, r)
    {
      if q in g {
        assert h[q] == g[q] && NodeFits(g.Keys, g[q]);
        if r != d { assert h[r] == g[r]; }
      }
    }
  }

  lemma AddedKeepsLabels(g: Graph, ref: Ref, m: Manifest, version: VersionText, manual: bool)
    ensures LabelsKept(g, Added(g, ref, m, version, manual).0)
  {
    if version.Parsed? {
      AddedEffect(g, ref, m, version.version, manual);
      AddedLabel(g, ref, m, version.version, manual);
      var h := Added(g, ref, m, version, manual).0;
      forall r | r in g
        ensures h[r].packageName == g[r].packageName
      {
        if r != ref { assert h[r] == g[r]; }
      }
    }
  }

  /** The new errors, in order. */
  function NewAmong(errors: seq<DependencyError>, before: seq<DependencyError>): seq<DependencyError> {
    if errors == [] then []
    else
      var e := errors[|errors| - 1];
      NewAmong(errors[..|errors| - 1], before) + if IsErrNew(e, before) then [e] else []
  }

  lemma {:induction false} NewAmongMembers(errors: seq<DependencyError>, before: seq<DependencyError>)
    ensures forall e :: e in NewAmong(errors, before) <==> e in errors && IsErrNew(e, before)
  {
    if errors != [] {
      NewAmongMembers(errors[..|errors| - 1], before);
      assert errors == errors[..|errors| - 1] + [errors[|errors| - 1]];
    }
  }

  function Causes(conflicts: seq<Conflict>): seq<DependencyError> {
    seq(|conflicts|, i requires 0 <= i < |conflicts| => conflicts[i].cause)
  }

  /** `errorToConflict` over the new errors: a missing package is no conflict but an error. */
  method CollectConflicts(errors: seq<DependencyError>, before: seq<DependencyError>)
    returns (r: Result<seq<Conflict>, ValidationError>)
    ensures r.Ok? ==> Causes(r.value) == NewAmong(errors, before)
    ensures r.Ok? ==> forall c :: c in r.value ==>
              c.cause.cause == Violated(c.actual, c.required) && c.name == c.cause.dependency.name
    ensures r.Err? ==> r.error.StillMissing? && r.error.missing in errors &&
                       IsErrNew(r.error.missing, before) && r.error.missing.cause.NotInstalled?
  {
    var conflicts: seq<Conflict> := [];
    for i := 0 to |errors|
      invariant Causes(conflicts) == NewAmong(errors[..i], before)
      invariant forall c :: c in conflicts ==>
                  c.cause.cause == Violated(c.actual, c.required) && c.name == c.cause.dependency.name
    {
      var e := errors[i];
      assert errors[..i + 1][..i] == errors[..i];
      if IsErrNew(e, before) {
        match e.cause {
          case NotInstalled =>
            return Err(StillMissing(e));
          case Violated(version, constraint) =>
            var c := Conflict(e.dependency.name, version, constraint, e);
            assert Causes(conflicts + [c]) == Causes(conflicts) + [e];
            conflicts := conflicts + [c];
        }
      }
    }
    assert errors[..|errors|] == errors;
    r := Ok(conflicts);
  }

  method ErrorsOf(g: DependencyGraph) returns (errors: seq<DependencyError>)
    requires g.Valid()
    ensures Reports(errors, g.model)
  {
    errors := g.Validate();
  }

  /** The errors of the graph that were no errors before */
  method NewConflicts(g: DependencyGraph, before: seq<DependencyError>, ghost g0: Graph)
    returns (r: Result<seq<Conflict>, ValidationError>)
    requires g.Valid() && LabelsKept(g0, g.model) && Reports(before, g0)
    ensures r.Ok? ==> ConflictsAre(g0, g.model, r.value) && (r.value == [] <==> NothingNew(g0, g.model))
    ensures r.Err? ==>
              r.error.StillMissing? && NewlyMissing(g0, g.model, r.error.missing) && !NothingNew(g0, g.model)
  {
    var after := ErrorsOf(g);
    r := CollectConflicts(after, before);
    ConflictsMeanNew(g0, g.model, before, after, r);
    match r {
      case Ok(conflicts) => ConflictFields(g0, g.model, before, after, conflicts);
      case Err(e) => MissingIsNew(g0, g.model, before, after, e.missing);
    }
  }

  ghost predicate NewlyBroken(g: Graph, h: Graph, q: Ref, r: Ref) {
    Broken(h, q, r) && !Broken(g, q, r)
  }

  /** The conflict is about the installed version of r and the constraint that q puts on it. */
  ghost predicate ConflictAt(h: Graph, q: Ref, r: Ref, c: Conflict) {
    && q in h && r in h && r in h[q].edges
    && c.name == r.name && h[r].version == Some(c.actual) && h[q].edges[r] == Some(c.required)
  }

  /** Each newly broken edge, and no other, gives a conflict. */
  ghost predicate ConflictsAre(g: Graph, h: Graph, conflicts: seq<Conflict>) {
    && (forall c :: c in conflicts ==> exists q, r :: NewlyBroken(g, h, q, r) && ConflictAt(h, q, r, c))
    && (forall q, r :: NewlyBroken(g, h, q, r) ==> exists c :: c in conflicts && ConflictAt(h, q, r, c))
  }

  /** The error is about a newly broken edge to a package that is not installed. */
  ghost predicate NewlyMissing(g: Graph, h: Graph, e: DependencyError) {
    && NewlyBroken(g, h, RefOf(e.package), RefOf(e.dependency)) && h[RefOf(e.dependency)].version.None?
  }

  /** The package was added to g, and resolving its dependencies by the run led to h. */
  ghost predicate ResolvedFrom(
    repo: Repository, scope: Scope, g: Graph, h: Graph, ref: Ref, m: Manifest, version: VersionText,
    run: seq<Requirement>)
  {
    var (g1, ok) := Added(g, AddedRef(ref, m), m, version, ManualFlag(g, m.name));
    ok && PackageDone(repo, scope, g1, h, ref, run) && Flagged(repo, g1, ref, false, run)
  }

  /** The first half of `Validate`: add the package, and then what it requires. */
  method AddAndResolve(
    g: DependencyGraph, repo: Repository, name: string, namespace: string, m: Manifest, version: VersionText,
    ghost scope: Scope)
    returns (r: Result<seq<Requirement>, ValidationError>)
    requires g.Valid() && Closed(repo, scope)
    requires Covered(scope, Added(g.model, AddedRef(Ref(name, namespace), m), m, version, ManualFlag(g.model, m.name)).0)
    modifies g, g.repr
    ensures g.Valid()
    ensures r.Ok? ==> ResolvedFrom(repo, scope, old(g.model), g.model, Ref(name, namespace), m, version, r.value)
    ensures r.Ok? ==> LabelsKept(old(g.model), g.model)
    ensures r.Err? ==> r.error.CannotAdd? || (r.error.CannotResolve? && Grounded(repo, g.model, r.error.error))
    ensures r.Err? && r.error.CannotAdd? <==>
            !Added(old(g.model), AddedRef(Ref(name, namespace), m), m, version, ManualFlag(old(g.model), m.name)).1
  {
    ghost var g0 := g.model;
    AddedKeepsLabels(g0, AddedRef(Ref(name, namespace), m), m, version, ManualFlag(g0, m.name));
    var ok := Add(g, name, namespace, m, version);
    if !ok {
      return Err(CannotAdd);
    }
    ghost var g1 := g.model;
    var added := AddDependencies(g, repo, name, namespace, false, scope);
    if added.Err? {
      return Err(CannotResolve(added.error));
    }
    LabelsKeptTrans(g0, g1, g.model);
    r := Ok(added.value);
  }

  /**
   `Validate` on the graph that `NewGraph` built; the graph is consumed.  The ghost result is the run
   of the resolver that the requirements come from.
   */
  method Validate(
    g: DependencyGraph, repo: Repository, name: string, namespace: string, m: Manifest, version: VersionText,
    ghost scope: Scope)
    returns (r: Result<ValidationResult, ValidationError>, ghost run: seq<Requirement>)
    requires g.Valid() && Closed(repo, scope)
    requires Covered(scope, Added(g.model, AddedRef(Ref(name, namespace), m), m, version, ManualFlag(g.model, m.name)).0)
    modifies g, g.repr
    ensures r.Ok? ==> ResolvedFrom(repo, scope, old(g.model), g.model, Ref(name, namespace), m, version, run)
    ensures r.Ok? ==> multiset(r.value.requirements) == multiset(run)
    ensures r.Ok? ==> forall i, j :: 0 <= i < j < |r.value.requirements| ==>
              CompareText(r.value.requirements[i].name, r.value.requirements[j].name) <= 0
    ensures r.Ok? ==> (r.value.conflicts == [] <==> NothingNew(old(g.model), g.model))
    ensures r.Ok? ==> ConflictsAre(old(g.model), g.model, r.value.conflicts)
    ensures r.Ok? ==> (r.value.status == StatusConflict <==> r.value.conflicts != [])
    ensures r.Ok? ==> (r.value.status == StatusResolvable <==> r.value.conflicts == [] && run != [])
    ensures r.Err? && r.error.StillMissing? ==> NewlyMissing(old(g.model), g.model, r.error.missing)
    ensures r.Err? && r.error.StillMissing? ==> !NothingNew(old(g.model), g.model)
    ensures r.Err? && r.error.CannotAdd? <==>
            !Added(old(g.model), AddedRef(Ref(name, namespace), m), m, version, ManualFlag(old(g.model), m.name)).1
    ensures r.Err? && r.error.CannotResolve? ==> Grounded(repo, g.model, r.error.error)
  {
    run := [];
    ghost var g0 := g.model;
    var before := ErrorsOf(g);
    var added := AddAndResolve(g, repo, name, namespace, m, version, scope);
    if added.Err? {
      return Err(added.error), [];
    }
    run := added.value;
    var conflicts := NewConflicts(g, before, g0);
    if conflicts.Err? {
      return Err(conflicts.error), run;
    }
    var requirements := Sort(added.value, RequiredName);
    SortSorts(added.value, RequiredName);
    assert |requirements| == |multiset(requirements)| == |run|;
    var status := if conflicts.value != [] then StatusConflict else if requirements != [] then StatusResolvable else StatusOk;
    r := Ok(ValidationResult(status, requirements, conflicts.value));
  }

  ghost predicate Caused(c: Conflict) {
    c.cause.cause == Violated(c.actual, c.required) && c.name == c.cause.dependency.name
  }

  lemma MissingIsNew(g: Graph, h: Graph, before: seq<DependencyError>, after: seq<DependencyError>, e: DependencyError)
    requires LabelsKept(g, h) && Reports(before, g) && Reports(after, h)
    requires e in after && IsErrNew(e, before) && e.cause.NotInstalled?
    ensures NewlyMissing(g, h, e)
  {
    var q, r :| Broken(h, q, r) && e == ErrorFor(h, q, r);
    NewMeansUnbroken(g, h, before, q, r);
  }

  lemma ConflictIsBroken(
    g: Graph, h: Graph, before: seq<DependencyError>, after: seq<DependencyError>, conflicts: seq<Conflict>, i: nat)
    requires LabelsKept(g, h) && Reports(before, g) && Reports(after, h)
    requires Causes(conflicts) == NewAmong(after, before) && i < |conflicts| && Caused(conflicts[i])
    ensures exists q, r :: NewlyBroken(g, h, q, r) && ConflictAt(h, q, r, conflicts[i])
  {
    var e := conflicts[i].cause;
    assert Causes(conflicts)[i] == e;
    assert e in NewAmong(after, before);
    NewAmongMembers(after, before);
    var q, r :| Broken(h, q, r) && e == ErrorFor(h, q, r);
    NewMeansUnbroken(g, h, before, q, r);
    assert NewlyBroken(g, h, q, r) && ConflictAt(h, q, r, conflicts[i]);
  }

  lemma BrokenHasConflict(
    g: Graph, h: Graph, before: seq<DependencyError>, after: seq<DependencyError>, conflicts: seq<Conflict>, q: Ref, r: Ref)
    returns (i: nat)
    requires LabelsKept(g, h) && Reports(before, g) && Reports(after, h) && NewlyBroken(g, h, q, r)
    requires Causes(conflicts) == NewAmong(after, before) && AllCaused(conflicts)
    ensures i < |conflicts| && ConflictAt(h, q, r, conflicts[i])
  {
    var e := ErrorFor(h, q, r);
    assert e in after;
    NewMeansUnbroken(g, h, before, q, r);
    NewAmongMembers(after, before);
    assert e in Causes(conflicts);
    i :| 0 <= i < |conflicts| && Causes(conflicts)[i] == e;
    assert Caused(conflicts[i]);
  }

  ghost predicate AllCaused(conflicts: seq<Conflict>) {
    forall i :: 0 <= i < |conflicts| ==> Caused(conflicts[i])
  }

  /** Each new error but a missing package becomes one conflict, and no other does. */
  lemma ConflictFields(
    g: Graph, h: Graph, before: seq<DependencyError>, after: seq<DependencyError>, conflicts: seq<Conflict>)
    requires LabelsKept(g, h) && Reports(before, g) && Reports(after, h)
    requires Causes(conflicts) == NewAmong(after, before) && AllCaused(conflicts)
    ensures ConflictsAre(g, h, conflicts)
  {
    forall c | c in conflicts
      ensures exists q, r :: NewlyBroken(g, h, q, r) && ConflictAt(h, q, r, c)
    {
      var i :| 0 <= i < |conflicts| && conflicts[i] == c;
      assert Caused(conflicts[i]);
      ConflictIsBroken(g, h, before, after, conflicts, i);
    }
    forall q, r | NewlyBroken(g, h, q, r)
      ensures exists c :: c in conflicts && ConflictAt(h, q, r, c)
    {
      var i := BrokenHasConflict(g, h, before, after, conflicts, q, r);
      assert conflicts[i] in conflicts;
    }
  }

  lemma ConflictsMeanNew(
    g: Graph, h: Graph, before: seq<DependencyError>, after: seq<DependencyError>,
    conflicts: Result<seq<Conflict>, ValidationError>)
    requires LabelsKept(g, h) && Reports(before, g) && Reports(after, h)
    requires conflicts.Ok? ==> Causes(conflicts.value) == NewAmong(after, before)
    requires conflicts.Err? ==> conflicts.error.StillMissing? && conflicts.error.missing in after &&
                                IsErrNew(conflicts.error.missing, before)
    ensures conflicts.Ok? ==> (conflicts.value == [] <==> NothingNew(g, h))
    ensures conflicts.Err? ==> !NothingNew(g, h)
  {
    NewAmongMembers(after, before);
    if conflicts.Err? {
      var q, r :| Broken(h, q, r) && conflicts.error.missing == ErrorFor(h, q, r);
      NewMeansUnbroken(g, h, before, q, r);
    } else if conflicts.value == [] {
      forall q, r | Broken(h, q, r)
        ensures Broken(g, q, r)
      {
        NewMeansUnbroken(g, h, before, q, r);
        var e := ErrorFor(h, q, r);
        assert e in after && e !in NewAmong(after, before);
      }
    } else {
      var e := Causes(conflicts.value)[0];
      assert e in NewAmong(after, before);
      var q, r :| Broken(h, q, r) && e == ErrorFor(h, q, r);
      NewMeansUnbroken(g, h, before, q, r);
    }
  }
}
