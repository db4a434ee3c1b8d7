/**
 What the map order of `internal/dependency/manager.go` can change.  A resolution adds only what the
 request reaches; two picks commute exactly when their manifests allow each other's versions; and when the
 manifests of best versions allow each other, every order adds the same, which the inputs alone determine.
 */
module ResolutionOrder {
  import opened Wrappers
  import opened Semver
  import opened GraphModel
  import opened Installation
  import opened Resolution
  import opened DependencyManager

  // ---------------------------------------------------------------- only what is reached, and all of it

  /** A path along edges of h that meets nothing installed in g after its start. */
  ghost predicate Path(g: Graph, h: Graph, p: seq<Ref>) {
    && p != []
    && (forall i :: 0 <= i < |p| - 1 ==> p[i] in h && p[i + 1] in h[p[i]].edges)
    && (forall i :: 0 < i < |p| ==> p[i] !in Installed(g))
  }

  ghost predicate ReachedBy(g: Graph, h: Graph, of: Ref, p: seq<Ref>, r: Ref) {
    |p| > 1 && p[0] == of && p[|p| - 1] == r && Path(g, h, p)
  }

  /** The owner for which a requirement was picked, with an edge that is still there in the end. */
  lemma {:induction false} PickedFor(repo: Repository, g: Graph, owners: set<Ref>, reqs: seq<Requirement>, i: nat)
    returns (w: Ref)
    requires WellFormed(g) && LegalRun(repo, g, owners, reqs) && i < |reqs|
    ensures w in owners || exists j :: 0 <= j < i && RequiredRef(reqs[j]) == w
    ensures var h := Replay(repo, g, reqs); w in h && RequiredRef(reqs[i]) in h[w].edges
    decreases |reqs|
  {
    var q, g1 := reqs[0], Step(repo, g, reqs[0]);
    if i == 0 {
      w :| w in owners && w in g && RequiredRef(q) in g[w].edges;
      assert NodeFits(g.Keys, g[w]);
      RunGrows(repo, g, owners, reqs);
      assert w in Installed(g);
    } else {
      PickWellFormed(repo, g, q);
      w := PickedFor(repo, g1, owners + {RequiredRef(q)}, reqs[1..], i - 1);
      if w !in owners && w != RequiredRef(q) {
        var j :| 0 <= j < i - 1 && RequiredRef(reqs[1..][j]) == w;
        assert reqs[j + 1] == reqs[1..][j];
      }
    }
  }

  /** Everything a resolution adds is reached from the request through packages that were not installed. */
  lemma {:induction false} AddsOnlyWhatIsReached(repo: Repository, g: Graph, of: Ref, reqs: seq<Requirement>, i: nat)
    returns (p: seq<Ref>)
    requires WellFormed(g) && LegalRun(repo, g, {of}, reqs) && i < |reqs|
    ensures ReachedBy(g, Replay(repo, g, reqs), of, p, RequiredRef(reqs[i]))
    decreases i
  {
    var r := RequiredRef(reqs[i]);
    var w := PickedFor(repo, g, {of}, reqs, i);
    RunInstalls(repo, g, {of}, reqs);
    assert r in RequiredRefs(reqs);
    if w == of {
      p := [of, r];
    } else {
      var j :| 0 <= j < i && RequiredRef(reqs[j]) == w;
      var before := AddsOnlyWhatIsReached(repo, g, of, reqs, j);
      p := before + [r];
      PathExtends(g, Replay(repo, g, reqs), of, before, w, r);
    }
  }

  lemma PathExtends(g: Graph, h: Graph, of: Ref, p: seq<Ref>, w: Ref, r: Ref)
    requires ReachedBy(g, h, of, p, w) && w in h && r in h[w].edges && r !in Installed(g)
    ensures ReachedBy(g, h, of, p + [r], r)
  {
  }

  /** Everything reached is added, unless some package on the way has no acceptable version. */
  lemma {:induction false} AddsAllThatIsReached(
    repo: Repository, g: Graph, h: Graph, of: Ref, reqs: seq<Requirement>, p: seq<Ref>, r: Ref)
    requires Resolved(repo, g, h, of, reqs) && AllSettled(repo, h, {of})
    requires ReachedBy(g, h, of, p, r)
    ensures r in RequiredRefs(reqs) || exists d :: d in p && Unsatisfiable(repo, h, d)
    decreases |p|
  {
    var n := |p| - 1;
    var w := p[n - 1];
    RunInstalls(repo, g, {of}, reqs);
    assert r in p;
    if n > 1 {
      AddsAllThatIsReached(repo, g, h, of, reqs, p[..n], w);
    }
    if (n == 1 || w in RequiredRefs(reqs)) && !Unsatisfiable(repo, h, r) {
      assert r in h[w].edges;
      assert Settled(repo, h, r);
    }
  }

  // ---------------------------------------------------------------- what one pick does to the others

  /** What the manifest of a requirement asks of r, if it names r. */
  ghost predicate Allows(repo: Repository, q: Requirement, r: Ref, v: Version)
    requires Fetchable(repo, q)
  {
    var edges := EdgesFrom(map[], Targets(RequiredRef(q), ManifestOf(repo, q)));
    r in edges && edges[r].Some? ==> edges[r].value.accepts(v)
  }

  /** After a pick, a version is acceptable for r exactly when it was and the picked manifest allows it. */
  lemma PickConstrains(repo: Repository, g: Graph, owners: set<Ref>, q: Requirement, r: Ref, v: Version)
    requires LegalPick(repo, g, owners, q)
    ensures Acceptable(Step(repo, g, q), r, v) <==> Acceptable(g, r, v) && Allows(repo, q, r, v)
  {
    var h, ref := Step(repo, g, q), RequiredRef(q);
    PickGrows(repo, g, owners, q);
    if Acceptable(g, r, v) && Allows(repo, q, r, v) {
      forall c | ConstrainedBy(h, r, c)
        ensures c.accepts(v)
      {
        var p :| DependsOn(h, p, r) && h[p].edges[r] == Some(c);
        if p != ref {
          assert p in Installed(g) && h[p] == g[p];
          assert DependsOn(g, p, r);
          assert ConstrainedBy(g, r, c);
        }
      }
    }
    if Acceptable(h, r, v) {
      GrowsConstrains(g, h, r, v);
      if r in h[ref].edges && h[ref].edges[r].Some? {
        assert DependsOn(h, ref, r);
        assert ConstrainedBy(h, r, h[ref].edges[r].value);
      }
    }
  }

  /** Of two versions that what is installed allows, exactly one is an upgrade of the other. */
  ghost predicate RankedFor(g: Graph, r: Ref, versions: seq<Version>) {
    forall v, w :: v in versions && w in versions && v != w && Acceptable(g, r, v) && Acceptable(g, r, w) ==>
      (IsVersionUpgradable(v, w) <==> !IsVersionUpgradable(w, v))
  }

  lemma RankedNeverClash(g: Graph, r: Ref, versions: seq<Version>)
    requires RankedFor(g, r, versions)
    ensures NoClash(g, r, versions)
  {
    forall v, w | v in versions && w in versions && Acceptable(g, r, v) && Acceptable(g, r, w)
      ensures !Clash(v, w)
    {
      MutualUpgradeIffClash(v, w);
    }
  }

  /** A best version stays the best one exactly when it stays acceptable. */
  lemma BestStays(g: Graph, h: Graph, r: Ref, versions: seq<Version>, v: Version)
    requires Grows(g, h) && RankedFor(g, r, versions) && IsMax(g, r, versions, Some(v))
    ensures IsMax(h, r, versions, Some(v)) <==> Acceptable(h, r, v)
  {
    RankedNeverClash(g, r, versions);
    forall w | w in versions && Acceptable(h, r, w)
      ensures Acceptable(g, r, w)
    {
      GrowsConstrains(g, h, r, w);
    }
  }

  /** After a legal pick p, another legal pick q is still legal exactly when the manifest of p allows it. */
  lemma StillLegalIff(repo: Repository, g: Graph, owners: set<Ref>, p: Requirement, q: Requirement)
    requires LegalPick(repo, g, owners, p) && LegalPick(repo, g, owners, q) && RequiredRef(p) != RequiredRef(q)
    requires WellFormed(g) && RankedFor(g, RequiredRef(q), repo.versions[q.name])
    ensures LegalPick(repo, Step(repo, g, p), owners + {RequiredRef(p)}, q) <==> Allows(repo, p, RequiredRef(q), q.version)
  {
    var h, r := Step(repo, g, p), RequiredRef(q);
    PickGrows(repo, g, owners, p);
    PickConstrains(repo, g, owners, p, r, q.version);
    BestStays(g, h, r, repo.versions[q.name], q.version);
    assert r !in Installed(h) && r in h;
    StillWantedAfter(repo, g, owners, p, r);
  }

  lemma StillWantedAfter(repo: Repository, g: Graph, owners: set<Ref>, p: Requirement, r: Ref)
    requires WellFormed(g) && LegalPick(repo, g, owners, p) && Wanted(g, owners, r)
    ensures Wanted(Step(repo, g, p), owners + {RequiredRef(p)}, r)
  {
    PickGrows(repo, g, owners, p);
    var w :| w in owners && w in g && r in g[w].edges;
    assert NodeFits(g.Keys, g[w]);
    assert w in Installed(g) && w in owners + {RequiredRef(p)};
  }

  /**
   Two picks commute exactly when each manifest allows the version of the other: both orders are legal, and
   then they install the same packages with the same versions.
   */
  lemma PicksCommuteIff(repo: Repository, g: Graph, owners: set<Ref>, p: Requirement, q: Requirement)
    requires LegalPick(repo, g, owners, p) && LegalPick(repo, g, owners, q) && RequiredRef(p) != RequiredRef(q)
    requires WellFormed(g)
    requires RankedFor(g, RequiredRef(p), repo.versions[p.name]) && RankedFor(g, RequiredRef(q), repo.versions[q.name])
    ensures LegalRun(repo, g, owners, [p] + [q]) && LegalRun(repo, g, owners, [q] + [p]) <==>
            Allows(repo, p, RequiredRef(q), q.version) && Allows(repo, q, RequiredRef(p), p.version)
    ensures LegalRun(repo, g, owners, [p] + [q]) && LegalRun(repo, g, owners, [q] + [p]) ==>
              SameInstalled(Replay(repo, g, [p] + [q]), Replay(repo, g, [q] + [p]))
  {
    StillLegalIff(repo, g, owners, p, q);
    StillLegalIff(repo, g, owners, q, p);
    TwoPicks(repo, g, owners, p, q);
    TwoPicks(repo, g, owners, q, p);
    if LegalRun(repo, g, owners, [p] + [q]) {
      RebuildInAnyOrder(repo, g, owners, [p] + [q], [q] + [p]);
    }
  }

  lemma TwoPicks(repo: Repository, g: Graph, owners: set<Ref>, p: Requirement, q: Requirement)
    ensures LegalRun(repo, g, owners, [p] + [q]) <==>
            LegalPick(repo, g, owners, p) && LegalPick(repo, Step(repo, g, p), owners + {RequiredRef(p)}, q)
  {
    var h, more := Step(repo, g, p), owners + {RequiredRef(p)};
    assert ([p] + [q])[1..] == [q];
    OnePick(repo, h, more, q);
  }

  lemma OnePick(repo: Repository, g: Graph, owners: set<Ref>, q: Requirement)
    ensures LegalRun(repo, g, owners, [q]) <==> LegalPick(repo, g, owners, q)
  {
    assert [q][1..] == [];
    assert LegalRun(repo, Step(repo, g, q), owners + {RequiredRef(q)}, []);
  }

  // ---------------------------------------------------------------- when the order does not matter

  /** A vertex with its label */
  type Member = (Ref, string)

  /** A vertex is a target under one package name only. */
  ghost predicate SingleLabels(scope: Scope) {
    forall s, t :: s in scope && t in scope && s.0 == t.0 ==> s == t
  }

  ghost predicate Ranked(repo: Repository, scope: Scope, g: Graph) {
    forall s :: s in scope && s.1 in repo.versions ==> RankedFor(g, s.0, repo.versions[s.1])
  }

  /** v is the best version for the member s, by what is installed in g. */
  ghost predicate BestFor(repo: Repository, scope: Scope, g: Graph, s: Member, v: Version) {
    s in scope && s.1 in repo.versions && IsMax(g, s.0, repo.versions[s.1], Some(v))
  }

  /** What the manifest of version v of s asks of r. */
  ghost predicate AllowsIn(repo: Repository, s: Member, v: Version, r: Ref, w: Version)
    requires (s.1, v.original) in repo.manifests
  {
    var edges := EdgesFrom(map[], Targets(s.0, repo.manifests[(s.1, v.original)]));
    r in edges && edges[r].Some? ==> edges[r].value.accepts(w)
  }

  ghost predicate HasBest(repo: Repository, scope: Scope, g: Graph, r: Ref) {
    exists s: Member, v :: s.0 == r && BestFor(repo, scope, g, s, v)
  }

  /** The manifest of the best version of w names r. */
  ghost predicate Names(repo: Repository, scope: Scope, g: Graph, w: Ref, r: Ref) {
    exists s: Member, v, t :: s.0 == w && BestFor(repo, scope, g, s, v) && (s.1, v.original) in repo.manifests &&
                      t in Targets(w, repo.manifests[(s.1, v.original)]) && t.ref == r
  }

  /** From the request along the manifests of best versions, through packages that are not installed. */
  ghost predicate CallPath(repo: Repository, scope: Scope, g: Graph, of: Ref, p: seq<Ref>) {
    && |p| > 1 && p[0] == of && of in g && p[1] in g[of].edges
    && AllOpen(repo, scope, g, p[1..])
    && AllNamed(repo, scope, g, p[1..])
  }

  /** Not installed, but with a version to install. */
  ghost predicate AllOpen(repo: Repository, scope: Scope, g: Graph, p: seq<Ref>) {
    forall r :: r in p ==> r !in Installed(g) && HasBest(repo, scope, g, r)
  }

  ghost predicate AllNamed(repo: Repository, scope: Scope, g: Graph, p: seq<Ref>) {
    forall i :: 0 <= i < |p| - 1 ==> Names(repo, scope, g, p[i], p[i + 1])
  }

  /** What the request calls for, by the graph it starts from and the repositories alone. */
  ghost predicate Called(repo: Repository, scope: Scope, g: Graph, of: Ref, r: Ref) {
    exists p :: CallPath(repo, scope, g, of, p) && p[|p| - 1] == r
  }

  /** The manifests of the best versions of what is called allow each other's best versions. */
  ghost predicate Tolerant(repo: Repository, scope: Scope, g: Graph, of: Ref) {
    forall s: Member, t: Member, v, w ::
      Called(repo, scope, g, of, s.0) && Called(repo, scope, g, of, t.0) &&
      BestFor(repo, scope, g, s, v) && BestFor(repo, scope, g, t, w) && (s.1, v.original) in repo.manifests ==>
        AllowsIn(repo, s, v, t.0, w)
  }

  lemma CalledFirst(repo: Repository, scope: Scope, g: Graph, of: Ref, r: Ref)
    requires of in g && r in g[of].edges && r !in Installed(g) && HasBest(repo, scope, g, r)
    ensures Called(repo, scope, g, of, r)
  {
    assert [of, r][1..] == [r];
    assert CallPath(repo, scope, g, of, [of, r]);
  }

  lemma CalledNext(repo: Repository, scope: Scope, g: Graph, of: Ref, w: Ref, r: Ref)
    requires Called(repo, scope, g, of, w) && Names(repo, scope, g, w, r)
    requires r !in Installed(g) && HasBest(repo, scope, g, r)
    ensures Called(repo, scope, g, of, r)
  {
    var p :| CallPath(repo, scope, g, of, p) && p[|p| - 1] == w;
    var q := p + [r];
    assert q[1..] == p[1..] + [r];
    assert p[1..][|p| - 2] == w;
    OpenSnoc(repo, scope, g, p[1..], r);
    NamedSnoc(repo, scope, g, p[1..], r);
    assert q[0] == p[0] && q[1] == p[1] && q[|q| - 1] == r;
    assert CallPath(repo, scope, g, of, q);
  }

  lemma OpenSnoc(repo: Repository, scope: Scope, g: Graph, p: seq<Ref>, r: Ref)
    requires AllOpen(repo, scope, g, p) && r !in Installed(g) && HasBest(repo, scope, g, r)
    ensures AllOpen(repo, scope, g, p + [r])
  {
  }

  lemma NamedSnoc(repo: Repository, scope: Scope, g: Graph, p: seq<Ref>, r: Ref)
    requires p != [] && AllNamed(repo, scope, g, p) && Names(repo, scope, g, p[|p| - 1], r)
    ensures AllNamed(repo, scope, g, p + [r])
  {
    var q := p + [r];
    forall i | 0 <= i < |q| - 1
      ensures Names(repo, scope, g, q[i], q[i + 1])
    {
      NameAt(repo, scope, g, p, r, i);
    }
  }

  lemma NameAt(repo: Repository, scope: Scope, g: Graph, p: seq<Ref>, r: Ref, i: nat)
    requires AllNamed(repo, scope, g, p) && i < |p| && Names(repo, scope, g, p[|p| - 1], r)
    ensures Names(repo, scope, g, (p + [r])[i], (p + [r])[i + 1])
  {
    var a, b := (p + [r])[i], (p + [r])[i + 1];
    assert a == p[i] && b == if i < |p| - 1 then p[i + 1] else r;
  }

  lemma BestIsUnique(repo: Repository, scope: Scope, g: Graph, s: Member, v: Version, w: Version)
    requires Ranked(repo, scope, g) && BestFor(repo, scope, g, s, v) && BestFor(repo, scope, g, s, w)
    ensures v == w
  {
    RankedNeverClash(g, s.0, repo.versions[s.1]);
  }

  /** When some version is acceptable, one is the best. */
  lemma {:induction false} BestExists(g: Graph, r: Ref, versions: seq<Version>) returns (best: Option<Version>)
    ensures IsMax(g, r, versions, best)
  {
    if versions == [] {
      best := None;
    } else {
      var n := |versions| - 1;
      var before := BestExists(g, r, versions[..n]);
      var v := versions[n];
      best := if (before.None? || IsVersionUpgradable(before.value, v)) && Acceptable(g, r, v) then Some(v) else before;
      MaxStep(g, r, versions[..n], v, before, best);
      assert versions == versions[..n] + [v];
    }
  }

  // ---------------------------------------------------------------- every pick is a best version

  /** The vertex has the edges that the manifest of its best version gives it. */
  ghost predicate IsBestNode(repo: Repository, scope: Scope, g: Graph, h: Graph, w: Ref) {
    exists s: Member, v :: s.0 == w && BestFor(repo, scope, g, s, v) && (s.1, v.original) in repo.manifests &&
                   w in h && h[w].edges == EdgesFrom(map[], Targets(w, repo.manifests[(s.1, v.original)]))
  }

  ghost predicate KeepsBest(repo: Repository, scope: Scope, g: Graph, of: Ref, h: Graph) {
    forall s: Member, v :: Called(repo, scope, g, of, s.0) && BestFor(repo, scope, g, s, v) ==> Acceptable(h, s.0, v)
  }

  /** h is reached from g by picks of called packages in their best versions. */
  ghost predicate BestSoFar(repo: Repository, scope: Scope, g: Graph, of: Ref, h: Graph, owners: set<Ref>) {
    && Grows(g, h) && Covered(scope, h) && of in Installed(g)
    && KeepsBest(repo, scope, g, of, h)
    && forall w :: w in owners && w != of ==> Called(repo, scope, g, of, w) && IsBestNode(repo, scope, g, h, w)
  }

  lemma PickHasBest(repo: Repository, scope: Scope, g: Graph, h: Graph, owners: set<Ref>, q: Requirement)
    requires Grows(g, h) && Covered(scope, h) && LegalPick(repo, h, owners, q)
    ensures exists v :: BestFor(repo, scope, g, (RequiredRef(q), q.name), v)
    ensures HasBest(repo, scope, g, RequiredRef(q)) && RequiredRef(q) !in Installed(g)
  {
    var s := (RequiredRef(q), q.name);
    GrowsConstrains(g, h, s.0, q.version);
    var best := BestExists(g, s.0, repo.versions[q.name]);
    assert s in scope;
    assert s.0 == RequiredRef(q) && BestFor(repo, scope, g, s, best.value);
  }

  lemma PickIsCalled(repo: Repository, scope: Scope, g: Graph, of: Ref, h: Graph, owners: set<Ref>, q: Requirement)
    requires BestSoFar(repo, scope, g, of, h, owners) && LegalPick(repo, h, owners, q)
    ensures Called(repo, scope, g, of, RequiredRef(q))
  {
    var r := RequiredRef(q);
    PickHasBest(repo, scope, g, h, owners, q);
    var w :| w in owners && w in h && r in h[w].edges;
    if w == of {
      assert h[of] == g[of];
      CalledFirst(repo, scope, g, of, r);
    } else {
      assert IsBestNode(repo, scope, g, h, w);
      var s: Member, v :| s.0 == w && BestFor(repo, scope, g, s, v) && (s.1, v.original) in repo.manifests &&
                  h[w].edges == EdgesFrom(map[], Targets(w, repo.manifests[(s.1, v.original)]));
      EdgesFromKeys(map[], Targets(w, repo.manifests[(s.1, v.original)]));
      assert Names(repo, scope, g, w, r);
      CalledNext(repo, scope, g, of, w, r);
    }
  }

  /** A version picked while the best ones are still acceptable is the best one. */
  lemma PickIsBest(repo: Repository, scope: Scope, g: Graph, of: Ref, h: Graph, owners: set<Ref>, q: Requirement)
    requires Ranked(repo, scope, g) && BestSoFar(repo, scope, g, of, h, owners) && LegalPick(repo, h, owners, q)
    ensures BestFor(repo, scope, g, (RequiredRef(q), q.name), q.version)
  {
    var s, versions := (RequiredRef(q), q.name), repo.versions[q.name];
    PickHasBest(repo, scope, g, h, owners, q);
    PickIsCalled(repo, scope, g, of, h, owners, q);
    var best :| BestFor(repo, scope, g, s, best);
    assert s.0 == RequiredRef(q) && Acceptable(h, s.0, best);
    GrowsConstrains(g, h, s.0, q.version);
    RankedNeverClash(g, s.0, versions);
    assert NoClash(h, s.0, versions) by {
      forall v | v in versions && Acceptable(h, s.0, v)
        ensures Acceptable(g, s.0, v)
      {
        GrowsConstrains(g, h, s.0, v);
      }
    }
    assert RankedFor(g, s.0, versions);
  }

  lemma BestPickKeepsBest(
    repo: Repository, scope: Scope, g: Graph, of: Ref, h: Graph, owners: set<Ref>, q: Requirement)
    requires Tolerant(repo, scope, g, of) && KeepsBest(repo, scope, g, of, h) && LegalPick(repo, h, owners, q)
    requires Called(repo, scope, g, of, RequiredRef(q))
    requires BestFor(repo, scope, g, (RequiredRef(q), q.name), q.version)
    ensures KeepsBest(repo, scope, g, of, Step(repo, h, q))
  {
    var s := (RequiredRef(q), q.name);
    forall t: Member, w | Called(repo, scope, g, of, t.0) && BestFor(repo, scope, g, t, w)
      ensures Acceptable(Step(repo, h, q), t.0, w)
    {
      assert Called(repo, scope, g, of, s.0) && AllowsIn(repo, s, q.version, t.0, w);
      PickConstrains(repo, h, owners, q, t.0, w);
    }
  }

  lemma StillBestSoFar(repo: Repository, scope: Scope, g: Graph, of: Ref, h: Graph, owners: set<Ref>, q: Requirement)
    requires Tolerant(repo, scope, g, of) && Closed(repo, scope)
    requires BestSoFar(repo, scope, g, of, h, owners) && owners <= Installed(h) && LegalPick(repo, h, owners, q)
    requires Called(repo, scope, g, of, RequiredRef(q))
    requires BestFor(repo, scope, g, (RequiredRef(q), q.name), q.version)
    ensures BestSoFar(repo, scope, g, of, Step(repo, h, q), owners + {RequiredRef(q)})
  {
    var k := Step(repo, h, q);
    BestPickKeepsBest(repo, scope, g, of, h, owners, q);
    PickGrows(repo, h, owners, q);
    GrowsTrans(g, h, k);
    CoveredPick(repo, scope, h, owners, q);
    PickedIsBestNode(repo, scope, g, h, owners, q);
    OwnersStayBest(repo, scope, g, of, h, k, owners);
    BestSoFarWith(repo, scope, g, of, k, owners, RequiredRef(q));
  }

  lemma BestSoFarWith(repo: Repository, scope: Scope, g: Graph, of: Ref, k: Graph, owners: set<Ref>, r: Ref)
    requires Grows(g, k) && Covered(scope, k) && of in Installed(g) && KeepsBest(repo, scope, g, of, k)
    requires forall w :: w in owners && w != of ==> Called(repo, scope, g, of, w) && IsBestNode(repo, scope, g, k, w)
    requires Called(repo, scope, g, of, r) && IsBestNode(repo, scope, g, k, r)
    ensures BestSoFar(repo, scope, g, of, k, owners + {r})
  {
  }

  lemma OwnersStayBest(repo: Repository, scope: Scope, g: Graph, of: Ref, h: Graph, k: Graph, owners: set<Ref>)
    requires forall w :: w in owners && w != of ==> IsBestNode(repo, scope, g, h, w)
    requires Grows(h, k) && owners <= Installed(h)
    ensures forall w :: w in owners && w != of ==> IsBestNode(repo, scope, g, k, w)
  {
    forall w | w in owners && w != of
      ensures IsBestNode(repo, scope, g, k, w)
    {
      BestNodeStays(repo, scope, g, h, k, w);
    }
  }

  lemma PickedIsBestNode(repo: Repository, scope: Scope, g: Graph, h: Graph, owners: set<Ref>, q: Requirement)
    requires LegalPick(repo, h, owners, q) && BestFor(repo, scope, g, (RequiredRef(q), q.name), q.version)
    ensures IsBestNode(repo, scope, g, Step(repo, h, q), RequiredRef(q))
  {
    var s := (RequiredRef(q), q.name);
    PickGrows(repo, h, owners, q);
    assert s.0 == RequiredRef(q) && BestFor(repo, scope, g, s, q.version) && (s.1, q.version.original) in repo.manifests;
  }

  lemma BestNodeStays(repo: Repository, scope: Scope, g: Graph, h: Graph, k: Graph, w: Ref)
    requires IsBestNode(repo, scope, g, h, w) && Grows(h, k) && w in Installed(h)
    ensures IsBestNode(repo, scope, g, k, w)
  {
    assert k[w] == h[w];
  }

  ghost predicate BestPicks(repo: Repository, scope: Scope, g: Graph, reqs: seq<Requirement>) {
    forall q :: q in reqs ==> BestFor(repo, scope, g, (RequiredRef(q), q.name), q.version)
  }

  ghost predicate AllCalled(repo: Repository, scope: Scope, g: Graph, of: Ref, reqs: seq<Requirement>) {
    forall q :: q in reqs ==> Called(repo, scope, g, of, RequiredRef(q))
  }

  /** Every pick of a run is called for, in its best version by the constraints of the start. */
  lemma {:induction false} PicksAreBest(
    repo: Repository, scope: Scope, g: Graph, of: Ref, h: Graph, owners: set<Ref>, reqs: seq<Requirement>)
    requires Ranked(repo, scope, g) && Tolerant(repo, scope, g, of) && Closed(repo, scope)
    requires BestSoFar(repo, scope, g, of, h, owners) && owners <= Installed(h) && LegalRun(repo, h, owners, reqs)
    ensures BestPicks(repo, scope, g, reqs) && AllCalled(repo, scope, g, of, reqs)
    ensures KeepsBest(repo, scope, g, of, Replay(repo, h, reqs))
    decreases |reqs|
  {
    if reqs != [] {
      var q := reqs[0];
      PickIsCalled(repo, scope, g, of, h, owners, q);
      PickIsBest(repo, scope, g, of, h, owners, q);
      StillBestSoFar(repo, scope, g, of, h, owners, q);
      PickGrows(repo, h, owners, q);
      PicksAreBest(repo, scope, g, of, Step(repo, h, q), owners + {RequiredRef(q)}, reqs[1..]);
      MoreBestPicks(repo, scope, g, of, reqs);
    }
  }

  lemma MoreBestPicks(repo: Repository, scope: Scope, g: Graph, of: Ref, reqs: seq<Requirement>)
    requires reqs != [] && BestPicks(repo, scope, g, reqs[1..]) && AllCalled(repo, scope, g, of, reqs[1..])
    requires Called(repo, scope, g, of, RequiredRef(reqs[0]))
    requires BestFor(repo, scope, g, (RequiredRef(reqs[0]), reqs[0].name), reqs[0].version)
    ensures BestPicks(repo, scope, g, reqs) && AllCalled(repo, scope, g, of, reqs)
  {
    assert reqs == [reqs[0]] + reqs[1..];
  }

  lemma CoveredPick(repo: Repository, scope: Scope, g: Graph, owners: set<Ref>, q: Requirement)
    requires Closed(repo, scope) && Covered(scope, g) && LegalPick(repo, g, owners, q)
    ensures Covered(scope, Step(repo, g, q))
  {
    var m := ManifestOf(repo, q);
    AddedEffect(g, RequiredRef(q), m, q.version, ManualFlag(g, m.name));
    assert AddedRef(RequiredRef(q), m) == RequiredRef(q);
    CoveredStep(repo, scope, g, RequiredRef(q), q.version, ManualFlag(g, m.name));
  }

  lemma {:induction false} RunCovered(repo: Repository, scope: Scope, g: Graph, owners: set<Ref>, reqs: seq<Requirement>)
    requires Closed(repo, scope) && Covered(scope, g) && LegalRun(repo, g, owners, reqs)
    ensures Covered(scope, Replay(repo, g, reqs))
    decreases |reqs|
  {
    if reqs != [] {
      CoveredPick(repo, scope, g, owners, reqs[0]);
      RunCovered(repo, scope, Step(repo, g, reqs[0]), owners + {RequiredRef(reqs[0])}, reqs[1..]);
    }
  }

  // ---------------------------------------------------------------- the outcome, from the inputs alone

  /** What is assumed of a request: labels are unambiguous, and versions are ranked. */
  ghost predicate Request(repo: Repository, scope: Scope, g: Graph, of: Ref) {
    && WellFormed(g) && of in Installed(g)
    && Closed(repo, scope) && Covered(scope, g) && SingleLabels(scope) && Ranked(repo, scope, g)
  }

  ghost predicate Complete(repo: Repository, g: Graph, h: Graph, of: Ref, reqs: seq<Requirement>) {
    Resolved(repo, g, h, of, reqs) && AllSettled(repo, h, {of})
  }

  lemma CompletePicks(repo: Repository, scope: Scope, g: Graph, h: Graph, of: Ref, reqs: seq<Requirement>)
    requires Request(repo, scope, g, of) && Tolerant(repo, scope, g, of) && Complete(repo, g, h, of, reqs)
    ensures BestPicks(repo, scope, g, reqs) && KeepsBest(repo, scope, g, of, h)
    ensures forall r :: r in RequiredRefs(reqs) ==> Called(repo, scope, g, of, r)
  {
    PicksAreBest(repo, scope, g, of, g, {of}, reqs);
  }

  lemma CallPrefix(repo: Repository, scope: Scope, g: Graph, of: Ref, p: seq<Ref>)
    requires CallPath(repo, scope, g, of, p) && |p| > 2
    ensures CallPath(repo, scope, g, of, p[..|p| - 1])
    ensures Names(repo, scope, g, p[|p| - 2], p[|p| - 1])
  {
    var t := p[1..];
    assert p[..|p| - 1][1..] == t[..|t| - 1];
    assert t[|t| - 2] == p[|p| - 2] && t[|t| - 1] == p[|p| - 1];
  }

  /** What is called for gets installed: its best version stays acceptable. */
  lemma {:induction false} CalledIsRequired(
    repo: Repository, scope: Scope, g: Graph, h: Graph, of: Ref, reqs: seq<Requirement>, p: seq<Ref>)
    requires Request(repo, scope, g, of) && Complete(repo, g, h, of, reqs)
    requires BestPicks(repo, scope, g, reqs) && KeepsBest(repo, scope, g, of, h)
    requires CallPath(repo, scope, g, of, p)
    ensures p[|p| - 1] in RequiredRefs(reqs)
    decreases |p|
  {
    var n := |p| - 1;
    var w, r := p[n - 1], p[n];
    assert r in p[1..];
    if n == 1 {
      RunGrows(repo, g, {of}, reqs);
      assert h[of] == g[of];
    } else {
      CallPrefix(repo, scope, g, of, p);
      CalledIsRequired(repo, scope, g, h, of, reqs, p[..n]);
      NamedIsDependency(repo, scope, g, h, of, reqs, w, r);
    }
    assert Called(repo, scope, g, of, r);
    DependencyIsRequired(repo, scope, g, h, of, reqs, w, r);
  }

  lemma DependencyIsRequired(
    repo: Repository, scope: Scope, g: Graph, h: Graph, of: Ref, reqs: seq<Requirement>, w: Ref, r: Ref)
    requires Request(repo, scope, g, of) && Complete(repo, g, h, of, reqs) && KeepsBest(repo, scope, g, of, h)
    requires w == of || w in RequiredRefs(reqs)
    requires w in h && r in h[w].edges && Called(repo, scope, g, of, r)
    requires r !in Installed(g) && HasBest(repo, scope, g, r)
    ensures r in RequiredRefs(reqs)
  {
    RunInstalls(repo, g, {of}, reqs);
    RunCovered(repo, scope, g, {of}, reqs);
    assert Settled(repo, h, r);
    var s: Member, v :| s.0 == r && BestFor(repo, scope, g, s, v);
    assert Acceptable(h, s.0, v);
    if r !in Installed(h) {
      assert false;
    }
  }

  lemma NamedIsDependency(
    repo: Repository, scope: Scope, g: Graph, h: Graph, of: Ref, reqs: seq<Requirement>, w: Ref, r: Ref)
    requires Request(repo, scope, g, of) && Complete(repo, g, h, of, reqs) && BestPicks(repo, scope, g, reqs)
    requires w in RequiredRefs(reqs) && Names(repo, scope, g, w, r)
    ensures w in h && r in h[w].edges
  {
    var s: Member, v, t :| s.0 == w && BestFor(repo, scope, g, s, v) && (s.1, v.original) in repo.manifests &&
                   t in Targets(w, repo.manifests[(s.1, v.original)]) && t.ref == r;
    var i :| 0 <= i < |reqs| && RequiredRef(reqs[i]) == w;
    assert reqs[i] in reqs;
    assert (w, reqs[i].name) == s;
    BestIsUnique(repo, scope, g, s, v, reqs[i].version);
    PickedStays(repo, g, {of}, reqs, i);
    EdgesFromKeys(map[], Targets(w, repo.manifests[(s.1, v.original)]));
  }

  /**
   The resolution adds exactly what the request calls for, in the best versions, whatever the order: the
   outcome is determined by the graph it starts from and the repositories.
   */
  lemma AddsExactlyWhatIsCalled(
    repo: Repository, scope: Scope, g: Graph, h: Graph, of: Ref, reqs: seq<Requirement>, r: Ref)
    requires Request(repo, scope, g, of) && Tolerant(repo, scope, g, of) && Complete(repo, g, h, of, reqs)
    ensures r in RequiredRefs(reqs) <==> Called(repo, scope, g, of, r)
  {
    CompletePicks(repo, scope, g, h, of, reqs);
    if Called(repo, scope, g, of, r) {
      var p :| CallPath(repo, scope, g, of, p) && p[|p| - 1] == r;
      CalledIsRequired(repo, scope, g, h, of, reqs, p);
    }
  }

  /** The outcome is what is called for, in best versions, without a conflict among the packages added. */
  ghost predicate BestOutcome(
    repo: Repository, scope: Scope, g: Graph, h: Graph, of: Ref, reqs: seq<Requirement>)
  {
    && (forall r :: r in RequiredRefs(reqs) <==> Called(repo, scope, g, of, r))
    && BestPicks(repo, scope, g, reqs)
    && forall q, r :: q in RequiredRefs(reqs) && r in RequiredRefs(reqs) ==> !Broken(h, q, r)
  }

  /**
   That is the outcome exactly when the best manifests allow each other's best versions.  The condition
   does not mention the order, so one order has this outcome exactly when all have it.
   */
  lemma BestOutcomeIffTolerant(repo: Repository, scope: Scope, g: Graph, h: Graph, of: Ref, reqs: seq<Requirement>)
    requires Request(repo, scope, g, of) && Complete(repo, g, h, of, reqs)
    ensures BestOutcome(repo, scope, g, h, of, reqs) <==> Tolerant(repo, scope, g, of)
  {
    if Tolerant(repo, scope, g, of) {
      CompletePicks(repo, scope, g, h, of, reqs);
      forall r
        ensures r in RequiredRefs(reqs) <==> Called(repo, scope, g, of, r)
      {
        AddsExactlyWhatIsCalled(repo, scope, g, h, of, reqs, r);
      }
      forall q, r | q in RequiredRefs(reqs) && r in RequiredRefs(reqs)
        ensures !Broken(h, q, r)
      {
        BestIsUnbroken(repo, scope, g, h, of, reqs, q, r);
      }
    }
    if BestOutcome(repo, scope, g, h, of, reqs) {
      forall s: Member, t: Member, v, w |
        Called(repo, scope, g, of, s.0) && Called(repo, scope, g, of, t.0) &&
        BestFor(repo, scope, g, s, v) && BestFor(repo, scope, g, t, w) && (s.1, v.original) in repo.manifests
        ensures AllowsIn(repo, s, v, t.0, w)
      {
        UnbrokenAllows(repo, scope, g, h, of, reqs, s, t, v, w);
      }
    }
  }

  lemma BestIsUnbroken(
    repo: Repository, scope: Scope, g: Graph, h: Graph, of: Ref, reqs: seq<Requirement>, q: Ref, r: Ref)
    requires Complete(repo, g, h, of, reqs) && BestPicks(repo, scope, g, reqs) && KeepsBest(repo, scope, g, of, h)
    requires q in RequiredRefs(reqs) && r in RequiredRefs(reqs) && Called(repo, scope, g, of, r)
    ensures !Broken(h, q, r)
  {
    RunInstalls(repo, g, {of}, reqs);
    var i :| 0 <= i < |reqs| && RequiredRef(reqs[i]) == r;
    assert reqs[i] in reqs;
    PickedStays(repo, g, {of}, reqs, i);
    assert (r, reqs[i].name).0 == r && Acceptable(h, r, reqs[i].version);
    if r in h[q].edges && h[q].edges[r].Some? {
      assert DependsOn(h, q, r);
      assert ConstrainedBy(h, r, h[q].edges[r].value);
    }
  }

  lemma UnbrokenAllows(
    repo: Repository, scope: Scope, g: Graph, h: Graph, of: Ref, reqs: seq<Requirement>,
    s: Member, t: Member, v: Version, w: Version)
    requires Request(repo, scope, g, of) && Complete(repo, g, h, of, reqs) && BestPicks(repo, scope, g, reqs)
    requires s.0 in RequiredRefs(reqs) && t.0 in RequiredRefs(reqs) && !Broken(h, s.0, t.0)
    requires BestFor(repo, scope, g, s, v) && BestFor(repo, scope, g, t, w) && (s.1, v.original) in repo.manifests
    ensures AllowsIn(repo, s, v, t.0, w)
  {
    var i := PickOf(repo, scope, g, of, reqs, s, v);
    var j := PickOf(repo, scope, g, of, reqs, t, w);
    PickedStays(repo, g, {of}, reqs, i);
    PickedStays(repo, g, {of}, reqs, j);
  }

  lemma PickOf(
    repo: Repository, scope: Scope, g: Graph, of: Ref, reqs: seq<Requirement>, s: Member, v: Version)
    returns (i: nat)
    requires Request(repo, scope, g, of) && BestPicks(repo, scope, g, reqs)
    requires s.0 in RequiredRefs(reqs) && BestFor(repo, scope, g, s, v)
    ensures i < |reqs| && RequiredRef(reqs[i]) == s.0 && reqs[i].name == s.1 && reqs[i].version == v
  {
    i :| 0 <= i < |reqs| && RequiredRef(reqs[i]) == s.0;
    assert reqs[i] in reqs;
    assert (s.0, reqs[i].name) == s;
    BestIsUnique(repo, scope, g, s, v, reqs[i].version);
  }

  /** So then the outcome does not depend on the order of the siblings: the same packages in the same versions. */
  lemma OrderDoesNotMatter(
    repo: Repository, scope: Scope, g: Graph, of: Ref, a: seq<Requirement>, h: Graph, b: seq<Requirement>, k: Graph)
    requires Request(repo, scope, g, of) && Tolerant(repo, scope, g, of)
    requires Complete(repo, g, h, of, a) && Complete(repo, g, k, of, b)
    ensures RequiredRefs(a) == RequiredRefs(b)
    ensures SameInstalled(h, k)
  {
    CompletePicks(repo, scope, g, h, of, a);
    CompletePicks(repo, scope, g, k, of, b);
    SameRequired(repo, scope, g, of, a, h, b, k);
    RunInstalls(repo, g, {of}, a);
    RunInstalls(repo, g, {of}, b);
    forall r | r in Installed(h)
      ensures Unlabelled(h[r]) == Unlabelled(k[r])
    {
      if r in Installed(g) {
        SameNodeFromBefore(repo, g, of, a, r);
        SameNodeFromBefore(repo, g, of, b, r);
      } else {
        SameNodeInBoth(repo, scope, g, of, a, b, r);
      }
    }
  }

  lemma SameRequired(
    repo: Repository, scope: Scope, g: Graph, of: Ref, a: seq<Requirement>, h: Graph, b: seq<Requirement>, k: Graph)
    requires Request(repo, scope, g, of) && Tolerant(repo, scope, g, of)
    requires Complete(repo, g, h, of, a) && Complete(repo, g, k, of, b)
    ensures RequiredRefs(a) == RequiredRefs(b)
  {
    forall r
      ensures r in RequiredRefs(a) <==> r in RequiredRefs(b)
    {
      AddsExactlyWhatIsCalled(repo, scope, g, h, of, a, r);
      AddsExactlyWhatIsCalled(repo, scope, g, k, of, b, r);
    }
  }

  lemma SameNodeFromBefore(repo: Repository, g: Graph, of: Ref, a: seq<Requirement>, r: Ref)
    requires LegalRun(repo, g, {of}, a) && r in Installed(g)
    ensures r in Replay(repo, g, a) && Replay(repo, g, a)[r] == g[r]
  {
    RunGrows(repo, g, {of}, a);
  }

  lemma SameNodeInBoth(
    repo: Repository, scope: Scope, g: Graph, of: Ref, a: seq<Requirement>, b: seq<Requirement>, r: Ref)
    requires Request(repo, scope, g, of) && LegalRun(repo, g, {of}, a) && LegalRun(repo, g, {of}, b)
    requires BestPicks(repo, scope, g, a) && BestPicks(repo, scope, g, b)
    requires r in RequiredRefs(a) && r in RequiredRefs(b)
    ensures r in Replay(repo, g, a) && r in Replay(repo, g, b)
    ensures Unlabelled(Replay(repo, g, a)[r]) == Unlabelled(Replay(repo, g, b)[r])
  {
    var i :| 0 <= i < |a| && RequiredRef(a[i]) == r;
    assert a[i] in a;
    var j := PickOf(repo, scope, g, of, b, (r, a[i].name), a[i].version);
    RunIsIndependent(repo, g, {of}, a, a);
    RunIsIndependent(repo, g, {of}, b, b);
    ReplayNode(repo, g, g, a, a[i]);
    ReplayNode(repo, g, g, b, b[j]);
    assert InstalledNode(repo, g, a[i]) == InstalledNode(repo, g, b[j]);
  }
}
