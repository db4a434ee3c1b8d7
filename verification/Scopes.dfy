/**
 When the recursion of `addDependencies` is bounded: the finite scopes that the resolver needs exist exactly when the
 components of packages do not nest into themselves.
 */
module Scopes {
  import opened GraphModel
  import opened Installation
  import opened Resolution
  import opened DependencyManager

  /** Components rank below the packages they are part of, in every version. */
  ghost predicate Nests(repo: Repository, rank: string -> nat) {
    forall k, c :: k in repo.manifests && c in repo.manifests[k].components ==> rank(c.name) < rank(k.0)
  }

  // ---------------------------------------------------------------- building a scope

  /** All that some manifest of the repository depends on */
  ghost function AllDependencies(repo: Repository): Scope {
    set k, d | k in repo.manifests && d in repo.manifests[k].dependencies :: (Ref(d.name, ""), d.name)
  }

  /** What the manifests of the members ask for */
  ghost function Asked(repo: Repository, scope: Scope): Scope {
    set s, k, t |
      s in scope && k in repo.manifests && k.0 == s.1 &&
      t in Targets(AddedRef(s.0, repo.manifests[k]), repo.manifests[k]) :: (t.ref, t.packageName)
  }

  /** Members from this rank on have what they ask for. */
  ghost predicate ClosedFrom(repo: Repository, scope: Scope, rank: string -> nat, b: nat) {
    forall s :: s in scope && rank(s.1) >= b ==> Asked(repo, {s}) <= scope
  }

  lemma AskedOfOne(repo: Repository, scope: Scope, x: (Ref, string)) returns (s: (Ref, string))
    requires x in Asked(repo, scope)
    ensures s in scope && x in Asked(repo, {s})
  {
    var s', k, t :|
      s' in scope && k in repo.manifests && k.0 == s'.1 &&
      t in Targets(AddedRef(s'.0, repo.manifests[k]), repo.manifests[k]) && (t.ref, t.packageName) == x;
    s := s';
  }

  /** What is asked for is a dependency, or a component of lower rank. */
  lemma AskedIsLower(repo: Repository, rank: string -> nat, s: (Ref, string), x: (Ref, string))
    requires Nests(repo, rank) && x in Asked(repo, {s})
    ensures x in AllDependencies(repo) || rank(x.1) < rank(s.1)
  {
    var k, t :|
      k in repo.manifests && k.0 == s.1 &&
      t in Targets(AddedRef(s.0, repo.manifests[k]), repo.manifests[k]) && (t.ref, t.packageName) == x;
    var m, ref := repo.manifests[k], AddedRef(s.0, repo.manifests[k]);
    var i :| 0 <= i < |Targets(ref, m)| && Targets(ref, m)[i] == t;
    if i < |m.dependencies| {
      assert m.dependencies[i] in m.dependencies;
    } else {
      assert m.components[i - |m.dependencies|] in m.components;
    }
  }

  lemma CloseRank(repo: Repository, scope: Scope, rank: string -> nat, b: nat)
    requires Nests(repo, rank) && AllDependencies(repo) <= scope && ClosedFrom(repo, scope, rank, b + 1)
    ensures ClosedFrom(repo, scope + Asked(repo, scope), rank, b)
  {
    var more := scope + Asked(repo, scope);
    forall s | s in more && rank(s.1) >= b
      ensures Asked(repo, {s}) <= more
    {
      if s !in scope {
        var s0 := AskedOfOne(repo, scope, s);
        AskedIsLower(repo, rank, s0, s);
      }
      forall x | x in Asked(repo, {s})
        ensures s in scope && x in more
      {
        assert s in scope;
      }
    }
  }

  /** Closing rank after rank closes the scope. */
  lemma {:induction false} CloseAll(repo: Repository, scope: Scope, rank: string -> nat, b: nat) returns (closed: Scope)
    requires Nests(repo, rank) && AllDependencies(repo) <= scope && ClosedFrom(repo, scope, rank, b)
    ensures scope <= closed && Closed(repo, closed)
    decreases b
  {
    if b == 0 {
      closed := scope;
      forall s, v, t |
        s in scope && (s.1, v) in repo.manifests &&
        t in Targets(AddedRef(s.0, repo.manifests[(s.1, v)]), repo.manifests[(s.1, v)])
        ensures (t.ref, t.packageName) in scope
      {
        assert (t.ref, t.packageName) in Asked(repo, {s});
      }
    } else {
      CloseRank(repo, scope, rank, b - 1);
      closed := CloseAll(repo, scope + Asked(repo, scope), rank, b - 1);
    }
  }

  /** A rank above all members */
  lemma {:induction false} AboveAll(scope: Scope, rank: string -> nat) returns (b: nat)
    ensures forall s :: s in scope ==> rank(s.1) < b
    decreases |scope|
  {
    if scope == {} {
      b := 0;
    } else {
      var s :| s in scope;
      var rest := AboveAll(scope - {s}, rank);
      b := if rank(s.1) < rest then rest else rank(s.1) + 1;
    }
  }

  // ---------------------------------------------------------------- names grow

  ghost function Lengths(scope: Scope, name: string): set<nat> {
    set s | s in scope && s.1 == name && s.0.namespace != "" :: |s.0.name|
  }

  ghost function Greatest(s: set<nat>): (b: nat)
    ensures forall x :: x in s ==> x <= b
    ensures if s == {} then b == 0 else b in s
    decreases |s|
  {
    if s == {} then 0
    else
      var x :| x in s;
      var rest := Greatest(s - {x});
      assert s == (s - {x}) + {x};
      if rest < x then x else rest
  }

  /** In a closed scope, components have longer names than the namespaced packages that they are part of. */
  lemma ComponentsAreLonger(repo: Repository, scope: Scope, name: string, v: string, c: Component)
    requires Closed(repo, scope) && (name, v) in repo.manifests && c in repo.manifests[(name, v)].components
    requires Lengths(scope, name) != {}
    ensures Greatest(Lengths(scope, name)) < Greatest(Lengths(scope, c.name))
  {
    var m := repo.manifests[(name, v)];
    var n := Greatest(Lengths(scope, name));
    var s :| s in scope && s.1 == name && s.0.namespace != "" && |s.0.name| == n;
    var i :| 0 <= i < |m.components| && m.components[i] == c;
    var t := ComponentTarget(s.0, m, c);
    assert Targets(s.0, m)[|m.dependencies| + i] == t;
    assert t in Targets(AddedRef(s.0, m), m);
    assert (t.ref, t.packageName) in scope;
    assert |t.ref.name| > n && |t.ref.name| in Lengths(scope, c.name);
  }

  /** A package that is its own component has no finite closed scope once it is to be installed in a namespace. */
  lemma OwnComponentIsUnbounded(repo: Repository, scope: Scope, ref: Ref, name: string, v: string, c: Component)
    requires (name, v) in repo.manifests && c in repo.manifests[(name, v)].components && c.name == name
    requires (ref, name) in scope && ref.namespace != ""
    ensures !Closed(repo, scope)
  {
    if Closed(repo, scope) {
      assert |ref.name| in Lengths(scope, name);
      ComponentsAreLonger(repo, scope, name, v, c);
    }
  }

  // ---------------------------------------------------------------- exactly when

  ghost predicate HasScope(repo: Repository, base: Scope) {
    exists scope :: base <= scope && Closed(repo, scope)
  }

  /** Whatever the resolver starts from, a finite scope bounds what it can come across. */
  ghost predicate Bounded(repo: Repository) {
    forall base :: HasScope(repo, base)
  }

  lemma RankedIsBounded(repo: Repository, rank: string -> nat)
    requires Nests(repo, rank)
    ensures Bounded(repo)
  {
    forall base
      ensures HasScope(repo, base)
    {
      var start := base + AllDependencies(repo);
      var b := AboveAll(start, rank);
      var scope := CloseAll(repo, start, rank, b);
    }
  }

  ghost function AllLengths(scope: Scope): set<nat> {
    set s | s in scope :: |s.0.name|
  }

  /** The room that is left for longer names */
  ghost function Room(scope: Scope, name: string): nat {
    var n, all := Greatest(Lengths(scope, name)), Greatest(AllLengths(scope));
    if n <= all then all - n else 0
  }

  lemma ComponentsHaveLessRoom(repo: Repository, scope: Scope, name: string, v: string, c: Component)
    requires Closed(repo, scope) && (name, v) in repo.manifests && c in repo.manifests[(name, v)].components
    requires Lengths(scope, name) != {}
    ensures Room(scope, c.name) < Room(scope, name)
  {
    ComponentsAreLonger(repo, scope, name, v, c);
    var n := Greatest(Lengths(scope, c.name));
    var s :| s in scope && s.1 == c.name && s.0.namespace != "" && |s.0.name| == n;
    assert n in AllLengths(scope);
  }

  /** In a closed scope that has every package in some namespace, this is a rank. */
  lemma BoundedIsRanked(repo: Repository) returns (rank: string -> nat)
    requires Bounded(repo)
    ensures Nests(repo, rank)
  {
    var base: Scope := set k | k in repo.manifests :: (Ref("", "namespace"), k.0);
    assert HasScope(repo, base);
    var scope :| base <= scope && Closed(repo, scope);
    rank := name => Room(scope, name);
    forall k, c | k in repo.manifests && c in repo.manifests[k].components
      ensures rank(c.name) < rank(k.0)
    {
      assert (Ref("", "namespace"), k.0) in base;
      assert |""| in Lengths(scope, k.0);
      assert k == (k.0, k.1);
      ComponentsHaveLessRoom(repo, scope, k.0, k.1, c);
    }
  }

  /** The resolver is bounded exactly when components can be ranked, that is, when none nests into itself. */
  lemma BoundedIff(repo: Repository)
    ensures Bounded(repo) <==> exists rank :: Nests(repo, rank)
  {
    if Bounded(repo) {
      var rank := BoundedIsRanked(repo);
    }
    if rank :| Nests(repo, rank) {
      RankedIsBounded(repo, rank);
    }
  }
}
