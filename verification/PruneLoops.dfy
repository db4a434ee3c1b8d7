/**
 What ranging over a slice while shifting its backing array comes to: safety whatever each visit
 decides, and the exact outcome when every visit removes.
 */
module PruneLoops {
  import opened OwnedRefs

  // ---------------------------------------------------------------- safety of every loop

  /** The list without its i-th element. */
  function RemovedAt(e: seq<OwnedRef>, i: nat): (f: seq<OwnedRef>)
    requires i < |e|
    ensures |f| == |e| - 1
    ensures forall j :: 0 <= j < |f| ==> f[j] == if j < i then e[j] else e[j + 1]
  {
    e[..i] + e[i + 1..]
  }

  lemma WithoutMembers(e: seq<OwnedRef>, i: nat)
    requires i < |e|
    ensures forall x :: x in RemovedAt(e, i) ==> x in e
    ensures forall x :: x in e && x != e[i] ==> x in RemovedAt(e, i)
  {
    var f := RemovedAt(e, i);
    forall x | x in e && x != e[i]
      ensures x in f
    {
      var j :| 0 <= j < |e| && e[j] == x;
      assert f[if j < i then j else j - 1] == x;
    }
  }

  /** Taking out the first reference to r from a list. */
  lemma WithoutFirst(e: seq<OwnedRef>, r: OwnedRef, f: seq<OwnedRef>)
    requires var i := IndexOf(e, r); f == if i == |e| then e else RemovedAt(e, i)
    ensures forall x :: x in f ==> x in e
    ensures forall x :: x in e && !RefersToSameResource(x, r) ==> x in f
    ensures Distinct(e) ==> Distinct(f)
  {
    var i := IndexOf(e, r);
    if i < |e| {
      WithoutMembers(e, i);
    }
  }

  lemma RemovedMembers(s: Slice, r: OwnedRef)
    requires InBounds(s)
    ensures forall x :: x in Removed(s, r).memory ==> x in s.memory
    ensures forall x :: x in Elements(Removed(s, r)) ==> x in Elements(s)
    ensures forall x :: x in Elements(s) && !RefersToSameResource(x, r) ==> x in Elements(Removed(s, r))
    ensures Distinct(Elements(s)) ==> Distinct(Elements(Removed(s, r)))
  {
    RemovedElements(s, r);
    WithoutFirst(Elements(s), r, Elements(Removed(s, r)));
  }

  lemma AfterVisitMembers(s: Scan, r: OwnedRef, v: Visit)
    requires InBounds(s.slice)
    ensures var t := AfterVisit(s, r, v);
            && (forall x :: x in t.slice.memory ==> x in s.slice.memory)
            && (forall x :: x in Elements(t.slice) ==> x in Elements(s.slice))
            && (forall x :: x in Elements(s.slice) && !RefersToSameResource(x, r) ==> x in Elements(t.slice))
            && (v.Keep? || v.Failed? || v.Abort? ==> t.slice == s.slice)
            && (Distinct(Elements(s.slice)) ==> Distinct(Elements(t.slice)))
            && s.deleted <= t.deleted
  {
    RemovedMembers(s.slice, r);
    RemovedMembers(Removed(s.slice, r), r);
  }

  /** Only references that were in memory at the start are ever seen or kept. */
  lemma {:induction false} OnlyOriginals(s: Scan, i: nat, n: nat, decide: (nat, OwnedRef) -> Visit)
    requires InBounds(s.slice) && n <= |s.slice.memory|
    ensures var t := RangePrune(s, i, n, decide);
            && (forall x :: x in t.slice.memory ==> x in s.slice.memory)
            && (forall x :: x in Elements(t.slice) ==> x in Elements(s.slice))
    decreases n - i
  {
    if i < n && !s.aborted {
      var r := s.slice.memory[i];
      AfterVisitMembers(s, r, decide(i, r));
      OnlyOriginals(AfterVisit(s, r, decide(i, r)), i + 1, n, decide);
    }
  }

  /** Only references that were in memory at the start are deleted, by a visit that decided so. */
  lemma {:induction false} OnlyOriginalsDeleted(s: Scan, i: nat, n: nat, decide: (nat, OwnedRef) -> Visit, x: OwnedRef)
    requires InBounds(s.slice) && n <= |s.slice.memory|
    requires x in RangePrune(s, i, n, decide).deleted && x !in s.deleted
    ensures x in s.slice.memory && exists k: nat :: decide(k, x) == Drop(true)
    decreases n - i
  {
    var r := s.slice.memory[i];
    var t := AfterVisit(s, r, decide(i, r));
    AfterVisitMembers(s, r, decide(i, r));
    if x !in t.deleted {
      OnlyOriginalsDeleted(t, i + 1, n, decide, x);
    }
  }

  /** The loop takes x from the list. */
  ghost predicate Drops(decide: (nat, OwnedRef) -> Visit, i: nat, x: OwnedRef) {
    decide(i, x).Drop? || decide(i, x).DropTwice?
  }

  /**
   A reference leaves the list only when a visit to a reference to the same resource decided so;
   and if that visit decided to delete, the delete was issued.
   */
  lemma {:induction false} LeavesForAReason(s: Scan, i: nat, n: nat, decide: (nat, OwnedRef) -> Visit, x: OwnedRef)
    requires InBounds(s.slice) && n <= |s.slice.memory|
    requires x in Elements(s.slice) && x !in Elements(RangePrune(s, i, n, decide).slice)
    ensures exists k: nat, y :: y in s.slice.memory && RefersToSameResource(x, y) && Drops(decide, k, y) &&
                           (decide(k, y) == Drop(true) ==> y in RangePrune(s, i, n, decide).deleted)
    decreases n - i
  {
    var r := s.slice.memory[i];
    var s1 := AfterVisit(s, r, decide(i, r));
    AfterVisitMembers(s, r, decide(i, r));
    if x in Elements(s1.slice) {
      LeavesForAReason(s1, i + 1, n, decide, x);
      var k: nat, y :| y in s1.slice.memory && RefersToSameResource(x, y) && Drops(decide, k, y) &&
                       (decide(k, y) == Drop(true) ==> y in RangePrune(s1, i + 1, n, decide).deleted);
      assert y in s.slice.memory;
    } else {
      DeletedGrows(s1, i + 1, n, decide);
      assert decide(i, r) == Drop(true) ==> r in s1.deleted;
      assert r in s.slice.memory && RefersToSameResource(x, r) && Drops(decide, i, r);
    }
  }

  lemma {:induction false} DeletedGrows(s: Scan, i: nat, n: nat, decide: (nat, OwnedRef) -> Visit)
    requires InBounds(s.slice) && n <= |s.slice.memory|
    ensures s.deleted <= RangePrune(s, i, n, decide).deleted
    ensures s.failed ==> RangePrune(s, i, n, decide).failed
    decreases n - i
  {
    if i < n && !s.aborted {
      var r := s.slice.memory[i];
      AfterVisitMembers(s, r, decide(i, r));
      DeletedGrows(AfterVisit(s, r, decide(i, r)), i + 1, n, decide);
    }
  }

  lemma {:induction false} StaysDistinct(s: Scan, i: nat, n: nat, decide: (nat, OwnedRef) -> Visit)
    requires InBounds(s.slice) && n <= |s.slice.memory| && Distinct(Elements(s.slice))
    ensures Distinct(Elements(RangePrune(s, i, n, decide).slice))
    decreases n - i
  {
    if i < n && !s.aborted {
      var r := s.slice.memory[i];
      AfterVisitMembers(s, r, decide(i, r));
      StaysDistinct(AfterVisit(s, r, decide(i, r)), i + 1, n, decide);
    }
  }

  lemma {:induction false} NeverLonger(s: Scan, i: nat, n: nat, decide: (nat, OwnedRef) -> Visit)
    requires InBounds(s.slice) && n <= |s.slice.memory|
    ensures RangePrune(s, i, n, decide).slice.length <= s.slice.length
    decreases n - i
  {
    if i < n && !s.aborted {
      var r := s.slice.memory[i];
      NeverLonger(AfterVisit(s, r, decide(i, r)), i + 1, n, decide);
    }
  }

  lemma RemovedShrinks(refs: seq<OwnedRef>, r: OwnedRef)
    requires r in refs
    ensures Removed(Slice(refs, |refs|), r).length < |refs|
  {
    var j :| 0 <= j < |refs| && refs[j] == r;
    assert Elements(Slice(refs, |refs|)) == refs;
    assert IndexOf(refs, r) <= j;
  }

  /** Until something is removed, each place is visited as it is: if one of these visits removes, the list shrinks. */
  lemma {:induction false} SomeDropShrinks(
    refs: seq<OwnedRef>, s: Scan, i: nat, j: nat, decide: (nat, OwnedRef) -> Visit)
    requires s.slice == Slice(refs, |refs|) && !s.aborted && i <= j < |refs| && Drops(decide, j, refs[j])
    requires forall k :: i <= k < j ==> !decide(k, refs[k]).Abort?
    ensures RangePrune(s, i, |refs|, decide).slice.length < |refs|
    decreases j - i
  {
    var t := AfterVisit(s, refs[i], decide(i, refs[i]));
    if Drops(decide, i, refs[i]) {
      RemovedShrinks(refs, refs[i]);
      NeverLonger(t, i + 1, |refs|, decide);
    } else {
      SomeDropShrinks(refs, t, i + 1, j, decide);
    }
  }

  /** What has been deleted is no longer listed. */
  lemma {:induction false} DeletedLeaves(s: Scan, i: nat, n: nat, decide: (nat, OwnedRef) -> Visit, x: OwnedRef)
    requires InBounds(s.slice) && n <= |s.slice.memory| && Distinct(Elements(s.slice))
    requires x in RangePrune(s, i, n, decide).deleted && x !in s.deleted
    ensures !Lists(Elements(RangePrune(s, i, n, decide).slice), x)
    decreases n - i
  {
    var r := s.slice.memory[i];
    var t := AfterVisit(s, r, decide(i, r));
    AfterVisitMembers(s, r, decide(i, r));
    if x in t.deleted {
      RemovedUnlists(s.slice, r);
      OnlyOriginals(t, i + 1, n, decide);
    } else {
      DeletedLeaves(t, i + 1, n, decide, x);
    }
  }

  lemma RemovedUnlists(s: Slice, r: OwnedRef)
    requires InBounds(s) && Distinct(Elements(s))
    ensures !Lists(Elements(Removed(s, r)), r)
  {
    var e := Elements(s);
    RemovedElements(s, r);
    var i := IndexOf(e, r);
    if i < |e| {
      assert Elements(Removed(s, r)) == RemovedAt(e, i);
    }
  }

  // ---------------------------------------------------------------- what each visit comes to

  ghost function VisitedAt(s: Scan, i: nat, n: nat, decide: (nat, OwnedRef) -> Visit, k: nat): OwnedRef
    requires InBounds(s.slice) && i <= k < n <= |s.slice.memory|
    decreases n - i
  {
    var r := s.slice.memory[i];
    if i == k then r else VisitedAt(AfterVisit(s, r, decide(i, r)), i + 1, n, decide, k)
  }

  ghost predicate AgreeAt(
    s: Scan, i: nat, n: nat, decide: (nat, OwnedRef) -> Visit, other: (nat, OwnedRef) -> Visit, k: nat)
    requires InBounds(s.slice) && i <= k < n <= |s.slice.memory|
  {
    var x := VisitedAt(s, i, n, decide, k);
    other(k, x) == decide(k, x)
  }

  /** Decisions that agree on what each visit comes to have the same outcome. */
  lemma {:induction false} SameVisits(
    s: Scan, i: nat, n: nat, decide: (nat, OwnedRef) -> Visit, other: (nat, OwnedRef) -> Visit)
    requires InBounds(s.slice) && n <= |s.slice.memory|
    requires forall k :: i <= k < n ==> AgreeAt(s, i, n, decide, other, k)
    ensures RangePrune(s, i, n, other) == RangePrune(s, i, n, decide)
    decreases n - i
  {
    if i < n && !s.aborted {
      var r := s.slice.memory[i];
      assert AgreeAt(s, i, n, decide, other, i);
      var t := AfterVisit(s, r, decide(i, r));
      var j := i + 1;
      forall k | j <= k < n
        ensures AgreeAt(t, j, n, decide, other, k)
      {
        assert AgreeAt(s, i, n, decide, other, k);
      }
      SameVisits(t, j, n, decide, other);
    }
  }

  ghost predicate FailsAt(decide: (nat, OwnedRef) -> Visit, k: nat, x: OwnedRef) {
    decide(k, x).Failed? || decide(k, x).Abort?
  }

  lemma {:induction false} FailedAt(s: Scan, i: nat, n: nat, decide: (nat, OwnedRef) -> Visit) returns (k: nat)
    requires InBounds(s.slice) && n <= |s.slice.memory| && !s.failed && RangePrune(s, i, n, decide).failed
    ensures i <= k < n && FailsAt(decide, k, VisitedAt(s, i, n, decide, k))
    decreases n - i
  {
    var r := s.slice.memory[i];
    k := i;
    if !FailsAt(decide, i, r) {
      k := FailedAt(AfterVisit(s, r, decide(i, r)), i + 1, n, decide);
    }
  }

  lemma {:induction false} Fails(s: Scan, i: nat, n: nat, decide: (nat, OwnedRef) -> Visit, k: nat)
    requires InBounds(s.slice) && i <= k < n <= |s.slice.memory| && !s.aborted
    requires FailsAt(decide, k, VisitedAt(s, i, n, decide, k))
    ensures RangePrune(s, i, n, decide).failed
    decreases n - i
  {
    var r := s.slice.memory[i];
    var t := AfterVisit(s, r, decide(i, r));
    if FailsAt(decide, i, r) {
      DeletedGrows(t, i + 1, n, decide);
    } else {
      Fails(t, i + 1, n, decide, k);
    }
  }

  ghost predicate VisitFails(refs: seq<OwnedRef>, decide: (nat, OwnedRef) -> Visit, k: nat)
    requires k < |refs|
  {
    FailsAt(decide, k, VisitedAt(Started(refs), 0, |refs|, decide, k))
  }

  /** The loop fails exactly when some visit does, or makes it return early. */
  lemma FailsIff(refs: seq<OwnedRef>, decide: (nat, OwnedRef) -> Visit)
    ensures PrunePass(refs, decide).failed <==> exists k :: 0 <= k < |refs| && VisitFails(refs, decide, k)
  {
    if PrunePass(refs, decide).failed {
      var k := FailedAt(Started(refs), 0, |refs|, decide);
      assert VisitFails(refs, decide, k);
    }
    if k :| 0 <= k < |refs| && VisitFails(refs, decide, k) {
      Fails(Started(refs), 0, |refs|, decide, k);
    }
  }

  // ---------------------------------------------------------------- the exact outcome

  /** Every visit removes. */
  ghost predicate AlwaysDrops(decide: (nat, OwnedRef) -> Visit, refs: seq<OwnedRef>) {
    forall i: nat, x :: x in refs ==> Drops(decide, i, x)
  }

  /** The elements at the odd places 1, 3, ..., 2k - 1. */
  function Odds(refs: seq<OwnedRef>, k: nat): (odds: seq<OwnedRef>)
    requires 2 * k <= |refs|
    ensures |odds| == k && forall j :: 0 <= j < k ==> odds[j] == refs[2 * j + 1]
  {
    if k == 0 then [] else Odds(refs, k - 1) + [refs[2 * k - 1]]
  }

  /**
   The state of an all-removing loop after i of n visits: the first visits remove the elements at
   even places, so odd places and the rest remain; what lies behind the list is the last element.
   */
  ghost predicate AfterEvens(refs: seq<OwnedRef>, s: Slice, i: nat) {
    && 2 * i <= |refs| == |s.memory| && InBounds(s)
    && Elements(s) == Odds(refs, i) + refs[2 * i..]
    && StaleBehind(refs, s)
  }

  ghost predicate StaleBehind(refs: seq<OwnedRef>, s: Slice) {
    refs != [] ==> forall j :: s.length <= j < |s.memory| ==> s.memory[j] == refs[|refs| - 1]
  }

  /** Only the odd places are left, without the last element: no further visit finds anything. */
  ghost predicate AllVisited(refs: seq<OwnedRef>, s: Slice) {
    && |refs| == |s.memory| && InBounds(s)
    && refs != []
    && Elements(s) == Odds(refs, (|refs| - 1) / 2)
    && StaleBehind(refs, s)
  }

  lemma IndexIs(e: seq<OwnedRef>, r: OwnedRef, i: nat)
    requires i < |e| && RefersToSameResource(e[i], r)
    requires forall j :: 0 <= j < i ==> !RefersToSameResource(e[j], r)
    ensures IndexOf(e, r) == i
  {
  }

  lemma NotListed(e: seq<OwnedRef>, r: OwnedRef)
    requires forall j :: 0 <= j < |e| ==> !RefersToSameResource(e[j], r)
    ensures IndexOf(e, r) == |e|
  {
  }

  lemma SplitAt(a: seq<OwnedRef>, b: seq<OwnedRef>)
    requires b != []
    ensures (a + b)[..|a|] == a && (a + b)[|a| + 1..] == b[1..] && (a + b)[|a|] == b[0]
  {
  }

  /** Visit i while 2i is a place of the list: it removes refs[2i]. */
  lemma EvenVisitElements(refs: seq<OwnedRef>, s: Slice, i: nat)
    requires Distinct(refs) && AfterEvens(refs, s, i) && 2 * i < |refs|
    ensures i < s.length && s.memory[i] == refs[2 * i]
    ensures IndexOf(Elements(s), refs[2 * i]) == i
    ensures Elements(Removed(s, refs[2 * i])) == Odds(refs, i) + refs[2 * i + 1..]
  {
    var e, r := Elements(s), refs[2 * i];
    assert |e| == |refs| - i;
    assert s.memory[i] == e[i] == r;
    IndexIs(e, r, i);
    RemovedElements(s, r);
    SplitAt(Odds(refs, i), refs[2 * i..]);
  }

  lemma StillStale(refs: seq<OwnedRef>, s: Slice, r: OwnedRef)
    requires |refs| == |s.memory| && InBounds(s) && StaleBehind(refs, s)
    requires s.length > 0 && s.memory[s.length - 1] == refs[|refs| - 1]
    ensures StaleBehind(refs, Removed(s, r))
  {
  }

  lemma NextOdd(refs: seq<OwnedRef>, i: nat)
    requires 2 * i + 1 < |refs|
    ensures Odds(refs, i) + refs[2 * i + 1..] == Odds(refs, i + 1) + refs[2 * i + 2..]
  {
  }

  lemma EvenVisit(refs: seq<OwnedRef>, s: Slice, i: nat)
    requires Distinct(refs) && AfterEvens(refs, s, i) && 2 * i < |refs|
    ensures s.memory[i] == refs[2 * i]
    ensures var t := Removed(s, s.memory[i]);
            && Removed(t, s.memory[i]) == t
            && if 2 * i + 1 < |refs| then AfterEvens(refs, t, i + 1) else AllVisited(refs, t)
  {
    var t := Removed(s, refs[2 * i]);
    EvenVisitElements(refs, s, i);
    LastOfList(refs, s, i);
    StillStale(refs, s, refs[2 * i]);
    NotAmongRest(refs, i);
    if 2 * i + 1 < |refs| {
      NextOdd(refs, i);
    } else {
      assert refs[2 * i + 1..] == [];
    }
  }

  lemma LastOfList(refs: seq<OwnedRef>, s: Slice, i: nat)
    requires AfterEvens(refs, s, i) && 2 * i < |refs|
    ensures s.length > 0 && s.memory[s.length - 1] == refs[|refs| - 1]
  {
    var e := Elements(s);
    assert |e| == |refs| - i;
    assert e[|e| - 1] == refs[2 * i..][|refs| - 2 * i - 1];
  }

  lemma NotAmongRest(refs: seq<OwnedRef>, i: nat)
    requires Distinct(refs) && 2 * i < |refs|
    ensures var rest := Odds(refs, i) + refs[2 * i + 1..]; IndexOf(rest, refs[2 * i]) == |rest|
  {
    var rest := Odds(refs, i) + refs[2 * i + 1..];
    NotListed(rest, refs[2 * i]);
  }

  /** The first visit behind the list, when the number of elements is even: it removes the last one. */
  lemma LastVisit(refs: seq<OwnedRef>, s: Slice, i: nat)
    requires Distinct(refs) && AfterEvens(refs, s, i) && 2 * i == |refs| && i > 0
    ensures var t := Removed(s, s.memory[i]);
            AllVisited(refs, t) && Removed(t, s.memory[i]) == t
  {
    var e, r := Elements(s), refs[|refs| - 1];
    assert e == Odds(refs, i) && s.memory[i] == r;
    IndexIs(e, r, i - 1);
    RemovedElements(s, r);
    assert Elements(Removed(s, r)) == Odds(refs, i - 1);
    assert s.memory[s.length - 1] == e[i - 1] == r;
    StillStale(refs, s, r);
    NotListed(Odds(refs, i - 1), r);
  }

  /** Later visits see the stale last element, which is no longer listed. */
  lemma StaleVisit(refs: seq<OwnedRef>, s: Slice, i: nat)
    requires Distinct(refs) && AllVisited(refs, s) && s.length <= i < |refs|
    ensures Removed(s, s.memory[i]) == s
  {
    NotListed(Elements(s), s.memory[i]);
  }

  /** Removing twice is removing once when nothing more is found: what a dropping visit comes to. */
  lemma DroppingVisit(refs: seq<OwnedRef>, s: Scan, i: nat, r: OwnedRef, decide: (nat, OwnedRef) -> Visit)
    requires InBounds(s.slice) && AlwaysDrops(decide, refs) && r in refs
    requires Removed(Removed(s.slice, r), r) == Removed(s.slice, r)
    ensures var t := AfterVisit(s, r, decide(i, r));
            t.slice == Removed(s.slice, r) && t.aborted == s.aborted && t.failed == s.failed
  {
    assert Drops(decide, i, r);
  }

  lemma {:induction false} StaleVisits(refs: seq<OwnedRef>, s: Scan, i: nat, decide: (nat, OwnedRef) -> Visit)
    requires Distinct(refs) && AlwaysDrops(decide, refs)
    requires AllVisited(refs, s.slice) && s.slice.length <= i && !s.aborted
    ensures var t := RangePrune(s, i, |refs|, decide); t.slice == s.slice && !t.aborted && t.failed == s.failed
    decreases |refs| - i
  {
    if i < |refs| {
      var r := s.slice.memory[i];
      assert r == refs[|refs| - 1];
      StaleVisit(refs, s.slice, i);
      DroppingVisit(refs, s, i, r, decide);
      StaleVisits(refs, AfterVisit(s, r, decide(i, r)), i + 1, decide);
    }
  }

  lemma OneVisit(refs: seq<OwnedRef>, s: Scan, i: nat, decide: (nat, OwnedRef) -> Visit)
    requires Distinct(refs) && AlwaysDrops(decide, refs) && refs != [] && AfterEvens(refs, s.slice, i)
    ensures var t := AfterVisit(s, s.slice.memory[i], decide(i, s.slice.memory[i]));
            && t.aborted == s.aborted && t.failed == s.failed
            && if 2 * i + 1 < |refs| then AfterEvens(refs, t.slice, i + 1)
               else AllVisited(refs, t.slice) && t.slice.length <= i + 1
  {
    var r := s.slice.memory[i];
    if 2 * i < |refs| {
      EvenVisit(refs, s.slice, i);
    } else {
      assert r == refs[|refs| - 1];
      LastVisit(refs, s.slice, i);
    }
    DroppingVisit(refs, s, i, r, decide);
  }

  lemma {:induction false} AllVisits(refs: seq<OwnedRef>, s: Scan, i: nat, decide: (nat, OwnedRef) -> Visit)
    requires Distinct(refs) && AlwaysDrops(decide, refs)
    requires refs != [] && AfterEvens(refs, s.slice, i) && !s.aborted
    ensures var t := RangePrune(s, i, |refs|, decide); AllVisited(refs, t.slice) && !t.aborted && t.failed == s.failed
    decreases |refs| - i
  {
    var t := AfterVisit(s, s.slice.memory[i], decide(i, s.slice.memory[i]));
    OneVisit(refs, s, i, decide);
    if 2 * i + 1 < |refs| {
      AllVisits(refs, t, i + 1, decide);
    } else {
      StaleVisits(refs, t, i + 1, decide);
    }
  }

  /**
   A pass in which every visit removes does not empty the list: it leaves exactly the elements at the
   odd places, except the last element.
   */
  lemma PruneAllLeavesOdds(refs: seq<OwnedRef>, decide: (nat, OwnedRef) -> Visit)
    requires Distinct(refs) && AlwaysDrops(decide, refs)
    ensures var t := PrunePass(refs, decide);
            && !t.failed && !t.aborted
            && Elements(t.slice) == if refs == [] then [] else Odds(refs, (|refs| - 1) / 2)
  {
    if refs != [] {
      var s := Started(refs);
      assert Elements(s.slice) == Odds(refs, 0) + refs[0..];
      AllVisits(refs, s, 0, decide);
    }
  }

  /** How many such passes empty a list of n references: floor(log2(n + 1)). */
  function PassesToEmpty(n: nat): nat {
    if n == 0 then 0 else 1 + PassesToEmpty((n - 1) / 2)
  }

  function Pow2(k: nat): (p: nat)
    ensures p >= 1
  {
    if k == 0 then 1 else 2 * Pow2(k - 1)
  }

  /** k passes empty a list exactly when it has fewer than 2^(k+1) - 1 references. */
  lemma {:induction false} PassesAreLogarithmic(n: nat, k: nat)
    ensures PassesToEmpty(n) <= k <==> n + 1 < Pow2(k + 1)
    decreases n
  {
    if n > 0 {
      if k > 0 {
        PassesAreLogarithmic((n - 1) / 2, k - 1);
      } else {
        assert Pow2(1) == 2;
      }
    }
  }
}
