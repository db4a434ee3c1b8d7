/**
 Owned-reference lists, as `internal/controller/owners/utils/owned_resources.go` and the prune loops
 of `internal/controller/common.go` treat them.

 `Remove` shifts the elements of the backing array in place and shortens the slice header.  The
 prune loops range over the header as it was at the start, while `Remove` shifts the same array
 under them: elements are skipped, and the stale last element is visited again.
 */
module OwnedRefs {

  datatype OwnedRef = OwnedRef(
    group: string,
    version: string,
    kind: string,
    name: string,
    namespace: string,
    markedForDeletion: bool)

  predicate RefersToSameResource(a: OwnedRef, b: OwnedRef) {
    && a.group == b.group && a.version == b.version && a.kind == b.kind
    && a.name == b.name && a.namespace == b.namespace
  }

  /** All but the mark counts. */
  lemma SameButForTheMark(a: OwnedRef, b: OwnedRef)
    ensures RefersToSameResource(a, b) <==> a.(markedForDeletion := b.markedForDeletion) == b
  {
  }

  predicate Lists(refs: seq<OwnedRef>, r: OwnedRef) {
    exists x :: x in refs && RefersToSameResource(x, r)
  }

  ghost predicate Distinct(refs: seq<OwnedRef>) {
    forall i, j :: 0 <= i < j < |refs| ==> !RefersToSameResource(refs[i], refs[j])
  }

  lemma ListsAppend(refs: seq<OwnedRef>, x: OwnedRef)
    ensures forall r :: Lists(refs + [x], r) <==> Lists(refs, r) || RefersToSameResource(x, r)
  {
    assert forall y :: y in refs + [x] <==> y in refs || y == x;
  }

  // ---------------------------------------------------------------- Add

  ghost function WithAdded(refs: seq<OwnedRef>, newRefs: seq<OwnedRef>): seq<OwnedRef>
    decreases |newRefs|
  {
    if newRefs == [] then refs
    else
      var before := WithAdded(refs, newRefs[..|newRefs| - 1]);
      var x := newRefs[|newRefs| - 1];
      if Lists(before, x) then before else before + [x]
  }

  /** Adding lists exactly the old and the new, keeps the old in place, and never lists one twice. */
  lemma {:induction false} WithAddedLists(refs: seq<OwnedRef>, newRefs: seq<OwnedRef>)
    ensures var result := WithAdded(refs, newRefs);
            && refs <= result
            && (forall r :: Lists(result, r) <==> Lists(refs, r) || Lists(newRefs, r))
            && (forall x :: x in result ==> x in refs || x in newRefs)
            && (Distinct(refs) ==> Distinct(result))
    decreases |newRefs|
  {
    if newRefs != [] {
      var front, x := newRefs[..|newRefs| - 1], newRefs[|newRefs| - 1];
      WithAddedLists(refs, front);
      var before := WithAdded(refs, front);
      assert newRefs == front + [x];
      ListsAppend(front, x);
      ListsAppend(before, x);
    }
  }

  /** `Add`: appends the references that are not listed yet. */
  method Add(refs: seq<OwnedRef>, newRefs: seq<OwnedRef>) returns (result: seq<OwnedRef>, changed: bool)
    ensures result == WithAdded(refs, newRefs) && (changed <==> result != refs)
  {
    result, changed := refs, false;
    for i := 0 to |newRefs|
      invariant result == WithAdded(refs, newRefs[..i]) && refs <= result && (changed <==> result != refs)
    {
      assert newRefs[..i + 1][..i] == newRefs[..i];
      if !Lists(result, newRefs[i]) {
        result, changed := result + [newRefs[i]], true;
      }
    }
    assert newRefs[..|newRefs|] == newRefs;
  }

  // ---------------------------------------------------------------- Remove

  /** The first index of a reference to the same resource, or the length. */
  function IndexOf(refs: seq<OwnedRef>, r: OwnedRef): (i: nat)
    ensures i <= |refs|
    ensures i < |refs| ==> RefersToSameResource(refs[i], r)
    ensures forall j :: 0 <= j < i ==> !RefersToSameResource(refs[j], r)
  {
    if refs == [] then 0
    else if RefersToSameResource(refs[0], r) then 0
    else 1 + IndexOf(refs[1..], r)
  }

  /** A slice: a backing array and how much of it the header covers. */
  datatype Slice = Slice(memory: seq<OwnedRef>, length: nat)

  ghost predicate InBounds(s: Slice) {
    s.length <= |s.memory|
  }

  ghost function Elements(s: Slice): seq<OwnedRef>
    requires InBounds(s)
  {
    s.memory[..s.length]
  }

  /** `Remove`: what follows moves one place down; the last place keeps its old content. */
  ghost function Removed(s: Slice, r: OwnedRef): (t: Slice)
    requires InBounds(s)
    ensures InBounds(t) && |t.memory| == |s.memory|
  {
    var i := IndexOf(Elements(s), r);
    if i == s.length then s
    else Slice(s.memory[..i] + s.memory[i + 1..s.length] + s.memory[s.length - 1..], s.length - 1)
  }

  lemma RemovedElements(s: Slice, r: OwnedRef)
    requires InBounds(s)
    ensures var i := IndexOf(Elements(s), r);
            Elements(Removed(s, r)) ==
            if i == s.length then Elements(s) else Elements(s)[..i] + Elements(s)[i + 1..]
  {
  }

  /** `Remove` and `RemoveOwnedResourceRef` on the array */
  method Remove(a: array<OwnedRef>, length: nat, toRemove: OwnedRef) returns (newLength: nat, found: bool)
    requires length <= a.Length
    modifies a
    ensures Slice(a[..], newLength) == Removed(Slice(old(a[..]), length), toRemove)
    ensures found <==> Lists(old(a[..length]), toRemove)
  {
    var i := 0;
    while i < length && !RefersToSameResource(a[i], toRemove)
      invariant 0 <= i <= length
      invariant forall j :: 0 <= j < i ==> !RefersToSameResource(a[j], toRemove)
    {
      i := i + 1;
    }
    assert i == IndexOf(a[..length], toRemove);
    if i == length {
      return length, false;
    }
    assert a[i] in a[..length];
    ShiftDown(a, i, length);
    newLength, found := length - 1, true;
  }

  /** `append(s[:i], s[i+1:]...)` in place */
  method ShiftDown(a: array<OwnedRef>, i: nat, length: nat)
    requires i < length <= a.Length
    modifies a
    ensures a[..] == old(a[..i] + a[i + 1..length] + a[length - 1..])
  {
    var j := i;
    while j < length - 1
      invariant i <= j <= length - 1
      invariant forall k :: 0 <= k < i ==> a[k] == old(a[k])
      invariant forall k :: i <= k < j ==> a[k] == old(a[k + 1])
      invariant forall k :: j <= k < a.Length ==> a[k] == old(a[k])
    {
      a[j] := a[j + 1];
      j := j + 1;
    }
  }

  // ---------------------------------------------------------------- the prune loops

  /** What one visit of a prune loop comes to. */
  datatype Visit =
    | Keep                  // still current
    | Failed                // an API error: the reference stays, and so does the error
    | Drop(delete: bool)    // removed from the list, after deleting the object or not
    | DropTwice             // not found: removed, and removed again at the end of the loop body
    | Abort                 // the function returns from the middle of the loop

  datatype Scan = Scan(slice: Slice, failed: bool, aborted: bool, deleted: seq<OwnedRef>)

  ghost function AfterVisit(s: Scan, r: OwnedRef, v: Visit): (t: Scan)
    requires InBounds(s.slice)
    ensures InBounds(t.slice) && |t.slice.memory| == |s.slice.memory|
  {
    match v
    case Keep => s
    case Failed => s.(failed := true)
    case Drop(delete) =>
      s.(slice := Removed(s.slice, r), deleted := if delete then s.deleted + [r] else s.deleted)
    case DropTwice => s.(slice := Removed(Removed(s.slice, r), r))
    case Abort => s.(failed := true, aborted := true)
  }

  /** The loop from visit i on; element i is read from the shifted array at that moment. */
  ghost function RangePrune(s: Scan, i: nat, n: nat, decide: (nat, OwnedRef) -> Visit): (t: Scan)
    requires InBounds(s.slice) && n <= |s.slice.memory|
    ensures InBounds(t.slice) && |t.slice.memory| == |s.slice.memory|
    decreases n - i
  {
    if i >= n || s.aborted then s
    else
      var r := s.slice.memory[i];
      RangePrune(AfterVisit(s, r, decide(i, r)), i + 1, n, decide)
  }

  ghost function Started(refs: seq<OwnedRef>): Scan {
    Scan(Slice(refs, |refs|), false, false, [])
  }

  ghost function PrunePass(refs: seq<OwnedRef>, decide: (nat, OwnedRef) -> Visit): Scan {
    RangePrune(Started(refs), 0, |refs|, decide)
  }
}
