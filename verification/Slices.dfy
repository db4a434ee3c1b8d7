/**
 The slice helpers of `internal/util/slices.go`, which all work in place.  The order of names is Go's
 byte order of strings, `CompareText`.
 */
module Slices {
  import opened Semver

  // ---------------------------------------------------------------- DeleteAll

  function Without<T(==)>(s: seq<T>, e: T): seq<T> {
    if s == [] then [] else if s[0] == e then Without(s[1..], e) else [s[0]] + Without(s[1..], e)
  }

  lemma {:induction false} WithoutConcat<T>(s: seq<T>, t: seq<T>, e: T)
    ensures Without(s + t, e) == Without(s, e) + Without(t, e)
  {
    if s == [] {
      assert s + t == t;
    } else {
      WithoutConcat(s[1..], t, e);
      assert (s + t)[0] == s[0] && (s + t)[1..] == s[1..] + t;
      Associative([s[0]], Without(s[1..], e), Without(t, e));
    }
  }

  lemma Associative<T>(a: seq<T>, b: seq<T>, c: seq<T>)
    ensures a + (b + c) == (a + b) + c
  {
  }

  /** All occurrences of e are gone, and every other element keeps all of its occurrences. */
  lemma {:induction false} WithoutCounts<T>(s: seq<T>, e: T, x: T)
    ensures multiset(Without(s, e))[x] == if x == e then 0 else multiset(s)[x]
  {
    if s != [] {
      WithoutCounts(s[1..], e, x);
      assert s == [s[0]] + s[1..];
    }
  }

  /** Elements that stay keep their order: what is left of a prefix is a prefix of what is left. */
  lemma WithoutKeepsOrder<T>(s: seq<T>, e: T, k: nat)
    requires k <= |s|
    ensures |Without(s[..k], e)| <= |Without(s, e)|
    ensures Without(s[..k], e) == Without(s, e)[..|Without(s[..k], e)|]
  {
    assert s == s[..k] + s[k..];
    WithoutConcat(s[..k], s[k..], e);
  }

  /** `DeleteAll`: compacts the array with two indices and clears the tail. */
  method DeleteAll<T(==)>(s: array<T>, e: T, zero: T) returns (length: nat)
    modifies s
    ensures length <= s.Length
    ensures s[..length] == Without(old(s[..]), e)
    ensures forall k :: length <= k < s.Length ==> s[k] == zero
  {
    length := 0;
    ghost var was := s[..];
    for j := 0 to s.Length
      invariant length <= j
      invariant s[..length] == Without(was[..j], e)
      invariant s[j..] == was[j..]
    {
      assert s[j] == was[j];
      assert was[..j + 1] == was[..j] + [was[j]];
      WithoutConcat(was[..j], [was[j]], e);
      if s[j] != e {
        s[length] := s[j];
        length := length + 1;
      }
    }
    assert was[..s.Length] == was;
    for k := length to s.Length
      invariant s[..length] == Without(was, e)
      invariant forall i :: length <= i < k ==> s[i] == zero
    {
      s[k] := zero;
    }
  }

  // ---------------------------------------------------------------- SortBy

  ghost predicate Sorted<T>(s: seq<T>, name: T -> string) {
    forall i, j :: 0 <= i < j < |s| ==> CompareText(name(s[i]), name(s[j])) <= 0
  }

  ghost predicate StrictlySorted<T>(s: seq<T>, name: T -> string) {
    forall i, j :: 0 <= i < j < |s| ==> CompareText(name(s[i]), name(s[j])) < 0
  }

  function Insert<T>(x: T, s: seq<T>, name: T -> string): seq<T> {
    if s == [] || CompareText(name(x), name(s[0])) <= 0 then [x] + s
    else [s[0]] + Insert(x, s[1..], name)
  }

  function Sort<T>(s: seq<T>, name: T -> string): seq<T> {
    if s == [] then [] else Insert(s[0], Sort(s[1..], name), name)
  }

  lemma {:induction false} InsertCounts<T>(x: T, s: seq<T>, name: T -> string)
    ensures multiset(Insert(x, s, name)) == multiset{x} + multiset(s)
  {
    if s != [] {
      InsertCounts(x, s[1..], name);
      assert s == [s[0]] + s[1..];
    }
  }

  lemma {:induction false} InsertSorts<T>(x: T, s: seq<T>, name: T -> string)
    requires Sorted(s, name)
    ensures Sorted(Insert(x, s, name), name)
  {
    if s == [] {
    } else if CompareText(name(x), name(s[0])) <= 0 {
      forall j | 0 <= j < |s|
        ensures CompareText(name(x), name(s[j])) <= 0
      {
        CompareTextOrder(name(x), name(s[0]), name(s[j]));
        CompareTextOrder(name(s[0]), name(s[0]), name(s[0]));
      }
    } else {
      var rest := Insert(x, s[1..], name);
      InsertSorts(x, s[1..], name);
      InsertCounts(x, s[1..], name);
      CompareTextOrder(name(x), name(s[0]), name(x));
      forall j | 0 <= j < |rest|
        ensures CompareText(name(s[0]), name(rest[j])) <= 0
      {
        assert rest[j] in multiset(rest);
        assert rest[j] == x || rest[j] in s[1..];
      }
    }
  }

  /** Sorting orders the names, loses nothing and adds nothing. */
  lemma {:induction false} SortSorts<T>(s: seq<T>, name: T -> string)
    ensures Sorted(Sort(s, name), name)
    ensures multiset(Sort(s, name)) == multiset(s)
  {
    if s != [] {
      SortSorts(s[1..], name);
      InsertSorts(s[0], Sort(s[1..], name), name);
      InsertCounts(s[0], Sort(s[1..], name), name);
      assert s == [s[0]] + s[1..];
    }
  }

  lemma SortMembers<T>(s: seq<T>, name: T -> string, x: T)
    ensures |Sort(s, name)| == |s|
    ensures x in Sort(s, name) <==> x in s
  {
    SortSorts(s, name);
    assert |multiset(Sort(s, name))| == |multiset(s)|;
    assert x in multiset(s) <==> x in multiset(Sort(s, name));
  }

  /** With distinct names the result is strictly ascending, so it does not depend on the algorithm. */
  lemma {:induction false} SortStrictly<T>(s: seq<T>, name: T -> string)
    requires forall i, j :: 0 <= i < j < |s| ==> name(s[i]) != name(s[j])
    ensures StrictlySorted(Sort(s, name), name)
  {
    if s != [] {
      SortStrictly(s[1..], name);
      forall j | 0 <= j < |Sort(s[1..], name)|
        ensures name(Sort(s[1..], name)[j]) != name(s[0])
      {
        SortMembers(s[1..], name, Sort(s[1..], name)[j]);
      }
      InsertStrictly(s[0], Sort(s[1..], name), name);
    }
  }

  lemma {:induction false} InsertStrictly<T>(x: T, s: seq<T>, name: T -> string)
    requires StrictlySorted(s, name) && forall j :: 0 <= j < |s| ==> name(s[j]) != name(x)
    ensures StrictlySorted(Insert(x, s, name), name)
  {
    if s == [] {
    } else if CompareText(name(x), name(s[0])) <= 0 {
      forall j | 0 <= j < |s|
        ensures CompareText(name(x), name(s[j])) < 0
      {
        CompareTextOrder(name(x), name(s[0]), name(s[j]));
      }
    } else {
      var rest := Insert(x, s[1..], name);
      InsertStrictly(x, s[1..], name);
      InsertCounts(x, s[1..], name);
      CompareTextOrder(name(x), name(s[0]), name(x));
      forall j | 0 <= j < |rest|
        ensures CompareText(name(s[0]), name(rest[j])) < 0
      {
        assert rest[j] in multiset(rest);
        assert rest[j] == x || rest[j] in s[1..];
      }
    }
  }

  /** `SortBy` on the slice's array */
  method SortBy<T>(a: array<T>, name: T -> string)
    modifies a
    ensures a[..] == Sort(old(a[..]), name)
  {
    ghost var was := a[..];
    var i := a.Length;
    while i > 0
      invariant 0 <= i <= a.Length
      invariant a[..i] == was[..i]
      invariant a[i..] == Sort(was[i..], name)
    {
      i := i - 1;
      assert was[i..][1..] == was[i + 1..];
      assert a[i] == was[i..][0];
      InsertAt(a, i, name);
    }
    assert was[0..] == was;
  }

  /** Moves a[i] into the sorted part behind it. */
  method InsertAt<T>(a: array<T>, i: nat, name: T -> string)
    requires i < a.Length
    modifies a
    ensures a[..i] == old(a[..i])
    ensures a[i..] == Insert(old(a[i]), old(a[i + 1..]), name)
  {
    var x, j := a[i], i;
    ghost var rest := a[i + 1..];
    while j + 1 < a.Length && CompareText(name(x), name(a[j + 1])) > 0
      invariant i <= j < a.Length
      invariant forall k :: 0 <= k < i ==> a[k] == old(a[k])
      invariant forall k :: i <= k < j ==> a[k] == rest[k - i]
      invariant forall k :: j < k < a.Length ==> a[k] == rest[k - i - 1]
      invariant forall k :: 0 <= k < j - i ==> CompareText(name(x), name(rest[k])) > 0
    {
      a[j] := a[j + 1];
      j := j + 1;
    }
    a[j] := x;
    assert a[i..] == rest[..j - i] + ([x] + rest[j - i..]);
    InsertBehind(x, rest, j - i, name);
  }

  lemma {:induction false} InsertBehind<T>(x: T, s: seq<T>, k: nat, name: T -> string)
    requires k <= |s| && forall i :: 0 <= i < k ==> CompareText(name(x), name(s[i])) > 0
    requires k < |s| ==> CompareText(name(x), name(s[k])) <= 0
    ensures Insert(x, s, name) == s[..k] + ([x] + s[k..])
  {
    if k > 0 {
      InsertBehind(x, s[1..], k - 1, name);
      assert s[..k] == [s[0]] + s[1..][..k - 1] && s[1..][k - 1..] == s[k..];
    }
  }

  /** `slices.Reverse`: two indices meet in the middle. */
  method Reverse<T>(a: array<T>)
    modifies a
    ensures forall k :: 0 <= k < a.Length ==> a[k] == old(a[a.Length - 1 - k])
  {
    var left, right := 0, a.Length;
    while right - left > 1
      invariant 0 <= left && left + right == a.Length
      invariant left <= right + 1
      invariant forall k :: 0 <= k < a.Length ==>
                  a[k] == if left <= k < right then old(a[k]) else old(a[a.Length - 1 - k])
      decreases right - left
    {
      right := right - 1;
      var head := a[left];
      a[left] := a[right];
      a[right] := head;
      left := left + 1;
    }
  }
}
