/**
 The cache staleness detector of `internal/web/cacheverifier.go`.  In each round it compares the items
 of the API with those of the cache, and it stops when an item's cached version seems to be stuck.
 */
module CacheVerifier {
  import opened Wrappers

  datatype Key = Key(namespace: string, name: string)

  datatype Item = Item(key: Key, version: string)

  /** `diffMapEntry`; the version of an absent item is "". */
  datatype Entry = Entry(cached: string, actual: string)

  /** `cacheVerificationError` */
  datatype Stale = Stale(key: Key, entry: Entry)

  /** The two lists of one round. */
  datatype Listing = Listing(actual: seq<Item>, cached: seq<Item>)

  // ---------------------------------------------------------------- observations

  /** What a round says about one item. */
  datatype Observation = Differ(key: Key, entry: Entry) | Agree(key: Key)

  function Find(items: seq<Item>, key: Key): Option<Item> {
    if items == [] then None else if items[0].key == key then Some(items[0]) else Find(items[1..], key)
  }

  function VersionIn(item: Option<Item>): string {
    match item case None => "" case Some(i) => i.version
  }

  /** An item of the API against the cache. */
  function Compared(item: Item, cached: seq<Item>): Observation {
    var there := Find(cached, item.key);
    if there.Some? && there.value.version == item.version then Agree(item.key)
    else Differ(item.key, Entry(VersionIn(there), item.version))
  }

  function ActualObservations(actual: seq<Item>, cached: seq<Item>): seq<Observation> {
    seq(|actual|, i requires 0 <= i < |actual| => Compared(actual[i], cached))
  }

  /** The cached items that the API does not have. */
  function LeftOver(cached: seq<Item>, actual: seq<Item>): seq<Observation> {
    if cached == [] then []
    else
      (if Find(actual, cached[0].key).None? then [Differ(cached[0].key, Entry(cached[0].version, ""))] else []) +
      LeftOver(cached[1..], actual)
  }

  /** A round without listings, because an API call failed, observes nothing. */
  function Observations(round: Option<Listing>): seq<Observation> {
    match round
    case None => []
    case Some(l) => ActualObservations(l.actual, l.cached) + LeftOver(l.cached, l.actual)
  }

  function History(rounds: seq<Option<Listing>>): seq<Observation> {
    if rounds == [] then []
    else History(rounds[..|rounds| - 1]) + Observations(rounds[|rounds| - 1])
  }

  /** The last observation of an item. */
  function Last(h: seq<Observation>, key: Key): Option<Observation> {
    if h == [] then None
    else if h[|h| - 1].key == key then Some(h[|h| - 1])
    else Last(h[..|h| - 1], key)
  }

  /** The item differs again, with no agreement in between and the cached version it had then. */
  ghost predicate Stuck(h: seq<Observation>, o: Observation) {
    && o.Differ?
    && Last(h, o.key).Some?
    && Last(h, o.key).value.Differ?
    && Last(h, o.key).value.entry.cached == o.entry.cached
  }

  ghost predicate StuckAt(h: seq<Observation>, i: nat)
    requires i < |h|
  {
    Stuck(h[..i], h[i])
  }

  ghost predicate NeverStuck(h: seq<Observation>) {
    forall i :: 0 <= i < |h| ==> !StuckAt(h, i)
  }

  /** h goes through without a stop up to o, and o is stuck. */
  ghost predicate FirstStuck(h: seq<Observation>, i: int) {
    0 <= i < |h| && NeverStuck(h[..i]) && StuckAt(h, i)
  }

  lemma NeverStuckSnoc(h: seq<Observation>, o: Observation)
    requires NeverStuck(h) && !Stuck(h, o)
    ensures NeverStuck(h + [o])
  {
    var all := h + [o];
    forall i | 0 <= i < |all|
      ensures !StuckAt(all, i)
    {
      assert all[..i] == h[..i];
      if i < |h| {
        assert !StuckAt(h, i);
      } else {
        assert h[..|h|] == h;
      }
    }
  }

  // ---------------------------------------------------------------- the detector

  class Verifier {
    var diffMap: map<Key, Entry>
    /** What has been observed since the last reset. */
    ghost var history: seq<Observation>

    /** The map holds exactly the items whose last observation is a difference. */
    ghost predicate Remembers(key: Key)
      reads this
    {
      match Last(history, key)
      case Some(Differ(_, entry)) => key in diffMap && diffMap[key] == entry
      case _ => key !in diffMap
    }

    ghost predicate Valid()
      reads this
    {
      NeverStuck(history) && forall key :: Remembers(key)
    }

    constructor ()
      ensures Valid() && history == []
    {
      diffMap := map[];
      history := [];
    }

    /** `handleDiff`: at least one of the two objects is there, and both are the same item. */
    method HandleDiff(cached: Option<Item>, actual: Option<Item>) returns (err: Option<Stale>)
      requires Valid()
      requires cached.Some? || actual.Some?
      requires cached.Some? && actual.Some? ==> cached.value.key == actual.value.key
      modifies this
      ensures Valid()
      ensures var key := if cached.Some? then cached.value.key else actual.value.key;
              var entry := Entry(VersionIn(cached), VersionIn(actual));
              if Stuck(old(history), Differ(key, entry))
              then err == Some(Stale(key, entry)) && history == old(history)
              else err == None && history == old(history) + [Differ(key, entry)]
    {
      var key, cachedVersion, actualVersion := Key("", ""), "", "";
      if cached.Some? {
        key, cachedVersion := cached.value.key, cached.value.version;
      }
      if actual.Some? {
        key, actualVersion := actual.value.key, actual.value.version;
      }
      var updated := Entry(cachedVersion, actualVersion);
      assert Remembers(key);
      if key in diffMap && diffMap[key].cached == cachedVersion {
        return Some(Stale(key, updated));
      }
      NeverStuckSnoc(history, Differ(key, updated));
      label before:
      diffMap := diffMap[key := updated];
      history := history + [Differ(key, updated)];
      forall k
        ensures Remembers(k)
      {
        assert old@before(Remembers(k));
        assert history[..|history| - 1] == old@before(history);
      }
      err := None;
    }

    /** The versions agree: an earlier difference is forgotten. */
    method Forget(key: Key)
      requires Valid()
      modifies this
      ensures Valid() && history == old(history) + [Agree(key)]
    {
      NeverStuckSnoc(history, Agree(key));
      diffMap := diffMap - {key};
      history := history + [Agree(key)];
      forall k
        ensures Remembers(k)
      {
        assert old(Remembers(k));
        assert history[..|history| - 1] == old(history);
      }
    }

    /** The inner loops: the first item with this key */
    static method Search(items: seq<Item>, key: Key) returns (found: Option<Item>)
      ensures found == Find(items, key)
    {
      for i := 0 to |items|
        invariant Find(items, key) == Find(items[i..], key)
      {
        if items[i].key == key {
          return Some(items[i]);
        }
        assert items[i..][1..] == items[i + 1..];
      }
      found := None;
    }

    /** The first loop of a round: what the API has, against the cache. */
    method CheckActual(l: Listing) returns (err: Option<Stale>)
      requires Valid()
      modifies this
      ensures Valid()
      ensures Ran(old(history), ActualObservations(l.actual, l.cached), history, err)
    {
      ghost var all := ActualObservations(l.actual, l.cached);
      for i := 0 to |l.actual|
        invariant Valid()
        invariant history == old(history) + all[..i]
      {
        var item := l.actual[i];
        assert all[i] == Compared(item, l.cached);
        Extended(old(history), all, i);
        FindKey(l.cached, item.key);
        var there := Search(l.cached, item.key);
        if there.Some? && there.value.version == item.version {
          Forget(item.key);
        } else {
          err := HandleDiff(there, Some(item));
          if err.Some? {
            return;
          }
        }
      }
      err := None;
      assert all[..|all|] == all;
    }

    /** The second loop: what only the cache has. */
    method CheckCached(l: Listing) returns (err: Option<Stale>)
      requires Valid()
      modifies this
      ensures Valid()
      ensures Ran(old(history), LeftOver(l.cached, l.actual), history, err)
    {
      ghost var all := LeftOver(l.cached, l.actual);
      ghost var done := 0;
      for i := 0 to |l.cached|
        invariant Valid()
        invariant 0 <= done <= |all| && all[done..] == LeftOver(l.cached[i..], l.actual)
        invariant history == old(history) + all[..done]
      {
        var item := l.cached[i];
        assert l.cached[i..][0] == item && l.cached[i..][1..] == l.cached[i + 1..];
        var there := Search(l.actual, item.key);
        if there.None? {
          assert all[done..][0] == Differ(item.key, Entry(item.version, ""));
          assert all[done..][1..] == LeftOver(l.cached[i + 1..], l.actual);
          Extended(old(history), all, done);
          err := HandleDiff(Some(item), None);
          if err.Some? {
            return;
          }
          done := done + 1;
        }
      }
      err := None;
      assert all[..|all|] == all;
    }

    /** One iteration of the endless loop; without listings nothing happens. */
    method Round(round: Option<Listing>) returns (err: Option<Stale>)
      requires Valid()
      modifies this
      ensures Valid()
      ensures Ran(old(history), Observations(round), history, err)
    {
      match round {
        case None =>
          err := None;
        case Some(l) =>
          err := CheckActual(l);
          if err.None? {
            label first:
            err := CheckCached(l);
            RanTwice(old(history), ActualObservations(l.actual, l.cached), LeftOver(l.cached, l.actual), history, err);
          } else {
            RanPart(old(history), ActualObservations(l.actual, l.cached), LeftOver(l.cached, l.actual), history, err);
          }
      }
    }

    /**
     `start`, for the rounds up to now: it stops in the first observation that is stuck, and then
     `closeAndReset` empties the map.
     */
    method Start(rounds: seq<Option<Listing>>) returns (err: Option<Stale>)
      requires Valid() && history == []
      modifies this
      ensures Valid()
      ensures err.None? ==> NeverStuck(History(rounds)) && history == History(rounds)
      ensures err.Some? ==> history == [] && diffMap == map[]
      ensures err.Some? ==> exists i :: FirstStuck(History(rounds), i) &&
                                        History(rounds)[i] == Differ(err.value.key, err.value.entry)
      ensures AllProper(rounds) ==>
                (err.Some? <==> SomeOutdatedTwice(rounds))
    {
      for n := 0 to |rounds|
        invariant Valid()
        invariant history == History(rounds[..n])
      {
        err := Round(rounds[n]);
        HistoryStep(rounds, n);
        if err.Some? {
          StuckInPrefix(rounds, n + 1, history, err.value);
          StopIsExact(rounds);
          diffMap := map[];
          history := [];
          return;
        }
      }
      err := None;
      assert rounds[..|rounds|] == rounds;
      StopIsExact(rounds);
    }
  }

  /** From history h, the observations os led to history now, or to a stop at one of them. */
  ghost predicate Ran(h: seq<Observation>, os: seq<Observation>, now: seq<Observation>, err: Option<Stale>) {
    match err
    case None => now == h + os
    case Some(stale) =>
      && now <= h + os
      && |now| < |h + os|
      && (h + os)[|now|] == Differ(stale.key, stale.entry)
      && Stuck(now, (h + os)[|now|])
  }

  lemma Extended(h: seq<Observation>, all: seq<Observation>, i: nat)
    requires i < |all|
    ensures h + all[..i] <= h + all
    ensures h + all[..i] + [all[i]] == h + all[..i + 1]
    ensures (h + all)[|h| + i] == all[i]
  {
  }

  lemma RanPart(h: seq<Observation>, a: seq<Observation>, b: seq<Observation>, now: seq<Observation>, err: Option<Stale>)
    requires Ran(h, a, now, err) && err.Some?
    ensures Ran(h, a + b, now, err)
  {
    assert h + (a + b) == h + a + b;
  }

  lemma RanTwice(h: seq<Observation>, a: seq<Observation>, b: seq<Observation>, now: seq<Observation>, err: Option<Stale>)
    requires Ran(h + a, b, now, err)
    ensures Ran(h, a + b, now, err)
  {
    assert h + (a + b) == h + a + b;
  }

  lemma {:induction false} FindKey(items: seq<Item>, key: Key)
    ensures Find(items, key).Some? ==> Find(items, key).value in items && Find(items, key).value.key == key
    ensures Find(items, key).None? ==> forall i :: i in items ==> i.key != key
  {
    if items != [] {
      FindKey(items[1..], key);
      assert items == [items[0]] + items[1..];
    }
  }

  lemma {:induction false} HistoryGrows(rounds: seq<Option<Listing>>, n: nat)
    requires n <= |rounds|
    ensures History(rounds[..n]) <= History(rounds)
  {
    if n == |rounds| {
      assert rounds[..n] == rounds;
    } else {
      HistoryGrows(rounds[..|rounds| - 1], n);
      assert rounds[..|rounds| - 1][..n] == rounds[..n];
    }
  }

  lemma StopIsExact(rounds: seq<Option<Listing>>)
    ensures AllProper(rounds) ==>
              (!NeverStuck(History(rounds)) <==> SomeOutdatedTwice(rounds))
  {
    if AllProper(rounds) {
      StuckIffOutdatedTwice(rounds);
    }
  }

  lemma StuckInPrefix(rounds: seq<Option<Listing>>, n: nat, now: seq<Observation>, stale: Stale)
    requires n <= |rounds| && NeverStuck(now)
    requires var h := History(rounds[..n]);
             now <= h && |now| < |h| && h[|now|] == Differ(stale.key, stale.entry) && Stuck(now, h[|now|])
    ensures FirstStuck(History(rounds), |now|) && History(rounds)[|now|] == Differ(stale.key, stale.entry)
  {
    HistoryGrows(rounds, n);
    assert History(rounds)[..|now|] == now;
  }

  // ---------------------------------------------------------------- two rounds that see an item stuck

  /** As the API lists them: no item twice. */
  ghost predicate DistinctKeys(items: seq<Item>) {
    forall i, j :: 0 <= i < j < |items| ==> items[i].key != items[j].key
  }

  ghost predicate ProperRound(round: Option<Listing>) {
    round.Some? ==> DistinctKeys(round.value.actual) && DistinctKeys(round.value.cached)
  }

  ghost predicate AllProper(rounds: seq<Option<Listing>>) {
    forall n {:trigger ProperRound(rounds[n])} :: 0 <= n < |rounds| ==> ProperRound(rounds[n])
  }

  ghost predicate Mentions(h: seq<Observation>, key: Key) {
    exists i :: 0 <= i < |h| && h[i].key == key
  }

  lemma {:induction false} LastOfUnmentioned(h: seq<Observation>, t: seq<Observation>, key: Key)
    requires !Mentions(t, key)
    ensures Last(h + t, key) == Last(h, key)
  {
    if t == [] {
      assert h + t == h;
    } else {
      assert t[|t| - 1].key != key;
      assert (h + t)[..|h + t| - 1] == h + t[..|t| - 1];
      LastOfUnmentioned(h, t[..|t| - 1], key);
    }
  }

  lemma {:induction false} LeftOverOnce(cached: seq<Item>, actual: seq<Item>)
    requires DistinctKeys(cached)
    ensures forall o :: o in LeftOver(cached, actual) ==>
              o.Differ? && Find(actual, o.key).None? && exists c :: c in cached && c.key == o.key
    ensures forall i, j :: 0 <= i < j < |LeftOver(cached, actual)| ==>
              LeftOver(cached, actual)[i].key != LeftOver(cached, actual)[j].key
  {
    if cached != [] {
      LeftOverOnce(cached[1..], actual);
      assert cached[0] in cached;
    }
  }

  /** A round observes each item at most once. */
  lemma OncePerRound(round: Option<Listing>, i: nat, j: nat)
    requires ProperRound(round)
    requires i < j < |Observations(round)|
    ensures Observations(round)[i].key != Observations(round)[j].key
  {
    var l := round.value;
    var n := |l.actual|;
    LeftOverOnce(l.cached, l.actual);
    if i < n {
      assert Observations(round)[i].key == l.actual[i].key;
      if j < n {
        assert Observations(round)[j].key == l.actual[j].key;
      } else {
        var o := Observations(round)[j];
        assert o == LeftOver(l.cached, l.actual)[j - n];
        FindKey(l.actual, o.key);
      }
    } else {
      assert Observations(round)[i] == LeftOver(l.cached, l.actual)[i - n];
      assert Observations(round)[j] == LeftOver(l.cached, l.actual)[j - n];
    }
  }

  /** After a round that saw an item, that is the last thing known of the item. */
  lemma SeenLast(h: seq<Observation>, round: Option<Listing>, o: Observation)
    requires ProperRound(round) && o in Observations(round)
    ensures Last(h + Observations(round), o.key) == Some(o)
  {
    var os := Observations(round);
    var i :| 0 <= i < |os| && os[i] == o;
    var t := os[i + 1..];
    if Mentions(t, o.key) {
      var j :| 0 <= j < |t| && t[j].key == o.key;
      OncePerRound(round, i, i + 1 + j);
    }
    assert h + os == (h + os[..i] + [o]) + t;
    LastOfUnmentioned(h + os[..i] + [o], t, o.key);
  }

  ghost predicate Sees(rounds: seq<Option<Listing>>, k: nat, key: Key)
    requires k < |rounds|
  {
    Mentions(Observations(rounds[k]), key)
  }

  /** No round between the two sees the item. */
  ghost predicate UnseenBetween(rounds: seq<Option<Listing>>, i: int, j: int, key: Key)
    requires 0 <= i && j <= |rounds|
  {
    forall k :: i < k < j ==> !Sees(rounds, k, key)
  }

  /**
   Two rounds see an item with one cached version and different from the API, and none in between sees
   the item: the detector stops no later than in the second one.
   */
  lemma StopsByTheSecondStuckRound(rounds: seq<Option<Listing>>, i: nat, j: nat, key: Key, first: Entry, second: Entry)
    requires i < j < |rounds| && ProperRound(rounds[i]) && ProperRound(rounds[j])
    requires Differ(key, first) in Observations(rounds[i])
    requires Differ(key, second) in Observations(rounds[j])
    requires first.cached == second.cached
    requires UnseenBetween(rounds, i, j, key)
    ensures !NeverStuck(History(rounds[..j + 1]))
  {
    LastBeforeRound(rounds, i, j, Differ(key, first));
    HistoryStep(rounds, j);
    SecondTime(History(rounds[..j]), rounds[j], Differ(key, first), Differ(key, second));
  }

  lemma SecondTime(h: seq<Observation>, round: Option<Listing>, first: Observation, second: Observation)
    requires ProperRound(round) && second in Observations(round)
    requires first.Differ? && second.Differ? && first.entry.cached == second.entry.cached
    requires Last(h, second.key) == Some(first)
    ensures !NeverStuck(h + Observations(round))
  {
    var os := Observations(round);
    var k :| 0 <= k < |os| && os[k] == second;
    if Mentions(os[..k], second.key) {
      var l :| 0 <= l < k && os[..k][l].key == second.key;
      OncePerRound(round, l, k);
    }
    LastOfUnmentioned(h, os[..k], second.key);
    var all := h + os;
    assert all[..|h| + k] == h + os[..k];
    assert StuckAt(all, |h| + k);
  }

  lemma HistoryStep(rounds: seq<Option<Listing>>, n: nat)
    requires n < |rounds|
    ensures History(rounds[..n + 1]) == History(rounds[..n]) + Observations(rounds[n])
  {
    assert rounds[..n + 1][..n] == rounds[..n];
  }

  lemma {:induction false} LastBeforeRound(rounds: seq<Option<Listing>>, i: nat, j: nat, o: Observation)
    requires i < j <= |rounds| && ProperRound(rounds[i]) && o in Observations(rounds[i])
    requires UnseenBetween(rounds, i, j, o.key)
    ensures Last(History(rounds[..j]), o.key) == Some(o)
  {
    var n := j - 1;
    var h, os := History(rounds[..n]), Observations(rounds[n]);
    HistoryStep(rounds, n);
    assert History(rounds[..j]) == h + os;
    assert Last(h + os, o.key) == Some(o) by {
      if n == i {
        SeenLast(h, rounds[n], o);
      } else {
        LastBeforeRound(rounds, i, n, o);
        assert !Sees(rounds, n, o.key);
        LastOfUnmentioned(h, os, o.key);
      }
    }
  }

  // ---------------------------------------------------------------- by what the lists hold

  ghost predicate HasKey(items: seq<Item>, key: Key) {
    exists i :: i in items && i.key == key
  }

  /** The version of the item in the list, or "" when it is not there. */
  ghost predicate Shows(items: seq<Item>, key: Key, version: string) {
    if HasKey(items, key) then Item(key, version) in items else version == ""
  }

  /** Both lists hold the item in one version. */
  ghost predicate InStep(l: Listing, key: Key) {
    exists version :: Item(key, version) in l.actual && Item(key, version) in l.cached
  }

  lemma FindIs(items: seq<Item>, key: Key, i: Item)
    requires DistinctKeys(items)
    ensures Find(items, key) == Some(i) <==> i in items && i.key == key
    ensures Find(items, key).None? <==> !HasKey(items, key)
  {
    FindKey(items, key);
    if i in items && i.key == key {
      var a :| 0 <= a < |items| && items[a] == i;
      var found := Find(items, key).value;
      var b :| 0 <= b < |items| && items[b] == found;
    }
  }

  lemma ActualMembers(actual: seq<Item>, cached: seq<Item>, o: Observation)
    ensures o in ActualObservations(actual, cached) <==> exists i :: i in actual && Compared(i, cached) == o
  {
    var all := ActualObservations(actual, cached);
    if i :| i in actual && Compared(i, cached) == o {
      var k :| 0 <= k < |actual| && actual[k] == i;
      assert all[k] == o;
    }
  }

  lemma {:induction false} LeftOverMembers(cached: seq<Item>, actual: seq<Item>, o: Observation)
    ensures o in LeftOver(cached, actual) <==>
            exists i :: i in cached && Find(actual, i.key).None? && o == Differ(i.key, Entry(i.version, ""))
  {
    if cached != [] {
      LeftOverMembers(cached[1..], actual, o);
      assert cached == [cached[0]] + cached[1..];
    }
  }

  /** A round observes that an item agrees exactly when both lists hold it in one version. */
  lemma RoundAgrees(l: Listing, key: Key)
    requires ProperRound(Some(l))
    ensures Agree(key) in Observations(Some(l)) <==>
            exists version :: Item(key, version) in l.actual && Item(key, version) in l.cached
  {
    ActualMembers(l.actual, l.cached, Agree(key));
    LeftOverMembers(l.cached, l.actual, Agree(key));
    forall i | i in l.actual
      ensures Compared(i, l.cached) == Agree(key) <==> i.key == key && i in l.cached
    {
      FindIs(l.cached, i.key, i);
      FindKey(l.cached, i.key);
    }
    if version :| Item(key, version) in l.actual && Item(key, version) in l.cached {
      assert Compared(Item(key, version), l.cached) == Agree(key);
    }
    if i :| i in l.actual && Compared(i, l.cached) == Agree(key) {
      assert i == Item(key, i.version);
    }
  }

  /**
   It observes a difference exactly when some list holds the item, but not both of them in one version; the
   entry has the versions of the two lists, "" for a list that does not hold it.
   */
  lemma RoundDiffers(l: Listing, key: Key, e: Entry)
    requires ProperRound(Some(l))
    ensures Differ(key, e) in Observations(Some(l)) <==>
            && (HasKey(l.actual, key) || HasKey(l.cached, key)) && !InStep(l, key)
            && Shows(l.cached, key, e.cached) && Shows(l.actual, key, e.actual)
  {
    var o := Differ(key, e);
    ActualMembers(l.actual, l.cached, o);
    LeftOverMembers(l.cached, l.actual, o);
    if HasKey(l.actual, key) {
      var i :| i in l.actual && i.key == key;
      DiffersOfActual(l, i, e);
    } else {
      forall i | i in l.cached && i.key == key
        ensures Find(l.actual, key).None?
        ensures Shows(l.cached, key, e.cached) <==> e.cached == i.version
      {
        FindIs(l.actual, key, i);
        FindIs(l.cached, key, i);
        FindIs(l.cached, key, Item(key, e.cached));
      }
    }
  }

  lemma DiffersOfActual(l: Listing, i: Item, e: Entry)
    requires ProperRound(Some(l)) && i in l.actual
    ensures (exists a :: a in l.actual && Compared(a, l.cached) == Differ(i.key, e)) <==>
            !InStep(l, i.key) && Shows(l.cached, i.key, e.cached) && Shows(l.actual, i.key, e.actual)
    ensures forall c :: c in l.cached && c.key == i.key ==> Find(l.actual, c.key).Some?
  {
    forall a | a in l.actual && a.key == i.key
      ensures a == i
    {
      FindIs(l.actual, i.key, a);
      FindIs(l.actual, i.key, i);
    }
    FindIs(l.actual, i.key, i);
    FindIs(l.cached, i.key, Item(i.key, e.cached));
    FindIs(l.cached, i.key, i);
    FindKey(l.cached, i.key);
    assert Shows(l.actual, i.key, e.actual) <==> e.actual == i.version;
    assert InStep(l, i.key) <==> i in l.cached;
    assert Compared(i, l.cached) == Differ(i.key, e) <==>
           !InStep(l, i.key) && Shows(l.cached, i.key, e.cached) && e.actual == i.version;
  }

  /** Some list of the round holds the item, but not both of them in one version. */
  ghost predicate Outdated(round: Option<Listing>, key: Key, cached: string) {
    && round.Some?
    && (HasKey(round.value.actual, key) || HasKey(round.value.cached, key)) && !InStep(round.value, key)
    && Shows(round.value.cached, key, cached)
  }

  ghost predicate Unlisted(round: Option<Listing>, key: Key) {
    round.Some? ==> !HasKey(round.value.actual, key) && !HasKey(round.value.cached, key)
  }

  /** Two rounds hold an outdated item with one version in the cache, and no round in between lists it. */
  ghost predicate OutdatedTwice(rounds: seq<Option<Listing>>, i: int, j: int, key: Key, cached: string) {
    && 0 <= i < j < |rounds|
    && Outdated(rounds[i], key, cached) && Outdated(rounds[j], key, cached)
    && forall k :: i < k < j ==> Unlisted(rounds[k], key)
  }

  lemma SeenAsOutdated(round: Option<Listing>, key: Key, e: Entry)
    requires ProperRound(round) && Differ(key, e) in Observations(round)
    ensures Outdated(round, key, e.cached)
  {
    RoundDiffers(round.value, key, e);
  }

  lemma OutdatedIsSeen(round: Option<Listing>, key: Key, cached: string) returns (e: Entry)
    requires ProperRound(round) && Outdated(round, key, cached)
    ensures e.cached == cached && Differ(key, e) in Observations(round)
  {
    var actual := "";
    if i :| i in round.value.actual && i.key == key {
      actual := i.version;
      assert i == Item(key, i.version);
    }
    e := Entry(cached, actual);
    RoundDiffers(round.value, key, e);
  }

  lemma SeenIffListed(round: Option<Listing>, key: Key)
    requires ProperRound(round)
    ensures Mentions(Observations(round), key) <==> !Unlisted(round, key)
  {
    var os := Observations(round);
    if Mentions(os, key) {
      var i :| 0 <= i < |os| && os[i].key == key;
      assert os[i] in os;
      match os[i]
      case Agree(_) => RoundAgrees(round.value, key);
      case Differ(_, e) => RoundDiffers(round.value, key, e);
    } else if !Unlisted(round, key) {
      ListedIsSeen(round.value, key);
    }
  }

  lemma ListedIsSeen(l: Listing, key: Key)
    requires ProperRound(Some(l)) && (HasKey(l.actual, key) || HasKey(l.cached, key))
    ensures Mentions(Observations(Some(l)), key)
  {
    var o := Agree(key);
    if InStep(l, key) {
      RoundAgrees(l, key);
    } else {
      var cached := "";
      if i :| i in l.cached && i.key == key {
        cached := i.version;
        assert i == Item(key, i.version);
      }
      var e := OutdatedIsSeen(Some(l), key, cached);
      o := Differ(key, e);
    }
    var k :| 0 <= k < |Observations(Some(l))| && Observations(Some(l))[k] == o;
  }

  lemma StuckLater(h: seq<Observation>, all: seq<Observation>)
    requires h <= all && !NeverStuck(h)
    ensures !NeverStuck(all)
  {
    var i :| 0 <= i < |h| && StuckAt(h, i);
    assert all[..i] == h[..i] && all[i] == h[i];
    assert StuckAt(all, i);
  }

  lemma UnseenOneMore(rounds: seq<Option<Listing>>, i: nat, j: nat, key: Key)
    requires i < j < |rounds| && UnseenBetween(rounds, i, j, key) && !Sees(rounds, j, key)
    ensures UnseenBetween(rounds, i, j + 1, key)
  {
  }

  /** The round that the last observation of an item is from. */
  lemma {:induction false} RoundOfLast(rounds: seq<Option<Listing>>, n: nat, key: Key, o: Observation) returns (i: nat)
    requires n <= |rounds| && Last(History(rounds[..n]), key) == Some(o)
    ensures i < n && o in Observations(rounds[i]) && UnseenBetween(rounds, i, n, key)
  {
    assert n > 0;
    var m := n - 1;
    var h, os := History(rounds[..m]), Observations(rounds[m]);
    HistoryStep(rounds, m);
    if Mentions(os, key) {
      LastOfMentioned(h, os, key);
      i := m;
    } else {
      LastOfUnmentioned(h, os, key);
      i := RoundOfLast(rounds, m, key, o);
      UnseenOneMore(rounds, i, m, key);
    }
  }

  lemma {:induction false} LastOfMentioned(h: seq<Observation>, t: seq<Observation>, key: Key)
    requires Mentions(t, key)
    ensures Last(h + t, key).Some? && Last(h + t, key).value in t
  {
    var n := |t| - 1;
    assert (h + t)[..|h + t| - 1] == h + t[..n];
    if t[n].key != key {
      assert Mentions(t[..n], key) by {
        var i :| 0 <= i < |t| && t[i].key == key;
        assert t[..n][i].key == key;
      }
      LastOfMentioned(h, t[..n], key);
    }
  }

  /** The first stuck observation, by the rounds that it and the one before are from. */
  lemma {:induction false} StuckIsOutdatedTwice(rounds: seq<Option<Listing>>) returns (i: nat, j: nat, key: Key, cached: string)
    requires AllProper(rounds) && !NeverStuck(History(rounds))
    ensures OutdatedTwice(rounds, i, j, key, cached)
  {
    var n := |rounds| - 1;
    var before := rounds[..n];
    var h, os := History(before), Observations(rounds[n]);
    if NeverStuck(h) {
      var first, second := StuckInRound(h, rounds[n]);
      key, cached, j := second.key, second.entry.cached, n;
      i := RoundOfLast(rounds, n, key, first);
      SeenAsOutdated(rounds[i], key, first.entry);
      SeenAsOutdated(rounds[n], key, second.entry);
      forall k | i < k < j
        ensures Unlisted(rounds[k], key)
      {
        assert !Sees(rounds, k, key);
        SeenIffListed(rounds[k], key);
      }
    } else {
      i, j, key, cached := StuckIsOutdatedTwice(before);
      assert forall k :: 0 <= k < n ==> before[k] == rounds[k];
    }
  }

  lemma StuckInRound(h: seq<Observation>, round: Option<Listing>) returns (first: Observation, second: Observation)
    requires NeverStuck(h) && ProperRound(round) && !NeverStuck(h + Observations(round))
    ensures first.Differ? && second.Differ? && second in Observations(round) && first.key == second.key
    ensures Last(h, second.key) == Some(first) && first.entry.cached == second.entry.cached
  {
    var os := Observations(round);
    var all := h + os;
    forall i | 0 <= i < |h|
      ensures !StuckAt(all, i)
    {
      assert all[..i] == h[..i] && all[i] == h[i];
      assert !StuckAt(h, i);
    }
    var i :| 0 <= i < |all| && StuckAt(all, i);
    var k := i - |h|;
    second := os[k];
    assert all[..i] == h + os[..k];
    if Mentions(os[..k], second.key) {
      var l :| 0 <= l < k && os[..k][l].key == second.key;
      OncePerRound(round, l, k);
    }
    LastOfUnmentioned(h, os[..k], second.key);
    first := Last(h, second.key).value;
    LastIsTheLatest(h, second.key);
  }

  lemma UnlistedIsUnseen(rounds: seq<Option<Listing>>, i: nat, j: nat, key: Key)
    requires j <= |rounds| && forall k :: i < k < j ==> ProperRound(rounds[k]) && Unlisted(rounds[k], key)
    ensures UnseenBetween(rounds, i, j, key)
  {
    forall k | i < k < j
      ensures !Sees(rounds, k, key)
    {
      SeenIffListed(rounds[k], key);
    }
  }

  lemma StuckInPart(rounds: seq<Option<Listing>>, n: nat)
    requires n <= |rounds|
    ensures NeverStuck(History(rounds)) ==> NeverStuck(History(rounds[..n]))
  {
    HistoryGrows(rounds, n);
    if !NeverStuck(History(rounds[..n])) {
      StuckLater(History(rounds[..n]), History(rounds));
    }
  }

  lemma OutdatedTwiceIsStuck(rounds: seq<Option<Listing>>, i: nat, j: nat, key: Key, cached: string)
    requires AllProper(rounds) && OutdatedTwice(rounds, i, j, key, cached)
    ensures !NeverStuck(History(rounds[..j + 1]))
  {
    var first := OutdatedIsSeen(rounds[i], key, cached);
    var second := OutdatedIsSeen(rounds[j], key, cached);
    UnlistedIsUnseen(rounds, i, j, key);
    StopsByTheSecondStuckRound(rounds, i, j, key, first, second);
  }

  ghost predicate SomeOutdatedTwice(rounds: seq<Option<Listing>>) {
    exists i, j, key, cached :: OutdatedTwice(rounds, i, j, key, cached)
  }

  /** The detector finds a stuck item exactly when some item is outdated twice in that way. */
  lemma StuckIffOutdatedTwice(rounds: seq<Option<Listing>>)
    requires AllProper(rounds)
    ensures !NeverStuck(History(rounds)) <==> SomeOutdatedTwice(rounds)
  {
    if SomeOutdatedTwice(rounds) {
      var i, j, key, cached :| OutdatedTwice(rounds, i, j, key, cached);
      OutdatedTwiceIsStuck(rounds, i, j, key, cached);
      StuckInPart(rounds, j + 1);
    }
    if !NeverStuck(History(rounds)) {
      var i, j, key, cached := StuckIsOutdatedTwice(rounds);
    }
  }

  /** `Last` is what it says: with `Stuck` it gives the one earlier difference that a stop compares with. */
  lemma {:induction false} LastIsTheLatest(h: seq<Observation>, key: Key)
    ensures match Last(h, key)
            case None => !Mentions(h, key)
            case Some(o) => exists i :: 0 <= i < |h| && h[i] == o && o.key == key && !Mentions(h[i + 1..], key)
  {
    if h == [] {
    } else if h[|h| - 1].key == key {
      assert h[|h| - 1] == Last(h, key).value && h[|h|..] == [];
    } else {
      var p := h[..|h| - 1];
      LastIsTheLatest(p, key);
      match Last(h, key) {
        case None =>
          assert forall i :: 0 <= i < |p| ==> p[i].key != key;
        case Some(o) =>
          var i :| 0 <= i < |p| && p[i] == o && !Mentions(p[i + 1..], key);
          var t := p[i + 1..];
          assert !Mentions(t, key) && h[i + 1..] == t + [h[|h| - 1]];
          assert h[i] == o && !Mentions(h[i + 1..], key);
      }
    }
  }

  /**
   An item that is gone is not observed, so an old difference is not forgotten: the detector also
   stops when an item is deleted and created again, although the cache has agreed with the API in between.
   */
  lemma StopsAfterAgreeing(key: Key, version: string, again: string)
    ensures var gone := Some(Listing([], []));
            var late := Some(Listing([Item(key, version)], []));
            var lateAgain := Some(Listing([Item(key, again)], []));
            Observations(gone) == [] && !NeverStuck(History([late, gone, lateAgain]))
  {
    var gone := Some(Listing([], []));
    var late := Some(Listing([Item(key, version)], []));
    var lateAgain := Some(Listing([Item(key, again)], []));
    var rounds := [late, gone, lateAgain];
    assert Observations(late)[0] == Differ(key, Entry("", version));
    assert Observations(lateAgain)[0] == Differ(key, Entry("", again));
    StopsByTheSecondStuckRound(rounds, 0, 2, key, Entry("", version), Entry("", again));
    assert rounds[..3] == rounds;
  }
}
