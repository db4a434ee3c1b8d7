/**
 The cache of `fetchYAMLOrJSON` in `internal/repo/client/defaultclient.go`, used by any number of
 callers at once.  A state machine whose steps are what a caller does between two points where
 others can run; time passes between steps.
 */
module FetchCache {
  import opened Wrappers

  /** `cacheItem`; time 0 is the zero time, which `updated` is before the first fetch. */
  datatype Item = Item(bytes: string, updated: int, holder: Option<nat>)

  /** Where a call of `fetchYAMLOrJSON` is. */
  datatype Phase =
    | Idle
    | Waiting(url: string)               // has its cache item, and waits for the mutex
    | Checking(url: string)              // holds the mutex
    | Fetching(url: string, since: int)  // holds the mutex; has missed at that time
    | Leaving(url: string)               // holds the mutex; the result is determined

  /** A fetch that succeeded, and a call that was served from the cache. */
  datatype Fetch = Fetch(url: string, started: int, ended: int, bytes: string)
  datatype Hit = Hit(url: string, at: int, bytes: string)

  datatype State = State(
    now: int,
    items: map<string, Item>,
    phases: map<nat, Phase>,
    fetches: seq<Fetch>,                 // in the order in which they ended
    hits: seq<Hit>)

  datatype Event =
    | Tick(elapsed: nat)
    | Call(caller: nat, url: string)     // LoadOrStore
    | Lock(caller: nat)
    | Check(caller: nat)
    | Fail(caller: nat)                  // any error of the request, the response or its decoding
    | Succeed(caller: nat, bytes: string)
    | Unlock(caller: nat)

  function PhaseOf(s: State, caller: nat): Phase {
    if caller in s.phases then s.phases[caller] else Idle
  }

  predicate Holding(p: Phase) {
    p.Checking? || p.Fetching? || p.Leaving?
  }

  predicate Enabled(s: State, e: Event) {
    match e
    case Tick(_) => true
    case Call(p, _) => PhaseOf(s, p).Idle?
    case Lock(p) => PhaseOf(s, p).Waiting? && PhaseOf(s, p).url in s.items && s.items[PhaseOf(s, p).url].holder.None?
    case Check(p) => PhaseOf(s, p).Checking? && PhaseOf(s, p).url in s.items
    case Fail(p) => PhaseOf(s, p).Fetching? && PhaseOf(s, p).url in s.items
    case Succeed(p, _) => PhaseOf(s, p).Fetching? && PhaseOf(s, p).url in s.items
    case Unlock(p) => PhaseOf(s, p).Leaving? && PhaseOf(s, p).url in s.items
  }

  /** `cached.updated.Add(c.maxCacheAge).After(time.Now())` */
  predicate IsFresh(maxAge: int, item: Item, now: int) {
    item.updated + maxAge > now
  }

  function Step(maxAge: int, s: State, e: Event): State
    requires Enabled(s, e)
  {
    match e
    case Tick(elapsed) => s.(now := s.now + elapsed)
    case Call(p, url) =>
      s.(items := if url in s.items then s.items else s.items[url := Item("", 0, None)],
         phases := s.phases[p := Waiting(url)])
    case Lock(p) =>
      var url := PhaseOf(s, p).url;
      s.(items := s.items[url := s.items[url].(holder := Some(p))], phases := s.phases[p := Checking(url)])
    case Check(p) =>
      var url := PhaseOf(s, p).url;
      if IsFresh(maxAge, s.items[url], s.now) then
        s.(phases := s.phases[p := Leaving(url)], hits := s.hits + [Hit(url, s.now, s.items[url].bytes)])
      else
        s.(phases := s.phases[p := Fetching(url, s.now)])
    case Fail(p) =>
      s.(phases := s.phases[p := Leaving(PhaseOf(s, p).url)])
    case Succeed(p, bytes) =>
      var url := PhaseOf(s, p).url;
      s.(items := s.items[url := s.items[url].(bytes := bytes, updated := s.now)],
         phases := s.phases[p := Leaving(url)],
         fetches := s.fetches + [Fetch(url, PhaseOf(s, p).since, s.now, bytes)])
    case Unlock(p) =>
      var url := PhaseOf(s, p).url;
      s.(items := s.items[url := s.items[url].(holder := None)], phases := s.phases[p := Idle])
  }

  // ---------------------------------------------------------------- invariant

  /** The mutex of an item is held by exactly the caller that is past `Lock`. */
  ghost predicate Exclusive(s: State) {
    && (forall p: nat :: !PhaseOf(s, p).Idle? ==> PhaseOf(s, p).url in s.items)
    && (forall p: nat, url :: url in s.items ==>
         (s.items[url].holder == Some(p) <==> Holding(PhaseOf(s, p)) && PhaseOf(s, p).url == url))
  }

  /** f is the last successful fetch of its URL, and the item holds what it brought. */
  ghost predicate IsSource(s: State, url: string, k: int) {
    && 0 <= k < |s.fetches|
    && url in s.items
    && s.fetches[k].url == url
    && s.items[url].bytes == s.fetches[k].bytes
    && s.items[url].updated == s.fetches[k].ended
    && forall j :: k < j < |s.fetches| ==> s.fetches[j].url != url
  }

  /** An item never fetched is as new; any other holds the result of the last successful fetch. */
  ghost predicate Sourced(s: State) {
    && (forall k :: 0 <= k < |s.fetches| ==> s.fetches[k].url in s.items)
    && (forall url :: url in s.items ==> NeverFetched(s, url) || exists k :: IsSource(s, url, k))
  }

  ghost predicate NeverFetched(s: State, url: string)
    requires url in s.items
  {
    && s.items[url].updated == 0
    && s.items[url].bytes == ""
    && forall k :: 0 <= k < |s.fetches| ==> s.fetches[k].url != url
  }

  /** Two fetches of one URL: the later one starts when the result of the earlier one has expired. */
  ghost predicate Spaced(maxAge: int, fetches: seq<Fetch>) {
    forall i, j :: 0 <= i < j < |fetches| && fetches[i].url == fetches[j].url ==>
      fetches[i].ended + maxAge <= fetches[j].started <= fetches[j].ended
  }

  /** A running fetch started when the item had expired, and after all hits. */
  ghost predicate FetchesLate(maxAge: int, s: State) {
    forall p: nat :: PhaseOf(s, p).Fetching? && PhaseOf(s, p).url in s.items ==>
      && s.items[PhaseOf(s, p).url].updated + maxAge <= PhaseOf(s, p).since <= s.now
      && forall h :: h in s.hits && h.url == PhaseOf(s, p).url ==> h.at <= PhaseOf(s, p).since
  }

  ghost predicate Timely(s: State) {
    && (forall f :: f in s.fetches ==> f.ended <= s.now)
    && (forall i, j :: 0 <= i < j < |s.fetches| ==> s.fetches[i].ended <= s.fetches[j].ended)
    && (forall h :: h in s.hits ==> h.at <= s.now)
  }

  /** The k-th fetch brought what h was served, not longer than maxAge before; the next one starts after h. */
  ghost predicate ServedBy(maxAge: int, fetches: seq<Fetch>, h: Hit, k: int) {
    && 0 <= k < |fetches|
    && fetches[k].url == h.url
    && fetches[k].bytes == h.bytes
    && fetches[k].ended <= h.at < fetches[k].ended + maxAge
    && forall j :: k < j < |fetches| && fetches[j].url == h.url ==> h.at <= fetches[j].started
  }

  ghost predicate HitsServed(maxAge: int, s: State) {
    forall h :: h in s.hits ==> exists k :: ServedBy(maxAge, s.fetches, h, k)
  }

  ghost predicate Inv(maxAge: int, s: State) {
    && maxAge <= s.now
    && Exclusive(s)
    && Sourced(s)
    && Spaced(maxAge, s.fetches)
    && FetchesLate(maxAge, s)
    && Timely(s)
    && HitsServed(maxAge, s)
  }

  /** A client that has not been used; its clock is further from the zero time than the maximum age. */
  ghost predicate Init(maxAge: int, s: State) {
    maxAge <= s.now && s.items == map[] && s.phases == map[] && s.fetches == [] && s.hits == []
  }

  lemma StepExclusive(maxAge: int, s: State, e: Event)
    requires Exclusive(s) && Enabled(s, e)
    ensures Exclusive(Step(maxAge, s, e))
  {
    var t := Step(maxAge, s, e);
    assert forall url :: url in s.items ==> url in t.items;
    forall p: nat
      ensures !PhaseOf(t, p).Idle? ==> PhaseOf(t, p).url in t.items
      ensures e.Tick? || p != e.caller ==> PhaseOf(t, p) == PhaseOf(s, p)
    {
      assert !PhaseOf(s, p).Idle? ==> PhaseOf(s, p).url in s.items;
    }
  }

  lemma StepSourced(maxAge: int, s: State, e: Event)
    requires Sourced(s) && Enabled(s, e)
    ensures Sourced(Step(maxAge, s, e))
  {
    var t := Step(maxAge, s, e);
    forall url | url in t.items
      ensures NeverFetched(t, url) || exists k :: IsSource(t, url, k)
    {
      if e.Succeed? && url == PhaseOf(s, e.caller).url {
        assert IsSource(t, url, |s.fetches|);
      } else if url in s.items {
        StepKeepsSource(maxAge, s, e, url);
      }
    }
  }

  lemma StepKeepsSource(maxAge: int, s: State, e: Event, url: string)
    requires Sourced(s) && Enabled(s, e) && url in s.items
    requires !(e.Succeed? && url == PhaseOf(s, e.caller).url)
    ensures var t := Step(maxAge, s, e); url in t.items && (NeverFetched(t, url) || exists k :: IsSource(t, url, k))
  {
    var t := Step(maxAge, s, e);
    assert t.items[url].bytes == s.items[url].bytes && t.items[url].updated == s.items[url].updated;
    if !NeverFetched(s, url) {
      var k :| IsSource(s, url, k);
      assert IsSource(t, url, k);
    }
  }

  /** What the item holds is the youngest result for its URL. */
  lemma SourceIsLatest(maxAge: int, s: State, url: string, k: nat)
    requires Inv(maxAge, s) && k < |s.fetches| && s.fetches[k].url == url
    ensures url in s.items && s.fetches[k].ended <= s.items[url].updated
  {
    assert url in s.items;
    var l :| IsSource(s, url, l);
  }

  lemma StepSpaced(maxAge: int, s: State, e: Event)
    requires Inv(maxAge, s) && Enabled(s, e)
    ensures Spaced(maxAge, Step(maxAge, s, e).fetches)
  {
    if e.Succeed? {
      var p := PhaseOf(s, e.caller);
      var all := Step(maxAge, s, e).fetches;
      forall i | 0 <= i < |s.fetches| && s.fetches[i].url == p.url
        ensures all[i].ended + maxAge <= p.since <= s.now
      {
        SourceIsLatest(maxAge, s, p.url, i);
      }
    }
  }

  lemma StepFetchesLate(maxAge: int, s: State, e: Event)
    requires Inv(maxAge, s) && Enabled(s, e)
    ensures FetchesLate(maxAge, Step(maxAge, s, e))
  {
    var t := Step(maxAge, s, e);
    StepExclusive(maxAge, s, e);
    forall p: nat | PhaseOf(t, p).Fetching? && PhaseOf(t, p).url in t.items
      ensures t.items[PhaseOf(t, p).url].updated + maxAge <= PhaseOf(t, p).since <= t.now
      ensures forall h :: h in t.hits && h.url == PhaseOf(t, p).url ==> h.at <= PhaseOf(t, p).since
    {
      var url := PhaseOf(t, p).url;
      assert t.items[url].holder == Some(p);
      if !e.Tick? && e.caller == p {
        assert e.Check?;
      } else {
        assert PhaseOf(s, p) == PhaseOf(t, p);
        assert url in s.items;
        assert s.items[url].holder == Some(p);
      }
    }
  }

  lemma StepHitsServed(maxAge: int, s: State, e: Event)
    requires Inv(maxAge, s) && Enabled(s, e)
    ensures HitsServed(maxAge, Step(maxAge, s, e))
  {
    var t := Step(maxAge, s, e);
    forall h | h in t.hits
      ensures exists k :: ServedBy(maxAge, t.fetches, h, k)
    {
      if h in s.hits {
        var k :| ServedBy(maxAge, s.fetches, h, k);
        if e.Succeed? {
          assert h.url == PhaseOf(s, e.caller).url ==> h.at <= PhaseOf(s, e.caller).since;
        }
        assert ServedBy(maxAge, t.fetches, h, k);
      } else {
        var url := PhaseOf(s, e.caller).url;
        var k :| IsSource(s, url, k);
        assert ServedBy(maxAge, t.fetches, h, k);
      }
    }
  }

  lemma StepTimely(maxAge: int, s: State, e: Event)
    requires Timely(s) && Enabled(s, e)
    ensures Timely(Step(maxAge, s, e)) && s.now <= Step(maxAge, s, e).now
  {
  }

  lemma StepInv(maxAge: int, s: State, e: Event)
    requires Inv(maxAge, s) && Enabled(s, e)
    ensures Inv(maxAge, Step(maxAge, s, e))
  {
    StepExclusive(maxAge, s, e);
    StepSourced(maxAge, s, e);
    StepSpaced(maxAge, s, e);
    StepFetchesLate(maxAge, s, e);
    StepHitsServed(maxAge, s, e);
    StepTimely(maxAge, s, e);
    InvFromParts(maxAge, s, Step(maxAge, s, e));
  }

  lemma InvFromParts(maxAge: int, s: State, t: State)
    requires maxAge <= s.now <= t.now && Exclusive(t) && Sourced(t) && Spaced(maxAge, t.fetches)
    requires FetchesLate(maxAge, t) && Timely(t) && HitsServed(maxAge, t)
    ensures Inv(maxAge, t)
  {
  }

  // ---------------------------------------------------------------- runs

  /** The state that a run of events leads to, or None when an event cannot happen. */
  function Run(maxAge: int, s: State, events: seq<Event>): Option<State>
    decreases |events|
  {
    if events == [] then Some(s)
    else if !Enabled(s, events[0]) then None
    else Run(maxAge, Step(maxAge, s, events[0]), events[1..])
  }

  lemma {:induction false} RunInv(maxAge: int, s: State, events: seq<Event>)
    requires Inv(maxAge, s) && Run(maxAge, s, events).Some?
    ensures Inv(maxAge, Run(maxAge, s, events).value)
    decreases |events|
  {
    if events != [] {
      StepInv(maxAge, s, events[0]);
      RunInv(maxAge, Step(maxAge, s, events[0]), events[1..]);
    }
  }

  ghost predicate Reachable(maxAge: int, s: State) {
    exists start, events :: Init(maxAge, start) && Run(maxAge, start, events) == Some(s)
  }

  lemma ReachableInv(maxAge: int, s: State)
    requires Reachable(maxAge, s)
    ensures Inv(maxAge, s)
  {
    var start, events :| Init(maxAge, start) && Run(maxAge, start, events) == Some(s);
    RunInv(maxAge, start, events);
  }

  /** Two fetches of one URL never overlap. */
  lemma FetchesNeverOverlap(maxAge: int, s: State, p: nat, q: nat)
    requires Reachable(maxAge, s)
    requires PhaseOf(s, p).Fetching? && PhaseOf(s, q).Fetching? && PhaseOf(s, p).url == PhaseOf(s, q).url
    ensures p == q
  {
    ReachableInv(maxAge, s);
    var url := PhaseOf(s, p).url;
    assert s.items[url].holder == Some(p) && s.items[url].holder == Some(q);
  }

  /** A successful fetch starts at least the maximum age after the last one of its URL has ended. */
  lemma SuccessfulFetchesAreSpaced(maxAge: int, s: State, i: nat, j: nat)
    requires Reachable(maxAge, s)
    requires i < j < |s.fetches| && s.fetches[i].url == s.fetches[j].url
    ensures s.fetches[i].ended + maxAge <= s.fetches[j].started <= s.fetches[j].ended
  {
    ReachableInv(maxAge, s);
  }

  /** A hit serves what the last successful fetch before it brought, while that is younger than the maximum age. */
  lemma HitsAreFresh(maxAge: int, s: State, h: Hit)
    requires Reachable(maxAge, s) && h in s.hits
    ensures exists k :: ServedBy(maxAge, s.fetches, h, k)
  {
    ReachableInv(maxAge, s);
  }

  /**
   A check is a hit exactly when some fetch of the URL has succeeded within the maximum age: a caller
   that has waited for another one's fetch does not fetch again.
   */
  lemma HitsIffFetchedRecently(maxAge: int, s: State, p: nat)
    requires Reachable(maxAge, s) && Enabled(s, Check(p))
    ensures PhaseOf(Step(maxAge, s, Check(p)), p).Leaving? <==>
            exists k :: 0 <= k < |s.fetches| && s.fetches[k].url == PhaseOf(s, p).url && s.now < s.fetches[k].ended + maxAge
  {
    ReachableInv(maxAge, s);
    var url := PhaseOf(s, p).url;
    if IsFresh(maxAge, s.items[url], s.now) {
      var k :| IsSource(s, url, k);
      assert s.now < s.fetches[k].ended + maxAge;
    } else {
      forall k | 0 <= k < |s.fetches| && s.fetches[k].url == url
        ensures s.now >= s.fetches[k].ended + maxAge
      {
        SourceIsLatest(maxAge, s, url, k);
      }
    }
  }

  /** What is cached for a URL changes only in a successful fetch of it; a failed one leaves it as it was. */
  lemma OnlySuccessChangesTheCache(maxAge: int, s: State, e: Event, url: string)
    requires Reachable(maxAge, s) && Enabled(s, e) && url in s.items
    ensures var t := Step(maxAge, s, e);
            && url in t.items
            && (t.items[url].bytes != s.items[url].bytes || t.items[url].updated != s.items[url].updated ==>
                  e.Succeed? && PhaseOf(s, e.caller) == Fetching(url, PhaseOf(s, e.caller).since) &&
                  t.items[url].bytes == e.bytes && t.items[url].updated == s.now)
  {
  }

  /** No caller is ever blocked for good: its URL's mutex is free, or the holder can go on. */
  lemma NeverDeadlocked(maxAge: int, s: State, p: nat)
    requires Reachable(maxAge, s) && !PhaseOf(s, p).Idle?
    ensures exists e :: Enabled(s, e) && !e.Tick? && !e.Call? &&
                        PhaseOf(s, e.caller).url == PhaseOf(s, p).url
  {
    ReachableInv(maxAge, s);
    var url := PhaseOf(s, p).url;
    var q := match s.items[url].holder case None => p case Some(h) => h;
    assert Holding(PhaseOf(s, q)) || PhaseOf(s, q).Waiting?;
    assert Enabled(s, Lock(q)) || Enabled(s, Check(q)) || Enabled(s, Fail(q)) || Enabled(s, Unlock(q));
  }

  // ---------------------------------------------------------------- one call

  /** The request of the caller is over. */
  predicate EndsFetch(e: Event, p: nat) {
    e == Fail(p) || (e.Succeed? && e.caller == p)
  }

  predicate IsCall(e: Event, p: nat) {
    e.Call? && e.caller == p
  }

  /** After that, and after a hit, the caller can release the mutex, and can do nothing else. */
  lemma OnlyUnlockIsLeft(maxAge: int, s: State, e: Event, p: nat, next: Event)
    requires Enabled(s, e)
    requires EndsFetch(e, p) || (e == Check(p) && s.now < s.items[PhaseOf(s, p).url].updated + maxAge)
    ensures Enabled(Step(maxAge, s, e), Unlock(p))
    ensures !next.Tick? && next.caller == p && Enabled(Step(maxAge, s, e), next) ==> next == Unlock(p)
  {
  }

  lemma {:induction false} CallsAgain(maxAge: int, s: State, events: seq<Event>, p: nat, n: nat) returns (l: nat)
    requires PhaseOf(s, p).Idle? && Run(maxAge, s, events).Some? && n < |events| && EndsFetch(events[n], p)
    ensures l < n && IsCall(events[l], p)
    decreases n
  {
    l := 0;
    if !IsCall(events[0], p) {
      l := CallsAgain(maxAge, Step(maxAge, s, events[0]), events[1..], p, n - 1);
      l := l + 1;
    }
  }

  lemma {:induction false} LeavesAndCalls(maxAge: int, s: State, events: seq<Event>, p: nat, n: nat)
    returns (k: nat, l: nat)
    requires PhaseOf(s, p).Leaving? && Run(maxAge, s, events).Some? && n < |events| && EndsFetch(events[n], p)
    ensures k < l < n && events[k] == Unlock(p) && IsCall(events[l], p)
    decreases n
  {
    var t := Step(maxAge, s, events[0]);
    if events[0] == Unlock(p) {
      l := CallsAgain(maxAge, t, events[1..], p, n - 1);
      k, l := 0, l + 1;
    } else {
      k, l := LeavesAndCalls(maxAge, t, events[1..], p, n - 1);
      k, l := k + 1, l + 1;
    }
  }

  /** A call makes one request at most: between two of them the caller releases the mutex and calls again. */
  lemma {:induction false} OneFetchPerCall(maxAge: int, s: State, events: seq<Event>, i: nat, j: nat, p: nat)
    returns (k: nat, l: nat)
    requires Run(maxAge, s, events).Some? && i < j < |events|
    requires EndsFetch(events[i], p) && EndsFetch(events[j], p)
    ensures i < k < l < j && events[k] == Unlock(p) && IsCall(events[l], p)
    decreases i
  {
    var t := Step(maxAge, s, events[0]);
    if i == 0 {
      k, l := LeavesAndCalls(maxAge, t, events[1..], p, j - 1);
    } else {
      k, l := OneFetchPerCall(maxAge, t, events[1..], i - 1, j - 1, p);
    }
    k, l := k + 1, l + 1;
  }

  // ---------------------------------------------------------------- load

  function FetchesOf(fetches: seq<Fetch>, url: string): seq<Fetch> {
    if fetches == [] then []
    else FetchesOf(fetches[..|fetches| - 1], url) +
         (if fetches[|fetches| - 1].url == url then [fetches[|fetches| - 1]] else [])
  }

  lemma {:induction false} FetchesOfMembers(fetches: seq<Fetch>, url: string, f: Fetch)
    ensures f in FetchesOf(fetches, url) <==> f in fetches && f.url == url
  {
    if fetches != [] {
      var n := |fetches| - 1;
      FetchesOfMembers(fetches[..n], url, f);
      assert fetches == fetches[..n] + [fetches[n]];
    }
  }

  /** n + 1 successful fetches of a URL take at least n times the maximum age. */
  lemma {:induction false} SpacedFetchesBoundTheLoad(maxAge: int, fetches: seq<Fetch>, url: string)
    requires Spaced(maxAge, fetches) && FetchesOf(fetches, url) != []
    ensures var mine := FetchesOf(fetches, url);
            (|mine| - 1) * maxAge <= mine[|mine| - 1].ended - mine[0].ended
  {
    var n := |fetches| - 1;
    var earlier := FetchesOf(fetches[..n], url);
    if fetches[n].url != url {
      SpacedFetchesBoundTheLoad(maxAge, fetches[..n], url);
    } else if earlier != [] {
      SpacedFetchesBoundTheLoad(maxAge, fetches[..n], url);
      var last := earlier[|earlier| - 1];
      FetchesOfMembers(fetches[..n], url, last);
      var i :| 0 <= i < n && fetches[i] == last;
      assert last.ended + maxAge <= fetches[n].ended;
      assert |earlier| * maxAge == (|earlier| - 1) * maxAge + maxAge;
    }
  }

  lemma LoadIsBounded(maxAge: int, s: State, url: string)
    requires Reachable(maxAge, s) && FetchesOf(s.fetches, url) != []
    ensures var mine := FetchesOf(s.fetches, url);
            (|mine| - 1) * maxAge <= mine[|mine| - 1].ended - mine[0].ended
  {
    ReachableInv(maxAge, s);
    SpacedFetchesBoundTheLoad(maxAge, s.fetches, url);
  }
}
