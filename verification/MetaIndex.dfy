/**
 `FetchMetaIndex` of `internal/repo/client/metaclient.go`: the indexes of all repositories merged into
 one, an entry per package name.
 */
module MetaIndex {
  import opened Wrappers
  import opened Semver
  import opened Slices

  datatype Repo = Repo(name: string, isDefault: bool)

  /** `PackageRepoIndexItem`; `details` is all that the merge only copies. */
  datatype Item = Item(name: string, latestVersion: string, details: string)

  /** `MetaIndexItem` */
  datatype MetaItem = MetaItem(item: Item, repos: seq<string>)

  /** An item, and the repository whose index it is in. */
  datatype Offer = Offer(repo: Repo, item: Item)

  /** What fetching the index of each repository gives; None is a failure. */
  type Indexes = Repo -> Option<seq<Item>>
  type Parser = string -> Option<Version>

  function RepoName(r: Repo): string { r.name }

  function Itself(s: string): string { s }

  // ---------------------------------------------------------------- what is merged

  function OffersOf(repo: Repo, items: seq<Item>): seq<Offer> {
    seq(|items|, i requires 0 <= i < |items| => Offer(repo, items[i]))
  }

  /** All items, in the order in which the repositories are visited; failed repositories offer nothing. */
  function Offers(repos: seq<Repo>, fetch: Indexes): seq<Offer> {
    if repos == [] then [] else OffersOf(repos[0], Indexed(fetch, repos[0])) + Offers(repos[1..], fetch)
  }

  function Indexed(fetch: Indexes, repo: Repo): seq<Item> {
    match fetch(repo) case None => [] case Some(items) => items
  }

  function Names(packages: seq<MetaItem>): seq<string> {
    seq(|packages|, i requires 0 <= i < |packages| => packages[i].item.name)
  }

  function For(offers: seq<Offer>, name: string): seq<Offer> {
    if offers == [] then []
    else if offers[0].item.name == name then [offers[0]] + For(offers[1..], name)
    else For(offers[1..], name)
  }

  function Versions(offers: seq<Offer>): seq<string> {
    seq(|offers|, i requires 0 <= i < |offers| => offers[i].item.latestVersion)
  }

  /** The running maximum over the visited versions. */
  function Latest(parse: Parser, versions: seq<string>): string
    requires versions != []
  {
    var last := versions[|versions| - 1];
    if |versions| == 1 then last
    else
      var sofar := Latest(parse, versions[..|versions| - 1]);
      if IsUpgradable(parse, sofar, last) then last else sofar
  }

  /** The details come from the last visited repository that is not the default, or else from the first one. */
  ghost predicate Decides(offers: seq<Offer>, k: int) {
    && 0 <= k < |offers|
    && (k == 0 || !offers[k].repo.isDefault)
    && forall j :: k < j < |offers| ==> offers[j].repo.isDefault
  }

  /** m is the entry for these offers of one package. */
  ghost predicate Merged(parse: Parser, offers: seq<Offer>, m: MetaItem) {
    && (exists k :: Decides(offers, k) && m.item == offers[k].item.(latestVersion := Latest(parse, Versions(offers))))
    && ListsRepos(offers, m.repos)
  }

  /** Every visit puts its repository in front. */
  ghost predicate ListsRepos(offers: seq<Offer>, repos: seq<string>) {
    |repos| == |offers| && forall i :: 0 <= i < |offers| ==> repos[i] == offers[|offers| - 1 - i].repo.name
  }

  ghost predicate EntryFits(parse: Parser, offers: seq<Offer>, index: map<string, MetaItem>, name: string) {
    if name in index then Merged(parse, offers, index[name]) else offers == []
  }

  ghost predicate IsIndex(parse: Parser, offers: seq<Offer>, index: map<string, MetaItem>) {
    forall name :: EntryFits(parse, For(offers, name), index, name)
  }

  // ---------------------------------------------------------------- the merge

  lemma {:induction false} ForConcat(a: seq<Offer>, b: seq<Offer>, name: string)
    ensures For(a + b, name) == For(a, name) + For(b, name)
  {
    if a == [] {
      assert a + b == b;
    } else {
      ForConcat(a[1..], b, name);
      assert (a + b)[1..] == a[1..] + b;
      Associative([a[0]], For(a[1..], name), For(b, name));
    }
  }

  lemma {:induction false} ForMembers(offers: seq<Offer>, name: string, o: Offer)
    ensures o in For(offers, name) <==> o in offers && o.item.name == name
  {
    if offers != [] {
      ForMembers(offers[1..], name, o);
      assert offers == [offers[0]] + offers[1..];
    }
  }

  lemma FirstOffer(parse: Parser, o: Offer)
    ensures Merged(parse, [o], MetaItem(o.item, [o.repo.name]))
  {
    assert Decides([o], 0);
    assert Versions([o])[0] == o.item.latestVersion;
  }

  lemma NextOffer(parse: Parser, offers: seq<Offer>, m: MetaItem, o: Offer)
    requires Merged(parse, offers, m)
    ensures var latest :=
              if IsUpgradable(parse, m.item.latestVersion, o.item.latestVersion)
              then o.item.latestVersion else m.item.latestVersion;
            var details := if o.repo.isDefault then m.item else o.item;
            Merged(parse, offers + [o], MetaItem(details.(latestVersion := latest), [o.repo.name] + m.repos))
  {
    var k :| Decides(offers, k) && m.item == offers[k].item.(latestVersion := Latest(parse, Versions(offers)));
    NextLatest(parse, offers, o);
    NextDecides(offers, k, o);
    var all, n := offers + [o], if o.repo.isDefault then k else |offers|;
    var latest := Latest(parse, Versions(all));
    NextRepos(offers, m.repos, o);
    MergedBy(parse, all, n, MetaItem(all[n].item.(latestVersion := latest), [o.repo.name] + m.repos));
  }

  lemma MergedBy(parse: Parser, offers: seq<Offer>, k: int, m: MetaItem)
    requires Decides(offers, k) && m.item == offers[k].item.(latestVersion := Latest(parse, Versions(offers)))
    requires ListsRepos(offers, m.repos)
    ensures Merged(parse, offers, m)
  {
  }

  lemma NextRepos(offers: seq<Offer>, repos: seq<string>, o: Offer)
    requires ListsRepos(offers, repos)
    ensures ListsRepos(offers + [o], [o.repo.name] + repos)
  {
  }

  lemma NextLatest(parse: Parser, offers: seq<Offer>, o: Offer)
    requires offers != []
    ensures var sofar := Latest(parse, Versions(offers));
            Latest(parse, Versions(offers + [o])) ==
            if IsUpgradable(parse, sofar, o.item.latestVersion) then o.item.latestVersion else sofar
  {
    var all := Versions(offers + [o]);
    assert all[..|all| - 1] == Versions(offers);
  }

  lemma NextDecides(offers: seq<Offer>, k: int, o: Offer)
    requires Decides(offers, k)
    ensures Decides(offers + [o], if o.repo.isDefault then k else |offers|)
  {
  }

  /** One step of the inner loop: the entry of the item's package is created or updated. */
  method Merge(parse: Parser, index: map<string, MetaItem>, repo: Repo, item: Item, ghost offers: seq<Offer>)
    returns (merged: map<string, MetaItem>)
    requires IsIndex(parse, offers, index)
    ensures IsIndex(parse, offers + [Offer(repo, item)], merged)
  {
    ghost var o := Offer(repo, item);
    ghost var mine := For(offers, item.name);
    assert EntryFits(parse, mine, index, item.name);
    var entry := MetaItem(item, [repo.name]);
    if item.name in index {
      var metaItem := index[item.name];
      var repos := [repo.name] + metaItem.repos;
      var actualLatestVersion := metaItem.item.latestVersion;
      if IsUpgradable(parse, actualLatestVersion, item.latestVersion) {
        actualLatestVersion := item.latestVersion;
      }
      var details := if repo.isDefault then metaItem.item else item;
      entry := MetaItem(details.(latestVersion := actualLatestVersion), repos);
      NextOffer(parse, mine, metaItem, o);
    } else {
      FirstOffer(parse, o);
      assert mine + [o] == [o];
    }
    merged := index[item.name := entry];
    EntryReplaced(parse, offers, index, o, entry);
  }

  lemma EntryReplaced(parse: Parser, offers: seq<Offer>, index: map<string, MetaItem>, o: Offer, entry: MetaItem)
    requires IsIndex(parse, offers, index)
    requires Merged(parse, For(offers, o.item.name) + [o], entry)
    ensures IsIndex(parse, offers + [o], index[o.item.name := entry])
  {
    forall name
      ensures EntryFits(parse, For(offers + [o], name), index[o.item.name := entry], name)
    {
      ForConcat(offers, [o], name);
      assert EntryFits(parse, For(offers, name), index, name);
      assert For([o], name) == if name == o.item.name then [o] else [];
      assert For(offers, name) + [] == For(offers, name);
    }
  }

  /** The inner loop: all items of one repository's index. */
  method MergeAll(
    parse: Parser, index: map<string, MetaItem>, repo: Repo, items: seq<Item>, ghost offers: seq<Offer>)
    returns (merged: map<string, MetaItem>)
    requires IsIndex(parse, offers, index)
    ensures IsIndex(parse, offers + OffersOf(repo, items), merged)
  {
    merged := index;
    assert offers + OffersOf(repo, items[..0]) == offers;
    for i := 0 to |items|
      invariant IsIndex(parse, offers + OffersOf(repo, items[..i]), merged)
    {
      assert offers + OffersOf(repo, items[..i + 1]) ==
             (offers + OffersOf(repo, items[..i])) + [Offer(repo, items[i])];
      merged := Merge(parse, merged, repo, items[i], offers + OffersOf(repo, items[..i]));
    }
    assert items[..|items|] == items;
  }

  lemma {:induction false} OffersSnoc(repos: seq<Repo>, repo: Repo, fetch: Indexes)
    ensures Offers(repos + [repo], fetch) == Offers(repos, fetch) + OffersOf(repo, Indexed(fetch, repo))
  {
    var all, last := repos + [repo], OffersOf(repo, Indexed(fetch, repo));
    if repos == [] {
      assert all == [repo];
    } else {
      var first, rest := OffersOf(repos[0], Indexed(fetch, repos[0])), Offers(repos[1..], fetch);
      OffersSnoc(repos[1..], repo, fetch);
      assert all[0] == repos[0] && all[1..] == repos[1..] + [repo];
      Associative(first, rest, last);
    }
  }

  /** `KeysSorted` */
  method KeysSorted(keys: set<string>) returns (names: seq<string>)
    ensures StrictlySorted(names, Itself)
    ensures forall n :: n in names <==> n in keys
  {
    names := [];
    var rest := keys;
    while rest != {}
      invariant rest <= keys
      invariant forall n :: n in names <==> n in keys && n !in rest
      invariant forall i, j :: 0 <= i < j < |names| ==> names[i] != names[j]
    {
      var n :| n in rest;
      rest := rest - {n};
      names := names + [n];
    }
    forall n
      ensures n in Sort(names, Itself) <==> n in names
    {
      SortMembers(names, Itself, n);
    }
    SortStrictly(names, Itself);
    names := Sort(names, Itself);
  }

  lemma MergedName(parse: Parser, offers: seq<Offer>, name: string, m: MetaItem)
    requires Merged(parse, For(offers, name), m)
    ensures m.item.name == name
  {
    var all := For(offers, name);
    var k :| Decides(all, k) && m.item == all[k].item.(latestVersion := Latest(parse, Versions(all)));
    ForMembers(offers, name, all[k]);
  }

  /** The entries of the index in the order of their names. */
  ghost predicate IsMetaIndex(parse: Parser, offers: seq<Offer>, packages: seq<MetaItem>) {
    && StrictlySorted(Names(packages), Itself)
    && (forall m :: m in packages ==> Merged(parse, For(offers, m.item.name), m))
    && (forall o :: o in offers ==> o.item.name in Names(packages))
  }

  method Listed(parse: Parser, index: map<string, MetaItem>, ghost offers: seq<Offer>) returns (packages: seq<MetaItem>)
    requires IsIndex(parse, offers, index)
    ensures IsMetaIndex(parse, offers, packages)
  {
    var names := KeysSorted(index.Keys);
    packages := [];
    for i := 0 to |names|
      invariant Names(packages) == names[..i]
      invariant forall m :: m in packages ==> Merged(parse, For(offers, m.item.name), m)
    {
      assert EntryFits(parse, For(offers, names[i]), index, names[i]);
      MergedName(parse, offers, names[i], index[names[i]]);
      assert Names(packages + [index[names[i]]]) == Names(packages) + [names[i]];
      packages := packages + [index[names[i]]];
    }
    assert names[..|names|] == names;
    forall o | o in offers
      ensures o.item.name in names
    {
      ForMembers(offers, o.item.name, o);
      assert EntryFits(parse, For(offers, o.item.name), index, o.item.name);
    }
  }

  /** The loop over the repositories; one that cannot be fetched is skipped, and reported. */
  method FetchAll(repos: array<Repo>, fetch: Indexes, parse: Parser) returns (index: map<string, MetaItem>, failed: bool)
    ensures IsIndex(parse, Offers(repos[..], fetch), index)
    ensures failed <==> exists r :: r in repos[..] && fetch(r).None?
  {
    index := map[];
    failed := false;
    for k := 0 to repos.Length
      invariant IsIndex(parse, Offers(repos[..k], fetch), index)
      invariant failed <==> exists r :: r in repos[..k] && fetch(r).None?
    {
      var repo := repos[k];
      assert repos[..k + 1] == repos[..k] + [repo];
      OffersSnoc(repos[..k], repo, fetch);
      match fetch(repo) {
        case None =>
          failed := true;
          assert OffersOf(repo, []) == [];
          assert Offers(repos[..k], fetch) + [] == Offers(repos[..k], fetch);
        case Some(items) =>
          index := MergeAll(parse, index, repo, items, Offers(repos[..k], fetch));
      }
    }
    assert repos[..repos.Length] == repos[..];
  }

  /** `FetchMetaIndex`; `repos` is the list of all repositories, sorted and then reversed in place. */
  method FetchMetaIndex(repos: array<Repo>, fetch: Indexes, parse: Parser)
    returns (packages: seq<MetaItem>, failed: bool)
    modifies repos
    ensures repos[..] == Backwards(Sort(old(repos[..]), RepoName))
    ensures IsMetaIndex(parse, Offers(repos[..], fetch), packages)
    ensures failed <==> exists r :: r in repos[..] && fetch(r).None?
  {
    SortBy(repos, RepoName);
    ghost var sorted := repos[..];
    Reverse(repos);
    assert repos[..] == Backwards(sorted);
    var index;
    index, failed := FetchAll(repos, fetch, parse);
    packages := Listed(parse, index, Offers(repos[..], fetch));
  }

  function Backwards<T>(s: seq<T>): seq<T> {
    seq(|s|, i requires 0 <= i < |s| => s[|s| - 1 - i])
  }

  lemma BackwardsMembers<T>(s: seq<T>, x: T)
    ensures x in Backwards(s) <==> x in s
  {
    if x in s {
      var i :| 0 <= i < |s| && s[i] == x;
      assert Backwards(s)[|s| - 1 - i] == x;
    }
  }

  // ---------------------------------------------------------------- what the merge means

  /** As the repositories are: distinct names, and no package twice in one index. */
  ghost predicate Regular(repos: seq<Repo>, fetch: Indexes) {
    && StrictlySorted(repos, RepoName)
    && forall r, i, j :: r in repos && 0 <= i < j < |Indexed(fetch, r)| ==>
         Indexed(fetch, r)[i].name != Indexed(fetch, r)[j].name
  }

  /** The repository's index has this item. */
  ghost predicate Holds(repos: seq<Repo>, fetch: Indexes, repo: Repo, item: Item) {
    repo in repos && item in Indexed(fetch, repo)
  }

  /** Each offer comes from a repository that was visited earlier than those of the offers behind it. */
  ghost predicate Descending(offers: seq<Offer>) {
    forall i, j :: 0 <= i < j < |offers| ==> CompareText(offers[j].repo.name, offers[i].repo.name) < 0
  }

  lemma {:induction false} OffersMembers(repos: seq<Repo>, fetch: Indexes, o: Offer)
    ensures o in Offers(repos, fetch) <==> Holds(repos, fetch, o.repo, o.item)
  {
    if repos != [] {
      OffersMembers(repos[1..], fetch, o);
      assert repos == [repos[0]] + repos[1..];
      var first := OffersOf(repos[0], Indexed(fetch, repos[0]));
      if o.repo == repos[0] && o.item in Indexed(fetch, o.repo) {
        var i :| 0 <= i < |first| && Indexed(fetch, o.repo)[i] == o.item;
        assert first[i] == o;
      }
    }
  }

  lemma {:induction false} OnePerIndex(repo: Repo, items: seq<Item>, name: string)
    requires forall i, j :: 0 <= i < j < |items| ==> items[i].name != items[j].name
    ensures |For(OffersOf(repo, items), name)| <= 1
  {
    if items != [] {
      var rest := OffersOf(repo, items[1..]);
      assert OffersOf(repo, items)[1..] == rest;
      OnePerIndex(repo, items[1..], name);
      if items[0].name == name && For(rest, name) != [] {
        ForMembers(rest, name, For(rest, name)[0]);
        assert false;
      }
    }
  }

  /** The repositories are visited in descending order, each with at most one offer for a package. */
  lemma {:induction false} OffersDescend(repos: seq<Repo>, fetch: Indexes, name: string)
    requires Regular(repos, fetch)
    ensures Descending(For(Offers(Backwards(repos), fetch), name))
  {
    if repos != [] {
      var n := |repos| - 1;
      var first, rest := repos[n], repos[..n];
      var head, tail := OffersOf(first, Indexed(fetch, first)), Offers(Backwards(rest), fetch);
      assert Backwards(repos)[1..] == Backwards(rest);
      OffersDescend(rest, fetch, name);
      ForConcat(head, tail, name);
      OnePerIndex(first, Indexed(fetch, first), name);
      forall o
        ensures o in For(head, name) ==> o.repo == first
        ensures o in For(tail, name) ==> CompareText(o.repo.name, first.name) < 0
      {
        ForMembers(head, name, o);
        if o in For(tail, name) {
          OfferedBelow(repos, fetch, name, o);
        }
      }
      DescendingConcat(first, For(head, name), For(tail, name));
    }
  }

  lemma OfferedBelow(repos: seq<Repo>, fetch: Indexes, name: string, o: Offer)
    requires StrictlySorted(repos, RepoName) && repos != []
    requires o in For(Offers(Backwards(repos[..|repos| - 1]), fetch), name)
    ensures CompareText(o.repo.name, repos[|repos| - 1].name) < 0
  {
    var rest := repos[..|repos| - 1];
    HoldersOffer(rest, fetch, name, o);
    var i :| 0 <= i < |rest| && rest[i] == o.repo;
    assert CompareText(RepoName(repos[i]), RepoName(repos[|repos| - 1])) < 0;
  }

  lemma DescendingConcat(first: Repo, a: seq<Offer>, b: seq<Offer>)
    requires |a| <= 1 && Descending(b)
    requires forall o :: o in a ==> o.repo == first
    requires forall o :: o in b ==> CompareText(o.repo.name, first.name) < 0
    ensures Descending(a + b)
  {
    if a != [] {
      assert a + b == [a[0]] + b;
    }
  }

  /** The repositories listed for a package are exactly those that hold it, in ascending order. */
  lemma ReposAreTheHolders(parse: Parser, repos: seq<Repo>, fetch: Indexes, name: string, m: MetaItem)
    requires Regular(repos, fetch)
    requires Merged(parse, For(Offers(Backwards(repos), fetch), name), m)
    ensures StrictlySorted(m.repos, Itself)
    ensures forall n :: n in m.repos <==> exists r, i :: Holds(repos, fetch, r, i) && r.name == n && i.name == name
  {
    var offers := For(Offers(Backwards(repos), fetch), name);
    OffersDescend(repos, fetch, name);
    forall n
      ensures n in m.repos <==> exists r, i :: Holds(repos, fetch, r, i) && r.name == n && i.name == name
    {
      ListedRepo(parse, offers, m, n);
      if n in m.repos {
        var o :| o in offers && o.repo.name == n;
        HoldersOffer(repos, fetch, name, o);
        assert Holds(repos, fetch, o.repo, o.item);
      }
      if exists r, i :: Holds(repos, fetch, r, i) && r.name == n && i.name == name {
        var r, i :| Holds(repos, fetch, r, i) && r.name == n && i.name == name;
        HoldersOffer(repos, fetch, name, Offer(r, i));
        assert Offer(r, i) in offers;
      }
    }
  }

  lemma ListedRepo(parse: Parser, offers: seq<Offer>, m: MetaItem, n: string)
    requires Merged(parse, offers, m)
    ensures n in m.repos <==> exists o :: o in offers && o.repo.name == n
  {
    if n in m.repos {
      var k :| 0 <= k < |m.repos| && m.repos[k] == n;
      assert offers[|offers| - 1 - k] in offers;
    }
    if exists o :: o in offers && o.repo.name == n {
      var o :| o in offers && o.repo.name == n;
      var k :| 0 <= k < |offers| && offers[k] == o;
      assert m.repos[|offers| - 1 - k] == n;
    }
  }

  lemma HoldersOffer(repos: seq<Repo>, fetch: Indexes, name: string, o: Offer)
    ensures o in For(Offers(Backwards(repos), fetch), name) <==>
            Holds(repos, fetch, o.repo, o.item) && o.item.name == name
  {
    ForMembers(Offers(Backwards(repos), fetch), name, o);
    OffersMembers(Backwards(repos), fetch, o);
    BackwardsMembers(repos, o.repo);
  }

  /** Repositories that are not the default come first, in ascending order; default ones follow, in descending order. */
  ghost predicate ComesFirst(r: Repo, q: Repo) {
    if r.isDefault then q.isDefault && CompareText(q.name, r.name) <= 0
    else q.isDefault || CompareText(r.name, q.name) <= 0
  }

  ghost predicate Preferred(repos: seq<Repo>, fetch: Indexes, name: string, r: Repo) {
    forall q, i :: Holds(repos, fetch, q, i) && i.name == name ==> ComesFirst(r, q)
  }

  /**
   The details are those of the first holder, by name, that is not the default repository; a default
   repository decides only when every holder is one.
   */
  lemma DetailsComeFromThePreferred(parse: Parser, repos: seq<Repo>, fetch: Indexes, name: string, m: MetaItem)
    requires Regular(repos, fetch)
    requires Merged(parse, For(Offers(Backwards(repos), fetch), name), m)
    ensures exists r, i :: Holds(repos, fetch, r, i) && i.name == name && Preferred(repos, fetch, name, r) &&
                           m.item == i.(latestVersion := m.item.latestVersion)
  {
    var offers := For(Offers(Backwards(repos), fetch), name);
    var k :| Decides(offers, k) && m.item == offers[k].item.(latestVersion := Latest(parse, Versions(offers)));
    var r, i := offers[k].repo, offers[k].item;
    HoldersOffer(repos, fetch, name, offers[k]);
    forall q, j | Holds(repos, fetch, q, j) && j.name == name
      ensures ComesFirst(r, q)
    {
      HoldersOffer(repos, fetch, name, Offer(q, j));
      OffersDescend(repos, fetch, name);
      DecidesOver(offers, k, Offer(q, j));
    }
    assert Preferred(repos, fetch, name, r);
  }

  lemma DecidesOver(offers: seq<Offer>, k: int, o: Offer)
    requires Decides(offers, k) && Descending(offers) && o in offers
    ensures ComesFirst(offers[k].repo, o.repo)
  {
    var l :| 0 <= l < |offers| && offers[l] == o;
    CompareTextOrder(o.repo.name, offers[k].repo.name, o.repo.name);
  }

  // ---------------------------------------------------------------- the latest version

  ghost predicate Unbeaten(parse: Parser, latest: string, versions: seq<string>) {
    forall v :: v in versions ==> !IsUpgradable(parse, latest, v)
  }

  ghost predicate AllParse(parse: Parser, versions: seq<string>) {
    forall v :: v in versions ==> parse(v).Some?
  }

  /** No version has a higher precedence than v. */
  ghost predicate Top(parse: Parser, versions: seq<string>, v: string)
    requires AllParse(parse, versions) && v in versions
  {
    forall u :: u in versions ==> Compare(parse(u).value, parse(v).value) <= 0
  }

  /** The versions of greatest precedence can be told apart by their metadata. */
  ghost predicate TopsComparable(parse: Parser, versions: seq<string>)
    requires AllParse(parse, versions)
  {
    forall a, b :: a in versions && b in versions && Top(parse, versions, a) && Top(parse, versions, b) ==>
      !Clash(parse(a).value, parse(b).value)
  }

  lemma {:induction false} LatestIsTop(parse: Parser, versions: seq<string>)
    requires versions != []
    ensures Latest(parse, versions) in versions
    ensures AllParse(parse, versions) ==> Top(parse, versions, Latest(parse, versions))
  {
    var n := |versions| - 1;
    var last, latest := versions[n], Latest(parse, versions);
    assert versions == versions[..n] + [last];
    if n > 0 {
      var sofar := Latest(parse, versions[..n]);
      LatestIsTop(parse, versions[..n]);
      if AllParse(parse, versions) {
        forall u | u in versions
          ensures Compare(parse(u).value, parse(latest).value) <= 0
        {
          CompareTotalPreorder(parse(u).value, parse(sofar).value, parse(latest).value);
          CompareTotalPreorder(parse(last).value, parse(sofar).value, parse(last).value);
        }
      }
    } else if AllParse(parse, versions) {
      CompareTotalPreorder(parse(last).value, parse(last).value, parse(last).value);
    }
  }

  /** Along the fold, the version that is on top in the end is never beaten. */
  lemma {:induction false} TopIsUnbeaten(parse: Parser, versions: seq<string>, visited: seq<string>)
    requires AllParse(parse, versions) && TopsComparable(parse, versions)
    requires visited != [] && forall v :: v in visited ==> v in versions
    ensures var latest := Latest(parse, visited);
            latest in versions && (Top(parse, versions, latest) ==> Unbeaten(parse, latest, visited))
  {
    var n := |visited| - 1;
    var earlier, last, latest := visited[..n], visited[n], Latest(parse, visited);
    LatestIsTop(parse, visited);
    if n == 0 {
      UpgradeRefinesPrecedence(parse(latest).value, parse(latest).value);
      assert visited == [latest];
    } else if Top(parse, versions, latest) {
      var sofar := Latest(parse, earlier);
      TopIsUnbeaten(parse, versions, earlier);
      LatestIsTop(parse, earlier);
      forall v | v in visited
        ensures !IsUpgradable(parse, latest, v)
      {
        InButLast(visited, v);
        assert v in earlier ==> Compare(parse(v).value, parse(sofar).value) <= 0;
        NotBeaten(parse, versions, earlier, sofar, last, latest, v);
      }
    }
  }

  lemma InButLast(s: seq<string>, v: string)
    requires s != [] && v in s
    ensures v in s[..|s| - 1] || v == s[|s| - 1]
  {
  }

  lemma NotBeaten(
    parse: Parser, versions: seq<string>, earlier: seq<string>, sofar: string, last: string, latest: string, v: string)
    requires AllParse(parse, versions) && TopsComparable(parse, versions)
    requires sofar in versions && latest in versions && v in versions
    requires latest == if IsUpgradable(parse, sofar, last) then last else sofar
    requires Top(parse, versions, latest)
    requires Top(parse, versions, sofar) ==> Unbeaten(parse, sofar, earlier)
    requires v == last || (v in earlier && Compare(parse(v).value, parse(sofar).value) <= 0)
    ensures !IsUpgradable(parse, latest, v)
  {
    if v == latest {
      UpgradeRefinesPrecedence(parse(v).value, parse(v).value);
    } else if IsUpgradable(parse, sofar, last) {
      BeatenBefore(parse, versions, v, sofar, latest);
    }
  }

  /** v does not beat the new maximum: it did not beat the old one, or is below the new one. */
  lemma BeatenBefore(parse: Parser, versions: seq<string>, v: string, sofar: string, latest: string)
    requires AllParse(parse, versions) && TopsComparable(parse, versions)
    requires v in versions && sofar in versions && latest in versions
    requires Top(parse, versions, latest) && IsUpgradable(parse, sofar, latest)
    requires Compare(parse(v).value, parse(sofar).value) <= 0
    requires Top(parse, versions, sofar) ==> !IsUpgradable(parse, sofar, v)
    ensures !IsUpgradable(parse, latest, v)
  {
    var a, b, c := parse(latest).value, parse(sofar).value, parse(v).value;
    CompareTotalPreorder(c, b, a);
    if Compare(c, a) == 0 {
      forall u | u in versions
        ensures Compare(parse(u).value, b) <= 0 && Compare(parse(u).value, c) <= 0
      {
        CompareTotalPreorder(parse(u).value, a, b);
        CompareTotalPreorder(parse(u).value, a, c);
        CompareTotalPreorder(b, a, b);
        CompareTotalPreorder(c, a, c);
      }
      assert Top(parse, versions, sofar) && Top(parse, versions, v);
      MutualUpgradeIffClash(b, a);
      NotLessTransitive(a, b, c);
    }
  }

  /**
   The latest version of a package is upgraded by no repository's version exactly when either all of
   them are the same text, or all parse and those of greatest precedence do not clash.
   */
  lemma LatestUnbeatenIff(parse: Parser, versions: seq<string>)
    requires versions != []
    ensures Unbeaten(parse, Latest(parse, versions), versions) <==>
            (forall v :: v in versions ==> v == versions[0]) ||
            (AllParse(parse, versions) && TopsComparable(parse, versions))
  {
    var latest := Latest(parse, versions);
    LatestIsTop(parse, versions);
    if forall v :: v in versions ==> v == versions[0] {
      if parse(latest).Some? {
        UpgradeRefinesPrecedence(parse(latest).value, parse(latest).value);
      }
    } else if AllParse(parse, versions) && TopsComparable(parse, versions) {
      TopIsUnbeaten(parse, versions, versions);
    } else if !AllParse(parse, versions) {
      var u :| u in versions && parse(u).None?;
      var v :| v in versions && v != versions[0];
      assert IsUpgradable(parse, latest, u) || IsUpgradable(parse, latest, v) || IsUpgradable(parse, latest, versions[0]);
    } else {
      ClashBeats(parse, versions, latest);
    }
  }

  lemma ClashBeats(parse: Parser, versions: seq<string>, latest: string)
    requires AllParse(parse, versions) && !TopsComparable(parse, versions)
    requires latest in versions && Top(parse, versions, latest)
    ensures !Unbeaten(parse, latest, versions)
  {
    var a, b :| a in versions && b in versions && Top(parse, versions, a) && Top(parse, versions, b) &&
                Clash(parse(a).value, parse(b).value);
    CompareTotalPreorder(parse(a).value, parse(latest).value, parse(a).value);
    CompareTotalPreorder(parse(b).value, parse(latest).value, parse(b).value);
    assert IsUpgradable(parse, latest, a) || IsUpgradable(parse, latest, b);
  }

  /** Versions that parse and have empty or integer metadata: no holder upgrades the listed latest version. */
  lemma OrdinaryLatest(parse: Parser, repos: seq<Repo>, fetch: Indexes, name: string, m: MetaItem)
    requires Merged(parse, For(Offers(Backwards(repos), fetch), name), m)
    requires forall r, i :: Holds(repos, fetch, r, i) && i.name == name ==>
               parse(i.latestVersion).Some? && Ordinary(parse(i.latestVersion).value)
    ensures forall r, i :: Holds(repos, fetch, r, i) && i.name == name ==>
              !IsUpgradable(parse, m.item.latestVersion, i.latestVersion)
    ensures exists r, i :: Holds(repos, fetch, r, i) && i.name == name && i.latestVersion == m.item.latestVersion
  {
    var offers := For(Offers(Backwards(repos), fetch), name);
    var versions := Versions(offers);
    assert |versions| > 0;
    forall v | v in versions
      ensures exists r, i :: Holds(repos, fetch, r, i) && i.name == name && i.latestVersion == v
    {
      VersionHeld(repos, fetch, name, v);
    }
    LatestUnbeatenIff(parse, versions);
    LatestIsTop(parse, versions);
    forall r, i | Holds(repos, fetch, r, i) && i.name == name
      ensures !IsUpgradable(parse, m.item.latestVersion, i.latestVersion)
    {
      HeldVersion(repos, fetch, r, i);
    }
  }

  lemma VersionHeld(repos: seq<Repo>, fetch: Indexes, name: string, v: string)
    requires v in Versions(For(Offers(Backwards(repos), fetch), name))
    ensures exists r, i :: Holds(repos, fetch, r, i) && i.name == name && i.latestVersion == v
  {
    var offers := For(Offers(Backwards(repos), fetch), name);
    var k :| 0 <= k < |offers| && Versions(offers)[k] == v;
    HoldersOffer(repos, fetch, name, offers[k]);
    assert Holds(repos, fetch, offers[k].repo, offers[k].item);
  }

  lemma HeldVersion(repos: seq<Repo>, fetch: Indexes, r: Repo, i: Item)
    requires Holds(repos, fetch, r, i)
    ensures i.latestVersion in Versions(For(Offers(Backwards(repos), fetch), i.name))
  {
    var offers := For(Offers(Backwards(repos), fetch), i.name);
    HoldersOffer(repos, fetch, i.name, Offer(r, i));
    var k :| 0 <= k < |offers| && offers[k] == Offer(r, i);
    assert Versions(offers)[k] == i.latestVersion;
  }
}
