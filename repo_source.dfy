/**
  The selection of the repositories the driver processes, from GitHub's
  listing of the user's repositories.
 */
module RepoSource {
  import opened Text
  import opened GitHub

  /** The repositories of `repos` that `keep` accepts, in their order. */
  function Filter(repos: seq<RepoInfo>, keep: RepoInfo -> bool): (r: seq<RepoInfo>)
    ensures |r| <= |repos|
    ensures forall k :: 0 <= k < |r| ==> keep(r[k])
  {
    if repos == [] then []
    else (if keep(repos[0]) then [repos[0]] else []) + Filter(repos[1..], keep)
  }

  lemma {:induction false} FilterMember(repos: seq<RepoInfo>, keep: RepoInfo -> bool, x: RepoInfo)
    ensures x in Filter(repos, keep) <==> x in repos && keep(x)
    decreases |repos|
  {
    if repos != [] {
      FilterMember(repos[1..], keep, x);
      assert repos == [repos[0]] + repos[1..];
    }
  }

  /** Filtering keeps the order: it distributes over concatenation. */
  lemma {:induction false} FilterAppend(a: seq<RepoInfo>, b: seq<RepoInfo>, keep: RepoInfo -> bool)
    ensures Filter(a + b, keep) == Filter(a, keep) + Filter(b, keep)
    decreases |a|
  {
    if a == [] {
      assert a + b == b;
    } else {
      assert (a + b)[1..] == a[1..] + b;
      FilterAppend(a[1..], b, keep);
    }
  }

  /** Two filters in a row are one filter by both conditions. */
  lemma {:induction false} FilterFilter(repos: seq<RepoInfo>, p: RepoInfo -> bool, q: RepoInfo -> bool, both: RepoInfo -> bool)
    requires forall x :: both(x) == (p(x) && q(x))
    ensures Filter(Filter(repos, p), q) == Filter(repos, both)
    decreases |repos|
  {
    if repos != [] {
      FilterFilter(repos[1..], p, q, both);
      var head := if p(repos[0]) then [repos[0]] else [];
      assert Filter(repos, p) == head + Filter(repos[1..], p);
      FilterAppend(head, Filter(repos[1..], p), q);
      if p(repos[0]) {
        assert head[1..] == [];
      }
    }
  }

  predicate NotArchived(r: RepoInfo) { !r.archived }

  predicate NotFork(r: RepoInfo) { !r.fork }

  /** The three conditions of `get_repos` together. */
  predicate Wanted(r: RepoInfo, prefix: string, forks: bool)
  {
    !r.archived && (forks || !r.fork) && (prefix == "" || StartsWith(r.name, prefix))
  }

  /** `get_repos`: drops archived repositories, then forks unless they are
      wanted, then names without the prefix when there is one. */
  function GetRepos(listing: seq<RepoInfo>, prefix: string, forks: bool): seq<RepoInfo>
  {
    var active := Filter(listing, NotArchived);
    var owned := if !forks then Filter(active, NotFork) else active;
    if prefix != "" then Filter(owned, (r: RepoInfo) => StartsWith(r.name, prefix)) else owned
  }

  /** The chain of filters is one filter by all three conditions. */
  lemma GetReposFilter(listing: seq<RepoInfo>, prefix: string, forks: bool)
    ensures GetRepos(listing, prefix, forks) == Filter(listing, r => Wanted(r, prefix, forks))
  {
    var active := Filter(listing, NotArchived);
    var owned := if !forks then Filter(active, NotFork) else active;
    var ownedKeep := (r: RepoInfo) => !r.archived && (forks || !r.fork);
    if !forks {
      FilterFilter(listing, NotArchived, NotFork, ownedKeep);
    } else {
      FilterFilter(listing, NotArchived, (r: RepoInfo) => true, ownedKeep);
      FilterAll(active);
    }
    assert owned == Filter(listing, ownedKeep);
    if prefix != "" {
      FilterFilter(listing, ownedKeep, (r: RepoInfo) => StartsWith(r.name, prefix), r => Wanted(r, prefix, forks));
    } else {
      FilterSame(listing, ownedKeep, r => Wanted(r, prefix, forks));
    }
  }

  lemma {:induction false} FilterAll(repos: seq<RepoInfo>)
    ensures Filter(repos, (r: RepoInfo) => true) == repos
    decreases |repos|
  {
    if repos != [] {
      FilterAll(repos[1..]);
      assert repos == [repos[0]] + repos[1..];
    }
  }

  lemma {:induction false} FilterSame(repos: seq<RepoInfo>, p: RepoInfo -> bool, q: RepoInfo -> bool)
    requires forall x :: p(x) == q(x)
    ensures Filter(repos, p) == Filter(repos, q)
    decreases |repos|
  {
    if repos != [] {
      FilterSame(repos[1..], p, q);
    }
  }

  /** A repository is processed exactly when it is listed, not archived, a
      fork only when forks are wanted, and named with the prefix. */
  lemma GetReposMember(listing: seq<RepoInfo>, prefix: string, forks: bool, x: RepoInfo)
    ensures x in GetRepos(listing, prefix, forks) <==>
      x in listing && !x.archived && (forks || !x.fork) && (prefix == "" || StartsWith(x.name, prefix))
  {
    GetReposFilter(listing, prefix, forks);
    FilterMember(listing, r => Wanted(r, prefix, forks), x);
  }

  /** The selection keeps the order of the listing. */
  lemma GetReposAppend(a: seq<RepoInfo>, b: seq<RepoInfo>, prefix: string, forks: bool)
    ensures GetRepos(a + b, prefix, forks) == GetRepos(a, prefix, forks) + GetRepos(b, prefix, forks)
  {
    GetReposFilter(a + b, prefix, forks);
    GetReposFilter(a, prefix, forks);
    GetReposFilter(b, prefix, forks);
    FilterAppend(a, b, r => Wanted(r, prefix, forks));
  }
}
