/** The page walks of `querygithub` and `listrepos` (github.py:244-262, 283-294) and
    the fork filter of `printrepolist` (github.py:274-280).

    Both walks fetch page 1, read the last page number from the `Link` header of
    that response, and fetch pages 2 to the last one only when `--all` is given and
    the last page number is truthy. Responses are not modelled: the `Link` header of
    the first response is a parameter, and a walk yields the requests it sends.
 */
module Paging {
  import opened Outcomes
  import opened Strings
  import opened JsonPath
  import opened LinkHeader
  import opened GithubApi

  /** `lastpage` as a Python truth value: `None` and `0` are false. */
  predicate HasLastPage(lastpage: Option<nat>) {
    lastpage.Some? && lastpage.value > 0
  }

  /** The number of pages a walk fetches: all of them under `--all`, otherwise one. */
  function PageCount(lastpage: Option<nat>, all: bool): (n: nat)
    ensures n >= 1
    ensures all && HasLastPage(lastpage) ==> n == lastpage.value
    ensures !(all && HasLastPage(lastpage)) ==> n == 1
  {
    if all && HasLastPage(lastpage) then lastpage.value else 1
  }

  /** `lastpage or 1`, the page count the search walk reports. */
  function ReportedPages(lastpage: Option<nat>): (n: nat)
    ensures n >= 1
    ensures HasLastPage(lastpage) ==> n == lastpage.value
    ensures !HasLastPage(lastpage) ==> n == 1
  {
    if HasLastPage(lastpage) then lastpage.value else 1
  }

  /** Under `--all` the walk fetches as many pages as it reports. */
  lemma PageCountReported(lastpage: Option<nat>)
    ensures PageCount(lastpage, true) == ReportedPages(lastpage)
    ensures PageCount(lastpage, false) == 1
  {
  }

  /** The page numbers requested: 1, then `range(2, lastpage + 1)` when the walk goes on. */
  method PageSchedule(lastpage: Option<nat>, all: bool) returns (pages: seq<nat>)
    ensures |pages| == PageCount(lastpage, all)
    ensures forall i :: 0 <= i < |pages| ==> pages[i] == i + 1
    ensures forall i, j :: 0 <= i < j < |pages| ==> pages[i] < pages[j]
  {
    pages := [1];
    if !HasLastPage(lastpage) || !all {
      return;
    }
    var p := 2;
    while p < lastpage.value + 1
      invariant 2 <= p <= lastpage.value + 1
      invariant |pages| == p - 1
      invariant forall i :: 0 <= i < |pages| ==> pages[i] == i + 1
    {
      pages := pages + [p];
      p := p + 1;
    }
  }

  /** `querygithub`: the search requests sent for `--where`/`--query`, and the failure
      that ends the walk, if any. A missing endpoint fails before anything is sent; a
      `Link` header `findlast` cannot read fails after page 1. */
  method QueryGithub(d: Endpoints, where: string, query: string, link: Option<string>, all: bool)
    returns (requests: seq<Request>, failure: Option<Error>)
    ensures QueryUrl(d, SearchDomain(where)).Err? ==>
      requests == [] && failure == Some(EndpointNotFound(SearchDomain(where) + SearchSuffix))
    ensures QueryUrl(d, SearchDomain(where)).Ok? && FindLast(link).Err? ==>
      requests == [QueryRequest(d, SearchDomain(where), query, 1).value] && failure == Some(FindLast(link).error)
    ensures QueryUrl(d, SearchDomain(where)).Ok? && FindLast(link).Ok? ==>
      && failure.None?
      && |requests| == PageCount(FindLast(link).value, all)
      && forall i :: 0 <= i < |requests| ==> requests[i] == QueryRequest(d, SearchDomain(where), query, i + 1).value
  {
    var domain := SearchDomain(where);
    var first := QueryRequest(d, domain, query, 1);
    if first.Err? {
      return [], Some(first.error);
    }
    var last := FindLast(link);
    if last.Err? {
      return [first.value], Some(last.error);
    }
    var pages := PageSchedule(last.value, all);
    requests := QueryPages(d, domain, query, pages);
    failure := None;
  }

  /** The search requests for the given page numbers, in order. */
  method QueryPages(d: Endpoints, where: string, query: string, pages: seq<nat>) returns (requests: seq<Request>)
    requires QueryUrl(d, where).Ok?
    ensures |requests| == |pages|
    ensures forall k :: 0 <= k < |pages| ==> requests[k] == QueryRequest(d, where, query, pages[k]).value
  {
    requests := [];
    var i := 0;
    while i < |pages|
      invariant 0 <= i <= |pages|
      invariant |requests| == i
      invariant forall k :: 0 <= k < i ==> requests[k] == QueryRequest(d, where, query, pages[k]).value
    {
      requests := requests + [QueryRequest(d, where, query, pages[i]).value];
      i := i + 1;
    }
  }

  /** `listrepos`: the repository-list requests sent for `--list`, and the failure that
      ends the walk, if any. */
  method ListRepos(d: Endpoints, user: string, link: Option<string>, all: bool)
    returns (requests: seq<Request>, failure: Option<Error>)
    ensures ListUrl(d, user).Err? ==>
      requests == [] && failure == Some(EndpointNotFound("user_repositories_url"))
    ensures ListUrl(d, user).Ok? && FindLast(link).Err? ==>
      requests == [ListRequest(d, user, 1).value] && failure == Some(FindLast(link).error)
    ensures ListUrl(d, user).Ok? && FindLast(link).Ok? ==>
      && failure.None?
      && |requests| == PageCount(FindLast(link).value, all)
      && forall i :: 0 <= i < |requests| ==> requests[i] == ListRequest(d, user, i + 1).value
  {
    var first := ListRequest(d, user, 1);
    if first.Err? {
      return [], Some(first.error);
    }
    var last := FindLast(link);
    if last.Err? {
      return [first.value], Some(last.error);
    }
    var pages := PageSchedule(last.value, all);
    requests := ListPages(d, user, pages);
    failure := None;
  }

  /** The repository-list requests for the given page numbers, in order. */
  method ListPages(d: Endpoints, user: string, pages: seq<nat>) returns (requests: seq<Request>)
    requires ListUrl(d, user).Ok?
    ensures |requests| == |pages|
    ensures forall k :: 0 <= k < |pages| ==> requests[k] == ListRequest(d, user, pages[k]).value
  {
    requests := [];
    var i := 0;
    while i < |pages|
      invariant 0 <= i <= |pages|
      invariant |requests| == i
      invariant forall k :: 0 <= k < i ==> requests[k] == ListRequest(d, user, pages[k]).value
    {
      requests := requests + [ListRequest(d, user, pages[i]).value];
      i := i + 1;
    }
  }

  /** The fork test of `printrepolist` can be decided for `repo`: under `--all` it is
      not evaluated at all, otherwise `repo["fork"]` must exist. */
  predicate Decided(repo: Json, all: bool) {
    all || Lookup(repo, "fork").Ok?
  }

  /** `args.all or not repo["fork"]`, for a repository where that can be decided. */
  predicate Kept(repo: Json, all: bool)
    requires Decided(repo, all)
  {
    all || !Truthy(Lookup(repo, "fork").value)
  }

  /** The repositories that are printed, in response order. */
  function Filter(repos: seq<Json>, all: bool): (kept: seq<Json>)
    requires forall i :: 0 <= i < |repos| ==> Decided(repos[i], all)
  {
    if repos == [] then []
    else
      var n := |repos| - 1;
      Filter(repos[..n], all) + (if Kept(repos[n], all) then [repos[n]] else [])
  }

  /** `printrepolist`: the repositories printed from one response page, and the failure
      that stops the loop at the first repository without a `fork` field. The field
      lookups of `printrepoinfo` for a kept repository are assumed to succeed. */
  method PrintRepoList(repos: seq<Json>, all: bool) returns (kept: seq<Json>, failure: Option<Error>)
    ensures failure.None? <==> forall i :: 0 <= i < |repos| ==> Decided(repos[i], all)
    ensures failure.None? ==> kept == Filter(repos, all)
    ensures failure.Some? ==>
      exists k :: 0 <= k < |repos| && !Decided(repos[k], all)
        && (forall i :: 0 <= i < k ==> Decided(repos[i], all))
        && failure.value == Lookup(repos[k], "fork").error
        && kept == Filter(repos[..k], all)
  {
    kept := [];
    var i := 0;
    while i < |repos|
      invariant 0 <= i <= |repos|
      invariant forall j :: 0 <= j < i ==> Decided(repos[j], all)
      invariant kept == Filter(repos[..i], all)
    {
      var repo := repos[i];
      assert repos[..i + 1][..i] == repos[..i];
      if all {
        kept := kept + [repo];
      } else {
        var fork := Lookup(repo, "fork");
        if fork.Err? {
          return kept, Some(fork.error);
        }
        if !Truthy(fork.value) {
          kept := kept + [repo];
        }
      }
      i := i + 1;
    }
    assert repos[..i] == repos;
    failure := None;
  }

  /** With `--all` every repository is printed. */
  lemma {:induction false} FilterAll(repos: seq<Json>)
    ensures Filter(repos, true) == repos
  {
    if repos != [] {
      var n := |repos| - 1;
      FilterAll(repos[..n]);
      assert repos[..n] + [repos[n]] == repos;
    }
  }

  /** Exactly the kept repositories are printed: each printed one passes the fork test,
      and each one that passes it is printed. */
  lemma {:induction false} FilterMembers(repos: seq<Json>, all: bool)
    requires forall i :: 0 <= i < |repos| ==> Decided(repos[i], all)
    ensures forall x :: x in Filter(repos, all) ==> x in repos && Kept(x, all)
    ensures forall i :: 0 <= i < |repos| && Kept(repos[i], all) ==> repos[i] in Filter(repos, all)
  {
    if repos != [] {
      var n := |repos| - 1;
      FilterMembers(repos[..n], all);
      forall i | 0 <= i < n
        ensures repos[..n][i] == repos[i]
      {
      }
    }
  }

  /** Filtering a concatenation filters each part. */
  lemma {:induction false} FilterConcat(a: seq<Json>, b: seq<Json>, all: bool)
    requires forall i :: 0 <= i < |a| ==> Decided(a[i], all)
    requires forall i :: 0 <= i < |b| ==> Decided(b[i], all)
    ensures forall i :: 0 <= i < |a + b| ==> Decided((a + b)[i], all)
    ensures Filter(a + b, all) == Filter(a, all) + Filter(b, all)
    decreases |b|
  {
    assert forall i :: 0 <= i < |a + b| ==> (a + b)[i] == if i < |a| then a[i] else b[i - |a|];
    if b == [] {
      assert a + b == a;
    } else {
      var n := |b| - 1;
      FilterConcat(a, b[..n], all);
      assert (a + b)[..|a + b| - 1] == a + b[..n];
    }
  }

  /** Without `--all`, forks are exactly the repositories that are left out. */
  lemma {:induction false} FilterDropsForks(repos: seq<Json>)
    requires forall i :: 0 <= i < |repos| ==> Decided(repos[i], false)
    ensures |Filter(repos, false)| == |repos| - CountForks(repos)
  {
    if repos != [] {
      var n := |repos| - 1;
      FilterDropsForks(repos[..n]);
      assert forall i :: 0 <= i < n ==> repos[..n][i] == repos[i];
    }
  }

  /** The number of repositories whose `fork` field is truthy. */
  function CountForks(repos: seq<Json>): (c: nat)
    ensures c <= |repos|
  {
    if repos == [] then 0
    else
      var n := |repos| - 1;
      var fork := Lookup(repos[n], "fork");
      CountForks(repos[..n]) + (if fork.Ok? && Truthy(fork.value) then 1 else 0)
  }
}
