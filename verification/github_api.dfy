/** The pure parts of the `GithubApi` client object (github.py:25-170): the choice of
    authentication in the constructor, the endpoint table and its lookup `getapi`,
    and the request URLs and query parameters that `list`, `query` and `info` build.
    The requests themselves are not sent: each operation yields the `Request` it
    would hand to the HTTP session.
 */
module GithubApi {
  import opened Outcomes
  import opened Strings
  import opened RepoName

  const ApiBase := "https://api.github.com/"
  const AcceptV3 := "application/vnd.github.v3+json"

  /** The page size the client always asks for. */
  const PerPage := "100"

  /** The table from logical API names to URL templates (RFC 6570 style). */
  type Endpoints = map<string, string>

  /** What `query` appends to a search domain to name its endpoint. */
  const SearchSuffix := "_search_url"

  /** The query part of every search template: `?` and then its RFC 6570 expressions. */
  const SearchQuery := "q={query}{&page,per_page,sort,order}"
  const SearchParams := "?" + SearchQuery

  /** The query part of every repository-list template: one RFC 6570 expression. */
  const ListQuery := "?type,page,per_page,sort}"
  const ListParams := "{" + ListQuery

  /** The table the constructor installs, copied from the API root document. */
  const DefaultEndpoints: Endpoints := map[
    "authorizations_url" := ApiBase + "authorizations",
    "code" + SearchSuffix := ApiBase + "search/code" + SearchParams,
    "commit" + SearchSuffix := ApiBase + "search/commits" + SearchParams,
    "current_user_authorizations_html_url" := "https://github.com/settings/connections/applications{/client_id}",
    "current_user_repositories_url" := ApiBase + "user/repos" + ListParams,
    "current_user_url" := ApiBase + "user",
    "emails_url" := ApiBase + "user/emails",
    "emojis_url" := ApiBase + "emojis",
    "events_url" := ApiBase + "events",
    "feeds_url" := ApiBase + "feeds",
    "followers_url" := ApiBase + "user/followers",
    "following_url" := ApiBase + "user/following{/target}",
    "gists_url" := ApiBase + "gists{/gist_id}",
    "hub_url" := ApiBase + "hub",
    "issue" + SearchSuffix := ApiBase + "search/issues" + SearchParams,
    "issues_url" := ApiBase + "issues",
    "keys_url" := ApiBase + "user/keys",
    "notifications_url" := ApiBase + "notifications",
    "organization_repositories_url" := ApiBase + "orgs/{org}/repos" + ListParams,
    "organization_url" := ApiBase + "orgs/{org}",
    "public_gists_url" := ApiBase + "gists/public",
    "rate_limit_url" := ApiBase + "rate_limit",
    "repository" + SearchSuffix := ApiBase + "search/repositories" + SearchParams,
    "repository_url" := ApiBase + "repos/{owner}/{repo}",
    "starred_gists_url" := ApiBase + "gists/starred",
    "starred_url" := ApiBase + "user/starred{/owner}{/repo}",
    "team_url" := ApiBase + "teams",
    "user_organizations_url" := ApiBase + "user/orgs",
    "user_repositories_url" := ApiBase + "users/{user}/repos" + ListParams,
    "user" + SearchSuffix := ApiBase + "search/users" + SearchParams,
    "user_url" := ApiBase + "users/{user}"
  ]

  /** `getapi(name)`: the template of `name`, failing when the entry is absent or empty. */
  function GetApi(d: Endpoints, name: string): (r: Result<string>)
    ensures r.Ok? <==> name in d && d[name] != ""
    ensures r.Ok? ==> r.value == d[name]
    ensures r.Err? ==> r.error == EndpointNotFound(name)
  {
    if name in d && d[name] != "" then Ok(d[name]) else Err(EndpointNotFound(name))
  }

  /** Every name of the default table resolves to its template. */
  lemma DefaultEndpointsResolve(name: string)
    requires name in DefaultEndpoints
    ensures GetApi(DefaultEndpoints, name) == Ok(DefaultEndpoints[name])
  {
  }

  /** A request as handed to the HTTP session: a URL and the query parameters in order. */
  datatype Request = Request(url: string, params: seq<(string, string)>)

  /** The URL of `list(username)`: substitute every `{user}`, then keep the text before
      the first `{`; with no `{` left, `find` gives -1 and the slice drops the last character. */
  function ListUrl(d: Endpoints, user: string): (r: Result<string>)
    ensures r.Ok? <==> GetApi(d, "user_repositories_url").Ok?
    ensures r.Err? ==> r.error == EndpointNotFound("user_repositories_url")
    ensures r.Ok? ==>
      var u := Replace(d["user_repositories_url"], "{user}", user);
      && r.value <= u && '{' !in r.value
      && ('{' in u ==> u[|r.value|] == '{')
      && ('{' !in u ==> |r.value| == if u == [] then 0 else |u| - 1)
  {
    var template :- GetApi(d, "user_repositories_url");
    Ok(CutAtFirst(Replace(template, "{user}", user), '{'))
  }

  /** `list(username, pagenr)`: 100 repositories per page, page `pagenr`. */
  function ListRequest(d: Endpoints, user: string, page: nat): (r: Result<Request>)
    ensures r.Ok? <==> ListUrl(d, user).Ok?
    ensures r.Ok? ==> r.value.url == ListUrl(d, user).value
    ensures r.Ok? ==> r.value.params == [("per_page", PerPage), ("page", DecimalString(page))]
  {
    var url :- ListUrl(d, user);
    Ok(Request(url, [("per_page", PerPage), ("page", DecimalString(page))]))
  }

  /** The search domain the command line names, as the endpoint table spells it. */
  function SearchDomain(where: string): (w: string)
    ensures where == "repo" ==> w == "repository"
    ensures where != "repo" ==> w == where
  {
    if where == "repo" then "repository" else where
  }

  /** The URL of `query(where, ...)`: the search template up to its first `?`. */
  function QueryUrl(d: Endpoints, where: string): (r: Result<string>)
    ensures r.Ok? <==> GetApi(d, where + SearchSuffix).Ok?
    ensures r.Err? ==> r.error == EndpointNotFound(where + SearchSuffix)
    ensures r.Ok? ==>
      var t := d[where + SearchSuffix];
      && r.value <= t && '?' !in r.value
      && ('?' in t ==> t[|r.value|] == '?')
      && ('?' !in t ==> |r.value| == |t| - 1)
  {
    var template :- GetApi(d, where + SearchSuffix);
    Ok(CutAtFirst(template, '?'))
  }

  /** `query(where, query, pagenr)`: 100 results per page, the query text, page `pagenr`. */
  function QueryRequest(d: Endpoints, where: string, query: string, page: nat): (r: Result<Request>)
    ensures r.Ok? <==> QueryUrl(d, where).Ok?
    ensures r.Ok? ==> r.value.url == QueryUrl(d, where).value
    ensures r.Ok? ==> r.value.params == [("per_page", PerPage), ("q", query), ("page", DecimalString(page))]
  {
    var url :- QueryUrl(d, where);
    Ok(Request(url, [("per_page", PerPage), ("q", query), ("page", DecimalString(page))]))
  }

  /** The URL of `info(fullname)`: split at the first `/` (failing without one), then
      substitute every `{owner}` and then every `{repo}` in the repository template. */
  function InfoUrl(d: Endpoints, fullname: string): (r: Result<string>)
    ensures ('/' !in fullname) ==> r == Err(MissingSeparator(fullname, "/"))
    ensures ('/' in fullname) ==> (r.Ok? <==> GetApi(d, "repository_url").Ok?)
  {
    FindChar(fullname, '/');
    match SplitOnce(fullname, "/")
    case None => Err(MissingSeparator(fullname, "/"))
    case Some((owner, repo)) =>
      var template :- GetApi(d, "repository_url");
      Ok(Replace(Replace(template, "{owner}", owner), "{repo}", repo))
  }

  /** `info(fullname)`: a request without parameters. */
  function InfoRequest(d: Endpoints, fullname: string): (r: Result<Request>)
    ensures r.Ok? <==> InfoUrl(d, fullname).Ok?
    ensures r.Ok? ==> r.value == Request(InfoUrl(d, fullname).value, [])
  {
    var url :- InfoUrl(d, fullname);
    Ok(Request(url, []))
  }

  /** The credentials of HTTP basic authentication. */
  datatype Credentials = Credentials(user: string, password: string)

  /** The default headers and the optional basic-authentication credentials of the session. */
  datatype Session = Session(headers: map<string, string>, basicAuth: Option<Credentials>)

  /** The constructor's choice of authentication from the `--auth` value: nothing for an
      absent or empty value; basic authentication split at the first `:` when that `:`
      is not the first character; a `token` header otherwise. */
  function SessionFor(auth: Option<string>): (s: Session)
    ensures "Accept" in s.headers && s.headers["Accept"] == AcceptV3
    ensures s.headers.Keys <= {"Accept", "Authorization"}
    ensures !("Authorization" in s.headers && s.basicAuth.Some?)
    ensures s.basicAuth.Some? <==> auth.Some? && ':' in auth.value && auth.value[0] != ':'
    ensures s.basicAuth.Some? ==>
      var c := s.basicAuth.value;
      c.user != "" && ':' !in c.user && c.user + ":" + c.password == auth.value
    ensures "Authorization" in s.headers <==> auth.Some? && auth.value != "" && s.basicAuth.None?
    ensures "Authorization" in s.headers ==> s.headers["Authorization"] == "token " + auth.value
  {
    var accept := map["Accept" := AcceptV3];
    if auth.None? || auth.value == "" then Session(accept, None)
    else
      var a := auth.value;
      FindChar(a, ':');
      var i := Find(a, [':']);
      if i > 0 then
        assert a == a[..i] + ":" + a[i + 1..];
        Session(accept, Some(Credentials(a[..i], a[i + 1..])))
      else Session(accept["Authorization" := "token " + a], None)
  }

  /** With the default table, `list(user)` asks for `users/<user>/repos`. */
  lemma ListUrlDefault(user: string)
    requires '{' !in user
    ensures ListUrl(DefaultEndpoints, user) == Ok(ApiBase + "users/" + user + "/repos")
  {
    var key := "user_repositories_url";
    assert |key| == 21 && key[0] == 'u';
    assert DefaultEndpoints[key] == ApiBase + "users/" + "{user}" + ("/repos" + ListParams);
    ListUrlOf(DefaultEndpoints, ApiBase + "users/", user);
  }

  /** `list(user)` on a repository-list template `<head>{user}/repos{?...}`. */
  lemma ListUrlOf(d: Endpoints, head: string, user: string)
    requires "user_repositories_url" in d
    requires d["user_repositories_url"] == head + "{user}" + ("/repos" + ListParams)
    requires '{' !in head && '{' !in user
    ensures ListUrl(d, user) == Ok(head + user + "/repos")
  {
    var rest := "/repos" + ListParams;
    AbsentByChar(rest, "{user}", 1);
    ReplaceOnce(head, "{user}", rest, user);
    ListTemplateParts(head + user);
    CutAtFirstIs(head + user + "/repos", '{', ListQuery);
  }

  /** A repository-list template splits at the `{` that opens its query expression. */
  lemma ListTemplateParts(a: string)
    ensures a + ("/repos" + ListParams) == (a + "/repos") + ['{'] + ListQuery
  {
  }

  /** When the substituted template has no `{` left, the `-1` from `find` cuts off the
      last character: with a template ending in `{user}`, the last character of the
      user name is lost. */
  lemma ListUrlDropsLastChar(d: Endpoints, base: string, user: string)
    requires "user_repositories_url" in d && d["user_repositories_url"] == base + "{user}"
    requires '{' !in base && '{' !in user && user != ""
    ensures ListUrl(d, user) == Ok(base + user[..|user| - 1])
  {
    AbsentByChar("", "{user}", 0);
    ReplaceOnce(base, "{user}", "", user);
    assert base + "{user}" + "" == base + "{user}";
    assert base + user + "" == base + user;
    assert (base + user)[..|base + user| - 1] == base + user[..|user| - 1];
  }

  /** A search template `path?...` yields `path`. */
  lemma QueryUrlOf(d: Endpoints, where: string, path: string)
    requires where + SearchSuffix in d && d[where + SearchSuffix] == path + SearchParams
    requires '?' !in path
    ensures QueryUrl(d, where) == Ok(path)
  {
    assert path + SearchParams == path + ['?'] + SearchQuery;
    CutAtFirstIs(path, '?', SearchQuery);
  }

  /** With the default table, `--where repo` is renamed to `repository` and searches
      `search/repositories`. */
  lemma QueryUrlRenamed()
    ensures QueryUrl(DefaultEndpoints, SearchDomain("repo")) == Ok(ApiBase + "search/repositories")
  {
    ApiPathPlain("search/repositories");
    var key := SearchDomain("repo") + SearchSuffix;
    assert |key| == 21 && key[0] == 'r';
    assert DefaultEndpoints[key] == ApiBase + "search/repositories" + SearchParams;
    QueryUrlOf(DefaultEndpoints, SearchDomain("repo"), ApiBase + "search/repositories");
  }

  /** With the default table, `--where code` searches `search/code`. */
  lemma QueryUrlCode()
    ensures QueryUrl(DefaultEndpoints, SearchDomain("code")) == Ok(ApiBase + "search/code")
  {
    ApiPathPlain("search/code");
    var key := SearchDomain("code") + SearchSuffix;
    assert |key| == 15 && key[0] == 'c';
    assert DefaultEndpoints[key] == ApiBase + "search/code" + SearchParams;
    QueryUrlOf(DefaultEndpoints, SearchDomain("code"), ApiBase + "search/code");
  }

  /** With the default table, `--where commit` searches `search/commits`. */
  lemma QueryUrlCommit()
    ensures QueryUrl(DefaultEndpoints, SearchDomain("commit")) == Ok(ApiBase + "search/commits")
  {
    ApiPathPlain("search/commits");
    var key := SearchDomain("commit") + SearchSuffix;
    assert |key| == 17 && key[0] == 'c';
    assert DefaultEndpoints[key] == ApiBase + "search/commits" + SearchParams;
    QueryUrlOf(DefaultEndpoints, SearchDomain("commit"), ApiBase + "search/commits");
  }

  /** With the default table, `--where issue` searches `search/issues`. */
  lemma QueryUrlIssue()
    ensures QueryUrl(DefaultEndpoints, SearchDomain("issue")) == Ok(ApiBase + "search/issues")
  {
    ApiPathPlain("search/issues");
    var key := SearchDomain("issue") + SearchSuffix;
    assert |key| == 16 && key[0] == 'i';
    assert DefaultEndpoints[key] == ApiBase + "search/issues" + SearchParams;
    QueryUrlOf(DefaultEndpoints, SearchDomain("issue"), ApiBase + "search/issues");
  }

  /** With the default table, `--where user` searches `search/users`. */
  lemma QueryUrlUser()
    ensures QueryUrl(DefaultEndpoints, SearchDomain("user")) == Ok(ApiBase + "search/users")
  {
    ApiPathPlain("search/users");
    var key := SearchDomain("user") + SearchSuffix;
    assert |key| == 15 && key[0] == 'u';
    assert DefaultEndpoints[key] == ApiBase + "search/users" + SearchParams;
    QueryUrlOf(DefaultEndpoints, SearchDomain("user"), ApiBase + "search/users");
  }

  /** The API root followed by a path without `?` holds no `?`. */
  lemma ApiPathPlain(path: string)
    requires '?' !in path
    ensures '?' !in ApiBase + path
  {
  }

  /** Without the renaming of `repo` to `repository` the lookup would fail. */
  lemma QueryUrlUnmapped()
    ensures QueryUrl(DefaultEndpoints, "repo") == Err(EndpointNotFound("repo" + SearchSuffix))
  {
    var key := "repo" + SearchSuffix;
    assert |key| == 15 && key[0] == 'r' && key[4] == '_';
    assert key !in DefaultEndpoints;
    QueryUrlMissing(DefaultEndpoints, "repo");
  }

  /** A search domain without an endpoint fails with the name it looked up. */
  lemma QueryUrlMissing(d: Endpoints, where: string)
    requires where + SearchSuffix !in d
    ensures QueryUrl(d, where) == Err(EndpointNotFound(where + SearchSuffix))
  {
  }

  /** Every `owner/repo` name, which is what the sanitiser yields (`RepoName.Sanitize`),
      has no slash in its owner part, so `info` builds the repository URL from it. */
  lemma InfoOfOwnerRepo(p: string)
    requires IsOwnerRepo(p) && '{' !in p
    ensures InfoUrl(DefaultEndpoints, p) == Ok(ApiBase + "repos/" + p)
  {
    var q :| 0 < q < |p| - 1 && p[q] == '/' && SlashFree(p[..q]) && SlashFree(p[q + 1..]);
    assert p == p[..q] + "/" + p[q + 1..];
    assert '/' !in p[..q] && '{' !in p[..q];
    InfoUrlDefault(p[..q], p[q + 1..]);
  }

  /** With the default table, `info(owner/repo)` asks for `repos/<owner>/<repo>`. */
  lemma InfoUrlDefault(owner: string, repo: string)
    requires '/' !in owner && '{' !in owner
    ensures InfoUrl(DefaultEndpoints, owner + "/" + repo) == Ok(ApiBase + "repos/" + (owner + "/" + repo))
  {
    assert DefaultEndpoints["repository_url"] == (ApiBase + "repos/") + "{owner}" + "/{repo}";
    InfoUrlOf(DefaultEndpoints, ApiBase + "repos/", owner, repo);
  }

  /** `info(owner/repo)` on a repository template `<head>{owner}/{repo}`. */
  lemma InfoUrlOf(d: Endpoints, head: string, owner: string, repo: string)
    requires "repository_url" in d && d["repository_url"] == head + "{owner}" + "/{repo}"
    requires '{' !in head && '/' !in owner && '{' !in owner
    ensures InfoUrl(d, owner + "/" + repo) == Ok(head + (owner + "/" + repo))
  {
    AbsentByChar(owner, "/", 0);
    IsolatedChar(owner, '/');
    SplitOnceAt(owner, "/", repo);
    SubstituteRepository(head, owner, repo);
  }

  /** Both placeholders of `<head>{owner}/{repo}` are replaced, each exactly once. */
  lemma SubstituteRepository(head: string, owner: string, repo: string)
    requires '{' !in head && '{' !in owner
    ensures Replace(Replace(head + "{owner}" + "/{repo}", "{owner}", owner), "{repo}", repo)
         == head + (owner + "/" + repo)
  {
    var first, second := "{owner}", "{repo}";
    assert "/{repo}" == "/" + second;
    AbsentByChar("/" + second, first, 2);
    assert '{' !in head + owner + "/";
    ReplaceInTurn(head, first, owner, "/", second, repo);
  }

  /** Substituting two placeholders in turn, each occurring once, in a template whose
      first placeholder comes first. */
  lemma ReplaceInTurn(head: string, first: string, x: string, mid: string, second: string, y: string)
    requires |first| > 0 && |second| > 0
    requires first[0] !in head && Absent(mid + second, first)
    requires second[0] !in head + x + mid
    ensures Replace(Replace(head + first + (mid + second), first, x), second, y) == head + (x + mid + y)
  {
    var u := head + x + mid;
    ReplaceFirstOfTwo(head, first, x, mid + second);
    ReplaceLast(u, second, y);
    Regroup(head, x, mid, second, y);
    ReplaceInTurnCompose(head + first + (mid + second), first, x, second, y, u + second, head + (x + mid + y));
  }

  // The three helpers below only split the proof of `ReplaceInTurn` into steps small
  // enough for the solver: `Regroup` re-associates concatenations,
  // `ReplaceInTurnCompose` chains two rewrites, and `ReplaceFirstOfTwo` is
  // `ReplaceOnce` instantiated for the first placeholder.
  lemma Regroup(head: string, x: string, mid: string, second: string, y: string)
    ensures head + x + (mid + second) == (head + x + mid) + second
    ensures (head + x + mid) + y == head + (x + mid + y)
  {
  }

  lemma ReplaceInTurnCompose(t: string, first: string, x: string, second: string, y: string, v: string, w: string)
    requires |first| > 0 && |second| > 0
    requires Replace(t, first, x) == v && Replace(v, second, y) == w
    ensures Replace(Replace(t, first, x), second, y) == w
  {
  }

  lemma ReplaceFirstOfTwo(head: string, first: string, x: string, rest: string)
    requires |first| > 0 && first[0] !in head && Absent(rest, first)
    ensures Replace(head + first + rest, first, x) == head + x + rest
  {
    ReplaceOnce(head, first, rest, x);
  }

  /** A `user:password` value selects basic authentication with exactly those halves. */
  lemma BasicAuthRoundTrip(user: string, password: string)
    requires user != "" && ':' !in user
    ensures SessionFor(Some(user + ":" + password))
         == Session(map["Accept" := AcceptV3], Some(Credentials(user, password)))
  {
    var a := user + ":" + password;
    assert a[|user|] == ':';
    FindChar(a, ':');
    assert a[..|user|] == user && a[|user| + 1..] == password;
  }

  /** A value with no `:`, or one that starts with `:`, is sent as an OAuth token. */
  lemma TokenAuth(token: string)
    requires token != "" && (':' !in token || token[0] == ':')
    ensures SessionFor(Some(token))
         == Session(map["Accept" := AcceptV3, "Authorization" := "token " + token], None)
  {
    FindChar(token, ':');
  }
}
