# githubtool: a Dafny model of the client core

`github.py` is a command-line client for the GitHub REST API (v3). This project
models the parts of it that decide *what* is asked of the API and how the answers
are read, as pure Dafny functions with proved contracts:

- **Outcomes** (`outcomes.dfy`): `Option`, `Result`, and one `Error` variant for each
  exception the modelled code can raise (`KeyError`, a `TypeError` from indexing a
  non-object, a `ValueError` from unpacking `split(sep, 1)`, the `UnboundLocalError`
  of `findlast`, and the "can't find api" exception of `getapi`).
- **Strings** (`strings.dfy`): the Python string operations the client relies on —
  `find`, `split`, `split(sep, 1)`, `join`, `replace`, slicing with a negative bound,
  `str(n)` and `int(digits)`. Their semantics are exact for the uses the client makes
  of them: non-empty separators and targets, and non-empty runs of ASCII digits
  (`DigitsValue("")` is 0 where `int("")` raises; the client never reads an empty run).
- **JsonPath** (`json_path.dfy`): decoded JSON values, `js[key]`, truthiness, and the
  dotted-path accessor `getjs`.
- **LinkHeader** (`link_header.dfy`): `findlast`, which reads the last page number
  out of a `Link` response header (RFC 8288, section 3) the way the client does it:
  by cutting at `", "` and `"; "` and searching for `&page=<digits>`.
- **RepoName** (`repo_name.dfy`): `sanitizereponame`, the two regular-expression steps
  that turn a URL or `owner/repo` text into `owner/repo`.
- **GithubApi** (`github_api.dfy`): the endpoint table the constructor installs,
  `getapi`, the URLs and query parameters built by `list`, `query` and `info`, and
  the constructor's choice between basic authentication and a `token` header.
- **Paging** (`paging.dfy`): the page walks of `querygithub` and `listrepos` (which
  requests are sent, in which order, and where a failure stops the walk), and the
  fork filter of `printrepolist`.

The model keeps the program's quirks rather than repairing them:

- `findlast` raises on a `Link` header that has an entry it cannot split at `"; "`
  (github.py:209), and on one with no `rel="last"` entry (github.py:212, where `last`
  is unbound); it does not return `None` in these cases. `LinkHeader.FindLast` returns
  `Err(MissingSeparator(..))` or `Err(LastUnbound)`, and the page walks stop after
  page 1 (`Paging.QueryGithub`, `Paging.ListRepos`).
- `list` cuts at the first `{` only when one is left after substitution; otherwise the
  -1 from `find` makes the slice `url[:-1]` drop the last character (github.py:150,
  `GithubApi.ListUrlDropsLastChar`).
- In `query`, when the template has no `?`, the same -1 drops the last character
  (github.py:161).
- An `--auth` value whose first `:` is at index 0 (or that has no `:`) is sent as a
  token, since only `find(':') > 0` selects basic authentication (github.py:41).

## Model

| member | source | states |
|---|---|---|
| Strings.Split | github.py:208 | `s.split(sep)` yields at least one piece, none of the pieces contains `sep`, and joining the pieces with `sep` gives `s` back |
| Strings.SplitJoin | github.py:208 | splitting the join of pieces that cannot hide a separator returns exactly those pieces (the inverse direction of `Split`) |
| Strings.SplitOnce | github.py:165 | `s.split(sep, 1)` unpacked into two names fails exactly when `sep` does not occur; otherwise `head + sep + tail == s` with `head` before the first occurrence |
| Strings.SplitOnceIsSplitHead | github.py:182 | the two-way split agrees with the full split: the head is the first piece and the tail is the rest rejoined |
| Strings.Replace | github.py:149 | `s.replace(target, repl)` as a left-to-right scan (also used at github.py:167-168), characterised by `Strings.ReplaceIsJoinSplit` |
| Strings.ReplaceIsJoinSplit | github.py:149 | `s.replace(target, repl)` equals `repl.join(s.split(target))`: every non-overlapping occurrence, found left to right, is replaced |
| Strings.ReplaceOnce | github.py:167-168 | a text holding `target` once, after a head without its first character, is rewritten at that one place and nowhere else |
| Strings.SliceTo | github.py:150 | Python's `s[:k]`, with a negative `k` counting from the end; used by `Strings.CutAtFirst` |
| Strings.FindFrom | github.py:181 | the scan behind `str.find`: -1 exactly when `pat` occurs nowhere at or after `from`, otherwise an occurrence with none before it |
| Strings.Find | github.py:181 | `str.find(pat)`: the first index where `pat` occurs, or -1 (also used at github.py:41, 150 and 161); its contract is carried by `Strings.FindFrom` and `Strings.FindChar` |
| Strings.FindChar | github.py:41 | `s.find(c)` is the index of the first `c`, or -1 exactly when `c` does not occur |
| Strings.CutAtFirst | github.py:150 | `s[:s.find(c)]` is the text before the first `c` when there is one, and `s` minus its last character when there is none |
| Strings.DecimalString | github.py:152 | `str(n)` is a non-empty ASCII digit string without a leading zero |
| Strings.DigitsValue | github.py:217 | `int(m.group(1))` on a run of ASCII digits, read most significant digit first; `Strings.DigitsValueOfDecimal` shows it inverts `str` |
| Strings.DigitsValueOfDecimal | github.py:217 | `int(str(n)) == n` |
| JsonPath.Lookup | github.py:184 | `js[key]` succeeds exactly on an object holding `key`; otherwise a `KeyError` on an object and a `TypeError` on anything else; what a chain of lookups means is stated by `JsonPath.WalkFailsOnMissingSegment` |
| JsonPath.Truthy | github.py:279 | Python truthiness of a decoded JSON value, as `not repo["fork"]` uses it: `null`, `false`, `0`, `""`, `[]` and `{}` are false |
| JsonPath.GetJs | github.py:174-184 | `getjs` itself: split the path at its first dot, index with the head, recurse on the rest (its meaning is stated by `JsonPath.GetJsIsWalk` and `JsonPath.GetJsConcat`) |
| JsonPath.Walk | github.py:174-184 | the reference resolution by a list of segments fails only with a lookup error naming one of the segments |
| JsonPath.GetJsIsWalk | github.py:181-184 | `getjs(js, path)` is the walk over the dot-separated segments of `path` |
| JsonPath.GetJsConcat | github.py:181-183 | resolving `a.b` is resolving `a` and then `b` inside the result, and a failure in `a` is the failure of the whole |
| JsonPath.WalkFailsOnMissingSegment | github.py:183-184 | resolution fails exactly when some segment is missing from the object reached by the segments before it |
| LinkHeader.ParseEntry | github.py:209 | `url, rel = entry.split("; ", 1)` fails exactly when the entry has no `"; "`; otherwise `url + "; " + rel` is the entry and `url` holds no `"; "` |
| LinkHeader.ParseEntries | github.py:208-209 | every entry parsed in order, or a failure exactly when some entry has no `"; "` |
| LinkHeader.LastOfRelation | github.py:210-211 | the URL the loop leaves in `last`, characterised by `LinkHeader.LastOfRelationSpec` |
| LinkHeader.LastOfRelationSpec | github.py:210-211 | the URL the loop keeps is that of a `rel="last"` entry with no later `rel="last"` entry, and nothing is kept exactly when no entry has that relation |
| LinkHeader.ScanLinks | github.py:208-211 | the loop from entry `i` on fails exactly when a later entry cannot be unpacked, and otherwise keeps the latest `rel="last"` URL, or the one held before |
| LinkHeader.PageNumber | github.py:214-217 | the number after the leftmost `&page=` followed by a digit, with the digits read greedily, or nothing exactly when no such match exists |
| LinkHeader.PageNumberOf | github.py:214-217 | a URL whose first page parameter is `&page=<str(n)>` yields `n` |
| LinkHeader.FindLast | github.py:202-217 | an absent or empty header gives no page; a missing `"; "` gives the unpacking failure; no `rel="last"` entry gives the unbound-variable failure; otherwise the page number of the last `rel="last"` URL |
| LinkHeader.ParseFormattedLinks | github.py:208-209 | a header written from clean targets splits and parses back into exactly those targets |
| LinkHeader.FindLastOfFormatted | github.py:202-217 | on a header written from clean targets, the result is decided by the last target with relation `last`, and is the unbound-variable failure without one |
| RepoName.LastHostBefore | github.py:297 | the start of the last `github?com/` match that begins before `n`, with no match between it and `n` |
| RepoName.StripLine | github.py:297 | one line loses everything through its last host match: the result is a suffix of the line, the whole line exactly when there is no match, and otherwise the text right after the last match |
| RepoName.StripHost | github.py:297 | `re.sub(r'.*github.com/', '', name)`: each line reduced by `StripLine` (a match never crosses a line break, because `.` excludes `\n`) and the lines joined again |
| RepoName.StripHostOneLine | github.py:297 | a text without line breaks is reduced as a single line |
| RepoName.StripLineOfUrl | github.py:297 | a line `prefix github.com/ tail`, with no further match in `tail`, is reduced to `tail` |
| RepoName.OwnerRepoPrefix | github.py:298-301 | `re.match(r'^[^/]+/[^/]+')` gives a prefix of the form `owner/repo` that ends at the end or at a slash, and nothing exactly when no prefix has that form |
| RepoName.OwnerRepoPrefixLongest | github.py:298 | the prefix found is the longest of that form (the `+` runs are greedy) |
| RepoName.Sanitize | github.py:296-301 | the result is a prefix of the stripped name, of the form `owner/repo`, ending at the end of that name or at a slash, and there is none exactly when the stripped name has no such prefix |
| RepoName.SanitizeLongest | github.py:298 | the result is the longest `owner/repo` prefix of the stripped name |
| RepoName.SanitizeUrl | github.py:296-301 | a one-line URL `... github.com/owner/repo[/...]` names `owner/repo` |
| RepoName.SanitizeIssueUrl | github.py:296-301 | `https://github.com/foo/bar/issues/1` names `foo/bar` |
| RepoName.SanitizeBareName | github.py:296-301 | a bare `owner/repo` is returned unchanged |
| RepoName.SanitizeNoSlash | github.py:298-300 | a name with no slash left after stripping is rejected |
| GithubApi.GetApi | github.py:127-134 | the template of a name exactly when the name maps to a non-empty template, and the "can't find api" failure otherwise; on the built-in table see `GithubApi.DefaultEndpointsResolve` |
| GithubApi.DefaultEndpointsResolve | github.py:56-88 | every name of the built-in table resolves to its template (no entry is empty) |
| GithubApi.ListUrl | github.py:144-150 | the URL is a `{`-free prefix of the substituted template, ending right before its first `{`, or one character short of its end when it has no `{` |
| GithubApi.ListUrlOf | github.py:148-150 | on a template `<head>{user}/repos{?...}` the URL is `<head><user>/repos` |
| GithubApi.ListUrlDefault | github.py:85 | with the built-in table, `list(user)` asks for `https://api.github.com/users/<user>/repos` |
| GithubApi.ListUrlDropsLastChar | github.py:150 | on a template ending in `{user}`, the -1 from `find` cuts the last character of the user name |
| GithubApi.ListRequest | github.py:152 | a page request carries the list URL and the parameters `per_page=100` and `page=<n>` |
| GithubApi.SearchDomain | github.py:248-251 | `repo` is renamed to `repository`; every other domain is kept; why the rename is needed is stated by `GithubApi.QueryUrlRenamed` and `GithubApi.QueryUrlUnmapped` |
| GithubApi.QueryUrl | github.py:160-161 | the search URL is a `?`-free prefix of the template of `<where>_search_url`, ending right before its first `?` or one character short of its end when it has no `?`, and the lookup failure names that endpoint |
| GithubApi.QueryUrlOf | github.py:160-161 | on a template `<path>?q={query}...` the search URL is `<path>` |
| GithubApi.QueryUrlCode | github.py:58 | with the built-in table, `--where code` searches `https://api.github.com/search/code` |
| GithubApi.QueryUrlCommit | github.py:59 | with the built-in table, `--where commit` searches `https://api.github.com/search/commits` |
| GithubApi.QueryUrlIssue | github.py:71 | with the built-in table, `--where issue` searches `https://api.github.com/search/issues` |
| GithubApi.QueryUrlRenamed | github.py:79 | with the built-in table, `--where repo` searches `https://api.github.com/search/repositories` |
| GithubApi.QueryUrlUser | github.py:86 | with the built-in table, `--where user` searches `https://api.github.com/search/users` |
| GithubApi.QueryUrlMissing | github.py:160 | a search domain with no `<where>_search_url` entry fails with the "can't find api" failure naming that entry |
| GithubApi.QueryUrlUnmapped | github.py:248-249 | without the renaming, `repo_search_url` is not in the built-in table and the lookup fails |
| GithubApi.QueryRequest | github.py:163 | a search request carries the search URL and the parameters `per_page=100`, `q=<query>`, `page=<n>` |
| GithubApi.InfoUrl | github.py:164-168 | a name without `/` fails to unpack; with one, the URL exists exactly when the repository template does |
| GithubApi.InfoUrlOf | github.py:165-168 | on a template `<head>{owner}/{repo}` the URL of `owner/repo` is `<head>owner/repo`, each placeholder replaced once |
| GithubApi.InfoUrlDefault | github.py:80 | with the built-in table, `info(owner/repo)` asks for `https://api.github.com/repos/owner/repo` |
| GithubApi.InfoOfOwnerRepo | github.py:164-168 | every `owner/repo` name (the form the sanitiser yields) without `{` gives the repository URL `https://api.github.com/repos/owner/repo` |
| GithubApi.InfoRequest | github.py:170 | an info request carries the info URL and no parameters |
| GithubApi.SessionFor | github.py:37-47 | always the `Accept` header; basic authentication exactly when the value has a `:` and its first `:` is not its first character, split at that `:`; a `token` header exactly for the other non-empty values; never both |
| GithubApi.BasicAuthRoundTrip | github.py:41-44 | `user:password` with a non-empty, colon-free user selects basic authentication with exactly that user and password |
| GithubApi.TokenAuth | github.py:45-47 | a value without `:`, or starting with `:`, is sent as `Authorization: token <value>` |
| Paging.HasLastPage | github.py:258 | `lastpage` as a truth value: `None` and `0` are false (also `lastpage or 1` at github.py:255) |
| Paging.PageCount | github.py:258-260 | a walk fetches `lastpage` pages under `--all` when `lastpage` is truthy, and one page otherwise; the pages themselves are given by `Paging.PageSchedule` |
| Paging.ReportedPages | github.py:255 | `lastpage or 1` is at least 1 and is `lastpage` whenever that is truthy; `Paging.PageCountReported` ties it to the pages fetched |
| Paging.PageCountReported | github.py:255-260 | under `--all` the walk fetches as many pages as it reports |
| Paging.PageSchedule | github.py:258-260 | the pages requested are 1, 2, ..., in increasing order, as many as the walk fetches |
| Paging.QueryGithub | github.py:244-262 | a missing endpoint sends nothing; an unreadable `Link` header stops after page 1 with `findlast`'s failure; otherwise pages 1 to the page count, each with the search parameters of its page |
| Paging.QueryPages | github.py:260-261 | one search request per page number, in the given order |
| Paging.ListRepos | github.py:283-294 | the same walk over the repository list of one user |
| Paging.ListPages | github.py:292-293 | one repository-list request per page number, in the given order |
| Paging.PrintRepoList | github.py:274-280 | without `--all`, the loop stops at the first repository with no `fork` field, with that lookup's failure, after printing the kept repositories before it; otherwise, when printing succeeds, it prints exactly the filtered list |
| Paging.Kept | github.py:279 | `args.all or not repo["fork"]` for a repository whose test can be decided |
| Paging.Filter | github.py:278-280 | the repositories `printrepolist` prints, in order; characterised by `Paging.FilterMembers`, `Paging.FilterAll` and `Paging.FilterDropsForks` |
| Paging.FilterAll | github.py:279 | with `--all` every repository is printed |
| Paging.FilterMembers | github.py:278-280 | the printed repositories are exactly those that pass the fork test |
| Paging.FilterConcat | github.py:278-280 | filtering a concatenation of pages filters each page |
| Paging.FilterDropsForks | github.py:279 | without `--all`, the number printed is the number of repositories minus the number of forks |
| Paging.CountForks | github.py:279 | the number of repositories whose `fork` field is truthy (the ones the fork test drops, as `Paging.FilterDropsForks` states), never more than their number |

## Left out

- `get` (the aiohttp request, the gzip workaround, the status check): network I/O; every operation yields the `Request` it would send instead.
- `loadapi` (github.py:121-125): nothing calls it, and if it were called it would store the pair `(json, headers)` that `get` returns (github.py:119) as the table, so every later `getapi` would fail at `self.d.get` (github.py:131). The model keeps the built-in table.
- `close`, the construction of the `aiohttp.ClientSession` and the event loop: asynchronous I/O plumbing.
- `getlimits` (both the method and the function): a request plus printing; the paths it reads are ordinary `getjs` calls.
- `printresult`, `printrepoinfo` and every `print` call: output formatting.
- Paging.QueryGithub: assumes that every page's body is read and printed without an exception; in the program a malformed item makes a `getjs` lookup in `printresult` (github.py:227-238, called at github.py:256 and 262) raise `KeyError`, which ends the walk after that page, and the `total_count` and `items` lookups (github.py:255-256) can raise the same way. The model sends every scheduled page and reports no such failure, because the response bodies are not part of the model.
- Paging.ListRepos: assumes that every page's body is printed without an exception; in the program `printrepolist` (github.py:289, 294) raises `KeyError` on a repository without a `fork` field when `--all` is off (the failure `Paging.PrintRepoList` models for one page), and then the walk ends after that page. The model sends every scheduled page and reports no such failure, because the response bodies are not part of the model.
- Paging.PrintRepoList: assumes that the field lookups of `printrepoinfo` (github.py:265-271: `html_url`, or `size`, the name, `description` and, under `--verbose`, `created_at` and `updated_at`) succeed for every kept repository; in the program a missing field raises `KeyError` there and also stops the loop, a failure the model does not report.
- `main`, argument parsing and the configuration file: command-line glue.
- `inforepos`: a loop of `sanitizereponame` and `info` calls plus printing; both calls are modelled.
- The response bodies of the pages: only the `Link` header of the first response enters the model, as a parameter. The `total_count` and `items` lookups of `querygithub` are not modelled.
- `\d` and `int()` on non-ASCII digits: Python accepts every Unicode decimal digit; the model accepts ASCII digits only.
- JSON numbers are modelled as integers; floating-point values are not.
- Iterating a JSON value that is not a list in `printrepolist`: the model takes the repositories as a sequence.
