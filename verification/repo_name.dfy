/** The repository-name sanitiser `sanitizereponame` (github.py:296-301).

    The client accepts `owner/repo`, or any text that contains a GitHub URL, and
    reduces it in two regular-expression steps. `re.sub(r'.*github.com/', '', name)`
    deletes, on every line, everything up to the end of the last `github?com/` of that
    line (the `.` is a wildcard that matches any character but a newline, and `.*`
    cannot cross a line break). `re.match(r'^[^/]+/[^/]+', name)` then takes the
    leading `owner/repo`: a non-empty run of non-slashes, a slash, and a non-empty run
    of non-slashes, each run as long as it goes.
 */
module RepoName {
  import opened Outcomes
  import opened Strings

  const HostLength := 11

  /** The pattern `github.com/` matches at `i`; the dot stands for any character but a newline. */
  predicate HostAt(s: string, i: nat) {
    && i + HostLength <= |s|
    && s[i..i + 6] == "github" && s[i + 6] != '\n' && s[i + 7..i + HostLength] == "com/"
  }

  predicate NoHost(s: string) {
    forall j: nat :: j < |s| ==> !HostAt(s, j)
  }

  /** The start of the last match of the host pattern that starts before `n`, or -1. */
  function LastHostBefore(s: string, n: nat): (r: int)
    ensures r >= -1 && r < n
    ensures r >= 0 ==> HostAt(s, r)
    ensures forall j: nat :: r < j < n ==> !HostAt(s, j)
  {
    if n == 0 then -1
    else if HostAt(s, n - 1) then n - 1
    else LastHostBefore(s, n - 1)
  }

  /** One line after `re.sub(r'.*github.com/', '', line)`: the text after the last
      match of the host pattern, or the whole line when there is none. */
  function StripLine(line: string): (r: string)
    ensures |r| <= |line| && r == line[|line| - |r|..]
    ensures |r| == |line| ==> NoHost(line)
    ensures |r| < |line| ==>
      var i := |line| - |r| - HostLength;
      i >= 0 && HostAt(line, i) && forall j: nat :: i < j ==> !HostAt(line, j)
  {
    var i := LastHostBefore(line, |line|);
    if i < 0 then line else line[i + HostLength..]
  }

  /** `re.sub(r'.*github.com/', '', name)`: matches never cross a line break, so every
      line is reduced on its own. */
  function StripHost(name: string): string {
    var lines := Split(name, "\n");
    Join(seq(|lines|, k requires 0 <= k < |lines| => StripLine(lines[k])), "\n")
  }

  /** `p` is `owner/repo`: exactly one slash, with a non-empty text on each side. */
  predicate IsOwnerRepo(p: string) {
    exists q :: 0 < q < |p| - 1 && p[q] == '/' && SlashFree(p[..q]) && SlashFree(p[q + 1..])
  }

  predicate SlashFree(s: string) {
    forall k :: 0 <= k < |s| ==> s[k] != '/'
  }

  /** The index of the first slash at or after `from`, or `|s|`. */
  function SlashFrom(s: string, from: nat): (r: nat)
    requires from <= |s|
    ensures from <= r <= |s| && SlashFree(s[from..r])
    ensures r < |s| ==> s[r] == '/'
    decreases |s| - from
  {
    if from == |s| || s[from] == '/' then from
    else
      var r := SlashFrom(s, from + 1);
      assert s[from..r] == [s[from]] + s[from + 1..r];
      r
  }

  /** `re.match(r'^[^/]+/[^/]+', t)`: the longest prefix of `t` of the form
      `owner/repo`, or `None` when no prefix has that form. */
  function OwnerRepoPrefix(t: string): (r: Option<string>)
    ensures r.Some? ==> r.value <= t && IsOwnerRepo(r.value)
    ensures r.Some? ==> |r.value| == |t| || t[|r.value|] == '/'
    ensures r.None? <==> forall k :: 0 <= k <= |t| ==> !IsOwnerRepo(t[..k])
  {
    var q := SlashFrom(t, 0);
    if q == 0 || q == |t| then
      NoOwnerRepoPrefix(t, q);
      None
    else
      var e := SlashFrom(t, q + 1);
      if e == q + 1 then
        NoOwnerRepoPrefix(t, q);
        None
      else
        assert t[..e][..q] == t[..q] && t[..e][q + 1..] == t[q + 1..e];
        Some(t[..e])
  }

  /** Every owner/repo prefix of `t` has its slash at the first slash of `t`. */
  lemma SlashOfPrefix(t: string, k: nat, q: nat)
    requires k <= |t| && IsOwnerRepo(t[..k])
    requires q <= |t| && SlashFree(t[..q]) && (q < |t| ==> t[q] == '/')
    ensures 0 < q < k - 1 && SlashFree(t[q + 1..k])
  {
    var p := t[..k];
    var q' :| 0 < q' < |p| - 1 && p[q'] == '/' && SlashFree(p[..q']) && SlashFree(p[q' + 1..]);
    forall j | 0 <= j < q
      ensures t[j] != '/'
    {
      assert t[..q][j] == t[j];
    }
    forall j | 0 <= j < q'
      ensures t[j] != '/'
    {
      assert p[..q'][j] == t[j];
    }
    assert q == q';
    assert p[q + 1..] == t[q + 1..k];
  }

  lemma NoOwnerRepoPrefix(t: string, q: nat)
    requires q <= |t| && SlashFree(t[..q]) && (q < |t| ==> t[q] == '/')
    requires q == 0 || q + 1 >= |t| || t[q + 1] == '/'
    ensures forall k :: 0 <= k <= |t| ==> !IsOwnerRepo(t[..k])
  {
    forall k, q' | 0 <= k <= |t| && 0 < q' < k - 1
      ensures t[..k][q'] == '/' && SlashFree(t[..k][..q']) ==> !SlashFree(t[..k][q' + 1..])
    {
      var p := t[..k];
      if q' < q {
        assert p[q'] == t[..q][q'];
      } else if q < q' {
        assert p[..q'][q] == '/';
      } else {
        assert p[q' + 1..][0] == t[q + 1];
      }
    }
  }

  /** The prefix `OwnerRepoPrefix` finds is the longest one of that form. */
  lemma OwnerRepoPrefixLongest(t: string, k: nat)
    requires k <= |t| && IsOwnerRepo(t[..k])
    ensures OwnerRepoPrefix(t).Some?
    ensures k <= |OwnerRepoPrefix(t).value|
  {
    var q := SlashFrom(t, 0);
    SlashOfPrefix(t, k, q);
    forall j | q + 1 <= j < k
      ensures t[j] != '/'
    {
      assert t[q + 1..k][j - q - 1] == t[j];
    }
  }

  /** `sanitizereponame(name)`. */
  function Sanitize(name: string): (r: Option<string>)
    ensures r.Some? ==> IsOwnerRepo(r.value)
    ensures r.Some? ==> r.value <= StripHost(name)
    ensures r.Some? ==> |r.value| == |StripHost(name)| || StripHost(name)[|r.value|] == '/'
    ensures r.None? <==> forall k :: 0 <= k <= |StripHost(name)| ==> !IsOwnerRepo(StripHost(name)[..k])
  {
    OwnerRepoPrefix(StripHost(name))
  }

  /** The name `Sanitize` gives is the longest `owner/repo` prefix of the stripped name. */
  lemma SanitizeLongest(name: string, k: nat)
    requires k <= |StripHost(name)| && IsOwnerRepo(StripHost(name)[..k])
    ensures Sanitize(name).Some? && k <= |Sanitize(name).value|
  {
    OwnerRepoPrefixLongest(StripHost(name), k);
  }

  /** The host prefix cannot match again inside its own text: no match starts at
      any of its last ten characters. */
  lemma HostNotOverlapping(s: string, i: nat, j: nat)
    requires i + HostLength <= |s| && s[i..i + HostLength] == "github.com/"
    requires i < j < i + HostLength
    ensures !HostAt(s, j)
  {
    assert s[j] == "github.com/"[j - i];
    if j + 6 <= |s| {
      assert s[j..j + 6][0] == s[j];
    }
  }

  /** A line `prefix + "github.com/" + tail` whose tail holds no further match is reduced to the tail. */
  lemma StripLineOfUrl(prefix: string, tail: string)
    requires NoHost(tail)
    ensures StripLine(prefix + "github.com/" + tail) == tail
  {
    var s := prefix + "github.com/" + tail;
    var i := |prefix|;
    assert s[i..i + HostLength] == "github.com/";
    assert HostAt(s, i);
    forall j: nat | i < j
      ensures !HostAt(s, j)
    {
      if j < i + HostLength {
        HostNotOverlapping(s, i, j);
      } else if j + HostLength <= |s| {
        assert s[j..j + HostLength] == tail[j - i - HostLength..j - i];
        assert !HostAt(tail, j - i - HostLength);
      }
    }
    assert s[i + HostLength..] == tail;
  }

  /** A text without line breaks is one line. */
  lemma StripHostOneLine(name: string)
    requires '\n' !in name
    ensures StripHost(name) == StripLine(name)
  {
    forall j: nat | j <= |name|
      ensures !OccursAt(name, "\n", j)
    {
      if j < |name| {
        assert name[j..j + 1][0] == name[j];
      }
    }
    FindAbsent(name, "\n");
  }

  /** A text without the letter `g` holds no match of the host pattern. */
  lemma NoHostWithoutG(s: string)
    requires 'g' !in s
    ensures NoHost(s)
  {
    forall j: nat | j + HostLength <= |s|
      ensures s[j] != 'g'
    {
    }
    forall j: nat
      ensures !HostAt(s, j)
    {
      if j + HostLength <= |s| {
        assert s[j..j + 6][0] == s[j];
      }
    }
  }

  /** A one-line URL `prefix github.com/ owner/repo rest`, with nothing host-like after
      the host and `rest` empty or starting with a slash, names `owner/repo`. */
  lemma SanitizeUrl(prefix: string, owner: string, repo: string, rest: string)
    requires '\n' !in prefix + "github.com/" + owner + "/" + repo + rest
    requires owner != "" && repo != "" && SlashFree(owner) && SlashFree(repo)
    requires rest == "" || rest[0] == '/'
    requires NoHost(owner + "/" + repo + rest)
    ensures Sanitize(prefix + "github.com/" + owner + "/" + repo + rest) == Some(owner + "/" + repo)
  {
    var tail := owner + "/" + repo + rest;
    assert prefix + "github.com/" + owner + "/" + repo + rest == prefix + "github.com/" + tail;
    StripHostOneLine(prefix + "github.com/" + tail);
    StripLineOfUrl(prefix, tail);
    OwnerRepoOf(owner, repo, rest);
  }

  lemma OwnerRepoOf(owner: string, repo: string, rest: string)
    requires owner != "" && repo != "" && SlashFree(owner) && SlashFree(repo)
    requires rest == "" || rest[0] == '/'
    ensures OwnerRepoPrefix(owner + "/" + repo + rest) == Some(owner + "/" + repo)
  {
    var t := owner + "/" + repo + rest;
    var q := |owner|;
    var e := q + 1 + |repo|;
    forall j | 0 <= j < q
      ensures t[j] != '/'
    {
      assert t[j] == owner[j];
    }
    SlashFromIs(t, 0, q);
    forall j | q + 1 <= j < e
      ensures t[j] != '/'
    {
      assert t[j] == repo[j - q - 1];
    }
    SlashFromIs(t, q + 1, e);
    assert t[..e] == owner + "/" + repo;
  }

  /** `SlashFrom` finds the first slash. */
  lemma {:induction false} SlashFromIs(s: string, from: nat, i: nat)
    requires from <= i <= |s| && (i < |s| ==> s[i] == '/')
    requires forall j :: from <= j < i ==> s[j] != '/'
    ensures SlashFrom(s, from) == i
    decreases i - from
  {
    if from < i {
      SlashFromIs(s, from + 1, i);
    }
  }

  /** A full issue URL names its repository. */
  lemma SanitizeIssueUrl(prefix: string, owner: string, repo: string, rest: string)
    requires prefix == "https://" && owner == "foo" && repo == "bar" && rest == "/issues/1"
    ensures Sanitize(prefix + "github.com/" + owner + "/" + repo + rest) == Some(owner + "/" + repo)
  {
    var tail := owner + "/" + repo + rest;
    assert tail == "foo/bar/issues/1";
    assert 'g' !in tail && '\n' !in tail && '\n' !in prefix + "github.com/";
    NoHostWithoutG(tail);
    assert SlashFree(owner) && SlashFree(repo);
    SanitizeUrl(prefix, owner, repo, rest);
  }

  /** A bare `owner/repo` is kept as it is. */
  lemma SanitizeBareName(owner: string, repo: string)
    requires owner != "" && repo != "" && SlashFree(owner) && SlashFree(repo)
    requires '\n' !in owner + "/" + repo && NoHost(owner + "/" + repo)
    ensures Sanitize(owner + "/" + repo) == Some(owner + "/" + repo)
  {
    var t := owner + "/" + repo;
    StripHostOneLine(t);
    assert StripLine(t) == t;
    assert t + "" == t;
    OwnerRepoOf(owner, repo, "");
  }

  /** A name with no slash left after the host is stripped has no repository in it. */
  lemma SanitizeNoSlash(name: string)
    requires SlashFree(StripHost(name))
    ensures Sanitize(name).None?
  {
    var t := StripHost(name);
    forall k | 0 <= k <= |t|
      ensures SlashFree(t[..k])
    {
    }
  }
}
