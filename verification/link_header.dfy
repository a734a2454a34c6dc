/** The last-page extractor `findlast` (github.py:202-217).

    A `Link` response header (RFC 8288, section 3) lists targets such as
    `<https://api.github.com/search/code?q=x&page=7>; rel="last"`. The client does
    not parse that grammar: it cuts the header text at every `", "`, cuts each
    entry once at `"; "`, keeps the URL of the last entry whose remainder is exactly
    `rel="last"`, and reads the digits after the first `&page=` in that URL.
 */
module LinkHeader {
  import opened Outcomes
  import opened Strings

  const EntrySeparator := ", "
  const ParamSeparator := "; "
  const LastRelation := "rel=\"last\""
  const PageParam := "&page="

  /** One target of a `Link` header: the text before the first `"; "` of an entry and
      the text after it. */
  datatype Link = Link(url: string, rel: string)

  /** `url, rel = entry.split("; ", 1)`, or `None` where that unpacking raises. */
  function ParseEntry(entry: string): (l: Option<Link>)
    ensures l.Some? ==> l.value.url + ParamSeparator + l.value.rel == entry
    ensures l.Some? ==> Isolated(l.value.url, ParamSeparator)
    ensures l.None? <==> Absent(entry, ParamSeparator)
  {
    match SplitOnce(entry, ParamSeparator)
    case None => None
    case Some((url, rel)) => Some(Link(url, rel))
  }

  /** Every entry parsed, or `None` when one of them cannot be. */
  function ParseEntries(entries: seq<string>): (ls: Option<seq<Link>>)
    ensures ls.None? <==> exists k :: 0 <= k < |entries| && ParseEntry(entries[k]).None?
    ensures ls.Some? ==>
      (|ls.value| == |entries| && forall k :: 0 <= k < |entries| ==> ParseEntry(entries[k]) == Some(ls.value[k]))
  {
    if entries == [] then Some([])
    else
      var rest := entries[1..];
      assert forall k :: 0 <= k < |rest| ==> rest[k] == entries[k + 1];
      assert forall k :: 1 <= k < |entries| ==> entries[k] == rest[k - 1];
      match ParseEntry(entries[0])
      case None => None
      case Some(l) =>
        match ParseEntries(rest)
        case None => None
        case Some(ls) => Some([l] + ls)
  }

  /** The URL of the last target with relation `last`, searching from the end. */
  function LastOfRelation(links: seq<Link>): Option<string> {
    if links == [] then None
    else if links[|links| - 1].rel == LastRelation then Some(links[|links| - 1].url)
    else LastOfRelation(links[..|links| - 1])
  }

  /** Target `k` has relation `last`, carries `url`, and no later target has relation `last`. */
  predicate SelectedAt(links: seq<Link>, k: int, url: string) {
    && 0 <= k < |links| && links[k].rel == LastRelation && links[k].url == url
    && forall j :: k < j < |links| ==> links[j].rel != LastRelation
  }

  /** `LastOfRelation` names the URL of a target with relation `last` that no later
      target overrides, and names nothing exactly when no target has relation `last`. */
  lemma LastOfRelationSpec(links: seq<Link>, url: string)
    ensures LastOfRelation(links) == Some(url) <==> exists k :: SelectedAt(links, k, url)
    ensures LastOfRelation(links).None? <==> forall k :: 0 <= k < |links| ==> links[k].rel != LastRelation
  {
    if LastOfRelation(links) == Some(url) {
      var k := LastOfRelationSelects(links, url);
    }
    if k :| SelectedAt(links, k, url) {
      SelectedIsLastOfRelation(links, k, url);
    }
    if k :| 0 <= k < |links| && links[k].rel == LastRelation {
      LastOfRelationFound(links, k);
    }
    if LastOfRelation(links).Some? {
      var k := LastOfRelationSelects(links, LastOfRelation(links).value);
    }
  }

  lemma {:induction false} LastOfRelationSelects(links: seq<Link>, url: string) returns (k: int)
    requires LastOfRelation(links) == Some(url)
    ensures SelectedAt(links, k, url)
    decreases |links|
  {
    var n := |links| - 1;
    if links[n].rel == LastRelation {
      k := n;
    } else {
      k := LastOfRelationSelects(links[..n], url);
    }
  }

  lemma {:induction false} SelectedIsLastOfRelation(links: seq<Link>, k: int, url: string)
    requires SelectedAt(links, k, url)
    ensures LastOfRelation(links) == Some(url)
    decreases |links|
  {
    var n := |links| - 1;
    if k < n {
      assert links[n].rel != LastRelation;
      SelectedIsLastOfRelation(links[..n], k, url);
    }
  }

  lemma {:induction false} LastOfRelationFound(links: seq<Link>, k: int)
    requires 0 <= k < |links| && links[k].rel == LastRelation
    ensures LastOfRelation(links).Some?
    decreases |links|
  {
    var n := |links| - 1;
    if k < n && links[n].rel != LastRelation {
      LastOfRelationFound(links[..n], k);
    }
  }

  /** Scanning forward: a later target overrides whatever an earlier one selected. */
  lemma {:induction false} LastOfRelationCons(l: Link, rest: seq<Link>)
    ensures LastOfRelation([l] + rest)
         == match LastOfRelation(rest)
            case Some(u) => Some(u)
            case None => if l.rel == LastRelation then Some(l.url) else None
    decreases |rest|
  {
    if rest == [] {
      assert [l] + rest == [l];
      assert [l][..0] == [];
    } else {
      var n := |rest| - 1;
      assert ([l] + rest)[..|rest|] == [l] + rest[..n];
      LastOfRelationCons(l, rest[..n]);
    }
  }

  /** The loop of `findlast` from entry `i` on: `last` holds the URL selected by the
      entries before `i`; an entry without `"; "` aborts the unpacking. */
  function ScanLinks(entries: seq<string>, i: nat, last: Option<string>): (r: Result<Option<string>>)
    requires i <= |entries|
    ensures r.Err? <==> ParseEntries(entries[i..]).None?
    ensures r.Err? ==> r.error.MissingSeparator?
    ensures r.Ok? ==> r.value == match LastOfRelation(ParseEntries(entries[i..]).value)
                                 case Some(u) => Some(u)
                                 case None => last
    decreases |entries| - i
  {
    if i == |entries| then Ok(last)
    else
      assert entries[i..][0] == entries[i] && entries[i..][1..] == entries[i + 1..];
      match ParseEntry(entries[i])
      case None => Err(MissingSeparator(entries[i], ParamSeparator))
      case Some(l) =>
        var r := ScanLinks(entries, i + 1, if l.rel == LastRelation then Some(l.url) else last);
        if r.Ok? then
          LastOfRelationCons(l, ParseEntries(entries[i + 1..]).value);
          r
        else r
  }

  /** `re.search(r'&page=(\d+)', url)` can match at `i`. */
  predicate PageMatchAt(s: string, i: nat) {
    OccursAt(s, PageParam, i) && i + 6 < |s| && IsDigit(s[i + 6])
  }

  /** The leftmost match at or after `from`, or -1. */
  function FirstPageMatch(s: string, from: nat): (r: int)
    ensures r >= -1
    ensures r == -1 ==> forall j: nat :: from <= j ==> !PageMatchAt(s, j)
    ensures r >= 0 ==> from <= r && PageMatchAt(s, r) && forall j: nat :: from <= j < r ==> !PageMatchAt(s, j)
    decreases |s| - from
  {
    if from >= |s| then -1
    else if PageMatchAt(s, from) then from
    else FirstPageMatch(s, from + 1)
  }

  /** The page number the URL carries: the digits after the leftmost `&page=` that is
      followed by a digit, read greedily, or `None` when there is no such match. */
  function PageNumber(url: string): (r: Option<nat>)
    ensures r.None? <==> forall j: nat :: !PageMatchAt(url, j)
    ensures r.Some? ==>
      exists i: nat :: PageMatchAt(url, i) && (forall j: nat :: j < i ==> !PageMatchAt(url, j))
        && r.value == DigitsValue(url[i + 6..DigitRunEnd(url, i + 6)])
  {
    var i := FirstPageMatch(url, 0);
    if i < 0 then None
    else Some(DigitsValue(url[i + 6..DigitRunEnd(url, i + 6)]))
  }

  /** `findlast(link)`: `None` for an absent or empty header; otherwise the page number
      of the URL the scan selects, with an unpacking failure when an entry has no
      `"; "` and an unbound-variable failure when no entry has relation `last`. */
  function FindLast(link: Option<string>): (r: Result<Option<nat>>)
    ensures (link.None? || link.value == "") ==> r == Ok(None)
    ensures link.Some? && link.value != "" ==>
      var parsed := ParseEntries(Split(link.value, EntrySeparator));
      && ((r.Err? && r.error.MissingSeparator?) <==> parsed.None?)
      && (r == Err(LastUnbound) <==> parsed.Some? && LastOfRelation(parsed.value).None?)
      && (parsed.Some? && LastOfRelation(parsed.value).Some? ==>
           r == Ok(PageNumber(LastOfRelation(parsed.value).value)))
  {
    if link.None? || link.value == "" then Ok(None)
    else
      var entries := Split(link.value, EntrySeparator);
      assert entries[0..] == entries;
      match ScanLinks(entries, 0, None)
      case Err(e) => Err(e)
      case Ok(last) =>
        if last.None? then Err(LastUnbound)
        else if last.value == "" then Ok(None)
        else Ok(PageNumber(last.value))
  }

  function FormatEntry(l: Link): string {
    l.url + ParamSeparator + l.rel
  }

  /** The header text for a list of targets. */
  function FormatLinks(links: seq<Link>): string {
    Join(seq(|links|, k requires 0 <= k < |links| => FormatEntry(links[k])), EntrySeparator)
  }

  /** A target whose text cannot be mistaken for a separator: no `", "` anywhere and no
      `"; "` in the URL. */
  predicate Clean(l: Link) {
    Absent(l.url, EntrySeparator) && Absent(l.url, ParamSeparator) && Absent(l.rel, EntrySeparator)
  }

  lemma CleanEntry(l: Link)
    requires Clean(l)
    ensures ParseEntry(FormatEntry(l)) == Some(l)
    ensures Isolated(FormatEntry(l), EntrySeparator)
  {
    IsolatedPair(l.url, ParamSeparator);
    FindAfterIsolated(l.url, ParamSeparator, l.rel);
    var e := FormatEntry(l);
    assert e[..|l.url|] == l.url;
    assert e[|l.url| + 2..] == l.rel;
    assert Absent(ParamSeparator, EntrySeparator) by {
      forall j: nat | j <= 2
        ensures !OccursAt(ParamSeparator, EntrySeparator, j)
      {
        if j == 0 {
          assert ParamSeparator[0..2][0] == ';';
        }
      }
    }
    AbsentPairConcat(l.url, ParamSeparator, EntrySeparator);
    AbsentPairConcat(l.url + ParamSeparator, l.rel, EntrySeparator);
    IsolatedPair(e, EntrySeparator);
  }

  lemma JoinNonEmpty(parts: seq<string>, sep: string)
    requires |parts| >= 1 && parts[0] != ""
    ensures Join(parts, sep) != ""
  {
    if |parts| > 1 {
      assert Join(parts, sep)[0] == parts[0][0];
    }
  }

  /** Splitting and parsing a header written from clean targets gives the targets back. */
  lemma ParseFormattedLinks(links: seq<Link>)
    requires |links| >= 1 && forall k :: 0 <= k < |links| ==> Clean(links[k])
    ensures ParseEntries(Split(FormatLinks(links), EntrySeparator)) == Some(links)
    ensures FormatLinks(links) != ""
  {
    var entries := seq(|links|, k requires 0 <= k < |links| => FormatEntry(links[k]));
    forall k | 0 <= k < |links|
      ensures Isolated(entries[k], EntrySeparator) && ParseEntry(entries[k]) == Some(links[k])
    {
      CleanEntry(links[k]);
    }
    SplitJoin(entries, EntrySeparator);
    ParseEntriesOf(entries, links);
    assert entries[0] == links[0].url + ParamSeparator + links[0].rel;
    JoinNonEmpty(entries, EntrySeparator);
  }

  lemma ParseEntriesOf(entries: seq<string>, links: seq<Link>)
    requires |entries| == |links|
    requires forall k :: 0 <= k < |links| ==> ParseEntry(entries[k]) == Some(links[k])
    ensures ParseEntries(entries) == Some(links)
  {
    var r := ParseEntries(entries);
    assert r.Some?;
    assert forall k :: 0 <= k < |links| ==> r.value[k] == links[k];
    assert r.value == links;
  }

  /** Reading back a header written from clean targets: the URL of the last target with
      relation `last` decides the result, and without one `findlast` fails. */
  lemma FindLastOfFormatted(links: seq<Link>)
    requires |links| >= 1 && forall k :: 0 <= k < |links| ==> Clean(links[k])
    ensures FindLast(Some(FormatLinks(links)))
         == match LastOfRelation(links)
            case None => Err(LastUnbound)
            case Some(u) => Ok(PageNumber(u))
  {
    ParseFormattedLinks(links);
  }

  lemma {:induction false} DigitRunOver(s: string, from: nat, ds: string)
    requires from + |ds| <= |s| && s[from..from + |ds|] == ds && AllDigits(ds)
    requires from + |ds| == |s| || !IsDigit(s[from + |ds|])
    ensures DigitRunEnd(s, from) == from + |ds|
    decreases |ds|
  {
    if ds != [] {
      assert s[from] == ds[0];
      assert s[from + 1..from + |ds|] == ds[1..];
      DigitRunOver(s, from + 1, ds[1..]);
    }
  }

  /** A URL whose first page parameter is `&page=<n>` carries page `n`. */
  lemma PageNumberOf(a: string, n: nat, b: string)
    requires forall j: nat :: !PageMatchAt(a, j)
    requires b == [] || !IsDigit(b[0])
    ensures PageNumber(a + PageParam + DecimalString(n) + b) == Some(n)
  {
    var ds := DecimalString(n);
    var t := ds + b;
    var s := a + PageParam + t;
    assert s == a + PageParam + ds + b;
    FirstMatchAfter(a, t);
    var i := |a| + 6;
    assert s[i..] == t;
    assert s[i..i + |ds|] == ds;
    DigitRunOver(s, i, ds);
    DigitsValueOfDecimal(n);
  }

  lemma FirstMatchAfter(a: string, t: string)
    requires forall j: nat :: !PageMatchAt(a, j)
    requires t != [] && IsDigit(t[0])
    ensures FirstPageMatch(a + PageParam + t, 0) == |a|
  {
    var s := a + PageParam + t;
    assert s[|a|..|a| + 6] == PageParam;
    assert s[|a| + 6] == t[0];
    forall j: nat | j < |a|
      ensures !PageMatchAt(s, j)
    {
      NoMatchBeforeParam(a, t, j);
    }
    FirstPageMatchIs(s, |a|);
  }

  lemma FirstPageMatchIs(s: string, i: nat)
    requires PageMatchAt(s, i) && forall j: nat :: j < i ==> !PageMatchAt(s, j)
    ensures FirstPageMatch(s, 0) == i
  {
  }

  lemma NoMatchBeforeParam(a: string, t: string, j: nat)
    requires forall k: nat :: !PageMatchAt(a, k)
    requires j < |a|
    ensures !PageMatchAt(a + PageParam + t, j)
  {
    var s := a + PageParam + t;
    if j + 7 <= |a| {
      assert s[j..j + 6] == a[j..j + 6];
      assert s[j + 6] == a[j + 6];
      assert !PageMatchAt(a, j);
    } else if j + 6 == |a| {
      assert s[j + 6] == '&';
    } else if j + 6 <= |s| {
      var d := |a| - j;
      assert 0 < d < 6;
      assert s[j..j + 6][d] == s[|a|] == '&';
      assert PageParam[d] != '&';
    }
  }
}
