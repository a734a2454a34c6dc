/** The handful of string primitives the client uses: `str.find`, `str.split(sep)`,
    `str.split(sep, 1)`, `sep.join`, `str.replace`, slicing with a possibly negative
    bound, and decimal digit strings. Their semantics are Python's for the uses the
    client makes of them: non-empty separators and targets, and non-empty runs of ASCII
    digits (`DigitsValue("")` is 0, where `int("")` raises).
 */
module Strings {
  import opened Outcomes

  /** `pat` occurs in `s` starting at index `i`. */
  predicate OccursAt(s: string, pat: string, i: nat) {
    i + |pat| <= |s| && s[i..i + |pat|] == pat
  }

  /** `pat` occurs nowhere in `s`. */
  predicate Absent(s: string, pat: string) {
    forall j: nat :: j <= |s| ==> !OccursAt(s, pat, j)
  }

  /** No occurrence of `pat` in `s` starts before index `n`. */
  predicate NoneBefore(s: string, pat: string, n: nat) {
    forall j: nat :: j < n ==> !OccursAt(s, pat, j)
  }

  /** Appending `sep` to `p` creates no occurrence of `sep` that starts inside `p`:
      `p` holds no `sep` and no suffix of `p` begins one that `sep` completes. */
  predicate Isolated(p: string, sep: string) {
    NoneBefore(p + sep, sep, |p|)
  }

  /** `s.find(pat, from)`: the first index at or after `from` where `pat` occurs, or -1. */
  function FindFrom(s: string, pat: string, from: nat): (r: int)
    ensures r == -1 || (from <= r && OccursAt(s, pat, r))
    ensures r == -1 ==> forall j: nat :: from <= j ==> !OccursAt(s, pat, j)
    ensures r >= 0 ==> forall j: nat :: from <= j < r ==> !OccursAt(s, pat, j)
    decreases |s| + 1 - from
  {
    if from + |pat| > |s| then -1
    else if OccursAt(s, pat, from) then from
    else FindFrom(s, pat, from + 1)
  }

  /** `s.find(pat)`. */
  function Find(s: string, pat: string): int {
    FindFrom(s, pat, 0)
  }

  lemma FindIsFirst(s: string, pat: string, i: nat)
    requires OccursAt(s, pat, i) && NoneBefore(s, pat, i)
    ensures Find(s, pat) == i
  {
  }

  lemma FindAbsent(s: string, pat: string)
    requires Absent(s, pat)
    ensures Find(s, pat) == -1
  {
  }

  /** An occurrence inside a prefix, a suffix or the left operand of a concatenation
      is an occurrence in the whole string. */
  lemma OccursInConcat(a: string, b: string, pat: string, j: nat)
    ensures j + |pat| <= |a| ==> (OccursAt(a + b, pat, j) <==> OccursAt(a, pat, j))
    ensures OccursAt(a + b, pat, |a| + j) <==> OccursAt(b, pat, j)
  {
    if j + |pat| <= |a| {
      assert (a + b)[j..j + |pat|] == a[j..j + |pat|];
    }
    if |a| + j + |pat| <= |a + b| {
      assert (a + b)[|a| + j..|a| + j + |pat|] == b[j..j + |pat|];
    }
  }

  lemma OccursInSlice(s: string, pat: string, lo: nat, hi: nat, j: nat)
    requires lo <= hi <= |s|
    ensures OccursAt(s[lo..hi], pat, j) ==> OccursAt(s, pat, lo + j)
  {
    OccursInConcat(s[lo..hi], s[hi..], pat, j);
    assert s[lo..hi] + s[hi..] == s[lo..];
    OccursInConcat(s[..lo], s[lo..], pat, j);
    assert s[..lo] + s[lo..] == s;
  }

  /** The first occurrence of `sep` after an isolated `a` is the `sep` that follows it. */
  lemma FindAfterIsolated(a: string, sep: string, b: string)
    requires Isolated(a, sep)
    ensures Find(a + sep + b, sep) == |a|
  {
    var s := a + sep + b;
    assert s == (a + sep) + b;
    forall j: nat | j < |a|
      ensures !OccursAt(s, sep, j)
    {
      OccursInConcat(a + sep, b, sep, j);
    }
    OccursInConcat(a, sep + b, sep, 0);
    assert (sep + b)[0..|sep|] == sep;
    FindIsFirst(s, sep, |a|);
  }

  /** For a two-character separator with distinct characters, having no occurrence is enough. */
  lemma IsolatedPair(p: string, sep: string)
    requires |sep| == 2 && sep[0] != sep[1] && Absent(p, sep)
    ensures Isolated(p, sep)
  {
    forall j: nat | j < |p|
      ensures !OccursAt(p + sep, sep, j)
    {
      if j + 2 <= |p| {
        OccursInConcat(p, sep, sep, j);
      } else {
        assert (p + sep)[j + 1] == sep[0];
        assert (p + sep)[j..j + 2][1] == (p + sep)[j + 1];
      }
    }
  }

  /** Concatenation keeps a two-character pattern absent unless the junction spells it. */
  lemma AbsentPairConcat(a: string, b: string, pat: string)
    requires |pat| == 2 && Absent(a, pat) && Absent(b, pat)
    requires !(|a| > 0 && |b| > 0 && a[|a| - 1] == pat[0] && b[0] == pat[1])
    ensures Absent(a + b, pat)
  {
    forall j: nat | j <= |a + b|
      ensures !OccursAt(a + b, pat, j)
    {
      if j + 2 <= |a| {
        OccursInConcat(a, b, pat, j);
      } else if j >= |a| {
        OccursInConcat(a, b, pat, j - |a|);
      } else if j + 2 <= |a + b| {
        assert (a + b)[j..j + 2][0] == a[|a| - 1];
        assert (a + b)[j..j + 2][1] == b[0];
      }
    }
  }

  /** `sep.join(parts)`. */
  function Join(parts: seq<string>, sep: string): string {
    if |parts| == 0 then ""
    else if |parts| == 1 then parts[0]
    else parts[0] + sep + Join(parts[1..], sep)
  }

  /** `s.split(sep)` for a non-empty separator: cut at every occurrence of `sep`,
      scanning from the left without overlap. */
  function Split(s: string, sep: string): (parts: seq<string>)
    requires |sep| > 0
    ensures |parts| >= 1
    ensures Join(parts, sep) == s
    ensures forall k :: 0 <= k < |parts| ==> Absent(parts[k], sep)
    decreases |s|
  {
    var i := Find(s, sep);
    if i < 0 then [s]
    else
      var rest := Split(s[i + |sep|..], sep);
      assert Absent(s[..i], sep) by {
        forall j: nat | j <= i
          ensures !OccursAt(s[..i], sep, j)
        {
          OccursInSlice(s, sep, 0, i, j);
        }
      }
      assert s == s[..i] + sep + s[i + |sep|..];
      assert ([s[..i]] + rest)[1..] == rest;
      [s[..i]] + rest
  }

  /** `s.split(sep, 1)` when the result is unpacked into two names: the text before
      the first `sep` and everything after it, or `None` when `sep` does not occur. */
  function SplitOnce(s: string, sep: string): (r: Option<(string, string)>)
    requires |sep| > 0
    ensures r.None? <==> Absent(s, sep)
    ensures r.Some? ==> r.value.0 + sep + r.value.1 == s && NoneBefore(s, sep, |r.value.0|)
    ensures r.Some? ==> Isolated(r.value.0, sep)
  {
    var i := Find(s, sep);
    if i < 0 then None
    else
      assert s == s[..i] + sep + s[i + |sep|..];
      IsolatedBeforeFirst(s[..i], sep, s[i + |sep|..]);
      Some((s[..i], s[i + |sep|..]))
  }

  /** The text before the first occurrence of `sep` is isolated. */
  lemma IsolatedBeforeFirst(h: string, sep: string, t: string)
    requires NoneBefore(h + sep + t, sep, |h|)
    ensures Isolated(h, sep)
  {
    assert h + sep + t == (h + sep) + t;
    forall j: nat | j < |h|
      ensures !OccursAt(h + sep, sep, j)
    {
      OccursInConcat(h + sep, t, sep, j);
    }
  }

  /** Joining isolated parts and splitting again gives the parts back. */
  lemma {:induction false} SplitJoin(parts: seq<string>, sep: string)
    requires |sep| > 0 && |parts| >= 1
    requires forall k :: 0 <= k < |parts| ==> Isolated(parts[k], sep)
    ensures Split(Join(parts, sep), sep) == parts
    decreases |parts|
  {
    if |parts| == 1 {
      var p := parts[0];
      forall j: nat | j <= |p|
        ensures !OccursAt(p, sep, j)
      {
        OccursInConcat(p, sep, sep, j);
      }
      FindAbsent(p, sep);
    } else {
      var p, rest := parts[0], Join(parts[1..], sep);
      FindAfterIsolated(p, sep, rest);
      var s := p + sep + rest;
      assert s[..|p|] == p;
      assert s[|p| + |sep|..] == rest;
      SplitJoin(parts[1..], sep);
      assert parts == [p] + parts[1..];
    }
  }

  /** `SplitOnce` sees the same first piece as `Split`, and the rest rejoined. */
  lemma SplitOnceIsSplitHead(s: string, sep: string)
    requires |sep| > 0
    ensures var parts := Split(s, sep);
      SplitOnce(s, sep) == if |parts| == 1 then None else Some((parts[0], Join(parts[1..], sep)))
  {
  }

  /** One step of the splitting scan, at the first occurrence `i`. */
  lemma SplitAt(s: string, sep: string, i: nat)
    requires |sep| > 0 && Find(s, sep) == i
    ensures Split(s, sep) == [s[..i]] + Split(s[i + |sep|..], sep)
  {
  }

  lemma JoinCons(x: string, parts: seq<string>, sep: string)
    requires |parts| >= 1
    ensures Join([x] + parts, sep) == x + sep + Join(parts, sep)
  {
    assert ([x] + parts)[1..] == parts;
  }

  /** `s.replace(target, repl)` for a non-empty `target`: scan left to right for the
      next occurrence, replace it, and go on after it; the replacement text is never
      rescanned. */
  function Replace(s: string, target: string, repl: string): string
    requires |target| > 0
    decreases |s|
  {
    var i := Find(s, target);
    if i < 0 then s
    else s[..i] + repl + Replace(s[i + |target|..], target, repl)
  }

  /** `s.replace(target, repl)` is `repl.join(s.split(target))`. */
  lemma {:induction false} ReplaceIsJoinSplit(s: string, target: string, repl: string)
    requires |target| > 0
    ensures Replace(s, target, repl) == Join(Split(s, target), repl)
    decreases |s|
  {
    var i := Find(s, target);
    if i >= 0 {
      var rest := s[i + |target|..];
      SplitAt(s, target, i);
      ReplaceIsJoinSplit(rest, target, repl);
      JoinCons(s[..i], Split(rest, target), repl);
    }
  }

  /** Replacing leaves a text without `target` as it is. */
  lemma ReplaceAbsent(s: string, target: string, repl: string)
    requires |target| > 0 && Absent(s, target)
    ensures Replace(s, target, repl) == s
  {
    FindAbsent(s, target);
  }

  /** Python's `s[:k]`: a negative bound counts from the end. */
  function SliceTo(s: string, k: int): string {
    if k >= 0 then (if k <= |s| then s[..k] else s)
    else if |s| + k >= 0 then s[..|s| + k]
    else ""
  }

  /** `find` for a single character: the index of its first occurrence, or -1. */
  lemma FindChar(s: string, c: char)
    ensures c in s ==>
      (0 <= Find(s, [c]) < |s| && s[Find(s, [c])] == c
       && forall j :: 0 <= j < Find(s, [c]) ==> s[j] != c)
    ensures c !in s ==> Find(s, [c]) == -1
  {
    var i := Find(s, [c]);
    if c in s {
      var k :| 0 <= k < |s| && s[k] == c;
      assert s[k..k + 1] == [c];
      assert OccursAt(s, [c], k);
      assert s[i..i + 1][0] == s[i];
      forall j | 0 <= j < i
        ensures s[j] != c
      {
        assert !OccursAt(s, [c], j);
        assert s[j..j + 1] == [s[j]];
      }
    } else {
      forall j: nat | j <= |s|
        ensures !OccursAt(s, [c], j)
      {
        if j < |s| {
          assert s[j..j + 1][0] == s[j];
        }
      }
    }
  }

  /** `s[:s.find(c)]`: the text before the first `c`; when there is no `c` the -1
      that `find` returns makes the slice drop the last character instead. */
  function CutAtFirst(s: string, c: char): (r: string)
    ensures c in s ==> r <= s && c !in r && |r| < |s| && s[|r|] == c
    ensures c !in s ==> r == if s == [] then [] else s[..|s| - 1]
  {
    FindChar(s, c);
    SliceTo(s, Find(s, [c]))
  }

  predicate IsDigit(c: char) {
    '0' <= c <= '9'
  }

  predicate AllDigits(ds: string) {
    forall k :: 0 <= k < |ds| ==> IsDigit(ds[k])
  }

  /** `int(ds)` for a string of ASCII digits. */
  function DigitsValue(ds: string): nat
    requires AllDigits(ds)
  {
    if ds == [] then 0
    else DigitsValue(ds[..|ds| - 1]) * 10 + (ds[|ds| - 1] as int - '0' as int)
  }

  /** `str(n)`: the decimal digits of `n`, without leading zeros. */
  function DecimalString(n: nat): (ds: string)
    ensures |ds| >= 1 && AllDigits(ds)
    ensures |ds| > 1 ==> ds[0] != '0'
  {
    var d := ['0' + (n % 10) as char];
    if n < 10 then d else DecimalString(n / 10) + d
  }

  /** Reading the decimal digits of `n` gives `n` back. */
  lemma {:induction false} DigitsValueOfDecimal(n: nat)
    ensures DigitsValue(DecimalString(n)) == n
  {
    var ds := DecimalString(n);
    if n >= 10 {
      DigitsValueOfDecimal(n / 10);
      assert ds[..|ds| - 1] == DecimalString(n / 10);
    }
  }

  /** The end of the longest run of digits in `s` that starts at `from`. */
  function DigitRunEnd(s: string, from: nat): (e: nat)
    requires from <= |s|
    ensures from <= e <= |s| && AllDigits(s[from..e])
    ensures e == |s| || !IsDigit(s[e])
    decreases |s| - from
  {
    if from < |s| && IsDigit(s[from]) then
      var e := DigitRunEnd(s, from + 1);
      assert s[from..e] == [s[from]] + s[from + 1..e];
      e
    else from
  }

  /** A text that lacks one of the characters of `pat` holds no occurrence of `pat`. */
  lemma AbsentByChar(s: string, pat: string, k: nat)
    requires k < |pat| && pat[k] !in s
    ensures Absent(s, pat)
  {
    forall j: nat | j <= |s|
      ensures !OccursAt(s, pat, j)
    {
      if j + |pat| <= |s| {
        assert s[j..j + |pat|][k] == s[j + k];
      }
    }
  }

  /** A one-character separator is isolated behind any text that does not hold it. */
  lemma IsolatedChar(p: string, c: char)
    requires Absent(p, [c])
    ensures Isolated(p, [c])
  {
    forall j: nat | j < |p|
      ensures !OccursAt(p + [c], [c], j)
    {
      OccursInConcat(p, [c], [c], j);
    }
  }

  /** Splitting once at a separator that the head cannot hide gives head and tail back. */
  lemma SplitOnceAt(a: string, sep: string, b: string)
    requires |sep| > 0 && Isolated(a, sep)
    ensures SplitOnce(a + sep + b, sep) == Some((a, b))
  {
    FindAfterIsolated(a, sep, b);
    var s := a + sep + b;
    assert s[..|a|] == a && s[|a| + |sep|..] == b;
  }

  /** A text holding `target` exactly once, after a head without its first character,
      is rewritten at that one place. */
  lemma ReplaceOnce(a: string, target: string, b: string, repl: string)
    requires |target| > 0 && target[0] !in a && Absent(b, target)
    ensures Replace(a + target + b, target, repl) == a + repl + b
  {
    var s, n := a + target + b, |a|;
    assert Find(s, target) == n by {
      assert s[n..n + |target|] == target;
      forall j: nat | j < n
        ensures !OccursAt(s, target, j)
      {
        if j + |target| <= |s| {
          assert s[j..j + |target|][0] == a[j];
        }
      }
      FindIsFirst(s, target, n);
    }
    assert s[..n] == a;
    assert s[n + |target|..] == b;
    ReplaceAbsent(b, target, repl);
  }

  /** A single occurrence of `target`, at the very end, is replaced. */
  lemma ReplaceLast(a: string, target: string, repl: string)
    requires |target| > 0 && target[0] !in a
    ensures Replace(a + target, target, repl) == a + repl
  {
    AbsentByChar("", target, 0);
    ReplaceOnce(a, target, "", repl);
    assert a + target + "" == a + target;
    assert a + repl + "" == a + repl;
  }

  /** Cutting at the first `c` of a text whose head has no `c` gives the head. */
  lemma CutAtFirstIs(x: string, c: char, y: string)
    requires c !in x
    ensures CutAtFirst(x + [c] + y, c) == x
  {
    var s := x + [c] + y;
    assert s[|x|] == c;
    FindChar(s, c);
    assert s[..|x|] == x;
  }
}
