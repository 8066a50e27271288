/**
 * The identifier searches of the resolvers, stated exactly as Python's
 * `re.search` evaluates their patterns: the leftmost position where the
 * literal part occurs and the capture group then matches wins, and greedy
 * repetitions take the longest run.
 *
 *   arXiv:            `arxiv\.org/abs/(\d+\.\d+)`, `arxiv\.org/pdf/(\d+\.\d+)`,
 *                     `arxiv\.org/abs/(\d+)`, then `arxiv\.org/pdf/(\d+)`
 *   Semantic Scholar: `/paper/(?:[^/]+/)?([a-f0-9]{40})`, the same with `{32}`, then `/paper/(?:[^/]+/)?([^/]+)`
 *   OpenReview:       `id=([^&]+)`
 */
module UrlPatterns {
  import opened Wrappers
  import opened Text

  predicate IsLowerHex(c: char) {
    '0' <= c <= '9' || 'a' <= c <= 'f'
  }

  predicate NotSlash(c: char) {
    c != '/'
  }

  predicate NotAmpersand(c: char) {
    c != '&'
  }

  /** The longest prefix of `s` whose characters all satisfy `p` (a greedy `[...]*`). */
  function Run(s: string, p: char -> bool): (r: string)
    ensures |r| <= |s| && r == s[..|r|]
    ensures forall i :: 0 <= i < |r| ==> p(r[i])
    ensures |r| < |s| ==> !p(s[|r|])
    decreases |s|
  {
    if |s| > 0 && p(s[0]) then [s[0]] + Run(s[1..], p) else ""
  }

  lemma {:induction false} RunOfPrefix(a: string, b: string, p: char -> bool)
    requires forall i :: 0 <= i < |a| ==> p(a[i])
    requires b == [] || !p(b[0])
    ensures Run(a + b, p) == a
    decreases |a|
  {
    if |a| > 0 {
      assert (a + b)[1..] == a[1..] + b;
      RunOfPrefix(a[1..], b, p);
    } else {
      assert a + b == b;
    }
  }

  /** What follows the literal part of a pattern: the capture group and anything around it. */
  datatype Tail =
    | DottedNumber        // (\d+\.\d+)
    | Number              // (\d+)
    | HexId(width: nat)   // (?:[^/]+/)?([a-f0-9]{width})
    | PathSegment         // (?:[^/]+/)?([^/]+)
    | QueryValue          // ([^&]+)

  function MatchDotted(s: string): (r: Option<string>)
    ensures r.Some? ==> StartsWith(s, r.value)
    ensures r.Some? ==> Shaped(DottedNumber, r.value)
  {
    var d1 := Run(s, IsDigit);
    if |d1| == 0 || |d1| == |s| || s[|d1|] != '.' then None
    else
      var d2 := Run(s[|d1| + 1..], IsDigit);
      if |d2| == 0 then None
      else
        var v := d1 + "." + d2;
        assert s[..|d1| + 1 + |d2|] == v;
        assert v[..|d1|] == d1 && v[|d1| + 1..] == d2;
        assert v[|d1|] == '.';
        Some(v)
  }

  function MatchRun(s: string, p: char -> bool): (r: Option<string>)
    ensures r.Some? ==> |r.value| > 0 && StartsWith(s, r.value)
    ensures r.Some? ==> forall i :: 0 <= i < |r.value| ==> p(r.value[i])
  {
    var d := Run(s, p);
    if |d| == 0 then None else Some(d)
  }

  function MatchHex(s: string, width: nat): (r: Option<string>)
    ensures r.Some? ==> |r.value| == width && StartsWith(s, r.value)
    ensures r.Some? ==> forall i :: 0 <= i < width ==> IsLowerHex(r.value[i])
  {
    if |s| >= width && forall i :: 0 <= i < width ==> IsLowerHex(s[i]) then Some(s[..width]) else None
  }

  /** The group that follows an optional `[^/]+/` (greedy, so a whole segment and its slash, or nothing). */
  function AfterOptionalSegment(s: string, t: Tail): (r: Option<string>)
    requires t.HexId? || t.PathSegment?
  {
    var seg := Run(s, NotSlash);
    var inner := (x: string) => if t.HexId? then MatchHex(x, t.width) else MatchRun(x, NotSlash);
    if |seg| > 0 && |seg| < |s| && inner(s[|seg| + 1..]).Some? then inner(s[|seg| + 1..]) else inner(s)
  }

  /** The form of a capture group of each kind. */
  predicate Shaped(t: Tail, v: string) {
    match t
    case DottedNumber => exists k :: 0 < k < |v| - 1 && v[k] == '.' && AllDigits(v[..k]) && AllDigits(v[k + 1..])
    case Number => |v| > 0 && AllDigits(v)
    case HexId(w) => |v| == w && forall i :: 0 <= i < w ==> IsLowerHex(v[i])
    case PathSegment => |v| > 0 && '/' !in v
    case QueryValue => |v| > 0 && '&' !in v
  }

  function MatchTail(t: Tail, s: string): (r: Option<string>)
    ensures r.Some? ==> Shaped(t, r.value)
    ensures (t.Number? || t.DottedNumber? || t.QueryValue?) && r.Some? ==> StartsWith(s, r.value)
  {
    match t
    case DottedNumber => MatchDotted(s)
    case Number => MatchRun(s, IsDigit)
    case HexId(_) => AfterOptionalSegment(s, t)
    case PathSegment =>
      var r := AfterOptionalSegment(s, t);
      assert r.Some? ==> forall i :: 0 <= i < |r.value| ==> NotSlash(r.value[i]);
      r
    case QueryValue =>
      var r := MatchRun(s, NotAmpersand);
      assert r.Some? ==> forall i :: 0 <= i < |r.value| ==> NotAmpersand(r.value[i]);
      r
  }

  /** A pattern: a literal, then a tail holding the capture group. */
  datatype Pattern = Pattern(lit: string, tail: Tail)

  /** `re.search(pattern, s).group(1)`: the leftmost position where the whole pattern matches. */
  function Search(s: string, p: Pattern): (r: Option<string>)
    ensures r.Some? ==> Shaped(p.tail, r.value)
    decreases |s|
  {
    if StartsWith(s, p.lit) && MatchTail(p.tail, s[|p.lit|..]).Some? then MatchTail(p.tail, s[|p.lit|..])
    else if |s| == 0 then None
    else Search(s[1..], p)
  }

  /** A search fails when the literal does not occur. */
  lemma {:induction false} SearchNeedsLiteral(s: string, p: Pattern)
    requires !Contains(s, p.lit)
    ensures Search(s, p).None?
    decreases |s|
  {
    assert s[0..] == s;
    if |s| > 0 {
      assert forall j :: 0 <= j <= |s| - 1 ==> s[1..][j..] == s[j + 1..];
      SearchNeedsLiteral(s[1..], p);
    }
  }

  /** Text in front that does not hold the literal's first character is skipped over. */
  lemma {:induction false} SearchSkip(p: string, q: string, pat: Pattern)
    requires |pat.lit| > 0 && pat.lit[0] !in p
    ensures Search(p + q, pat) == Search(q, pat)
    decreases |p|
  {
    if |p| > 0 {
      assert (p + q)[1..] == p[1..] + q;
      assert (p + q)[0] == p[0];
      SearchSkip(p[1..], q, pat);
    } else {
      assert p + q == q;
    }
  }

  /** The first pattern of the list that matches, in list order. */
  function FirstMatch(s: string, ps: seq<Pattern>): (r: Option<string>)
    ensures r.None? <==> forall i :: 0 <= i < |ps| ==> Search(s, ps[i]).None?
    ensures r.Some? ==> exists i :: 0 <= i < |ps| && r == Search(s, ps[i]) && forall j :: 0 <= j < i ==> Search(s, ps[j]).None?
    decreases |ps|
  {
    if |ps| == 0 then None
    else if Search(s, ps[0]).Some? then Search(s, ps[0])
    else
      var rest := FirstMatch(s, ps[1..]);
      assert forall i :: 0 <= i < |ps| - 1 ==> ps[1..][i] == ps[i + 1];
      rest
  }

  // ---------------------------------------------------------------- arXiv

  const ArxivPatterns: seq<Pattern> := [
    Pattern("arxiv.org/abs/", DottedNumber),
    Pattern("arxiv.org/pdf/", DottedNumber),
    Pattern("arxiv.org/abs/", Number),
    Pattern("arxiv.org/pdf/", Number)
  ]

  /** The arXiv identifier of a link: the first of the four patterns that matches. */
  function ArxivId(url: string): (r: Option<string>)
    ensures r.Some? ==> Shaped(DottedNumber, r.value) || Shaped(Number, r.value)
  {
    FirstMatch(url, ArxivPatterns)
  }

  /** The search loop of `_download_arxiv`: patterns in order, stop at the first match. */
  method FindArxivId(url: string) returns (id: Option<string>)
    ensures id == ArxivId(url)
  {
    id := None;
    var i := 0;
    while i < |ArxivPatterns|
      invariant 0 <= i <= |ArxivPatterns|
      invariant FirstMatch(url, ArxivPatterns) == FirstMatch(url, ArxivPatterns[i..])
    {
      var m := Search(url, ArxivPatterns[i]);
      if m.Some? {
        id := m;
        break;
      }
      assert ArxivPatterns[i..][1..] == ArxivPatterns[i + 1..];
      i := i + 1;
    }
  }

  /** A dotted identifier `D1.D2` followed by nothing or by a non-digit is read back whole. */
  lemma DottedRoundTrip(d1: string, d2: string, rest: string)
    requires |d1| > 0 && |d2| > 0 && AllDigits(d1) && AllDigits(d2)
    requires rest == [] || !IsDigit(rest[0])
    ensures MatchDotted(d1 + "." + d2 + rest) == Some(d1 + "." + d2)
  {
    var s := d1 + "." + d2 + rest;
    assert s == d1 + ("." + d2 + rest);
    RunOfPrefix(d1, "." + d2 + rest, IsDigit);
    assert s[|d1|] == '.';
    assert s[|d1| + 1..] == d2 + rest;
    RunOfPrefix(d2, rest, IsDigit);
  }

  /** A match at the very start is the leftmost one. */
  lemma SearchHere(q: string, pat: Pattern, v: string)
    requires StartsWith(q, pat.lit) && MatchTail(pat.tail, q[|pat.lit|..]) == Some(v)
    ensures Search(q, pat) == Some(v)
  {
  }

  /** `…/abs/D1.D2` gives `D1.D2`, for any scheme and host prefix without an `a`. */
  lemma ArxivIdOfAbsLink(p: string, d1: string, d2: string)
    requires 'a' !in p
    requires |d1| > 0 && |d2| > 0 && AllDigits(d1) && AllDigits(d2)
    ensures ArxivId(p + "arxiv.org/abs/" + d1 + "." + d2) == Some(d1 + "." + d2)
  {
    var pat := ArxivPatterns[0];
    var id := d1 + "." + d2;
    var q := pat.lit + id;
    assert p + "arxiv.org/abs/" + d1 + "." + d2 == p + q;
    assert q[|pat.lit|..] == id + "";
    DottedRoundTrip(d1, d2, "");
    SearchHere(q, pat, id);
    SearchSkip(p, q, pat);
  }

  /** The abs pattern finds nothing in a pdf link whose tail holds no `a`. */
  lemma AbsPatternMissesPdfLink(t: string)
    requires 'a' !in t
    ensures Search("arxiv.org/pdf/" + t, ArxivPatterns[0]) == None
  {
    var abs := ArxivPatterns[0];
    var q := "arxiv.org/pdf/" + t;
    assert q[10] == 'p' && abs.lit[10] == 'a';
    assert q[1..] == "rxiv.org/pdf/" + t;
    assert 'a' !in "rxiv.org/pdf/";
    SearchSkip(q[1..], "", abs);
    assert q[1..] + "" == q[1..];
  }

  /** `…/pdf/D1.D2` and `…/pdf/D1.D2.pdf` both give `D1.D2`. */
  lemma ArxivIdOfPdfLink(p: string, d1: string, d2: string, suffix: string)
    requires 'a' !in p
    requires |d1| > 0 && |d2| > 0 && AllDigits(d1) && AllDigits(d2)
    requires suffix == "" || suffix == ".pdf"
    ensures ArxivId(p + "arxiv.org/pdf/" + d1 + "." + d2 + suffix) == Some(d1 + "." + d2)
  {
    var ps := ArxivPatterns;
    var id := d1 + "." + d2;
    var t := id + suffix;
    var q := "arxiv.org/pdf/" + t;
    var url := p + "arxiv.org/pdf/" + d1 + "." + d2 + suffix;
    assert url == p + q;
    assert 'a' !in t by {
      assert forall i :: 0 <= i < |t| ==> t[i] != 'a';
    }
    AbsPatternMissesPdfLink(t);
    SearchSkip(p, q, ps[0]);
    assert q[|ps[1].lit|..] == d1 + "." + d2 + suffix;
    DottedRoundTrip(d1, d2, suffix);
    SearchHere(q, ps[1], id);
    SearchSkip(p, q, ps[1]);
    assert ps[1..][0] == ps[1];
    assert FirstMatch(url, ps[1..]) == Some(id);
  }

  /** The arXiv patterns are case-sensitive: an upper-case host yields no identifier. */
  lemma UpperCaseArxivLinkHasNoId()
    ensures ArxivId("HTTPS://ARXIV.ORG/ABS/2312.00752") == None
  {
    var url := "HTTPS://ARXIV.ORG/ABS/2312.00752";
    assert 'a' !in url;
    NoLowerANoArxivId(url);
  }

  /** Every arXiv pattern starts with a lower-case `a`, so a link without one has no identifier. */
  lemma NoLowerANoArxivId(url: string)
    requires 'a' !in url
    ensures ArxivId(url) == None
  {
    assert url == url + "";
    forall i | 0 <= i < |ArxivPatterns|
      ensures Search(url, ArxivPatterns[i]) == None
    {
      assert ArxivPatterns[i].lit[0] == 'a';
      SearchSkip(url, "", ArxivPatterns[i]);
    }
  }

  // ---------------------------------------------------------------- Semantic Scholar

  const PaperIdPatterns: seq<Pattern> := [
    Pattern("/paper/", HexId(40)),
    Pattern("/paper/", HexId(32)),
    Pattern("/paper/", PathSegment)
  ]

  /** `re.match(r'^[a-f0-9]+$', s)`: lower-case hex digits, where `$` also allows one final newline. */
  predicate HexLine(s: string) {
    var body := if |s| > 0 && s[|s| - 1] == '\n' then s[..|s| - 1] else s;
    |body| > 0 && forall i :: 0 <= i < |body| ==> IsLowerHex(body[i])
  }

  /** The test that ends the search: long enough, or hex. */
  predicate LooksLikeId(s: string) {
    |s| >= 20 || HexLine(s)
  }

  /** The outcome of the candidate loop: the first candidate that looks like an identifier, else the last one found. */
  function SelectCandidate(s: string, ps: seq<Pattern>, latest: Option<string>): (r: Option<string>)
    ensures r.None? ==> latest.None?
    decreases |ps|
  {
    if |ps| == 0 then latest
    else
      var m := Search(s, ps[0]);
      if m.Some? && LooksLikeId(m.value) then m
      else SelectCandidate(s, ps[1..], if m.Some? then m else latest)
  }

  /** The Semantic Scholar paper identifier in a link, as `_download_semanticscholar` chooses it. */
  function PaperId(url: string): Option<string> {
    SelectCandidate(url, PaperIdPatterns, None)
  }

  /** The candidate loop of `_download_semanticscholar`, which keeps the latest match and stops at one that looks like an identifier. */
  method FindPaperId(url: string) returns (id: Option<string>)
    ensures id == PaperId(url)
  {
    id := None;
    var i := 0;
    while i < |PaperIdPatterns|
      invariant 0 <= i <= |PaperIdPatterns|
      invariant PaperId(url) == SelectCandidate(url, PaperIdPatterns[i..], id)
    {
      var m := Search(url, PaperIdPatterns[i]);
      if m.Some? {
        id := m;
        if LooksLikeId(m.value) {
          break;
        }
      }
      assert PaperIdPatterns[i..][1..] == PaperIdPatterns[i + 1..];
      i := i + 1;
    }
  }

  /** Because a hex match is always 40 or 32 characters long, the loop amounts to "the first pattern that matches". */
  lemma PaperIdIsFirstMatch(url: string)
    ensures PaperId(url) == FirstMatch(url, PaperIdPatterns)
  {
    var ps := PaperIdPatterns;
    assert ps[1..][1..] == [ps[2]];
    assert ps[1..] == [ps[1], ps[2]];
    assert [ps[2]][1..] == [];
    var m3 := Search(url, ps[2]);
    assert SelectCandidate(url, [ps[2]], None) == m3 by {
      if m3.Some? && !LooksLikeId(m3.value) {
        assert SelectCandidate(url, [], m3) == m3;
      }
    }
  }

  /** A link without `/paper/` has no identifier, so the resolver falls back to a generic download. */
  lemma NoPaperSegmentNoId(url: string)
    requires !Contains(url, "/paper/")
    ensures PaperId(url).None?
  {
    PaperIdIsFirstMatch(url);
    SearchNeedsLiteral(url, PaperIdPatterns[0]);
    SearchNeedsLiteral(url, PaperIdPatterns[1]);
    SearchNeedsLiteral(url, PaperIdPatterns[2]);
  }

  /** In `/paper/<title>/<40 hex>` the hex identifier is found, not the title. */
  lemma HexIdAfterTitle(title: string, hex: string, rest: string)
    requires |title| > 0 && '/' !in title
    requires |hex| == 40 && forall i :: 0 <= i < 40 ==> IsLowerHex(hex[i])
    ensures Search("/paper/" + title + "/" + hex + rest, PaperIdPatterns[0]) == Some(hex)
  {
    var s := "/paper/" + title + "/" + hex + rest;
    assert StartsWith(s, "/paper/");
    var after := s[7..];
    assert after == title + ("/" + hex + rest);
    RunOfPrefix(title, "/" + hex + rest, NotSlash);
    assert after[|title| + 1..] == hex + rest;
    assert (hex + rest)[..40] == hex;
  }

  // ---------------------------------------------------------------- OpenReview

  const ForumIdPattern: Pattern := Pattern("id=", QueryValue)

  /** The OpenReview forum identifier: everything after the first `id=` up to the next `&`. */
  function ForumId(url: string): (r: Option<string>)
    ensures r.Some? ==> |r.value| > 0 && '&' !in r.value
  {
    Search(url, ForumIdPattern)
  }

  /** With no `id=` in `p`, no occurrence starts inside `p`, even one reaching into a following `id=`. */
  lemma NoForumKeyBefore(p: string, q: string, i: nat)
    requires !Contains(p, "id=") && StartsWith(q, "id=") && i < |p|
    ensures !StartsWith((p + q)[i..], "id=")
  {
    if i + 3 <= |p| {
      assert forall k :: 0 <= k < 3 ==> (p + q)[i..][k] == p[i..][k];
      assert (p + q)[i..][..3] == p[i..][..3];
    } else {
      assert (p + q)[i + 2] == q[i + 2 - |p|];
    }
  }

  /** The usual forum link gives the identifier between `id=` and the end or the next parameter. */
  lemma ForumIdOfForumLink(p: string, id: string, rest: string)
    requires !Contains(p, "id=")
    requires |id| > 0 && '&' !in id
    requires rest == [] || rest[0] == '&'
    ensures ForumId(p + "id=" + id + rest) == Some(id)
  {
    var q := "id=" + (id + rest);
    assert p + "id=" + id + rest == p + q;
    forall i | 0 <= i < |p|
      ensures !StartsWith((p + q)[i..], "id=")
    {
      NoForumKeyBefore(p, q, i);
    }
    SearchPastFreeText(p, q, ForumIdPattern);
    assert q[3..] == id + rest;
    assert forall i :: 0 <= i < |id| ==> NotAmpersand(id[i]);
    RunOfPrefix(id, rest, NotAmpersand);
    SearchHere(q, ForumIdPattern, id);
  }

  /** A prefix that contains no complete occurrence of the literal, even when followed by it, is skipped over. */
  lemma {:induction false} SearchPastFreeText(p: string, q: string, pat: Pattern)
    requires forall i :: 0 <= i < |p| ==> !StartsWith((p + q)[i..], pat.lit)
    ensures Search(p + q, pat) == Search(q, pat)
    decreases |p|
  {
    if |p| > 0 {
      assert (p + q)[0..] == p + q;
      assert (p + q)[1..] == p[1..] + q;
      forall i | 0 <= i < |p[1..]|
        ensures !StartsWith((p[1..] + q)[i..], pat.lit)
      {
        assert (p[1..] + q)[i..] == (p + q)[i + 1..];
      }
      SearchPastFreeText(p[1..], q, pat);
    } else {
      assert p + q == q;
    }
  }
}
