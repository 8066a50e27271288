/**
 * Python string operations the program relies on, with Python's semantics:
 * `str.isspace`, `strip`, `lower` (ASCII letters), `in`, `startswith`,
 * `endswith`, `replace`, `split`, `join`, `int()` and slicing `s[:k]`.
 */
module Text {
  import opened Wrappers

  // ---------------------------------------------------------------- characters

  /** Python's `str.isspace` on a single character (the Unicode whitespace set). */
  predicate IsSpace(c: char) {
    c == ' ' || c == '\t' || c == '\n' || c == '\r' || c == '\U{b}' || c == '\U{c}'
    || ('\U{1c}' <= c <= '\U{1f}') || c == '\U{85}' || c == '\U{a0}' || c == '\U{1680}'
    || ('\U{2000}' <= c <= '\U{200a}') || c == '\U{2028}' || c == '\U{2029}'
    || c == '\U{202f}' || c == '\U{205f}' || c == '\U{3000}'
  }

  predicate IsDigit(c: char) {
    '0' <= c <= '9'
  }

  predicate IsAsciiUpper(c: char) {
    'A' <= c <= 'Z'
  }

  predicate IsAsciiLower(c: char) {
    'a' <= c <= 'z'
  }

  predicate IsAsciiLetter(c: char) {
    IsAsciiUpper(c) || IsAsciiLower(c)
  }

  function LowerChar(c: char): (r: char)
    ensures !IsAsciiUpper(r)
    ensures IsAsciiLetter(c) <==> IsAsciiLetter(r)
    ensures !IsAsciiUpper(c) ==> r == c
  {
    if IsAsciiUpper(c) then (c as int + 32) as char else c
  }

  // ---------------------------------------------------------------- lower()

  /** `s.lower()`, restricted to ASCII letters. */
  function Lower(s: string): (r: string)
    ensures |r| == |s|
    ensures forall i :: 0 <= i < |s| ==> r[i] == LowerChar(s[i])
  {
    seq(|s|, i requires 0 <= i < |s| => LowerChar(s[i]))
  }

  predicate IsLower(s: string) {
    forall i :: 0 <= i < |s| ==> !IsAsciiUpper(s[i])
  }

  lemma LowerIsLower(s: string)
    ensures IsLower(Lower(s))
    ensures Lower(Lower(s)) == Lower(s)
  {
  }

  lemma LowerOfLower(s: string)
    requires IsLower(s)
    ensures Lower(s) == s
  {
  }

  lemma LowerConcat(a: string, b: string)
    ensures Lower(a + b) == Lower(a) + Lower(b)
  {
  }

  // ---------------------------------------------------------------- prefixes, suffixes, search

  predicate StartsWith(s: string, p: string) {
    |p| <= |s| && s[..|p|] == p
  }

  predicate EndsWith(s: string, p: string) {
    |p| <= |s| && s[|s| - |p|..] == p
  }

  /** `s.find(sub)`: the leftmost index where `sub` occurs. */
  function Find(s: string, sub: string): (r: Option<nat>)
    ensures r.Some? ==> r.value + |sub| <= |s| && StartsWith(s[r.value..], sub)
    ensures r.Some? ==> forall j :: 0 <= j < r.value ==> !StartsWith(s[j..], sub)
    ensures r.None? ==> forall j :: 0 <= j <= |s| ==> !StartsWith(s[j..], sub)
    decreases |s|
  {
    if StartsWith(s, sub) then Some(0)
    else if |s| == 0 then None
    else
      match Find(s[1..], sub)
      case None => ShiftedSuffixes(s, sub, |s|); None
      case Some(k) => ShiftedSuffixes(s, sub, k + 1); Some(k + 1)
  }

  /** The suffixes of `s` from index 1 on are the suffixes of its tail. */
  lemma ShiftedSuffixes(s: string, sub: string, n: nat)
    requires 0 < |s| && n <= |s|
    ensures forall j :: 1 <= j <= n ==> (StartsWith(s[j..], sub) <==> StartsWith(s[1..][j - 1..], sub))
  {
    forall j | 1 <= j <= n
      ensures StartsWith(s[j..], sub) <==> StartsWith(s[1..][j - 1..], sub)
    {
      assert s[j..] == s[1..][j - 1..];
    }
  }

  /** Python's `sub in s`. */
  predicate Contains(s: string, sub: string) {
    Find(s, sub).Some?
  }

  lemma ContainsAt(s: string, sub: string, i: nat)
    requires i <= |s| && StartsWith(s[i..], sub)
    ensures Contains(s, sub)
  {
  }

  lemma ContainsPrefix(s: string, t: string, sub: string)
    requires Contains(s, sub)
    ensures Contains(s + t, sub)
  {
    var i := Find(s, sub).value;
    assert (s + t)[i..][..|sub|] == s[i..][..|sub|];
    ContainsAt(s + t, sub, i);
  }

  lemma ContainsSuffix(s: string, t: string, sub: string)
    requires Contains(t, sub)
    ensures Contains(s + t, sub)
  {
    var i := Find(t, sub).value;
    assert (s + t)[|s| + i..] == t[i..];
    ContainsAt(s + t, sub, |s| + i);
  }

  lemma ContainsItself(s: string)
    ensures Contains(s, s)
  {
    ContainsAt(s, s, 0);
  }

  /** `sub in s` and `sub.lower() in s.lower()` agree when `sub` has no upper-case letter and `s` is lower case. */
  lemma ContainsLowered(s: string, sub: string)
    requires Contains(s, sub)
    ensures Contains(Lower(s), Lower(sub))
  {
    var i := Find(s, sub).value;
    assert Lower(s)[i..][..|sub|] == Lower(sub);
    ContainsAt(Lower(s), Lower(sub), i);
  }

  // ---------------------------------------------------------------- strip()

  function LStrip(s: string): (r: string)
    ensures |r| <= |s|
    ensures r == [] || !IsSpace(r[0])
    decreases |s|
  {
    if |s| > 0 && IsSpace(s[0]) then LStrip(s[1..]) else s
  }

  /** `lstrip()` removes leading whitespace only. */
  lemma {:induction false} LStripDropsSpaces(s: string)
    ensures LStrip(s) == s[|s| - |LStrip(s)|..]
    ensures forall i :: 0 <= i < |s| - |LStrip(s)| ==> IsSpace(s[i])
    decreases |s|
  {
    if |s| > 0 && IsSpace(s[0]) {
      LStripDropsSpaces(s[1..]);
      assert forall i :: 1 <= i < |s| ==> s[i] == s[1..][i - 1];
      assert s[1..][|s| - 1 - |LStrip(s)|..] == s[|s| - |LStrip(s)|..];
    }
  }

  lemma LStripNoLead(s: string)
    requires s == [] || !IsSpace(s[0])
    ensures LStrip(s) == s
  {
  }

  function RStrip(s: string): (r: string)
    ensures |r| <= |s|
    ensures r == [] || !IsSpace(r[|r| - 1])
    decreases |s|
  {
    if |s| > 0 && IsSpace(s[|s| - 1]) then RStrip(s[..|s| - 1]) else s
  }

  /** `rstrip()` removes trailing whitespace only. */
  lemma {:induction false} RStripDropsSpaces(s: string)
    ensures RStrip(s) == s[..|RStrip(s)|]
    ensures forall i :: |RStrip(s)| <= i < |s| ==> IsSpace(s[i])
    decreases |s|
  {
    if |s| > 0 && IsSpace(s[|s| - 1]) {
      RStripDropsSpaces(s[..|s| - 1]);
      assert forall i :: 0 <= i < |s| - 1 ==> s[i] == s[..|s| - 1][i];
      assert s[..|s| - 1][..|RStrip(s)|] == s[..|RStrip(s)|];
    }
  }

  /** A string with no whitespace at either end: what `strip()` returns. */
  predicate IsStripped(s: string) {
    s == [] || (!IsSpace(s[0]) && !IsSpace(s[|s| - 1]))
  }

  /** `r` is `s` with whitespace only removed: `k` characters in front, the rest behind. */
  predicate TrimmedAt(s: string, r: string, k: int) {
    0 <= k <= |s| - |r| && s[k..k + |r|] == r
    && (forall i :: 0 <= i < k ==> IsSpace(s[i]))
    && (forall i :: k + |r| <= i < |s| ==> IsSpace(s[i]))
  }

  /** `s.strip()`: the longest infix of `s` with no whitespace at either end, dropping whitespace only. */
  function Strip(s: string): (r: string)
    ensures IsStripped(r)
    ensures |r| <= |s|
  {
    RStripDropsSpaces(LStrip(s));
    RStrip(LStrip(s))
  }

  /** What `strip()` removes is whitespace, at the ends only. */
  lemma StripTrims(s: string)
    ensures exists k :: TrimmedAt(s, Strip(s), k)
  {
    var l := LStrip(s);
    LStripDropsSpaces(s);
    RStripDropsSpaces(l);
    assert Strip(s) == RStrip(l);
    TrimmedOfParts(s, l, RStrip(l));
  }

  /** Leading blanks cut off to give `l`, then trailing blanks cut off `l` to give `r`. */
  lemma TrimmedOfParts(s: string, l: string, r: string)
    requires |l| <= |s| && l == s[|s| - |l|..] && forall i :: 0 <= i < |s| - |l| ==> IsSpace(s[i])
    requires |r| <= |l| && r == l[..|r|] && forall i :: |r| <= i < |l| ==> IsSpace(l[i])
    ensures TrimmedAt(s, r, |s| - |l|)
  {
    var k := |s| - |l|;
    assert r == s[k..k + |r|] by {
      forall j | 0 <= j < |r|
        ensures r[j] == s[k + j]
      {
        assert r[j] == l[j] && l[j] == s[k..][j];
      }
    }
    forall i | k + |r| <= i < |s|
      ensures IsSpace(s[i])
    {
      assert s[i] == s[k..][i - k];
    }
  }

  lemma StripStripped(s: string)
    requires IsStripped(s)
    ensures Strip(s) == s
  {
  }

  lemma StripIdempotent(s: string)
    ensures Strip(Strip(s)) == Strip(s)
  {
    StripStripped(Strip(s));
  }

  lemma StripEmpty(s: string)
    ensures Strip(s) == [] <==> forall i :: 0 <= i < |s| ==> IsSpace(s[i])
  {
    var l := LStrip(s);
    LStripDropsSpaces(s);
    RStripDropsSpaces(l);
    if l != [] {
      assert !IsSpace(s[|s| - |l|]);
    }
  }

  // ---------------------------------------------------------------- replace()

  /** `s.replace(pat, rep)`: every non-overlapping occurrence, scanning from the left. */
  function ReplaceAll(s: string, pat: string, rep: string): string
    requires |pat| > 0
    decreases |s|
  {
    if |s| < |pat| then s
    else if s[..|pat|] == pat then rep + ReplaceAll(s[|pat|..], pat, rep)
    else [s[0]] + ReplaceAll(s[1..], pat, rep)
  }

  /** Replacing a string that does not occur leaves `s` unchanged. */
  lemma {:induction false} ReplaceAbsent(s: string, pat: string, rep: string)
    requires |pat| > 0 && !Contains(s, pat)
    ensures ReplaceAll(s, pat, rep) == s
    decreases |s|
  {
    if |s| >= |pat| {
      assert s[0..] == s;
      assert forall j :: 0 <= j <= |s| - 1 ==> s[1..][j..] == s[j + 1..];
      ReplaceAbsent(s[1..], pat, rep);
    }
  }

  /** After replacing every single character `c` by a string without `c`, no `c` is left. */
  lemma {:induction false} ReplaceCharRemoves(s: string, c: char, rep: string)
    requires c !in rep
    ensures c !in ReplaceAll(s, [c], rep)
    decreases |s|
  {
    if |s| >= 1 {
      ReplaceCharRemoves(s[1..], c, rep);
    }
  }

  /** Replacing a character `c` keeps every character of `s` except `c`, and adds the characters of `rep`. */
  lemma {:induction false} ReplaceCharChars(s: string, c: char, rep: string, d: char)
    ensures d in ReplaceAll(s, [c], rep) ==> (d in s && d != c) || d in rep
    decreases |s|
  {
    if |s| >= 1 {
      ReplaceCharChars(s[1..], c, rep, d);
    }
  }

  // ---------------------------------------------------------------- split() and join()

  /** `s.split(sep)` for a non-empty separator. */
  function Split(s: string, sep: string): (parts: seq<string>)
    requires |sep| > 0
    ensures |parts| >= 1
    decreases |s|
  {
    if |s| < |sep| then [s]
    else if s[..|sep|] == sep then [""] + Split(s[|sep|..], sep)
    else
      var rest := Split(s[1..], sep);
      [[s[0]] + rest[0]] + rest[1..]
  }

  /** `sep.join(parts)`. */
  function Join(parts: seq<string>, sep: string): string
    decreases |parts|
  {
    if |parts| == 0 then ""
    else if |parts| == 1 then parts[0]
    else parts[0] + sep + Join(parts[1..], sep)
  }

  lemma JoinConsHead(c: char, x: string, y: seq<string>, sep: string)
    ensures Join([[c] + x] + y, sep) == [c] + Join([x] + y, sep)
  {
    if |y| > 0 {
      assert ([[c] + x] + y)[1..] == y;
      assert ([x] + y)[1..] == y;
    }
  }

  /** Joining one more part appends the separator and that part. */
  lemma {:induction false} JoinAppend(parts: seq<string>, x: string, sep: string)
    requires |parts| > 0
    ensures Join(parts + [x], sep) == Join(parts, sep) + sep + x
    decreases |parts|
  {
    if |parts| > 1 {
      assert (parts + [x])[1..] == parts[1..] + [x];
      JoinAppend(parts[1..], x, sep);
    }
  }

  /** `sep.join(s.split(sep)) == s`. */
  lemma {:induction false} SplitJoin(s: string, sep: string)
    requires |sep| > 0
    ensures Join(Split(s, sep), sep) == s
    decreases |s|
  {
    if |s| < |sep| {
    } else if s[..|sep|] == sep {
      var rest := Split(s[|sep|..], sep);
      SplitJoin(s[|sep|..], sep);
      assert ([""] + rest)[1..] == rest;
      assert s == sep + s[|sep|..];
    } else {
      var rest := Split(s[1..], sep);
      SplitJoin(s[1..], sep);
      JoinConsHead(s[0], rest[0], rest[1..], sep);
      assert [rest[0]] + rest[1..] == rest;
      assert s == [s[0]] + s[1..];
    }
  }

  /** The text after the first `sep`, or `s` itself: `s.split(sep, 1)[-1]`. */
  function AfterFirst(s: string, sep: string): (r: string)
    ensures |r| <= |s|
    ensures !Contains(s, sep) ==> r == s
    ensures Contains(s, sep) ==> r == s[Find(s, sep).value + |sep|..]
  {
    match Find(s, sep)
    case None => s
    case Some(i) => s[i + |sep|..]
  }

  /** A text without the separator splits into itself. */
  lemma {:induction false} SplitWithoutSeparator(s: string, sep: string)
    requires |sep| > 0 && !Contains(s, sep)
    ensures Split(s, sep) == [s]
    decreases |s|
  {
    if |s| >= |sep| {
      assert s[0..] == s;
      assert !StartsWith(s, sep);
      assert Find(s[1..], sep).None?;
      SplitWithoutSeparator(s[1..], sep);
      assert [s[0]] + s[1..] == s;
    }
  }

  /** A prefix in which no separator starts becomes the first part whole. */
  lemma {:induction false} SplitAfterFreePrefix(p: string, q: string, sep: string)
    requires |sep| > 0 && StartsWith(q, sep)
    requires forall i :: 0 <= i < |p| ==> !StartsWith((p + q)[i..], sep)
    ensures Split(p + q, sep) == [p] + Split(q[|sep|..], sep)
    decreases |p|
  {
    var s := p + q;
    if |p| == 0 {
      assert s == q;
    } else {
      assert s[0..] == s;
      assert s[1..] == p[1..] + q;
      forall i | 0 <= i < |p[1..]|
        ensures !StartsWith((p[1..] + q)[i..], sep)
      {
        assert (p[1..] + q)[i..] == s[i + 1..];
      }
      SplitAfterFreePrefix(p[1..], q, sep);
      assert [s[0]] + p[1..] == p;
    }
  }

  /** Splitting on a one-character separator cuts at its first occurrence. */
  lemma SplitAtFirst(p: string, q: string, sep: string)
    requires |sep| == 1 && sep[0] !in p
    ensures Split(p + sep + q, sep) == [p] + Split(q, sep)
  {
    var s := p + (sep + q);
    assert p + sep + q == s;
    forall i | 0 <= i < |p|
      ensures !StartsWith(s[i..], sep)
    {
      assert s[i..][0] == p[i];
    }
    SplitAfterFreePrefix(p, sep + q, sep);
    assert (sep + q)[|sep|..] == q;
  }

  /** A single occurrence of `pat` between texts where it cannot begin is the one replaced. */
  lemma ReplaceSingle(a: string, b: string, pat: string, rep: string)
    requires |pat| > 0 && pat[0] !in a && pat[0] !in b
    ensures ReplaceAll(a + pat + b, pat, rep) == a + rep + b
  {
    assert a + pat + b == a + (pat + b);
    ReplaceAfterFreePrefix(a, pat + b, pat, rep);
    assert (pat + b)[..|pat|] == pat;
    assert (pat + b)[|pat|..] == b;
    ReplaceAbsent(b, pat, rep) by {
      if Contains(b, pat) {
        ContainsHead(b, pat);
      }
    }
    assert a + (rep + b) == a + rep + b;
  }

  /** An occurrence of `sub` in `s` starts with a character of `s`. */
  lemma ContainsHead(s: string, sub: string)
    requires |sub| > 0 && Contains(s, sub)
    ensures sub[0] in s
  {
    var i := Find(s, sub).value;
    assert s[i] == s[i..][0];
  }

  /** A character absent from `s` is absent from `s.strip()`. */
  lemma StripKeepsAbsent(s: string, c: char)
    requires c !in s
    ensures c !in Strip(s)
  {
    var r := Strip(s);
    StripTrims(s);
    var k :| TrimmedAt(s, r, k);
    assert forall i :: 0 <= i < |r| ==> r[i] == s[k + i];
  }

  /** The first occurrence of `sub` is at `|p|` when `q` starts with it and no character of `p` can begin it. */
  lemma {:induction false} FindAfterFreePrefix(p: string, q: string, sub: string)
    requires |sub| > 0 && sub[0] !in p && StartsWith(q, sub)
    ensures Find(p + q, sub) == Some(|p|)
    decreases |p|
  {
    var s := p + q;
    if |p| == 0 {
      assert s == q;
    } else {
      assert s[0] == p[0];
      assert !StartsWith(s, sub);
      assert s[1..] == p[1..] + q;
      FindAfterFreePrefix(p[1..], q, sub);
    }
  }

  /** Replacing left to right skips a prefix in which the pattern cannot begin. */
  lemma {:induction false} ReplaceAfterFreePrefix(p: string, q: string, pat: string, rep: string)
    requires |pat| > 0 && pat[0] !in p
    ensures ReplaceAll(p + q, pat, rep) == p + ReplaceAll(q, pat, rep)
    decreases |p|
  {
    if |p| == 0 {
      assert p + q == q;
    } else if |p + q| < |pat| {
      assert ReplaceAll(q, pat, rep) == q;
    } else {
      var t := ReplaceAll(q, pat, rep);
      ReplaceFreeHead(p + q, pat, rep);
      assert (p + q)[0] == p[0] && (p + q)[1..] == p[1..] + q;
      ReplaceAfterFreePrefix(p[1..], q, pat, rep);
      ConsAppend(p, t);
    }
  }

  /** Where the pattern cannot begin, the first character is kept and the scan moves on by one. */
  lemma ReplaceFreeHead(s: string, pat: string, rep: string)
    requires |pat| > 0 && |s| >= |pat| && s[0] != pat[0]
    ensures ReplaceAll(s, pat, rep) == [s[0]] + ReplaceAll(s[1..], pat, rep)
  {
    assert s[..|pat|][0] == s[0];
  }

  lemma ConsAppend(p: string, t: string)
    requires p != []
    ensures [p[0]] + (p[1..] + t) == p + t
  {
    assert [p[0]] + p[1..] == p;
  }

  /** Replacing left to right skips a prefix at none of whose positions an occurrence begins. */
  lemma {:induction false} ReplaceSkip(p: string, q: string, pat: string, rep: string)
    requires |pat| > 0
    requires forall k :: 0 <= k < |p| ==> !StartsWith((p + q)[k..], pat)
    ensures ReplaceAll(p + q, pat, rep) == p + ReplaceAll(q, pat, rep)
    decreases |p|
  {
    var s := p + q;
    if |p| == 0 {
      assert s == q;
    } else if |s| < |pat| {
      assert ReplaceAll(q, pat, rep) == q;
    } else {
      assert s[0..] == s;
      assert s[1..] == p[1..] + q;
      forall k | 0 <= k < |p| - 1
        ensures !StartsWith((p[1..] + q)[k..], pat)
      {
        assert (p[1..] + q)[k..] == s[k + 1..];
      }
      ReplaceSkip(p[1..], q, pat, rep);
      ConsAppend(p, ReplaceAll(q, pat, rep));
    }
  }

  /** An occurrence at the front is replaced and the scan goes on after it. */
  lemma ReplaceAtHead(pat: string, q: string, rep: string)
    requires |pat| > 0
    ensures ReplaceAll(pat + q, pat, rep) == rep + ReplaceAll(q, pat, rep)
  {
    assert (pat + q)[..|pat|] == pat;
    assert (pat + q)[|pat|..] == q;
  }

  /** Each character `c` replaced by `rep`, one character at a time. */
  function SubstituteChar(s: string, c: char, rep: string): string
    decreases |s|
  {
    if |s| == 0 then "" else (if s[0] == c then rep else [s[0]]) + SubstituteChar(s[1..], c, rep)
  }

  /** `s.replace(c, rep)` for a single character is a character-by-character substitution. */
  lemma {:induction false} ReplaceCharIsSubstitute(s: string, c: char, rep: string)
    ensures ReplaceAll(s, [c], rep) == SubstituteChar(s, c, rep)
    decreases |s|
  {
    if |s| >= 1 {
      ReplaceCharIsSubstitute(s[1..], c, rep);
      assert s[..1] == [s[0]];
    }
  }

  lemma {:induction false} SubstituteConcat(a: string, b: string, c: char, rep: string)
    ensures SubstituteChar(a + b, c, rep) == SubstituteChar(a, c, rep) + SubstituteChar(b, c, rep)
    decreases |a|
  {
    if |a| == 0 {
      assert a + b == b;
    } else {
      assert (a + b)[0] == a[0];
      assert (a + b)[1..] == a[1..] + b;
      SubstituteConcat(a[1..], b, c, rep);
    }
  }

  lemma {:induction false} SubstituteAbsent(s: string, c: char, rep: string)
    requires c !in s
    ensures SubstituteChar(s, c, rep) == s
    decreases |s|
  {
    if |s| > 0 {
      SubstituteAbsent(s[1..], c, rep);
      assert [s[0]] + s[1..] == s;
    }
  }

  // ---------------------------------------------------------------- numbers

  function DigitChar(d: nat): (c: char)
    requires d < 10
    ensures IsDigit(c)
  {
    ('0' as int + d) as char
  }

  function DigitValue(c: char): (d: nat)
    requires IsDigit(c)
    ensures d < 10 && DigitChar(d) == c
  {
    c as int - '0' as int
  }

  predicate AllDigits(s: string) {
    forall i :: 0 <= i < |s| ==> IsDigit(s[i])
  }

  /** `str(n)` for a natural number. */
  function NatToString(n: nat): (r: string)
    ensures |r| >= 1 && AllDigits(r)
    ensures r[0] != '0' || n == 0
    decreases n
  {
    if n < 10 then [DigitChar(n)] else NatToString(n / 10) + [DigitChar(n % 10)]
  }

  /** `str(i)`. */
  function IntToString(i: int): (r: string)
    ensures |r| >= 1
    ensures i >= 0 <==> IsDigit(r[0])
  {
    if i < 0 then "-" + NatToString(-i) else NatToString(i)
  }

  /** The value of a string of decimal digits, read most significant first. */
  function DigitsToNat(s: string): nat
    requires AllDigits(s)
    decreases |s|
  {
    if |s| == 0 then 0 else DigitsToNat(s[..|s| - 1]) * 10 + DigitValue(s[|s| - 1])
  }

  lemma {:induction false} NatToStringRoundTrip(n: nat)
    ensures DigitsToNat(NatToString(n)) == n
    decreases n
  {
    if n >= 10 {
      var s := NatToString(n);
      NatToStringRoundTrip(n / 10);
      assert s[..|s| - 1] == NatToString(n / 10);
    }
  }

  /** The characters `int()` accepts between an optional sign: ASCII digits, single `_` between digits. */
  predicate IsNumeral(s: string) {
    |s| > 0 && IsDigit(s[0]) && IsDigit(s[|s| - 1])
    && (forall i :: 0 <= i < |s| ==> IsDigit(s[i]) || s[i] == '_')
    && (forall i, j :: 0 <= i < |s| && 0 <= j < |s| && j == i + 1 ==> !(s[i] == '_' && s[j] == '_'))
  }

  /** The numeral's digits with the underscores dropped. */
  function NumeralDigits(s: string): (r: string)
    requires forall i :: 0 <= i < |s| ==> IsDigit(s[i]) || s[i] == '_'
    ensures AllDigits(r)
    decreases |s|
  {
    if |s| == 0 then "" else if s[0] == '_' then NumeralDigits(s[1..]) else [s[0]] + NumeralDigits(s[1..])
  }

  /** Python's `int(s)`: `None` where `int` raises `ValueError`. */
  function PyInt(s: string): (r: Option<int>)
    ensures r.Some? ==> |Strip(s)| > 0
  {
    var t := Strip(s);
    if |t| > 0 && (t[0] == '+' || t[0] == '-') then
      var body := t[1..];
      if IsNumeral(body) then
        var v: int := DigitsToNat(NumeralDigits(body));
        Some(if t[0] == '-' then -v else v)
      else None
    else if IsNumeral(t) then Some(DigitsToNat(NumeralDigits(t)))
    else None
  }

  /** A string starting with a character that is neither whitespace, a sign nor a digit is no integer. */
  lemma PyIntRejects(s: string)
    requires |s| > 0 && !IsSpace(s[0]) && !IsDigit(s[0]) && s[0] != '+' && s[0] != '-'
    ensures PyInt(s).None?
  {
    var l := LStrip(s);
    assert l == s;
    var t := RStrip(l);
    RStripDropsSpaces(l);
    assert |t| > 0;
    assert t[0] == s[0];
  }

  lemma PyIntOfDigits(s: string)
    requires |s| > 0 && AllDigits(s)
    ensures PyInt(s) == Some(DigitsToNat(s))
  {
    var t := Strip(s);
    assert Strip(s) == s by {
      assert IsStripped(s);
      StripStripped(s);
    }
    assert IsNumeral(s) && NumeralDigits(s) == s by {
      NumeralDigitsOfDigits(s);
    }
    assert s[0] != '+' && s[0] != '-';
    assert !(|t| > 0 && (t[0] == '+' || t[0] == '-'));
    assert IsNumeral(t);
    assert PyInt(s) == Some(DigitsToNat(NumeralDigits(t)));
  }

  lemma {:induction false} NumeralDigitsOfDigits(s: string)
    requires AllDigits(s)
    ensures NumeralDigits(s) == s
    decreases |s|
  {
    if |s| > 0 {
      NumeralDigitsOfDigits(s[1..]);
    }
  }

  lemma PyIntOfNatToString(n: nat)
    ensures PyInt(NatToString(n)) == Some(n)
  {
    PyIntOfDigits(NatToString(n));
    NatToStringRoundTrip(n);
  }

  // ---------------------------------------------------------------- slicing

  function Min(a: int, b: int): int {
    if a < b then a else b
  }

  function Max(a: int, b: int): int {
    if a < b then b else a
  }

  /** Python's `s[:k]`, where a negative `k` counts from the end. */
  function Prefix<T>(s: seq<T>, k: int): (r: seq<T>)
    ensures |r| <= |s| && r == s[..|r|]
    ensures k >= 0 ==> |r| == Min(k, |s|)
    ensures k < 0 ==> |r| == Max(0, |s| + k)
  {
    if k >= 0 then s[..Min(k, |s|)] else s[..Max(0, |s| + k)]
  }
}
