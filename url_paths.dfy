/**
 * The file name the generic resolver derives from a link:
 * `Path(unquote(urlparse(url).path)).name`, kept only if it ends in `.pdf`.
 */
module UrlPaths {
  import opened Wrappers
  import opened Text

  // ---------------------------------------------------------------- urlparse(url).path

  predicate IsSchemeChar(c: char) {
    IsAsciiLetter(c) || IsDigit(c) || c == '+' || c == '-' || c == '.'
  }

  /** The schemes whose last path segment may carry `;parameters`. */
  const UsesParams: set<string> := {"", "ftp", "hdl", "prospero", "http", "imap", "https", "shttp",
                                     "rtsp", "rtsps", "rtspu", "sip", "sips", "mms", "sftp", "tel"}

  /** Leading C0 controls and spaces, which `urlsplit` strips first. */
  function LStripControls(s: string): (r: string)
    ensures r == [] || r[0] > ' '
    decreases |s|
  {
    if |s| > 0 && s[0] <= ' ' then LStripControls(s[1..]) else s
  }

  /** Tabs and line breaks, which `urlsplit` deletes wherever they are. */
  function RemoveUnsafe(s: string): (r: string)
    ensures '\t' !in r && '\r' !in r && '\n' !in r
    decreases |s|
  {
    if |s| == 0 then ""
    else (if s[0] in "\t\r\n" then "" else [s[0]]) + RemoveUnsafe(s[1..])
  }

  /** Splits off a scheme: letters first, then scheme characters, then `:`. */
  function SplitScheme(url: string): (r: (string, string))
    ensures |r.1| <= |url|
  {
    match Find(url, ":")
    case Some(i) =>
      if i > 0 && IsAsciiLetter(url[0]) && (forall j :: 0 <= j < i ==> IsSchemeChar(url[j]))
      then (Lower(url[..i]), url[i + 1..])
      else ("", url)
    case None => ("", url)
  }

  /** The position of the first character of `s` in `cs`, or `|s|`. */
  function FirstOf(s: string, cs: set<char>): (i: nat)
    ensures i <= |s|
    ensures forall j :: 0 <= j < i ==> s[j] !in cs
    ensures i < |s| ==> s[i] in cs
    decreases |s|
  {
    if |s| == 0 || s[0] in cs then 0 else 1 + FirstOf(s[1..], cs)
  }

  /** The position of the last occurrence of `c`. */
  function LastIndex(s: string, c: char): (r: Option<nat>)
    ensures r.Some? ==> r.value < |s| && s[r.value] == c && c !in s[r.value + 1..]
    ensures r.None? ==> c !in s
    decreases |s|
  {
    if |s| == 0 then None
    else if s[|s| - 1] == c then Some(|s| - 1)
    else
      var r := LastIndex(s[..|s| - 1], c);
      assert s == s[..|s| - 1] + [s[|s| - 1]];
      r
  }

  /** `_splitparams`: cut at the first `;` of the last segment (or of the whole text when it has no `/`). */
  function DropParams(u: string): (r: string)
    ensures |r| <= |u| && r == u[..|r|]
  {
    match LastIndex(u, '/')
    case Some(k) =>
      var i := k + FirstOf(u[k..], {';'});
      if i == |u| then u else u[..i]
    case None =>
      var i := FirstOf(u, {';'});
      u[..i]
  }

  /** The text before the first character of `cs`. */
  function Before(s: string, cs: set<char>): (r: string)
    ensures |r| <= |s| && r == s[..|r|]
    ensures forall c :: c in cs ==> c !in r
  {
    s[..FirstOf(s, cs)]
  }

  /** The text after `//host`, when the rest of the link starts with `//`. */
  function AfterNetloc(rest: string): (r: string)
    ensures |r| <= |rest|
  {
    if StartsWith(rest, "//") then rest[2 + FirstOf(rest[2..], {'/', '?', '#'})..] else rest
  }

  /** The network location of what follows `scheme:`: after `//`, up to the first `/`, `?` or `#`; empty without `//`. */
  function NetlocOfRest(rest: string): (n: string)
    ensures '/' !in n && '?' !in n && '#' !in n
  {
    if StartsWith(rest, "//") then
      var k := FirstOf(rest[2..], {'/', '?', '#'});
      var n := rest[2..][..k];
      assert forall j :: 0 <= j < |n| ==> n[j] !in {'/', '?', '#'};
      n
    else ""
  }

  /** The network location of `urlparse(url)`. */
  function Netloc(url: string): (n: string)
    ensures '/' !in n && '?' !in n && '#' !in n
  {
    var u := RemoveUnsafe(LStripControls(url));
    var (scheme, rest) := SplitScheme(u);
    NetlocOfRest(rest)
  }

  /** `urlparse` raises `ValueError("Invalid IPv6 URL")`: the network location holds one square bracket without the other. */
  predicate InvalidIpv6(url: string) {
    ('[' in Netloc(url)) != (']' in Netloc(url))
  }

  /** The path component of `urlparse(url)`. */
  function UrlPath(url: string): (path: string)
    ensures '?' !in path && '#' !in path
  {
    var u := RemoveUnsafe(LStripControls(url));
    var (scheme, rest) := SplitScheme(u);
    PathOfRest(scheme, rest)
  }

  /** The path component of what follows `scheme:`. */
  function PathOfRest(scheme: string, rest: string): (path: string)
    ensures '?' !in path && '#' !in path
  {
    var noFragment := Before(AfterNetloc(rest), {'#'});
    var noQuery := Before(noFragment, {'?'});
    assert '#' !in noQuery by {
      assert forall i :: 0 <= i < |noQuery| ==> noQuery[i] == noFragment[i];
    }
    if scheme in UsesParams && ';' in noQuery then
      var path := DropParams(noQuery);
      assert forall i :: 0 <= i < |path| ==> path[i] == noQuery[i];
      path
    else noQuery
  }

  /** A link that starts with a letter keeps its front. */
  lemma LStripControlsKeeps(u: string)
    requires |u| > 0 && u[0] > ' '
    ensures LStripControls(u) == u
  {
  }

  lemma {:induction false} RemoveUnsafeKeeps(u: string)
    requires '\t' !in u && '\r' !in u && '\n' !in u
    ensures RemoveUnsafe(u) == u
    decreases |u|
  {
    if |u| > 0 {
      assert u[0] !in "\t\r\n";
      RemoveUnsafeKeeps(u[1..]);
      assert [u[0]] + u[1..] == u;
    }
  }

  /** Searching past a prefix that holds none of `cs`. */
  lemma {:induction false} FirstOfAfter(p: string, q: string, cs: set<char>)
    requires forall i :: 0 <= i < |p| ==> p[i] !in cs
    ensures FirstOf(p + q, cs) == |p| + FirstOf(q, cs)
    decreases |p|
  {
    if |p| > 0 {
      assert (p + q)[0] == p[0];
      assert (p + q)[1..] == p[1..] + q;
      FirstOfAfter(p[1..], q, cs);
    } else {
      assert p + q == q;
    }
  }

  predicate IsScheme(scheme: string) {
    |scheme| > 0 && IsAsciiLetter(scheme[0]) && forall j :: 0 <= j < |scheme| ==> IsSchemeChar(scheme[j])
  }

  /** `scheme:rest` splits at its first colon into the lower-cased scheme and the rest. */
  lemma SplitSchemeOf(scheme: string, rest: string)
    requires IsScheme(scheme)
    ensures SplitScheme(scheme + ":" + rest) == (Lower(scheme), rest)
  {
    var url := scheme + ":" + rest;
    assert url == scheme + (":" + rest);
    assert ':' !in scheme by {
      assert forall j :: 0 <= j < |scheme| ==> scheme[j] != ':';
    }
    assert (":" + rest)[..1] == ":";
    FindAfterFreePrefix(scheme, ":" + rest, ":");
    assert url[..|scheme|] == scheme;
    assert url[|scheme| + 1..] == rest;
  }

  /** After `//host`, the rest starts at the first `/`. */
  lemma AfterNetlocOf(host: string, rest: string)
    requires '/' !in host && '?' !in host && '#' !in host
    requires |rest| > 0 && rest[0] == '/'
    ensures AfterNetloc("//" + host + rest) == rest
  {
    var r := "//" + host + rest;
    assert r[..2] == "//";
    assert r[2..] == host + rest;
    assert forall i :: 0 <= i < |host| ==> host[i] !in {'/', '?', '#'};
    FirstOfAfter(host, rest, {'/', '?', '#'});
    assert r[2 + |host|..] == rest;
  }

  /** A query or a fragment after the path is cut off. */
  lemma CutQueryAndFragment(path: string, tail: string)
    requires '?' !in path && '#' !in path
    requires tail == [] || tail[0] == '?' || tail[0] == '#'
    ensures Before(Before(path + tail, {'#'}), {'?'}) == path
  {
    FirstOfAfter(path, tail, {'#'});
    var j := FirstOf(tail, {'#'});
    var noFragment := Before(path + tail, {'#'});
    assert noFragment == path + tail[..j];
    FirstOfAfter(path, tail[..j], {'?'});
    if j > 0 {
      assert tail[..j][0] == tail[0] == '?';
    }
    assert noFragment[..|path|] == path;
  }

  predicate NoBreaks(s: string) {
    '\t' !in s && '\r' !in s && '\n' !in s
  }

  /** The path after `//host`, with neither parameters nor breaks, up to the query or the fragment. */
  lemma PathOfRestOf(scheme: string, host: string, path: string, tail: string)
    requires '/' !in host && '?' !in host && '#' !in host
    requires |path| > 0 && path[0] == '/' && ';' !in path && '?' !in path && '#' !in path
    requires tail == [] || tail[0] == '?' || tail[0] == '#'
    ensures PathOfRest(scheme, "//" + host + path + tail) == path
  {
    assert "//" + host + path + tail == "//" + host + (path + tail);
    AfterNetlocOf(host, path + tail);
    CutQueryAndFragment(path, tail);
  }

  /**
   * The path `urlparse` finds in `scheme://host/path?query#fragment`: the
   * text from the first `/` after the host up to the query or the fragment.
   */
  lemma UrlPathOfLink(scheme: string, host: string, path: string, tail: string)
    requires IsScheme(scheme)
    requires '/' !in host && '?' !in host && '#' !in host
    requires |path| > 0 && path[0] == '/' && ';' !in path && '?' !in path && '#' !in path
    requires tail == [] || tail[0] == '?' || tail[0] == '#'
    requires NoBreaks(host) && NoBreaks(path) && NoBreaks(tail)
    ensures UrlPath(scheme + "://" + host + path + tail) == path
  {
    var rest := "//" + host + path + tail;
    var url := scheme + "://" + host + path + tail;
    assert url == scheme + ":" + rest;
    assert NoBreaks(scheme) by {
      assert forall j :: 0 <= j < |scheme| ==> IsSchemeChar(scheme[j]);
    }
    assert NoBreaks(url);
    assert url[0] == scheme[0];
    LStripControlsKeeps(url);
    RemoveUnsafeKeeps(url);
    SplitSchemeOf(scheme, rest);
    PathOfRestOf(Lower(scheme), host, path, tail);
  }

  /** After `//`, the network location ends where the path, the query or the fragment starts. */
  lemma NetlocOfRestOf(host: string, tail: string)
    requires '/' !in host && '?' !in host && '#' !in host
    requires tail == [] || tail[0] in {'/', '?', '#'}
    ensures NetlocOfRest("//" + host + tail) == host
  {
    var rest := "//" + host + tail;
    assert rest[..2] == "//";
    assert rest[2..] == host + tail;
    assert forall i :: 0 <= i < |host| ==> host[i] !in {'/', '?', '#'};
    FirstOfAfter(host, tail, {'/', '?', '#'});
    assert (host + tail)[..|host|] == host;
  }

  /** The network location `urlparse` finds in `scheme://host<tail>`, where the tail is empty or starts the path, the query or the fragment, is `host`. */
  lemma NetlocOfLink(scheme: string, host: string, tail: string)
    requires IsScheme(scheme)
    requires '/' !in host && '?' !in host && '#' !in host
    requires tail == [] || tail[0] in {'/', '?', '#'}
    requires NoBreaks(host) && NoBreaks(tail)
    ensures Netloc(scheme + "://" + host + tail) == host
  {
    var rest := "//" + host + tail;
    var url := scheme + "://" + host + tail;
    assert url == scheme + ":" + rest;
    assert NoBreaks(scheme) by {
      assert forall j :: 0 <= j < |scheme| ==> IsSchemeChar(scheme[j]);
    }
    assert NoBreaks(url);
    assert url[0] == scheme[0];
    LStripControlsKeeps(url);
    RemoveUnsafeKeeps(url);
    SplitSchemeOf(scheme, rest);
    NetlocOfRestOf(host, tail);
  }

  // ---------------------------------------------------------------- unquote

  predicate IsHexDigit(c: char) {
    '0' <= c <= '9' || 'a' <= c <= 'f' || 'A' <= c <= 'F'
  }

  function HexValue(c: char): (v: nat)
    requires IsHexDigit(c)
    ensures v < 16
  {
    if '0' <= c <= '9' then c as int - '0' as int
    else if 'a' <= c <= 'f' then c as int - 'a' as int + 10
    else c as int - 'A' as int + 10
  }

  /** `unquote` for escapes of ASCII characters; other text is kept as it is. */
  function Unquote(s: string): (r: string)
    ensures '%' !in s ==> r == s
    ensures |r| <= |s|
    decreases |s|
  {
    if |s| >= 3 && s[0] == '%' && IsHexDigit(s[1]) && IsHexDigit(s[2]) && HexValue(s[1]) * 16 + HexValue(s[2]) < 128 then
      [(HexValue(s[1]) * 16 + HexValue(s[2])) as char] + Unquote(s[3..])
    else if |s| == 0 then ""
    else
      assert s == [s[0]] + s[1..];
      [s[0]] + Unquote(s[1..])
  }

  /** An escape of an ASCII character decodes to that character. */
  lemma UnquoteEscape(h1: char, h2: char, t: string)
    requires IsHexDigit(h1) && IsHexDigit(h2) && HexValue(h1) * 16 + HexValue(h2) < 128
    ensures Unquote(['%', h1, h2] + t) == [(HexValue(h1) * 16 + HexValue(h2)) as char] + Unquote(t)
  {
    assert (['%', h1, h2] + t)[3..] == t;
  }

  /** Any other character than `%` is kept. */
  lemma UnquoteKeeps(c: char, t: string)
    requires c != '%'
    ensures Unquote([c] + t) == [c] + Unquote(t)
  {
    assert ([c] + t)[1..] == t;
  }

  /** A front without `%` is kept as it is. */
  lemma {:induction false} UnquoteAfterPlain(a: string, b: string)
    requires '%' !in a
    ensures Unquote(a + b) == a + Unquote(b)
    decreases |a|
  {
    if |a| > 0 {
      var c, a' := a[0], a[1..];
      assert a == [c] + a';
      assert c != '%' && '%' !in a';
      Text.ConsAppend(a, b);
      UnquoteKeeps(c, a' + b);
      UnquoteAfterPlain(a', b);
      Text.ConsAppend(a, Unquote(b));
    } else {
      assert a + b == b;
    }
  }

  /** The upper-case hexadecimal digit of a value below 16. */
  function HexDigit(v: nat): (c: char)
    requires v < 16
    ensures IsHexDigit(c) && HexValue(c) == v
  {
    if v < 10 then ('0' as int + v) as char else ('A' as int + v - 10) as char
  }

  /** The characters RFC 3986 section 2.3 calls unreserved. */
  predicate Unreserved(c: char) {
    IsAsciiLetter(c) || IsDigit(c) || c == '-' || c == '.' || c == '_' || c == '~'
  }

  /** What one character becomes under `PercentEncode`. */
  function EncodedChar(c: char): (r: string)
    ensures 1 <= |r| <= 3
  {
    if Unreserved(c) || c as int >= 128 then [c] else ['%', HexDigit(c as int / 16), HexDigit(c as int % 16)]
  }

  /**
   * Percent-encoding in the sense of RFC 3986 section 2.1, for ASCII: an
   * ASCII character that is not unreserved becomes `%XY`; other characters
   * are kept. It is the reference `Unquote` is an inverse of.
   */
  function PercentEncode(s: string): (r: string)
    ensures forall c :: c in r ==> c == '%' || Unreserved(c) || c as int >= 128
    decreases |s|
  {
    if |s| == 0 then "" else EncodedChar(s[0]) + PercentEncode(s[1..])
  }

  /** One encoded character decodes back to itself. */
  lemma UnquoteEncodedChar(c: char, t: string)
    ensures Unquote(EncodedChar(c) + t) == [c] + Unquote(t)
  {
    if Unreserved(c) || c as int >= 128 {
      UnquoteKeeps(c, t);
    } else {
      var v := c as int;
      var h1, h2 := HexDigit(v / 16), HexDigit(v % 16);
      UnquoteEscape(h1, h2, t);
      assert HexValue(h1) * 16 + HexValue(h2) == v;
    }
  }

  /** Decoding undoes the encoding, for every text. */
  lemma {:induction false} UnquotePercentEncode(s: string)
    ensures Unquote(PercentEncode(s)) == s
    decreases |s|
  {
    if |s| > 0 {
      UnquotePercentEncode(s[1..]);
      UnquoteEncodedChar(s[0], PercentEncode(s[1..]));
      assert [s[0]] + s[1..] == s;
    }
  }

  // ---------------------------------------------------------------- Path(...).name

  /** The last part of a split path that is a real component (not empty, not `.`). */
  function LastComponent(parts: seq<string>): (r: string)
    ensures r != "."
    ensures r == "" || r in parts
    decreases |parts|
  {
    if |parts| == 0 then ""
    else
      var last := parts[|parts| - 1];
      if last == "" || last == "." then LastComponent(parts[..|parts| - 1]) else last
  }

  /** `PurePosixPath(p).name`. */
  function PathName(p: string): (r: string)
    ensures '/' !in r && r != "."
  {
    var parts := Split(p, "/");
    SplitOnCharAvoidsIt(p, '/');
    LastComponent(parts)
  }

  lemma {:induction false} SplitOnCharAvoidsIt(s: string, c: char)
    ensures forall part :: part in Split(s, [c]) ==> c !in part
    decreases |s|
  {
    if |s| >= 1 && s[..1] != [c] {
      SplitOnCharAvoidsIt(s[1..], c);
      var rest := Split(s[1..], [c]);
      assert s[0] != c;
      assert forall i :: 1 <= i < |rest| ==> rest[1..][i - 1] == rest[i];
    } else if |s| >= 1 {
      SplitOnCharAvoidsIt(s[1..], c);
    }
  }

  lemma {:induction false} SplitAppendSegment(p: string, name: string)
    requires '/' !in name
    ensures Split(p + "/" + name, "/")[|Split(p + "/" + name, "/")| - 1] == name
    decreases |p|
  {
    var s := p + "/" + name;
    if |p| == 0 {
      assert s == "/" + name;
      assert s[..1] == "/";
      assert s[1..] == name;
      SplitWithoutSep(name);
    } else {
      assert s[1..] == p[1..] + "/" + name;
      SplitAppendSegment(p[1..], name);
      if s[..1] != "/" {
        var rest := Split(s[1..], "/");
        assert |rest| >= 2 by {
          SplitCountsSeparator(p[1..], name);
        }
      }
    }
  }

  lemma {:induction false} SplitWithoutSep(s: string)
    requires '/' !in s
    ensures Split(s, "/") == [s]
    decreases |s|
  {
    if |s| >= 1 {
      assert s[..1] != "/" by {
        assert s[0] != '/';
      }
      SplitWithoutSep(s[1..]);
      assert [s[0]] + s[1..] == s;
    }
  }

  lemma {:induction false} SplitCountsSeparator(p: string, name: string)
    ensures |Split(p + "/" + name, "/")| >= 2
    decreases |p|
  {
    var s := p + "/" + name;
    if |p| == 0 {
      assert s[..1] == "/";
    } else {
      assert s[1..] == p[1..] + "/" + name;
      SplitCountsSeparator(p[1..], name);
    }
  }

  /** The name of `dir/name` is `name` for a proper component. */
  lemma PathNameOfJoin(dir: string, name: string)
    requires name != "" && name != "." && '/' !in name
    ensures PathName(dir + "/" + name) == name
  {
    SplitAppendSegment(dir, name);
  }

  // ---------------------------------------------------------------- the generic resolver's file name

  /** The decoded last path component of a link. */
  function UrlFileName(url: string): (r: string)
    ensures '/' !in r
  {
    PathName(Unquote(UrlPath(url)))
  }

  /**
   * The file name of `https://host/dir/name`, with the name percent-encoded
   * in the link, is the name itself.
   */
  lemma UrlFileNameOfLink(host: string, dir: string, name: string)
    requires '/' !in host && '?' !in host && '#' !in host && NoBreaks(host)
    requires dir == [] || dir[0] == '/'
    requires ';' !in dir && '?' !in dir && '#' !in dir && '%' !in dir && NoBreaks(dir)
    requires name != "" && name != "." && '/' !in name
    ensures UrlFileName("https://" + host + dir + "/" + PercentEncode(name)) == name
  {
    var enc := PercentEncode(name);
    var path := dir + "/" + enc;
    EncodedIsPlain(name);
    assert path[0] == '/';
    assert ';' !in path && '?' !in path && '#' !in path && NoBreaks(path);
    HttpsLink(host, dir, enc);
    UrlPathOfLink("https", host, path, "");
    DecodedJoin(dir, name);
  }

  lemma HttpsLink(host: string, dir: string, enc: string)
    ensures IsScheme("https")
    ensures "https" + "://" + host + (dir + "/" + enc) + "" == "https://" + host + dir + "/" + enc
  {
    assert "https://" == "https" + "://";
  }

  /** An encoded text holds no parameter, query or fragment mark and no break. */
  lemma EncodedIsPlain(s: string)
    ensures var enc := PercentEncode(s); ';' !in enc && '?' !in enc && '#' !in enc && NoBreaks(enc)
  {
    var enc := PercentEncode(s);
    ReservedMark(';', enc);
    ReservedMark('?', enc);
    ReservedMark('#', enc);
    ReservedMark('\t', enc);
    ReservedMark('\r', enc);
    ReservedMark('\n', enc);
  }

  lemma ReservedMark(c: char, enc: string)
    requires c as int < 128 && c != '%' && !IsAsciiLetter(c) && !IsDigit(c) && c !in "-._~"
    requires forall x :: x in enc ==> x == '%' || Unreserved(x) || x as int >= 128
    ensures c !in enc
  {
  }

  /** `dir/` followed by an encoded name decodes to `dir/name`, whose last component is the name. */
  lemma DecodedJoin(dir: string, name: string)
    requires '%' !in dir && name != "" && name != "." && '/' !in name
    ensures PathName(Unquote(dir + "/" + PercentEncode(name))) == name
  {
    assert '%' !in dir + "/";
    assert dir + "/" + PercentEncode(name) == (dir + "/") + PercentEncode(name);
    UnquoteAfterPlain(dir + "/", PercentEncode(name));
    UnquotePercentEncode(name);
    PathNameOfJoin(dir, name);
  }

  /** The link's own file name when it is usable (non-empty and ending in `.pdf`, case-sensitively). */
  function LinkPdfName(url: string): (r: Option<string>)
    ensures r.Some? ==> '/' !in r.value && EndsWith(r.value, ".pdf") && r.value == UrlFileName(url)
    ensures r.None? ==> !EndsWith(UrlFileName(url), ".pdf")
  {
    var name := UrlFileName(url);
    if name != "" && EndsWith(name, ".pdf") then Some(name) else None
  }

  /** The generic resolver's file name, with `paper_<timestamp>.pdf` in place of an unusable one. */
  function GenericFileName(url: string, now: nat): (r: string)
    ensures '/' !in r && EndsWith(r, ".pdf")
    ensures LinkPdfName(url).None? ==> r == TimestampName(now)
  {
    match LinkPdfName(url)
    case Some(name) => name
    case None => TimestampName(now)
  }

  /** A link whose decoded last segment ends in `.pdf` names the file after that segment, whatever the clock says. */
  lemma GenericFileNameOfPdfLink(host: string, dir: string, name: string, now: nat)
    requires '/' !in host && '?' !in host && '#' !in host && NoBreaks(host)
    requires dir == [] || dir[0] == '/'
    requires ';' !in dir && '?' !in dir && '#' !in dir && '%' !in dir && NoBreaks(dir)
    requires name != "." && '/' !in name && EndsWith(name, ".pdf")
    ensures GenericFileName("https://" + host + dir + "/" + PercentEncode(name), now) == name
  {
    UrlFileNameOfLink(host, dir, name);
  }

  /** `paper_<timestamp>.pdf`. */
  function TimestampName(now: nat): (r: string)
    ensures '/' !in r && EndsWith(r, ".pdf")
  {
    var digits := NatToString(now);
    var r := "paper_" + digits + ".pdf";
    assert '/' !in digits by {
      assert forall i :: 0 <= i < |digits| ==> IsDigit(digits[i]);
    }
    assert r[|r| - 4..] == ".pdf";
    r
  }
}
