/**
 * What the resolver promises, stated over the functions of `DownloaderModel`
 * (and therefore, through the methods' postconditions, over `PaperDownloader`).
 */
module DownloaderProperties {
  import opened Wrappers
  import opened Text
  import opened LinkClassifier
  import opened UrlPatterns
  import opened ArxivDates
  import opened UrlPaths
  import opened DownloaderModel

  // ---------------------------------------------------------------- retries and backoff

  function Repeat<T>(x: T, n: nat): (r: seq<T>)
    ensures |r| == n
    decreases n
  {
    if n == 0 then [] else [x] + Repeat(x, n - 1)
  }

  /** The sleeps after failed attempts `a`, `a + 1`, ...: `2^a`, `2^(a+1)`, .... */
  function Backoff(a: nat, m: nat): (r: seq<nat>)
    ensures |r| == m
    decreases m
  {
    if m == 0 then [] else [Pow2(a)] + Backoff(a + 1, m - 1)
  }

  lemma RepeatAppend<T>(s: seq<T>, x: T, n: nat)
    ensures s + [x] + Repeat(x, n) == s + Repeat(x, n + 1)
  {
    assert Repeat(x, n + 1) == [x] + Repeat(x, n);
  }

  lemma BackoffAppend(s: seq<nat>, a: nat, m: nat)
    ensures s + [Pow2(a)] + Backoff(a + 1, m) == s + Backoff(a, m + 1)
  {
    assert Backoff(a, m + 1) == [Pow2(a)] + Backoff(a + 1, m);
  }

  /** A failure is the failure of the last attempt: every attempt was made, with every sleep but the last. */
  lemma {:induction false} FetchFromFailure(w: World, e: Env, url: string, path: string, a: nat, n: nat)
    requires FetchFrom(w, e, url, path, a, n).result.Err?
    ensures a < n
    ensures FetchFrom(w, e, url, path, a, n).env.requests == e.requests + Repeat(Get(url), n - a)
    ensures FetchFrom(w, e, url, path, a, n).env.slept == e.slept + Backoff(a, n - 1 - a)
    decreases n - a
  {
    var e' := FailedAttempt(w, e, url, path, a, n);
    if a < n - 1 {
      FetchFromFailure(w, e', url, path, a + 1, n);
      RepeatAppend(e.requests, Get(url), n - a - 1);
      BackoffAppend(e.slept, a, n - 1 - (a + 1));
    } else {
      assert Repeat(Get(url), 1) == [Get(url)];
      assert e.slept + Backoff(a, 0) == e.slept;
    }
  }

  /** A failed fetch made its attempt: logged, failed, and followed by the sleep and the next attempt unless it was the last. */
  lemma FailedAttempt(w: World, e: Env, url: string, path: string, a: nat, n: nat) returns (e': Env)
    requires FetchFrom(w, e, url, path, a, n).result.Err?
    ensures a < n
    ensures e'.requests == e.requests + [Get(url)] && e'.slept == e.slept + [Pow2(a)]
      && (a < n - 1 ==> FetchFrom(w, e, url, path, a, n) == FetchFrom(w, e', url, path, a + 1, n))
      && (a == n - 1 ==>
            (FetchFrom(w, e, url, path, a, n).env.requests == e.requests + [Get(url)]
             && FetchFrom(w, e, url, path, a, n).env.slept == e.slept))
  {
    var o := AttemptSpec(w.fetch(url, |e.requests|), Issue(e, Get(url)), path, w.opens(path));
    e' := o.env.(slept := o.env.slept + [Pow2(a)]);
  }

  /** A success after some attempts: the file is written, and there is one sleep fewer than attempts. */
  lemma {:induction false} FetchFromSuccess(w: World, e: Env, url: string, path: string, a: nat, n: nat)
    requires a < n && FetchFrom(w, e, url, path, a, n).result.Ok?
    ensures path in FetchFrom(w, e, url, path, a, n).env.files
    ensures |FetchFrom(w, e, url, path, a, n).env.requests| - |e.requests|
         == |FetchFrom(w, e, url, path, a, n).env.slept| - |e.slept| + 1 <= n - a
    decreases n - a
  {
    var o := AttemptSpec(w.fetch(url, |e.requests|), Issue(e, Get(url)), path, w.opens(path));
    if o.result.Err? {
      var e' := o.env.(slept := o.env.slept + [Pow2(a)]);
      FetchFromSuccess(w, e', url, path, a + 1, n);
    }
  }

  lemma {:induction false} FetchFromRefused(w: World, e: Env, url: string, path: string, a: nat, n: nat)
    requires a < n
    requires forall k :: k >= |e.requests| ==> w.fetch(url, k) == Refused
    ensures FetchFrom(w, e, url, path, a, n).result == Err(RequestFailed)
    ensures FetchFrom(w, e, url, path, a, n).env.files == e.files
    ensures FetchFrom(w, e, url, path, a, n).env.clockReads == e.clockReads
    decreases n - a
  {
    if a < n - 1 {
      var o := AttemptSpec(Refused, Issue(e, Get(url)), path, w.opens(path));
      var e' := o.env.(slept := o.env.slept + [Pow2(a)]);
      FetchFromRefused(w, e', url, path, a + 1, n);
    }
  }

  /** With a server that always refuses, `n >= 1` attempts are made, separated by sleeps of 1, 2, 4, ... s, and nothing is written. */
  lemma AllRefused(w: World, e: Env, url: string, path: string, n: nat)
    requires n >= 1
    requires forall k :: k >= |e.requests| ==> w.fetch(url, k) == Refused
    ensures Fetch(w, e, url, path, n)
         == Outcome(e.(requests := e.requests + Repeat(Get(url), n), slept := e.slept + Backoff(0, n - 1)), Err(RequestFailed))
  {
    FetchFromRefused(w, e, url, path, 0, n);
    FetchFromFailure(w, e, url, path, 0, n);
  }

  /** `MAX_RETRIES = 3`: three requests, and sleeps of 1 s then 2 s. */
  lemma ThreeAttempts(w: World, e: Env, url: string, path: string)
    requires forall k :: k >= |e.requests| ==> w.fetch(url, k) == Refused
    ensures Fetch(w, e, url, path, MaxRetries)
         == Outcome(e.(requests := e.requests + [Get(url), Get(url), Get(url)], slept := e.slept + [1, 2]), Err(RequestFailed))
  {
    AllRefused(w, e, url, path, MaxRetries);
    assert Repeat(Get(url), 3) == [Get(url), Get(url), Get(url)];
    assert Backoff(0, 2) == [1, 2];
  }

  /** No attempts at all is a success that writes nothing. */
  lemma ZeroRetries(w: World, e: Env, url: string, path: string)
    ensures Fetch(w, e, url, path, 0) == Outcome(e, Ok(()))
  {
  }

  /** The first accepted answer ends the loop: its body is the file, and nobody sleeps. */
  lemma FirstAnswerAccepted(w: World, e: Env, url: string, path: string, n: nat, chunks: seq<Bytes>)
    requires n >= 1 && w.fetch(url, |e.requests|) == Served("", chunks, false) && w.opens(path)
    ensures Fetch(w, e, url, path, n)
         == Outcome(e.(files := e.files[path := Concat(chunks)], requests := e.requests + [Get(url)]), Ok(()))
  {
  }

  /** The size limit is checked inside the retry loop: an oversized answer is retried like any failure, and its body is never written. */
  lemma OversizeIsRetried(w: World, e: Env, url: string, path: string, length: string, big: seq<Bytes>, dropped: bool, body: seq<Bytes>)
    requires PyInt(length).Some? && PyInt(length).value > SizeLimitBytes
    requires w.fetch(url, |e.requests|) == Served(length, big, dropped)
    requires w.fetch(url, |e.requests| + 1) == Served("", body, false)
    requires w.opens(path)
    ensures Fetch(w, e, url, path, MaxRetries)
         == Outcome(e.(files := e.files[path := Concat(body)], requests := e.requests + [Get(url), Get(url)], slept := e.slept + [1]), Ok(()))
  {
    assert length != "";
  }

  lemma {:induction false} FetchFromUnopened(w: World, e: Env, url: string, path: string, a: nat, n: nat)
    requires a < n && !w.opens(path)
    ensures FetchFrom(w, e, url, path, a, n).result.Err?
    ensures FetchFrom(w, e, url, path, a, n).env.files == e.files
    decreases n - a
  {
    var o := AttemptSpec(w.fetch(url, |e.requests|), Issue(e, Get(url)), path, w.opens(path));
    if a < n - 1 {
      var e' := o.env.(slept := o.env.slept + [Pow2(a)]);
      FetchFromUnopened(w, e', url, path, a + 1, n);
    }
  }

  /**
   * A path that cannot be opened (its directory does not exist) fails every
   * attempt inside the retry `try`, whatever the server answers: all `n`
   * requests are made with the usual sleeps, and nothing is written.
   */
  lemma UnopenablePathIsRetried(w: World, e: Env, url: string, path: string, n: nat)
    requires n >= 1 && !w.opens(path)
    ensures var f := Fetch(w, e, url, path, n);
      f.result.Err? && f.env.files == e.files
      && f.env.requests == e.requests + Repeat(Get(url), n) && f.env.slept == e.slept + Backoff(0, n - 1)
  {
    FetchFromUnopened(w, e, url, path, 0, n);
    FetchFromFailure(w, e, url, path, 0, n);
  }

  /** The limit is 50 MiB: 52428800 bytes are accepted, one more is refused. */
  lemma SizeLimitIsFiftyMib(length: string)
    requires PyInt(length).Some?
    ensures SizeCheck(length).Some? <==> PyInt(length).value > 52428800
  {
    assert length != "";
  }

  /** The first request of a fetch with at least one attempt is a `GET` of its link. */
  lemma FetchFirstRequest(w: World, e: Env, url: string, path: string, n: nat)
    requires n >= 1
    ensures |Fetch(w, e, url, path, n).env.requests| > |e.requests|
    ensures Fetch(w, e, url, path, n).env.requests[|e.requests|] == Get(url)
  {
    var o := AttemptSpec(w.fetch(url, |e.requests|), Issue(e, Get(url)), path, w.opens(path));
    if o.result.Err? && 0 < n - 1 {
      var e' := o.env.(slept := o.env.slept + [Pow2(0)]);
      GrowsKeeps(e', FetchFrom(w, e', url, path, 1, n).env, |e.requests|);
    }
  }

  // ---------------------------------------------------------------- download

  /** A link classified `pdf_direct` has no resolver of its own. */
  lemma PdfDirectIsGeneric(w: World, e: Env, url: string, dir: string)
    requires DetectLinkType(url) == PdfDirect
    ensures Resolve(w, e, url, dir) == GenericSpec(w, e, url, dir, None)
  {
  }

  /** A resolver's error is `download`'s error: the tools are tried only on an invalid file, never on an exception. */
  lemma ResolverErrorPropagates(w: World, e: Env, url: string, dir: string)
    requires Resolve(w, e, url, dir).result.Err?
    ensures DownloadSpec(w, e, url, Some(dir)) == Resolve(w, e, url, dir)
  {
  }

  /** A valid file from the resolver is returned as it is. */
  lemma ValidResolverResultKept(w: World, e: Env, url: string, dir: string, e': Env, path: string, metadata: Metadata)
    requires Resolve(w, e, url, dir) == Outcome(e', Ok(Fetched(path, metadata)))
    requires IsValidPdf(e'.files, path)
    ensures DownloadSpec(w, e, url, Some(dir)) == Outcome(e', Ok(Fetched(path, metadata)))
  {
  }

  /**
   * An invalid file sends the ORIGINAL link to `wget`, then `curl`; the tool's
   * file replaces the resolver's path but the resolver's metadata is kept.
   */
  lemma FallbackOnOriginalLink(w: World, e: Env, url: string, dir: string, e': Env, path: string, metadata: Metadata)
    requires Resolve(w, e, url, dir) == Outcome(e', Ok(Fetched(path, metadata)))
    requires !IsValidPdf(e'.files, path)
    ensures var o := DownloadSpec(w, e, url, Some(dir));
      && (o.result.Ok? ==> o.result.value == Fetched(JoinPath(dir, "paper_wget_" + NatToString(Now(w, e')) + ".pdf"), metadata))
      && (w.wgetInstalled ==> |o.env.requests| > |e'.requests| && o.env.requests[|e'.requests|] == Run("wget", url))
      && (!w.wgetInstalled && w.curlInstalled ==> |o.env.requests| > |e'.requests| && o.env.requests[|e'.requests|] == Run("curl", url))
      && (!w.wgetInstalled && !w.curlInstalled ==> o == Outcome(Tick(e'), Err(AllToolsFailed)))
  {
    DownloadOfInvalid(w, e, url, dir, e', path, metadata);
    ToolsOrder(w, e', url, dir);
  }

  /** With an invalid file the download's outcome is the tools' outcome, carrying the resolver's metadata. */
  lemma DownloadOfInvalid(w: World, e: Env, url: string, dir: string, e': Env, path: string, metadata: Metadata)
    requires Resolve(w, e, url, dir) == Outcome(e', Ok(Fetched(path, metadata)))
    requires !IsValidPdf(e'.files, path)
    ensures var o, t := DownloadSpec(w, e, url, Some(dir)), ToolsSpec(w, e', url, dir);
      && o.env == t.env
      && (o.result.Ok? <==> t.result.Ok?)
      && (o.result.Ok? ==> o.result.value == Fetched(t.result.value, metadata))
      && (o.result.Err? ==> o.result == Err(AllToolsFailed))
  {
  }

  /** `wget` runs first when installed, `curl` next, and the file is named after the clock. */
  lemma ToolsOrder(w: World, e': Env, url: string, dir: string)
    ensures var t := ToolsSpec(w, e', url, dir);
      && (t.result.Ok? ==> t.result.value == JoinPath(dir, "paper_wget_" + NatToString(Now(w, e')) + ".pdf"))
      && (w.wgetInstalled ==> |t.env.requests| > |e'.requests| && t.env.requests[|e'.requests|] == Run("wget", url))
      && (!w.wgetInstalled && w.curlInstalled ==> |t.env.requests| > |e'.requests| && t.env.requests[|e'.requests|] == Run("curl", url))
      && (!w.wgetInstalled && !w.curlInstalled ==> t == Outcome(Tick(e'), Err(AllToolsFailed)))
  {
    var e1 := Tick(e');
    var p := JoinPath(dir, "paper_wget_" + NatToString(Now(w, e')) + ".pdf");
    var a := ToolStep(w, w.wgetInstalled, "wget", e1, url, p);
    var b := ToolStep(w, w.curlInstalled, "curl", a.env, url, p);
    if w.wgetInstalled {
      if a.result.Err? {
        GrowsKeeps(a.env, b.env, |e'.requests|);
      }
    } else if w.curlInstalled {
      assert b.env.requests[|e'.requests|] == Run("curl", url);
    }
  }

  /** `wget` is tried first; a valid file from it ends the fallback without `curl`. */
  lemma WgetSuffices(w: World, e: Env, url: string, dir: string, bytes: Bytes)
    requires w.wgetInstalled
    requires w.wget(url, |e.requests|) == ToolRun(true, Some(bytes))
    requires |bytes| >= 4 && bytes[..4] == PdfHeader
    ensures var p := JoinPath(dir, "paper_wget_" + NatToString(Now(w, e)) + ".pdf");
      ToolsSpec(w, e, url, dir)
      == Outcome(Tick(e).(files := e.files[p := bytes], requests := e.requests + [Run("wget", url)]), Ok(p))
  {
  }

  /** A tool that exits with an error does not count, even when it left a valid file. */
  lemma FailedExitIgnored(w: World, e: Env, url: string, dir: string, bytes: Bytes)
    requires w.wgetInstalled && !w.curlInstalled
    requires w.wget(url, |e.requests|) == ToolRun(false, Some(bytes))
    ensures ToolsSpec(w, e, url, dir).result == Err(AllToolsFailed)
  {
  }

  // ---------------------------------------------------------------- generic resolver

  lemma EndsWithJoin(dir: string, name: string, suffix: string)
    requires EndsWith(name, suffix)
    ensures EndsWith(JoinPath(dir, name), suffix)
  {
    var s := JoinPath(dir, name);
    assert s[|s| - |suffix|..] == name[|name| - |suffix|..];
  }

  /** The generic resolver's file is named after the link (or the clock), always ends in `.pdf`, and the supplied metadata comes back unchanged. */
  lemma GenericNaming(w: World, e: Env, url: string, dir: string, metadata: Option<Metadata>)
    requires GenericSpec(w, e, url, dir, metadata).result.Ok?
    ensures GenericSpec(w, e, url, dir, metadata).result.value.path == JoinPath(dir, GenericFileName(url, Now(w, e)))
    ensures EndsWith(GenericSpec(w, e, url, dir, metadata).result.value.path, ".pdf")
    ensures metadata.Some? ==> GenericSpec(w, e, url, dir, metadata).result.value.metadata == metadata.value
    ensures GenericSpec(w, e, url, dir, metadata).env.requests[|e.requests|] == Get(url)
  {
    var e1 := if LinkPdfName(url).Some? then e else Tick(e);
    var name := GenericFileName(url, Now(w, e));
    EndsWithJoin(dir, name, ".pdf");
    FetchFirstRequest(w, e1, url, JoinPath(dir, name), MaxRetries);
  }

  /** The generic resolver saves `https://host/dir/<encoded name>.pdf` as `<name>.pdf` in the output directory. */
  lemma GenericNamesFileAfterLink(w: World, e: Env, host: string, path: string, name: string, dir: string, metadata: Option<Metadata>)
    requires '/' !in host && '?' !in host && '#' !in host && NoBreaks(host)
    requires path == [] || path[0] == '/'
    requires ';' !in path && '?' !in path && '#' !in path && '%' !in path && NoBreaks(path)
    requires name != "." && '/' !in name && EndsWith(name, ".pdf")
    requires GenericSpec(w, e, "https://" + host + path + "/" + PercentEncode(name), dir, metadata).result.Ok?
    ensures GenericSpec(w, e, "https://" + host + path + "/" + PercentEncode(name), dir, metadata).result.value.path == JoinPath(dir, name)
  {
    var url := "https://" + host + path + "/" + PercentEncode(name);
    GenericNaming(w, e, url, dir, metadata);
    GenericFileNameOfPdfLink(host, path, name, Now(w, e));
  }

  /** `urlparse` raises on a host with one square bracket (`http://[x/a.pdf`): the generic resolver fails before reading the clock or requesting anything. */
  lemma GenericRejectsHalfBracketedHost(w: World, e: Env, scheme: string, host: string, tail: string, dir: string, metadata: Option<Metadata>)
    requires IsScheme(scheme)
    requires '/' !in host && '?' !in host && '#' !in host && NoBreaks(host) && NoBreaks(tail)
    requires tail == [] || tail[0] in {'/', '?', '#'}
    requires ('[' in host) != (']' in host)
    ensures GenericSpec(w, e, scheme + "://" + host + tail, dir, metadata) == Outcome(e, Err(InvalidUrl))
  {
    NetlocOfLink(scheme, host, tail);
  }

  // ---------------------------------------------------------------- arXiv

  /** Whatever path it takes, the arXiv resolver records the link it was given as the source. */
  lemma ArxivSourceUrl(w: World, e: Env, url: string, dir: string)
    requires ArxivSpec(w, e, url, dir).result.Ok?
    ensures ArxivSpec(w, e, url, dir).result.value.metadata.sourceUrl == Some(url)
  {
  }

  /** A link in which none of the four patterns finds an identifier goes to the generic resolver, without metadata. */
  lemma ArxivWithoutId(w: World, e: Env, url: string, dir: string)
    requires ArxivId(url).None?
    ensures ArxivSpec(w, e, url, dir) == GenericSpec(w, e, url, dir, None)
  {
  }

  /** In particular a link holding neither `arxiv.org/abs/` nor `arxiv.org/pdf/` goes there. */
  lemma ArxivWithoutArxivPath(w: World, e: Env, url: string, dir: string)
    requires !Contains(url, "arxiv.org/abs/") && !Contains(url, "arxiv.org/pdf/")
    ensures ArxivSpec(w, e, url, dir) == GenericSpec(w, e, url, dir, None)
  {
    SearchNeedsLiteral(url, ArxivPatterns[0]);
    SearchNeedsLiteral(url, ArxivPatterns[1]);
    SearchNeedsLiteral(url, ArxivPatterns[2]);
    SearchNeedsLiteral(url, ArxivPatterns[3]);
    ArxivWithoutId(w, e, url, dir);
  }

  /** With an identifier: the metadata request first, then `https://arxiv.org/pdf/<id>.pdf` into `<id>.pdf`. */
  lemma ArxivDownloadShape(w: World, e: Env, url: string, dir: string, id: string)
    requires ArxivId(url) == Some(id) && ArxivSpec(w, e, url, dir).result.Ok?
    ensures var o := ArxivSpec(w, e, url, dir);
      && o.result.value.path == JoinPath(dir, id + ".pdf")
      && o.result.value.metadata.arxivId == Some(id)
      && o.result.value.metadata.sourceUrl == Some(url)
      && |o.env.requests| > |e.requests| + 1
      && o.env.requests[|e.requests|] == Get(ArxivApiUrl(id))
      && o.env.requests[|e.requests| + 1] == Get(ArxivPdfUrl(id))
  {
    var m := ArxivMetadataSpec(w, e, id);
    var path := JoinPath(dir, id + ".pdf");
    FetchFirstRequest(w, m.env, ArxivPdfUrl(id), path, MaxRetries);
    GrowsKeeps(m.env, Fetch(w, m.env, ArxivPdfUrl(id), path, MaxRetries).env, |e.requests|);
  }

  /** `.../abs/D1.D2` is fetched from `https://arxiv.org/pdf/D1.D2.pdf` into `D1.D2.pdf`. */
  lemma AbsLinkDownload(w: World, e: Env, url: string, p: string, d1: string, d2: string, dir: string)
    requires url == p + "arxiv.org/abs/" + d1 + "." + d2 && 'a' !in p
    requires |d1| > 0 && |d2| > 0 && AllDigits(d1) && AllDigits(d2)
    requires ArxivSpec(w, e, url, dir).result.Ok?
    ensures ArxivSpec(w, e, url, dir).result.value.path == JoinPath(dir, d1 + "." + d2 + ".pdf")
    ensures |ArxivSpec(w, e, url, dir).env.requests| > |e.requests| + 1
    ensures ArxivSpec(w, e, url, dir).env.requests[|e.requests| + 1] == Get(ArxivPdfUrl(d1 + "." + d2))
  {
    var id := d1 + "." + d2;
    assert ArxivId(url) == Some(id) by {
      ArxivIdOfAbsLink(p, d1, d2);
    }
    ArxivDownloadShape(w, e, url, dir, id);
  }

  /** When the API call fails, the record has empty fields and the date inferred from the identifier. */
  lemma FailureRecordFields(w: World, e: Env, id: string, date: string)
    requires w.arxivApi(ArxivApiUrl(id), |e.requests|) == ArxivRaised && InferDate(id) == Some(date)
    ensures ArxivMetadataSpec(w, e, id).result == Ok(Metadata(Some(""), Some([]), Some(""), Some(date), Some(""), None, None))
  {
  }

  /**
   * A new-style identifier whose third character is a dot (`12.345`) makes
   * date inference raise; when the feed gives no date, the whole download fails.
   */
  lemma BadMonthFailsDownload(w: World, e: Env, p: string, d1: string, d2: string, dir: string)
    requires 'a' !in p
    requires |d1| == 2 && |d2| > 0 && AllDigits(d1) && AllDigits(d2)
    requires var answer := w.arxivApi(ArxivApiUrl(d1 + "." + d2), |e.requests|);
      answer.ArxivRaised? || (answer.ArxivEntry? && answer.published == "")
    ensures ArxivSpec(w, e, p + "arxiv.org/abs/" + d1 + "." + d2, dir)
         == Outcome(Issue(e, Get(ArxivApiUrl(d1 + "." + d2))), Err(BadMonth(d1 + "." + d2)))
  {
    var id := d1 + "." + d2;
    ArxivIdOfAbsLink(p, d1, d2);
    assert IsDigit(id[0]) && IsDigit(id[1]) && id[2] == '.';
    InferDateRaisesOnDotInMonth(id);
  }

  // ---------------------------------------------------------------- DOI

  /** The DOI of `https://doi.org/<d>` is `<d>`. */
  lemma DoiOfDoiLink(d: string)
    requires !Contains(d, "doi.org/")
    ensures DoiOfLink("https://doi.org/" + d) == d
  {
    var p := "https://";
    var q := "doi.org/" + d;
    assert "https://doi.org/" + d == p + q;
    SchemeHasNoDoiHost(p, q);
    SplitAfterFreePrefix(p, q, "doi.org/");
    assert q[|"doi.org/"|..] == d;
    SplitWithoutSeparator(d, "doi.org/");
  }

  lemma SchemeHasNoDoiHost(p: string, q: string)
    requires p == "https://"
    ensures forall i :: 0 <= i < |p| ==> !StartsWith((p + q)[i..], "doi.org/")
  {
    forall i | 0 <= i < |p|
      ensures !StartsWith((p + q)[i..], "doi.org/")
    {
      assert (p + q)[i..][0] == p[i] != 'd';
    }
  }

  /** A bare DOI needs no `HEAD`: Unpaywall is asked about it, and the fallback goes to `https://doi.org/<doi>`. */
  lemma BareDoi(w: World, e: Env, doi: string, dir: string)
    requires !StartsWith(doi, "http")
    ensures DoiSpec(w, e, doi, dir) == DoiOpenAccess(w, e, doi, doi, "https://doi.org/" + doi, dir)
    ensures DoiSpec(w, e, doi, dir).env.requests[|e.requests|] == Get(UnpaywallUrl(doi))
  {
  }

  /** Without an open-access PDF from Unpaywall, the generic resolver runs on the final link, carrying `{doi, source_url}`. */
  lemma UnpaywallDeclined(w: World, e: Env, url: string, doi: string, finalUrl: string, dir: string)
    requires UnpaywallPdf(w.unpaywall(UnpaywallUrl(doi), |e.requests|)).None?
    ensures DoiOpenAccess(w, e, url, doi, finalUrl, dir)
         == GenericSpec(w, Issue(e, Get(UnpaywallUrl(doi))), finalUrl, dir, Some(NoMetadata.(doi := Some(doi), sourceUrl := Some(url))))
  {
  }

  /** An open-access PDF that cannot be fetched: the generic resolver runs on the resolved link, carrying `{doi, source_url}`. */
  lemma OpenAccessFetchFailed(w: World, e: Env, url: string, doi: string, finalUrl: string, dir: string, pdfUrl: string)
    requires UnpaywallPdf(w.unpaywall(UnpaywallUrl(doi), |e.requests|)) == Some(pdfUrl)
    requires Fetch(w, Issue(e, Get(UnpaywallUrl(doi))), pdfUrl, JoinPath(dir, DoiFileName(doi)), MaxRetries).result.Err?
    ensures var f := Fetch(w, Issue(e, Get(UnpaywallUrl(doi))), pdfUrl, JoinPath(dir, DoiFileName(doi)), MaxRetries);
      DoiOpenAccess(w, e, url, doi, finalUrl, dir)
      == GenericSpec(w, f.env, finalUrl, dir, Some(NoMetadata.(doi := Some(doi), sourceUrl := Some(url))))
  {
  }

  /** Every success of the DOI resolver carries the DOI and the link it was given; the open-access file is `doi_<doi with _>.pdf`. */
  lemma DoiMetadataKept(w: World, e: Env, url: string, doi: string, finalUrl: string, dir: string)
    requires DoiOpenAccess(w, e, url, doi, finalUrl, dir).result.Ok?
    ensures var f := DoiOpenAccess(w, e, url, doi, finalUrl, dir).result.value;
      && f.metadata.doi == Some(doi) && f.metadata.sourceUrl == Some(url)
      && (f.path == JoinPath(dir, DoiFileName(doi)) || f.metadata == NoMetadata.(doi := Some(doi), sourceUrl := Some(url)))
  {
  }

  // ---------------------------------------------------------------- OpenReview

  /** The OpenReview resolver, on every path, records the link it was given. */
  lemma OpenReviewSourceUrl(w: World, e: Env, url: string, dir: string)
    requires OpenReviewSpec(w, e, url, dir).result.Ok?
    ensures OpenReviewSpec(w, e, url, dir).result.value.metadata.sourceUrl == Some(url)
  {
  }

  /** A failed PDF download restarts on the original link with the generic resolver; the notes API is not asked. */
  lemma OpenReviewFallback(w: World, e: Env, url: string, dir: string, id: string)
    requires ForumId(url) == Some(id)
    requires Fetch(w, e, OpenReviewPdfUrl(id), JoinPath(dir, "openreview_" + id + ".pdf"), MaxRetries).result.Err?
    ensures OpenReviewSpec(w, e, url, dir)
         == GenericSpec(w, Fetch(w, e, OpenReviewPdfUrl(id), JoinPath(dir, "openreview_" + id + ".pdf"), MaxRetries).env, url, dir, None)
  {
  }

  /**
   * An identifier with a `/` (`id=ab/cd`) names a file in a sub-directory of
   * the output directory; when that cannot be opened, the three attempts fail
   * with sleeps of 1 s and 2 s, and the generic resolver restarts on the link.
   */
  lemma OpenReviewUnopenablePath(w: World, e: Env, url: string, dir: string, id: string)
    requires ForumId(url) == Some(id)
    requires !w.opens(JoinPath(dir, "openreview_" + id + ".pdf"))
    ensures OpenReviewSpec(w, e, url, dir)
         == GenericSpec(w, e.(requests := e.requests + Repeat(Get(OpenReviewPdfUrl(id)), 3), slept := e.slept + [1, 2]), url, dir, None)
  {
    var path := JoinPath(dir, "openreview_" + id + ".pdf");
    UnopenablePathIsRetried(w, e, OpenReviewPdfUrl(id), path, MaxRetries);
    assert Backoff(0, 2) == [1, 2];
    var f := Fetch(w, e, OpenReviewPdfUrl(id), path, MaxRetries);
    assert f.env == e.(requests := e.requests + Repeat(Get(OpenReviewPdfUrl(id)), 3), slept := e.slept + [1, 2]);
  }

  // ---------------------------------------------------------------- Semantic Scholar

  /** A link without `/paper/` goes to the generic resolver. */
  lemma SemanticScholarWithoutPaper(w: World, e: Env, url: string, dir: string)
    requires !Contains(url, "/paper/")
    ensures SemanticScholarSpec(w, e, url, dir) == GenericSpec(w, e, url, dir, None)
  {
    NoPaperSegmentNoId(url);
  }

  /** Once an identifier is found, every failure is reported as a Semantic Scholar failure. */
  lemma SemanticScholarErrorsWrapped(w: World, e: Env, url: string, dir: string)
    requires PaperId(url).Some? && SemanticScholarSpec(w, e, url, dir).result.Err?
    ensures SemanticScholarSpec(w, e, url, dir).result.error.SemanticScholarFailed?
  {
  }

  /**
   * No open-access PDF but an arXiv identifier: the arXiv resolver's result
   * replaces everything gathered from Semantic Scholar (its source is the
   * arXiv link); its failure becomes the guidance error.
   */
  lemma SemanticScholarDelegatesToArxiv(w: World, e: Env, url: string, dir: string, id: string, paper: SsPaper)
    requires PaperId(url) == Some(id)
    requires w.ssPaper(SsApiUrl(id), |e.requests|) == SsReply(200, paper)
    requires paper.oaPdfUrl == "" && paper.arxivId != ""
    ensures var a := ArxivSpec(w, Issue(e, Get(SsApiUrl(id))), ArxivAbsUrl(paper.arxivId), dir);
      && (a.result.Ok? ==> SemanticScholarSpec(w, e, url, dir) == a
                           && a.result.value.metadata.sourceUrl == Some(ArxivAbsUrl(paper.arxivId)))
      && (a.result.Err? ==> SemanticScholarSpec(w, e, url, dir) == Outcome(a.env, Err(SemanticScholarFailed(NoOpenAccess))))
  {
    var a := ArxivSpec(w, Issue(e, Get(SsApiUrl(id))), ArxivAbsUrl(paper.arxivId), dir);
    if a.result.Ok? {
      ArxivSourceUrl(w, Issue(e, Get(SsApiUrl(id))), ArxivAbsUrl(paper.arxivId), dir);
    }
  }

  /** An error status gives neither a PDF link nor an arXiv identifier: the guidance error, after one request. */
  lemma SemanticScholarErrorStatus(w: World, e: Env, url: string, dir: string, id: string, status: int, paper: SsPaper)
    requires PaperId(url) == Some(id)
    requires w.ssPaper(SsApiUrl(id), |e.requests|) == SsReply(status, paper) && status != 200
    ensures SemanticScholarSpec(w, e, url, dir) == Outcome(Issue(e, Get(SsApiUrl(id))), Err(SemanticScholarFailed(NoOpenAccess)))
    ensures EndsWith(Message(NoOpenAccess), Suggestions)
  {
  }

  /**
   * An open-access PDF link in a 200 answer is fetched into `semanticscholar_<id>.pdf`,
   * with the answer's title and authors; a failed fetch is the Semantic Scholar error.
   */
  lemma SemanticScholarOpenAccess(w: World, e: Env, url: string, dir: string, id: string, paper: SsPaper)
    requires PaperId(url) == Some(id)
    requires w.ssPaper(SsApiUrl(id), |e.requests|) == SsReply(200, paper) && paper.oaPdfUrl != ""
    ensures var path := JoinPath(dir, "semanticscholar_" + id + ".pdf");
      var f := Fetch(w, Issue(e, Get(SsApiUrl(id))), paper.oaPdfUrl, path, MaxRetries);
      var o := SemanticScholarSpec(w, e, url, dir);
      && o.env == f.env
      && (o.result.Ok? <==> f.result.Ok?)
      && (o.result.Ok? ==>
            (&& o.result.value.path == path
             && o.result.value.metadata.title == Some(paper.title)
             && o.result.value.metadata.authors == Some(paper.authors)
             && o.result.value.metadata.sourceUrl == Some(url)))
      && (o.result.Err? ==> o.result.error == SemanticScholarFailed(f.result.error))
  {
  }

  /** A 200 answer with neither an open-access PDF nor an arXiv identifier: the guidance error, after one request. */
  lemma SemanticScholarNothingToFetch(w: World, e: Env, url: string, dir: string, id: string, paper: SsPaper)
    requires PaperId(url) == Some(id)
    requires w.ssPaper(SsApiUrl(id), |e.requests|) == SsReply(200, paper) && paper.oaPdfUrl == "" && paper.arxivId == ""
    ensures SemanticScholarSpec(w, e, url, dir) == Outcome(Issue(e, Get(SsApiUrl(id))), Err(SemanticScholarFailed(NoOpenAccess)))
  {
  }

  // ---------------------------------------------------------------- Google Scholar

  /** Once the page is fetched, every failure is reported as a Google Scholar failure. */
  lemma ScholarErrorsWrapped(w: World, e: Env, url: string, dir: string)
    requires GoogleScholarSpec(w, e, url, dir).result.Err?
    ensures GoogleScholarSpec(w, e, url, dir).result.error.ScholarFailed?
  {
  }

  /** Without a title nothing else is tried. */
  lemma ScholarNeedsTitle(w: World, e: Env, url: string, dir: string)
    requires w.scholar(url, |e.requests|).Page? && ScholarTitle(url, w.scholar(url, |e.requests|)) == ""
    ensures GoogleScholarSpec(w, e, url, dir) == Outcome(Issue(e, Get(url)), Err(ScholarFailed(ScholarNoPdf)))
  {
  }

  /** An arXiv link on the page wins over everything else, and the arXiv resolver's metadata replaces the page's title. */
  lemma ScholarPrefersArxiv(w: World, e: Env, url: string, dir: string, id: string)
    requires w.scholar(url, |e.requests|).Page?
    requires ScholarTitle(url, w.scholar(url, |e.requests|)) != ""
    requires UrlPatterns.Search(w.scholar(url, |e.requests|).text, ArxivAbsPattern) == Some(id)
    ensures GoogleScholarSpec(w, e, url, dir) == WrapScholar(ArxivSpec(w, Issue(e, Get(url)), ArxivAbsUrl(id), dir))
    ensures GoogleScholarSpec(w, e, url, dir).result.Ok? ==>
      GoogleScholarSpec(w, e, url, dir).result.value.metadata.sourceUrl == Some(ArxivAbsUrl(id))
  {
    if ArxivSpec(w, Issue(e, Get(url)), ArxivAbsUrl(id), dir).result.Ok? {
      ArxivSourceUrl(w, Issue(e, Get(url)), ArxivAbsUrl(id), dir);
    }
  }

  /** Next comes a DOI on the page: resolved through `https://doi.org/`, and Unpaywall is asked about that DOI. */
  lemma ScholarThenDoi(w: World, e: Env, url: string, dir: string, doi: string)
    requires w.scholar(url, |e.requests|).Page?
    requires ScholarTitle(url, w.scholar(url, |e.requests|)) != ""
    requires UrlPatterns.Search(w.scholar(url, |e.requests|).text, ArxivAbsPattern).None?
    requires w.scholar(url, |e.requests|).doiMatch == Some(doi)
    ensures GoogleScholarSpec(w, e, url, dir) == WrapScholar(DoiSpec(w, Issue(e, Get(url)), "https://doi.org/" + doi, dir))
  {
    var page := w.scholar(url, |e.requests|);
    var title := ScholarTitle(url, page);
    ScholarOfPage(w, e, url, dir);
    StrategiesDoi(w, Issue(e, Get(url)), page, title, SourceOnly(url).(title := Some(title)), dir, doi);
  }

  /** After the page request, the DOI link's `HEAD` is sent, and then Unpaywall is asked about the page's DOI. */
  lemma ScholarDoiRequests(w: World, e: Env, url: string, dir: string, doi: string)
    requires w.scholar(url, |e.requests|).Page?
    requires ScholarTitle(url, w.scholar(url, |e.requests|)) != ""
    requires UrlPatterns.Search(w.scholar(url, |e.requests|).text, ArxivAbsPattern).None?
    requires w.scholar(url, |e.requests|).doiMatch == Some(doi) && !Contains(doi, "doi.org/")
    ensures var o := GoogleScholarSpec(w, e, url, dir);
      && |o.env.requests| > |e.requests| + 1
      && o.env.requests[|e.requests| + 1] == Head("https://doi.org/" + doi)
      && (w.head("https://doi.org/" + doi, |e.requests| + 1).Some? ==>
            |o.env.requests| > |e.requests| + 2 && o.env.requests[|e.requests| + 2] == Get(UnpaywallUrl(doi)))
  {
    var e1 := Issue(e, Get(url));
    ScholarThenDoi(w, e, url, dir, doi);
    DoiLinkRequests(w, e1, doi, dir);
    var rs := DoiSpec(w, e1, "https://doi.org/" + doi, dir).env.requests;
    assert GoogleScholarSpec(w, e, url, dir).env.requests == rs;
    assert |e1.requests| == |e.requests| + 1;
  }

  /** A fetched page with a title goes on to the sub-strategies, after the page request. */
  lemma ScholarOfPage(w: World, e: Env, url: string, dir: string)
    requires w.scholar(url, |e.requests|).Page?
    requires ScholarTitle(url, w.scholar(url, |e.requests|)) != ""
    ensures var title := ScholarTitle(url, w.scholar(url, |e.requests|));
      GoogleScholarSpec(w, e, url, dir)
      == WrapScholar(ScholarStrategies(w, Issue(e, Get(url)), w.scholar(url, |e.requests|), title,
                                       SourceOnly(url).(title := Some(title)), dir))
  {
  }

  /** Without an arXiv link on the page, a DOI on it is resolved through `https://doi.org/`. */
  lemma StrategiesDoi(w: World, e: Env, page: ScholarAnswer, title: string, metadata: Metadata, dir: string, doi: string)
    requires page.Page? && UrlPatterns.Search(page.text, ArxivAbsPattern).None? && page.doiMatch == Some(doi)
    ensures ScholarStrategies(w, e, page, title, metadata, dir) == DoiSpec(w, e, "https://doi.org/" + doi, dir)
  {
  }

  /** Resolving `https://doi.org/<doi>` issues the `HEAD` first and then asks Unpaywall about `<doi>`. */
  lemma DoiLinkRequests(w: World, e: Env, doi: string, dir: string)
    requires !Contains(doi, "doi.org/")
    ensures var o := DoiSpec(w, e, "https://doi.org/" + doi, dir);
      && |o.env.requests| > |e.requests|
      && o.env.requests[|e.requests|] == Head("https://doi.org/" + doi)
      && (w.head("https://doi.org/" + doi, |e.requests|).Some? ==>
            |o.env.requests| > |e.requests| + 1 && o.env.requests[|e.requests| + 1] == Get(UnpaywallUrl(doi)))
  {
    var link := "https://doi.org/" + doi;
    assert StartsWith(link, "http") by {
      assert link[..4] == "http";
    }
    DoiOfDoiLink(doi);
    DoiLinkSpec(w, e, link, dir);
  }

  /** A link is resolved with `HEAD` first, and then Unpaywall is asked about the link's DOI. */
  lemma DoiLinkSpec(w: World, e: Env, url: string, dir: string)
    requires StartsWith(url, "http")
    ensures var o := DoiSpec(w, e, url, dir);
      && |o.env.requests| > |e.requests|
      && o.env.requests[|e.requests|] == Head(url)
      && (w.head(url, |e.requests|).Some? ==>
            |o.env.requests| > |e.requests| + 1 && o.env.requests[|e.requests| + 1] == Get(UnpaywallUrl(DoiOfLink(url))))
  {
    var e1 := Issue(e, Head(url));
    match w.head(url, |e.requests|)
    case None =>
    case Some(finalUrl) =>
      GrowsKeeps(e1, DoiOpenAccess(w, e1, url, DoiOfLink(url), finalUrl, dir).env, |e.requests|);
  }

  /** A file from the page's own links is returned only after it passed validation. */
  lemma {:induction false} ScholarLinksValid(w: World, e: Env, hrefs: seq<Option<string>>, title: string, metadata: Metadata, dir: string)
    requires ScholarLinks(w, e, hrefs, title, metadata, dir).result.Ok?
    ensures IsValidPdf(ScholarLinks(w, e, hrefs, title, metadata, dir).env.files,
                       ScholarLinks(w, e, hrefs, title, metadata, dir).result.value.path)
    ensures ScholarLinks(w, e, hrefs, title, metadata, dir).result.value.metadata == metadata
    decreases |hrefs|
  {
    if |hrefs| > 0 {
      match hrefs[0]
      case None =>
        ScholarLinksValid(w, e, hrefs[1..], title, metadata, dir);
      case Some(href) =>
        var path := JoinPath(dir, "googlescholar_" + NatToString(Now(w, e)) + ".pdf");
        var f := Fetch(w, Tick(e), AbsoluteLink(href), path, MaxRetries);
        if !(f.result.Ok? && IsValidPdf(f.env.files, path)) {
          ScholarLinksValid(w, f.env, hrefs[1..], title, metadata, dir);
        }
    }
  }

  /** The page's first PDF link is fetched first, made absolute when it starts with `/`. */
  lemma ScholarFirstLink(w: World, e: Env, href: string, next: Option<string>, title: string, metadata: Metadata, dir: string)
    ensures var o := ScholarLinks(w, e, [Some(href), next], title, metadata, dir);
      && |o.env.requests| > |e.requests|
      && o.env.requests[|e.requests|] == Get(AbsoluteLink(href))
      && (StartsWith(href, "/") ==> StartsWith(AbsoluteLink(href), ScholarHost))
  {
    var hrefs := [Some(href), next];
    var path := JoinPath(dir, "googlescholar_" + NatToString(Now(w, e)) + ".pdf");
    var f := Fetch(w, Tick(e), AbsoluteLink(href), path, MaxRetries);
    FetchFirstRequest(w, Tick(e), AbsoluteLink(href), path, MaxRetries);
    if !(f.result.Ok? && IsValidPdf(f.env.files, path)) {
      GrowsKeeps(f.env, ScholarLinks(w, f.env, hrefs[1..], title, metadata, dir).env, |e.requests|);
    }
  }

  /** With no PDF link on the page the title search runs at once, on the same state. */
  lemma {:induction false} ScholarLinksWithoutHrefs(w: World, e: Env, hrefs: seq<Option<string>>, title: string, metadata: Metadata, dir: string)
    requires forall i :: 0 <= i < |hrefs| ==> hrefs[i].None?
    ensures ScholarLinks(w, e, hrefs, title, metadata, dir) == ScholarSearch(w, e, title, metadata, dir)
    decreases |hrefs|
  {
    if |hrefs| > 0 {
      ScholarLinksWithoutHrefs(w, e, hrefs[1..], title, metadata, dir);
    }
  }

  /**
   * One PDF link of the page: a valid download ends the search with that file and
   * nothing further is tried; otherwise the remaining links come next.
   */
  lemma ScholarLinkStep(w: World, e: Env, href: string, rest: seq<Option<string>>, title: string, metadata: Metadata, dir: string)
    ensures var path := JoinPath(dir, "googlescholar_" + NatToString(Now(w, e)) + ".pdf");
      var f := Fetch(w, Tick(e), AbsoluteLink(href), path, MaxRetries);
      var o := ScholarLinks(w, e, [Some(href)] + rest, title, metadata, dir);
      && (f.result.Ok? && IsValidPdf(f.env.files, path) ==> o == Outcome(f.env, Ok(Fetched(path, metadata))))
      && (!(f.result.Ok? && IsValidPdf(f.env.files, path)) ==> o == ScholarLinks(w, f.env, rest, title, metadata, dir))
  {
    assert ([Some(href)] + rest)[1..] == rest;
  }

  /** Without an arXiv link, a DOI or a PDF link on the page, the title search is what is left. */
  lemma ScholarSearchLast(w: World, e: Env, url: string, dir: string)
    requires w.scholar(url, |e.requests|).Page?
    requires ScholarTitle(url, w.scholar(url, |e.requests|)) != ""
    requires UrlPatterns.Search(w.scholar(url, |e.requests|).text, ArxivAbsPattern).None?
    requires w.scholar(url, |e.requests|).doiMatch.None?
    requires w.scholar(url, |e.requests|).pdfHref.None? && w.scholar(url, |e.requests|).cacheHref.None?
    ensures var title := ScholarTitle(url, w.scholar(url, |e.requests|));
      GoogleScholarSpec(w, e, url, dir)
      == WrapScholar(ScholarSearch(w, Issue(e, Get(url)), title, SourceOnly(url).(title := Some(title)), dir))
  {
    var page := w.scholar(url, |e.requests|);
    var title := ScholarTitle(url, page);
    ScholarOfPage(w, e, url, dir);
    ScholarLinksWithoutHrefs(w, Issue(e, Get(url)), [page.pdfHref, page.cacheHref], title, SourceOnly(url).(title := Some(title)), dir);
  }
}
