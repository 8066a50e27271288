/**
 * The paper-acquisition resolver of `PaperDownloader` as functions of an
 * environment: files (path to bytes), the log of requests, the log of
 * sleeps and the number of clock readings so far.
 *
 * Everything outside the program is an oracle of `World`: the answer to a
 * request is a function of what was asked and of the request's position in
 * the log, so retries may see different answers; `time.time()` is a function
 * of the number of earlier readings.
 */
module DownloaderModel {
  import opened Wrappers
  import opened Text
  import opened LinkClassifier
  import opened UrlPatterns
  import opened ArxivDates
  import opened UrlPaths

  type Bytes = seq<bv8>

  const MaxRetries: nat := 3
  const MaxPaperSizeMb: nat := 50
  /** Bytes above which a declared `content-length` is refused: `int(cl) / (1024 * 1024) > MAX_PAPER_SIZE_MB`. */
  const SizeLimitBytes: nat := MaxPaperSizeMb * 1024 * 1024
  const TempDir: string := "/tmp/paper_interpreter"
  /** `%PDF`, the file header of section 7.5.2 of ISO 32000-1. */
  const PdfHeader: Bytes := [0x25, 0x50, 0x44, 0x46]

  // ---------------------------------------------------------------- the outside world

  /** What one `GET` of a file yields. */
  datatype Attempt =
    | Refused                                                        // connection error or HTTP error status
    | Served(contentLength: string, chunks: seq<Bytes>, dropped: bool) // header ("" when absent), body, whether the stream broke

  /** The arXiv Atom feed, as far as `_fetch_arxiv_metadata` reads it. */
  datatype ArxivAnswer =
    | ArxivRaised                          // request, HTTP status or XML parsing failed
    | ArxivNoEntry
    | ArxivEntry(title: string, authors: seq<string>, summary: string,
                 published: string, publishedParsed: Option<(int, int)>, doi: string)

  datatype UnpaywallAnswer =
    | UnpaywallRaised
    | UnpaywallReply(status: int, isOa: bool, hasBestLocation: bool, urlForPdf: string,
                     title: string, authors: seq<string>)

  datatype NoteContent = NoteContent(title: string, authors: seq<string>, abstractText: string)

  datatype NotesAnswer = NotesRaised | NotesReply(status: int, notes: seq<NoteContent>)

  /** The Semantic Scholar Graph API record; `oaPdfUrl` and `arxivId` are "" when absent. */
  datatype SsPaper = SsPaper(title: string, authors: seq<string>, abstractText: string, year: string,
                             oaPdfUrl: string, arxivId: string)

  datatype SsAnswer = SsRaised | SsReply(status: int, paper: SsPaper)

  /** A Google Scholar page and the matches of the regular expressions run on it. */
  datatype ScholarAnswer =
    | PageRaised
    | Page(text: string, h3Title: Option<string>, titleTag: Option<string>,
           doiMatch: Option<string>, pdfHref: Option<string>, cacheHref: Option<string>)

  datatype SearchPaper = SearchPaper(hasOpenAccessPdf: bool, pdfUrl: string, paperId: string)

  datatype SearchAnswer = SearchRaised | SearchReply(status: int, papers: seq<SearchPaper>)

  /** A run of `wget` or `curl`: whether it exited with status 0, and what it left at the output path. */
  datatype ToolRun = ToolRun(exitOk: bool, written: Option<Bytes>)

  datatype World = World(
    fetch: (string, nat) -> Attempt,
    head: (string, nat) -> Option<string>,      // final URL after redirects; None when the request raises
    arxivApi: (string, nat) -> ArxivAnswer,
    unpaywall: (string, nat) -> UnpaywallAnswer,
    notes: (string, nat) -> NotesAnswer,
    ssPaper: (string, nat) -> SsAnswer,
    scholar: (string, nat) -> ScholarAnswer,
    ssSearch: (string, nat) -> SearchAnswer,
    clock: nat -> nat,
    opens: string -> bool,                      // whether `open(path, "wb")` succeeds: its directory exists and may be written
    wgetInstalled: bool,
    curlInstalled: bool,
    wget: (string, nat) -> ToolRun,
    curl: (string, nat) -> ToolRun)

  datatype Request = Get(url: string) | Search(url: string, query: string) | Head(url: string) | Run(tool: string, url: string)

  datatype Env = Env(files: map<string, Bytes>, requests: seq<Request>, slept: seq<nat>, clockReads: nat)

  /** The environment only grows: requests and sleeps are appended, the clock is read forward. */
  predicate Grows(e: Env, e': Env) {
    |e.requests| <= |e'.requests| && e'.requests[..|e.requests|] == e.requests
    && |e.slept| <= |e'.slept| && e'.slept[..|e.slept|] == e.slept
    && e.clockReads <= e'.clockReads
  }

  lemma GrowsTrans(e1: Env, e2: Env, e3: Env)
    requires Grows(e1, e2) && Grows(e2, e3)
    ensures Grows(e1, e3)
  {
    assert e3.requests[..|e1.requests|] == e3.requests[..|e2.requests|][..|e1.requests|];
    assert e3.slept[..|e1.slept|] == e3.slept[..|e2.slept|][..|e1.slept|];
  }

  /** A request already in the log stays where it is. */
  lemma GrowsKeeps(e: Env, e': Env, i: nat)
    requires Grows(e, e') && i < |e.requests|
    ensures i < |e'.requests| && e'.requests[i] == e.requests[i]
  {
    assert e'.requests[..|e.requests|][i] == e'.requests[i];
  }

  function Issue(e: Env, r: Request): (e': Env)
    ensures Grows(e, e') && e'.requests == e.requests + [r]
    ensures e'.files == e.files && e'.slept == e.slept && e'.clockReads == e.clockReads
  {
    e.(requests := e.requests + [r])
  }

  function Now(w: World, e: Env): nat {
    w.clock(e.clockReads)
  }

  function Tick(e: Env): (e': Env)
    ensures Grows(e, e')
  {
    e.(clockReads := e.clockReads + 1)
  }

  // ---------------------------------------------------------------- results

  datatype Error =
    | RequestFailed                  // an exception of the HTTP library, or an error status
    | BadContentLength(header: string)
    | FileTooLarge(bytes: int)
    | StreamInterrupted
    | OpenFailed(path: string)       // `open(path, "wb")` raised, e.g. `FileNotFoundError` for a missing directory
    | InvalidUrl                     // `urlparse` raised `ValueError("Invalid IPv6 URL")`
    | BadMonth(arxivId: string)      // `int()` on characters 2-3 of an arXiv identifier
    | NoOpenAccess                   // the Semantic Scholar guidance error
    | ScholarNoPdf                   // the Google Scholar guidance error
    | SemanticScholarFailed(cause: Error)
    | ScholarFailed(cause: Error)
    | ToolFailed
    | AllToolsFailed

  const Suggestions: string :=
    "建议:\n" + "1. 如果论文在 arXiv 上，请使用 arXiv 链接\n" + "2. 如果论文有 DOI，请使用 DOI 链接\n" + "3. 或者直接粘贴 PDF 的直链"

  /** The message of each error the program raises itself. */
  function Message(e: Error): (m: string)
    ensures e.NoOpenAccess? || e.ScholarNoPdf? ==> EndsWith(m, Suggestions)
  {
    match e
    case NoOpenAccess => "该论文在 Semantic Scholar 上没有开放获取 PDF。\n" + Suggestions
    case ScholarNoPdf => "Google Scholar 链接无法直接下载 PDF。\n" + Suggestions
    case SemanticScholarFailed(c) => "无法从 Semantic Scholar 下载论文: " + Message(c)
    case ScholarFailed(c) => "无法从 Google Scholar 链接下载论文: " + Message(c)
    case AllToolsFailed => "所有下载方案均失败"
    case _ => ""
  }

  /** The metadata dictionary; a key that is absent is `None`. */
  datatype Metadata = Metadata(
    title: Option<string>, authors: Option<seq<string>>, abstractText: Option<string>,
    publicationDate: Option<string>, doi: Option<string>, arxivId: Option<string>, sourceUrl: Option<string>)

  const NoMetadata: Metadata := Metadata(None, None, None, None, None, None, None)

  function SourceOnly(url: string): Metadata {
    NoMetadata.(sourceUrl := Some(url))
  }

  datatype Fetched = Fetched(path: string, metadata: Metadata)

  datatype Outcome<T> = Outcome(env: Env, result: Result<T, Error>)

  function JoinPath(dir: string, name: string): string {
    dir + "/" + name
  }

  // ---------------------------------------------------------------- _download_file

  function Concat(chunks: seq<Bytes>): Bytes
    decreases |chunks|
  {
    if |chunks| == 0 then [] else Concat(chunks[..|chunks| - 1]) + chunks[|chunks| - 1]
  }

  function Pow2(k: nat): (r: nat)
    ensures r >= 1
  {
    if k == 0 then 1 else 2 * Pow2(k - 1)
  }

  /** Whether a declared length is refused: a header that is present and not an integer raises, one above the limit too. */
  function SizeCheck(contentLength: string): Option<Error> {
    if contentLength == "" then None
    else
      match PyInt(contentLength)
      case None => Some(BadContentLength(contentLength))
      case Some(n) => if n > SizeLimitBytes then Some(FileTooLarge(n)) else None
  }

  /**
   * One attempt, after its request was logged: the size check, then the
   * output file opened (`opens`: whether that succeeds) and the body written
   * over `path`.
   */
  function AttemptSpec(a: Attempt, e: Env, path: string, opens: bool): (o: Outcome<()>)
    ensures o.env.requests == e.requests && o.env.slept == e.slept && o.env.clockReads == e.clockReads
    ensures o.result.Ok? ==> a.Served? && opens && o.env.files == e.files[path := Concat(a.chunks)]
    ensures !opens ==> o.env.files == e.files
  {
    match a
    case Refused => Outcome(e, Err(RequestFailed))
    case Served(cl, chunks, dropped) =>
      match SizeCheck(cl)
      case Some(err) => Outcome(e, Err(err))
      case None =>
        if !opens then Outcome(e, Err(OpenFailed(path)))
        else
          var e' := e.(files := e.files[path := Concat(chunks)]);
          Outcome(e', if dropped then Err(StreamInterrupted) else Ok(()))
  }

  /** Attempts `attempt` to `n - 1`: stop at the first success; after a failure sleep `2^attempt` s unless it was the last. */
  function FetchFrom(w: World, e: Env, url: string, path: string, attempt: nat, n: nat): (o: Outcome<()>)
    ensures Grows(e, o.env) && o.env.clockReads == e.clockReads
    ensures forall q :: q != path && q in e.files ==> q in o.env.files && o.env.files[q] == e.files[q]
    ensures forall q :: q in o.env.files ==> q in e.files || q == path
    decreases n - attempt
  {
    if attempt >= n then Outcome(e, Ok(()))
    else
      var o := AttemptSpec(w.fetch(url, |e.requests|), Issue(e, Get(url)), path, w.opens(path));
      if o.result.Ok? then o
      else if attempt < n - 1 then
        var e' := o.env.(slept := o.env.slept + [Pow2(attempt)]);
        var r := FetchFrom(w, e', url, path, attempt + 1, n);
        GrowsTrans(e, e', r.env);
        r
      else o
  }

  /** `_download_file(url, path, n)`. */
  function Fetch(w: World, e: Env, url: string, path: string, n: nat): (o: Outcome<()>)
    ensures Grows(e, o.env) && o.env.clockReads == e.clockReads
    ensures forall q :: q != path && q in e.files ==> q in o.env.files && o.env.files[q] == e.files[q]
  {
    FetchFrom(w, e, url, path, 0, n)
  }

  // ---------------------------------------------------------------- _validate_pdf

  /** A file that exists, is not empty and starts with `%PDF`; the check itself never fails. */
  predicate IsValidPdf(files: map<string, Bytes>, path: string) {
    path in files && |files[path]| > 0 && |files[path]| >= 4 && files[path][..4] == PdfHeader
  }

  // ---------------------------------------------------------------- _download_generic

  function GenericSpec(w: World, e: Env, url: string, dir: string, metadata: Option<Metadata>): (o: Outcome<Fetched>)
    ensures Grows(e, o.env)
    ensures o.result.Ok? ==> o.result.value.metadata == metadata.GetOr(SourceOnly(url))
  {
    if InvalidIpv6(url) then Outcome(e, Err(InvalidUrl))
    else
      var m := metadata.GetOr(SourceOnly(url));
      var name := match LinkPdfName(url) case Some(n) => n case None => TimestampName(Now(w, e));
      var e1 := if LinkPdfName(url).Some? then e else Tick(e);
      var path := JoinPath(dir, name);
      var f := Fetch(w, e1, url, path, MaxRetries);
      GrowsTrans(e, e1, f.env);
      if f.result.Err? then Outcome(f.env, Err(f.result.error)) else Outcome(f.env, Ok(Fetched(path, m)))
  }

  // ---------------------------------------------------------------- arXiv

  function ArxivApiUrl(id: string): string {
    "http://export.arxiv.org/api/query?id_list=" + id
  }

  function ArxivPdfUrl(id: string): string {
    "https://arxiv.org/pdf/" + id + ".pdf"
  }

  /** The record of the `except` branch: empty fields and the inferred date, unless inference raises too. */
  function FailureRecord(id: string): (r: Result<Metadata, Error>)
    ensures r.Ok? <==> InferDate(id).Some?
  {
    match InferDate(id)
    case None => Err(BadMonth(id))
    case Some(date) => Ok(Metadata(Some(""), Some([]), Some(""), Some(date), Some(""), None, None))
  }

  /** `_fetch_arxiv_metadata(id)`. */
  function ArxivMetadataSpec(w: World, e: Env, id: string): (o: Outcome<Metadata>)
    ensures Grows(e, o.env) && o.env.requests == e.requests + [Get(ArxivApiUrl(id))]
    ensures o.env.files == e.files
  {
    var e1 := Issue(e, Get(ArxivApiUrl(id)));
    match w.arxivApi(ArxivApiUrl(id), |e.requests|)
    case ArxivRaised => Outcome(e1, FailureRecord(id))
    case ArxivNoEntry => Outcome(e1, Ok(NoMetadata))
    case ArxivEntry(title, authors, summary, published, parsed, doi) =>
      match PublicationLabel(published, parsed, id)
      case None => Outcome(e1, FailureRecord(id))
      case Some(date) => Outcome(e1, Ok(Metadata(Some(title), Some(authors), Some(summary), Some(date), Some(doi), None, None)))
  }

  /** `_download_arxiv(url)`. */
  function ArxivSpec(w: World, e: Env, url: string, dir: string): (o: Outcome<Fetched>)
    ensures Grows(e, o.env)
  {
    match ArxivId(url)
    case None => GenericSpec(w, e, url, dir, None)
    case Some(id) =>
      var m := ArxivMetadataSpec(w, e, id);
      if m.result.Err? then Outcome(m.env, Err(m.result.error))
      else
        var metadata := m.result.value.(arxivId := Some(id), sourceUrl := Some(url));
        var path := JoinPath(dir, id + ".pdf");
        var f := Fetch(w, m.env, ArxivPdfUrl(id), path, MaxRetries);
        GrowsTrans(e, m.env, f.env);
        if f.result.Err? then Outcome(f.env, Err(f.result.error)) else Outcome(f.env, Ok(Fetched(path, metadata)))
  }

  // ---------------------------------------------------------------- DOI

  function UnpaywallUrl(doi: string): string {
    "https://api.unpaywall.org/v2/" + doi + "?email=user@example.com"
  }

  /** The PDF link of an Unpaywall answer: only when the status is 200 and `is_oa`, `best_oa_location` and `url_for_pdf` are all truthy. */
  function UnpaywallPdf(a: UnpaywallAnswer): (r: Option<string>)
    ensures r.Some? <==> a.UnpaywallReply? && a.status == 200 && a.isOa && a.hasBestLocation && a.urlForPdf != ""
  {
    match a
    case UnpaywallRaised => None
    case UnpaywallReply(status, isOa, hasBestLocation, urlForPdf, _, _) =>
      if status == 200 && isOa && hasBestLocation && urlForPdf != "" then Some(urlForPdf) else None
  }

  /** The DOI written into a file name: every `/` becomes `_`. */
  function DoiFileName(doi: string): (r: string)
    ensures '/' !in r
  {
    ReplaceCharRemoves(doi, '/', "_");
    "doi_" + ReplaceAll(doi, "/", "_") + ".pdf"
  }

  /** The open-access attempt of `_download_doi`, then the generic fallback on `finalUrl` carrying `{doi, source_url}`. */
  function DoiOpenAccess(w: World, e: Env, url: string, doi: string, finalUrl: string, dir: string): (o: Outcome<Fetched>)
    ensures Grows(e, o.env)
    ensures |o.env.requests| > |e.requests| && o.env.requests[|e.requests|] == Get(UnpaywallUrl(doi))
  {
    var metadata := NoMetadata.(doi := Some(doi), sourceUrl := Some(url));
    var api := UnpaywallUrl(doi);
    var e1 := Issue(e, Get(api));
    var answer := w.unpaywall(api, |e.requests|);
    match UnpaywallPdf(answer)
    case None =>
      var g := GenericSpec(w, e1, finalUrl, dir, Some(metadata));
      GrowsKeeps(e1, g.env, |e.requests|);
      g
    case Some(pdfUrl) =>
      var path := JoinPath(dir, DoiFileName(doi));
      var f := Fetch(w, e1, pdfUrl, path, MaxRetries);
      GrowsTrans(e, e1, f.env);
      GrowsKeeps(e1, f.env, |e.requests|);
      if f.result.Ok? then
        Outcome(f.env, Ok(Fetched(path, metadata.(title := Some(answer.title), authors := Some(answer.authors)))))
      else
        var g := GenericSpec(w, f.env, finalUrl, dir, Some(metadata));
        GrowsTrans(e, f.env, g.env);
        GrowsKeeps(f.env, g.env, |e.requests|);
        g
  }

  /** The DOI of a link: the text after the last `doi.org/` (all of it when there is none). */
  function DoiOfLink(url: string): string {
    var parts := Split(url, "doi.org/");
    parts[|parts| - 1]
  }

  /** `_download_doi(url)`: a link is resolved with `HEAD` first, a bare DOI goes to `https://doi.org/<doi>`. */
  function DoiSpec(w: World, e: Env, url: string, dir: string): (o: Outcome<Fetched>)
    ensures Grows(e, o.env)
  {
    if StartsWith(url, "http") then
      var e1 := Issue(e, Head(url));
      match w.head(url, |e.requests|)
      case None => Outcome(e1, Err(RequestFailed))
      case Some(finalUrl) =>
        var o := DoiOpenAccess(w, e1, url, DoiOfLink(url), finalUrl, dir);
        GrowsTrans(e, e1, o.env);
        o
    else DoiOpenAccess(w, e, url, url, "https://doi.org/" + url, dir)
  }

  // ---------------------------------------------------------------- OpenReview

  function OpenReviewPdfUrl(id: string): string {
    "https://openreview.net/pdf?id=" + id
  }

  function NotesUrl(id: string): string {
    "https://api.openreview.net/notes?id=" + id
  }

  /** `_download_openreview(url)`: any failure, even of the notes request after the download, restarts generically on `url`. */
  function OpenReviewSpec(w: World, e: Env, url: string, dir: string): (o: Outcome<Fetched>)
    ensures Grows(e, o.env)
  {
    match ForumId(url)
    case None => GenericSpec(w, e, url, dir, None)
    case Some(id) =>
      var path := JoinPath(dir, "openreview_" + id + ".pdf");
      var f := Fetch(w, e, OpenReviewPdfUrl(id), path, MaxRetries);
      if f.result.Err? then
        var g := GenericSpec(w, f.env, url, dir, None);
        GrowsTrans(e, f.env, g.env);
        g
      else
        var e2 := Issue(f.env, Get(NotesUrl(id)));
        GrowsTrans(e, f.env, e2);
        match w.notes(NotesUrl(id), |f.env.requests|)
        case NotesRaised =>
          var g := GenericSpec(w, e2, url, dir, None);
          GrowsTrans(e, e2, g.env);
          g
        case NotesReply(status, notes) =>
          var metadata :=
            if status == 200 && |notes| > 0
            then SourceOnly(url).(title := Some(notes[0].title), authors := Some(notes[0].authors), abstractText := Some(notes[0].abstractText))
            else SourceOnly(url);
          Outcome(e2, Ok(Fetched(path, metadata)))
  }

  // ---------------------------------------------------------------- Semantic Scholar

  function SsApiUrl(id: string): string {
    "https://api.semanticscholar.org/graph/v1/paper/" + id + "?fields=title,authors,abstract,year,openAccessPdf,externalIds"
  }

  function ArxivAbsUrl(id: string): string {
    "https://arxiv.org/abs/" + id
  }

  /** Every failure inside the outer `try` of `_download_semanticscholar` comes out wrapped. */
  function WrapSemanticScholar(o: Outcome<Fetched>): (r: Outcome<Fetched>)
    ensures r.env == o.env
    ensures r.result.Err? ==> r.result.error.SemanticScholarFailed?
  {
    if o.result.Err? then Outcome(o.env, Err(SemanticScholarFailed(o.result.error))) else o
  }

  /** After the Graph API answered: the open-access PDF, else the arXiv identifier, else the guidance error. */
  function SsAfterApi(w: World, e: Env, url: string, dir: string, path: string, answer: SsAnswer): (o: Outcome<Fetched>)
    ensures Grows(e, o.env)
  {
    match answer
    case SsRaised => Outcome(e, Err(RequestFailed))
    case SsReply(status, paper) =>
      var metadata :=
        if status == 200
        then SourceOnly(url).(title := Some(paper.title), authors := Some(paper.authors),
                              abstractText := Some(paper.abstractText), publicationDate := Some(paper.year))
        else SourceOnly(url);
      var pdfUrl := if status == 200 then paper.oaPdfUrl else "";
      if pdfUrl != "" then
        var f := Fetch(w, e, pdfUrl, path, MaxRetries);
        if f.result.Err? then Outcome(f.env, Err(f.result.error)) else Outcome(f.env, Ok(Fetched(path, metadata)))
      else if status == 200 && paper.arxivId != "" then
        var a := ArxivSpec(w, e, ArxivAbsUrl(paper.arxivId), dir);
        if a.result.Ok? then a else Outcome(a.env, Err(NoOpenAccess))
      else Outcome(e, Err(NoOpenAccess))
  }

  /** `_download_semanticscholar(url)`. */
  function SemanticScholarSpec(w: World, e: Env, url: string, dir: string): (o: Outcome<Fetched>)
    ensures Grows(e, o.env)
  {
    match PaperId(url)
    case None => GenericSpec(w, e, url, dir, None)
    case Some(id) =>
      var path := JoinPath(dir, "semanticscholar_" + id + ".pdf");
      var e1 := Issue(e, Get(SsApiUrl(id)));
      var o := SsAfterApi(w, e1, url, dir, path, w.ssPaper(SsApiUrl(id), |e.requests|));
      GrowsTrans(e, e1, o.env);
      WrapSemanticScholar(o)
  }

  // ---------------------------------------------------------------- Google Scholar

  const ScholarHost: string := "https://scholar.google.com"
  const SsSearchUrl: string := "https://api.semanticscholar.org/graph/v1/paper/search"

  /** The title: from the `gs_rt` heading on cluster and citation pages, else from `<title>`; "" when neither gives one. */
  function ScholarTitle(url: string, page: ScholarAnswer): (t: string)
    requires page.Page?
    ensures t == "" || IsStripped(t)
  {
    var fromHeading :=
      if Contains(url, "cluster=") || Contains(url, "cites=") then
        match page.h3Title case Some(h) => Strip(h) case None => ""
      else "";
    if fromHeading != "" then fromHeading
    else match page.titleTag case Some(t) => Strip(t) case None => ""
  }

  /** An absolute link for an `href`: a leading `/` is resolved against Google Scholar. */
  function AbsoluteLink(href: string): (r: string)
    ensures StartsWith(href, "/") ==> StartsWith(r, ScholarHost)
    ensures !StartsWith(href, "/") ==> r == href
  {
    if StartsWith(href, "/") then ScholarHost + href else href
  }

  /** The PDF links of the page in order; a download that fails or is not a valid PDF moves on to the next. */
  function ScholarLinks(w: World, e: Env, hrefs: seq<Option<string>>, title: string, metadata: Metadata, dir: string): (o: Outcome<Fetched>)
    ensures Grows(e, o.env)
    decreases |hrefs|
  {
    if |hrefs| == 0 then ScholarSearch(w, e, title, metadata, dir)
    else
      match hrefs[0]
      case None => ScholarLinks(w, e, hrefs[1..], title, metadata, dir)
      case Some(href) =>
        var path := JoinPath(dir, "googlescholar_" + NatToString(Now(w, e)) + ".pdf");
        var f := Fetch(w, Tick(e), AbsoluteLink(href), path, MaxRetries);
        GrowsTrans(e, Tick(e), f.env);
        if f.result.Ok? && IsValidPdf(f.env.files, path) then Outcome(f.env, Ok(Fetched(path, metadata)))
        else
          var r := ScholarLinks(w, f.env, hrefs[1..], title, metadata, dir);
          GrowsTrans(e, f.env, r.env);
          r
  }

  /** The hit of a title search: the first paper, when it has an open-access PDF link and an identifier. */
  function SearchHit(a: SearchAnswer): Option<SearchPaper> {
    match a
    case SearchRaised => None
    case SearchReply(status, papers) =>
      if status == 200 && |papers| > 0 && papers[0].hasOpenAccessPdf && papers[0].pdfUrl != "" && papers[0].paperId != ""
      then Some(papers[0]) else None
  }

  /** The last resort: a Semantic Scholar title search, then the guidance error. */
  function ScholarSearch(w: World, e: Env, title: string, metadata: Metadata, dir: string): (o: Outcome<Fetched>)
    ensures Grows(e, o.env)
  {
    var e1 := Issue(e, Search(SsSearchUrl, title));
    match SearchHit(w.ssSearch(title, |e.requests|))
    case None => Outcome(e1, Err(ScholarNoPdf))
    case Some(hit) =>
      var path := JoinPath(dir, "semanticscholar_" + hit.paperId + ".pdf");
      var f := Fetch(w, e1, hit.pdfUrl, path, MaxRetries);
      GrowsTrans(e, e1, f.env);
      if f.result.Ok? && IsValidPdf(f.env.files, path) then Outcome(f.env, Ok(Fetched(path, metadata)))
      else Outcome(f.env, Err(ScholarNoPdf))
  }

  const ArxivAbsPattern: Pattern := Pattern("arxiv.org/abs/", DottedNumber)

  /** Every failure inside the outer `try` of `_download_googlescholar` comes out wrapped. */
  function WrapScholar(o: Outcome<Fetched>): (r: Outcome<Fetched>)
    ensures r.env == o.env
    ensures r.result.Err? ==> r.result.error.ScholarFailed?
  {
    if o.result.Err? then Outcome(o.env, Err(ScholarFailed(o.result.error))) else o
  }

  /** The sub-strategies once a title is known: arXiv link, DOI, PDF links, title search. */
  function ScholarStrategies(w: World, e: Env, page: ScholarAnswer, title: string, metadata: Metadata, dir: string): (o: Outcome<Fetched>)
    requires page.Page?
    ensures Grows(e, o.env)
  {
    match UrlPatterns.Search(page.text, ArxivAbsPattern)
    case Some(id) => ArxivSpec(w, e, ArxivAbsUrl(id), dir)
    case None =>
      match page.doiMatch
      case Some(doi) => DoiSpec(w, e, "https://doi.org/" + doi, dir)
      case None => ScholarLinks(w, e, [page.pdfHref, page.cacheHref], title, metadata, dir)
  }

  /** `_download_googlescholar(url)`. */
  function GoogleScholarSpec(w: World, e: Env, url: string, dir: string): (o: Outcome<Fetched>)
    ensures Grows(e, o.env)
  {
    var e1 := Issue(e, Get(url));
    var page := w.scholar(url, |e.requests|);
    if page.PageRaised? then Outcome(e1, Err(ScholarFailed(RequestFailed)))
    else
      var title := ScholarTitle(url, page);
      if title == "" then Outcome(e1, Err(ScholarFailed(ScholarNoPdf)))
      else
        var o := ScholarStrategies(w, e1, page, title, SourceOnly(url).(title := Some(title)), dir);
        GrowsTrans(e, e1, o.env);
        WrapScholar(o)
  }

  // ---------------------------------------------------------------- _try_wget_curl

  /** One tool run on `url` into `path`: logged, and what it wrote replaces the file. */
  function RunTool(w: World, tool: string, e: Env, url: string, path: string): (o: Outcome<()>)
    requires tool == "wget" || tool == "curl"
    ensures Grows(e, o.env) && o.env.requests == e.requests + [Run(tool, url)]
  {
    var run := if tool == "wget" then w.wget(url, |e.requests|) else w.curl(url, |e.requests|);
    var e1 := Issue(e, Run(tool, url));
    var e2 := if run.written.Some? then e1.(files := e1.files[path := run.written.value]) else e1;
    Outcome(e2, if run.exitOk then Ok(()) else Err(ToolFailed))
  }

  /** A tool's run counts only if it was installed, exited with 0 and left a valid PDF. */
  function ToolStep(w: World, installed: bool, tool: string, e: Env, url: string, path: string): (o: Outcome<()>)
    requires tool == "wget" || tool == "curl"
    ensures Grows(e, o.env)
    ensures o.result.Ok? ==> IsValidPdf(o.env.files, path)
    ensures !installed ==> o.env == e
  {
    if !installed then Outcome(e, Err(ToolFailed))
    else
      var r := RunTool(w, tool, e, url, path);
      if r.result.Ok? && IsValidPdf(r.env.files, path) then r else Outcome(r.env, Err(ToolFailed))
  }

  /** `_try_wget_curl(url)`: `paper_wget_<timestamp>.pdf`, by `wget`, else by `curl`. */
  function ToolsSpec(w: World, e: Env, url: string, dir: string): (o: Outcome<string>)
    ensures Grows(e, o.env)
    ensures o.result.Ok? ==> IsValidPdf(o.env.files, o.result.value)
    ensures o.result.Err? ==> o.result.error == AllToolsFailed
  {
    var path := JoinPath(dir, "paper_wget_" + NatToString(Now(w, e)) + ".pdf");
    var e1 := Tick(e);
    var a := ToolStep(w, w.wgetInstalled, "wget", e1, url, path);
    GrowsTrans(e, e1, a.env);
    if a.result.Ok? then Outcome(a.env, Ok(path))
    else
      var b := ToolStep(w, w.curlInstalled, "curl", a.env, url, path);
      GrowsTrans(e, a.env, b.env);
      if b.result.Ok? then Outcome(b.env, Ok(path)) else Outcome(b.env, Err(AllToolsFailed))
  }

  // ---------------------------------------------------------------- download

  /** The resolver the link type selects; a direct PDF link has no resolver of its own. */
  function Resolve(w: World, e: Env, url: string, dir: string): (o: Outcome<Fetched>)
    ensures Grows(e, o.env)
  {
    match DetectLinkType(url)
    case ArXiv => ArxivSpec(w, e, url, dir)
    case Doi => DoiSpec(w, e, url, dir)
    case OpenReview => OpenReviewSpec(w, e, url, dir)
    case SemanticScholar => SemanticScholarSpec(w, e, url, dir)
    case GoogleScholar => GoogleScholarSpec(w, e, url, dir)
    case PdfDirect => GenericSpec(w, e, url, dir, None)
    case Generic => GenericSpec(w, e, url, dir, None)
  }

  /** The output directory: the one given, else `TEMP_DIR/<timestamp>`. */
  function OutputDir(w: World, e: Env, outputDir: Option<string>): string {
    match outputDir
    case Some(d) => d
    case None => TempDir + "/" + NatToString(Now(w, e))
  }

  /** `download(url, output_dir)`: resolve, validate, and fall back to the tools on the original link. */
  function DownloadSpec(w: World, e: Env, url: string, outputDir: Option<string>): (o: Outcome<Fetched>)
    ensures Grows(e, o.env)
    ensures o.result.Ok? ==> IsValidPdf(o.env.files, o.result.value.path)
  {
    var dir := OutputDir(w, e, outputDir);
    var e1 := if outputDir.None? then Tick(e) else e;
    var r := Resolve(w, e1, url, dir);
    GrowsTrans(e, e1, r.env);
    if r.result.Err? then r
    else if IsValidPdf(r.env.files, r.result.value.path) then r
    else
      var t := ToolsSpec(w, r.env, url, dir);
      GrowsTrans(e, r.env, t.env);
      match t.result
      case Ok(p) => Outcome(t.env, Ok(Fetched(p, r.result.value.metadata)))
      case Err(err) => Outcome(t.env, Err(err))
  }
}
