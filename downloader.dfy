/**
 * `PaperDownloader` as a class whose fields are the environment it acts on.
 * Each method is proved to leave the environment, and to return the result,
 * that the matching function of `DownloaderModel` describes.
 */
module Downloader {
  import opened Wrappers
  import opened Text
  import opened LinkClassifier
  import opened UrlPatterns
  import opened UrlPaths
  import opened DownloaderModel

  class PaperDownloader {
    const world: World
    var files: map<string, Bytes>
    var requests: seq<Request>
    var slept: seq<nat>
    var clockReads: nat

    function State(): Env
      reads this
    {
      Env(files, requests, slept, clockReads)
    }

    constructor(w: World, initialFiles: map<string, Bytes>)
      ensures world == w && State() == Env(initialFiles, [], [], 0)
    {
      world := w;
      files := initialFiles;
      requests := [];
      slept := [];
      clockReads := 0;
    }

    // ------------------------------------------------------------ effects on the outside world

    /** Sends a request; the answer is the oracle's at the request's position. */
    method Send(r: Request)
      modifies this
      ensures State() == Issue(old(State()), r)
    {
      requests := requests + [r];
    }

    /** `int(time.time())`. */
    method ReadClock() returns (now: nat)
      modifies this
      ensures now == Now(world, old(State())) && State() == Tick(old(State()))
    {
      now := world.clock(clockReads);
      clockReads := clockReads + 1;
    }

    /** `time.sleep(seconds)`. */
    method Sleep(seconds: nat)
      modifies this
      ensures State() == old(State()).(slept := old(slept) + [seconds])
    {
      slept := slept + [seconds];
    }

    // ------------------------------------------------------------ _download_file

    /** The part of one attempt after its request: the size check, then `path` opened and the body streamed into it chunk by chunk. */
    method Receive(a: Attempt, path: string) returns (r: Result<(), Error>)
      modifies this
      ensures Outcome(State(), r) == AttemptSpec(a, old(State()), path, world.opens(path))
    {
      if a.Refused? {
        return Err(RequestFailed);
      }
      var check := SizeCheck(a.contentLength);
      if check.Some? {
        return Err(check.value);
      }
      if !world.opens(path) {
        return Err(OpenFailed(path));
      }
      files := files[path := []];
      var i := 0;
      while i < |a.chunks|
        invariant 0 <= i <= |a.chunks|
        invariant files == old(files)[path := Concat(a.chunks[..i])]
        invariant requests == old(requests) && slept == old(slept) && clockReads == old(clockReads)
      {
        assert a.chunks[..i + 1][..i] == a.chunks[..i];
        files := files[path := files[path] + a.chunks[i]];
        i := i + 1;
      }
      assert a.chunks[..i] == a.chunks;
      r := if a.dropped then Err(StreamInterrupted) else Ok(());
    }

    /** `_download_file(url, path, n)`: at most `n` attempts, with a sleep of `2^attempt` s after every failed one but the last. */
    method DownloadFile(url: string, path: string, n: nat) returns (r: Result<(), Error>)
      modifies this
      ensures Outcome(State(), r) == Fetch(world, old(State()), url, path, n)
    {
      var attempt := 0;
      while attempt < n
        invariant 0 <= attempt <= n
        invariant Fetch(world, old(State()), url, path, n) == FetchFrom(world, State(), url, path, attempt, n)
        decreases n - attempt
      {
        var answer := world.fetch(url, |requests|);
        Send(Get(url));
        r := Receive(answer, path);
        if r.Ok? {
          return;
        }
        if attempt < n - 1 {
          Sleep(Pow2(attempt));
        } else {
          return;
        }
        attempt := attempt + 1;
      }
      r := Ok(());
    }

    // ------------------------------------------------------------ _validate_pdf

    /** `_validate_pdf(path)`: existence, then size, then the first four bytes. */
    method ValidatePdf(path: string) returns (ok: bool)
      ensures ok <==> path in files && |files[path]| >= 4 && files[path][..4] == PdfHeader
      ensures ok == IsValidPdf(files, path)
    {
      if path !in files {
        return false;
      }
      if |files[path]| == 0 {
        return false;
      }
      var header := Prefix(files[path], 4);
      ok := header == PdfHeader;
    }

    // ------------------------------------------------------------ resolvers

    /** `_download_generic(url, dir, metadata)`. */
    method DownloadGeneric(url: string, dir: string, metadata: Option<Metadata>) returns (r: Result<Fetched, Error>)
      modifies this
      ensures Outcome(State(), r) == GenericSpec(world, old(State()), url, dir, metadata)
    {
      if InvalidIpv6(url) {
        return Err(InvalidUrl);
      }
      var m := metadata.GetOr(SourceOnly(url));
      var name: string;
      var fromLink := LinkPdfName(url);
      if fromLink.Some? {
        name := fromLink.value;
      } else {
        var now := ReadClock();
        name := TimestampName(now);
      }
      var path := JoinPath(dir, name);
      var f := DownloadFile(url, path, MaxRetries);
      if f.Err? {
        return Err(f.error);
      }
      r := Ok(Fetched(path, m));
    }

    /** `_fetch_arxiv_metadata(id)`. */
    method FetchArxivMetadata(id: string) returns (r: Result<Metadata, Error>)
      modifies this
      ensures Outcome(State(), r) == ArxivMetadataSpec(world, old(State()), id)
    {
      var answer := world.arxivApi(ArxivApiUrl(id), |requests|);
      Send(Get(ArxivApiUrl(id)));
      match answer {
        case ArxivRaised =>
          r := FailureRecord(id);
        case ArxivNoEntry =>
          r := Ok(NoMetadata);
        case ArxivEntry(title, authors, summary, published, parsed, doi) =>
          var date := ArxivDates.PublicationLabel(published, parsed, id);
          if date.None? {
            r := FailureRecord(id);
          } else {
            r := Ok(Metadata(Some(title), Some(authors), Some(summary), Some(date.value), Some(doi), None, None));
          }
      }
    }

    /** `_download_arxiv(url, dir)`. */
    method DownloadArxiv(url: string, dir: string) returns (r: Result<Fetched, Error>)
      modifies this
      ensures Outcome(State(), r) == ArxivSpec(world, old(State()), url, dir)
    {
      var id := FindArxivId(url);
      if id.None? {
        r := DownloadGeneric(url, dir, None);
        return;
      }
      var m := FetchArxivMetadata(id.value);
      if m.Err? {
        return Err(m.error);
      }
      var metadata := m.value.(arxivId := Some(id.value), sourceUrl := Some(url));
      var path := JoinPath(dir, id.value + ".pdf");
      var f := DownloadFile(ArxivPdfUrl(id.value), path, MaxRetries);
      if f.Err? {
        return Err(f.error);
      }
      r := Ok(Fetched(path, metadata));
    }

    /** The Unpaywall attempt of `_download_doi` and its generic fallback. */
    method TryOpenAccess(url: string, doi: string, finalUrl: string, dir: string) returns (r: Result<Fetched, Error>)
      modifies this
      ensures Outcome(State(), r) == DoiOpenAccess(world, old(State()), url, doi, finalUrl, dir)
    {
      var metadata := NoMetadata.(doi := Some(doi), sourceUrl := Some(url));
      var api := UnpaywallUrl(doi);
      var answer := world.unpaywall(api, |requests|);
      Send(Get(api));
      var pdfUrl := UnpaywallPdf(answer);
      if pdfUrl.Some? {
        var path := JoinPath(dir, DoiFileName(doi));
        var f := DownloadFile(pdfUrl.value, path, MaxRetries);
        if f.Ok? {
          return Ok(Fetched(path, metadata.(title := Some(answer.title), authors := Some(answer.authors))));
        }
      }
      r := DownloadGeneric(finalUrl, dir, Some(metadata));
    }

    /** `_download_doi(url, dir)`. */
    method DownloadDoi(url: string, dir: string) returns (r: Result<Fetched, Error>)
      modifies this
      ensures Outcome(State(), r) == DoiSpec(world, old(State()), url, dir)
    {
      if StartsWith(url, "http") {
        var finalUrl := world.head(url, |requests|);
        Send(Head(url));
        if finalUrl.None? {
          return Err(RequestFailed);
        }
        r := TryOpenAccess(url, DoiOfLink(url), finalUrl.value, dir);
      } else {
        r := TryOpenAccess(url, url, "https://doi.org/" + url, dir);
      }
    }

    /** `_download_openreview(url, dir)`. */
    method DownloadOpenReview(url: string, dir: string) returns (r: Result<Fetched, Error>)
      modifies this
      ensures Outcome(State(), r) == OpenReviewSpec(world, old(State()), url, dir)
    {
      var id := ForumId(url);
      if id.None? {
        r := DownloadGeneric(url, dir, None);
        return;
      }
      var path := JoinPath(dir, "openreview_" + id.value + ".pdf");
      var f := DownloadFile(OpenReviewPdfUrl(id.value), path, MaxRetries);
      if f.Err? {
        r := DownloadGeneric(url, dir, None);
        return;
      }
      var answer := world.notes(NotesUrl(id.value), |requests|);
      Send(Get(NotesUrl(id.value)));
      if answer.NotesRaised? {
        r := DownloadGeneric(url, dir, None);
        return;
      }
      var metadata := SourceOnly(url);
      if answer.status == 200 && |answer.notes| > 0 {
        var note := answer.notes[0];
        metadata := metadata.(title := Some(note.title), authors := Some(note.authors), abstractText := Some(note.abstractText));
      }
      r := Ok(Fetched(path, metadata));
    }

    /** The body of the outer `try` of `_download_semanticscholar`, before wrapping. */
    method SemanticScholarAttempt(url: string, dir: string, path: string, answer: SsAnswer) returns (r: Result<Fetched, Error>)
      modifies this
      ensures Outcome(State(), r) == SsAfterApi(world, old(State()), url, dir, path, answer)
    {
      if answer.SsRaised? {
        return Err(RequestFailed);
      }
      var metadata := SourceOnly(url);
      var pdfUrl := "";
      if answer.status == 200 {
        var paper := answer.paper;
        metadata := metadata.(title := Some(paper.title), authors := Some(paper.authors),
                              abstractText := Some(paper.abstractText), publicationDate := Some(paper.year));
        pdfUrl := paper.oaPdfUrl;
      }
      if pdfUrl != "" {
        var f := DownloadFile(pdfUrl, path, MaxRetries);
        if f.Err? {
          return Err(f.error);
        }
        return Ok(Fetched(path, metadata));
      }
      if answer.status == 200 && answer.paper.arxivId != "" {
        var a := DownloadArxiv(ArxivAbsUrl(answer.paper.arxivId), dir);
        if a.Ok? {
          return a;
        }
      }
      r := Err(NoOpenAccess);
    }

    /** `_download_semanticscholar(url, dir)`. */
    method DownloadSemanticScholar(url: string, dir: string) returns (r: Result<Fetched, Error>)
      modifies this
      ensures Outcome(State(), r) == SemanticScholarSpec(world, old(State()), url, dir)
    {
      var id := FindPaperId(url);
      if id.None? {
        r := DownloadGeneric(url, dir, None);
        return;
      }
      var path := JoinPath(dir, "semanticscholar_" + id.value + ".pdf");
      var answer := world.ssPaper(SsApiUrl(id.value), |requests|);
      Send(Get(SsApiUrl(id.value)));
      r := SemanticScholarAttempt(url, dir, path, answer);
      if r.Err? {
        r := Err(SemanticScholarFailed(r.error));
      }
    }

    /** The title search of `_download_googlescholar`. */
    method SearchByTitle(title: string, metadata: Metadata, dir: string) returns (r: Result<Fetched, Error>)
      modifies this
      ensures Outcome(State(), r) == ScholarSearch(world, old(State()), title, metadata, dir)
    {
      var hit := SearchHit(world.ssSearch(title, |requests|));
      Send(Search(SsSearchUrl, title));
      if hit.Some? {
        var path := JoinPath(dir, "semanticscholar_" + hit.value.paperId + ".pdf");
        var f := DownloadFile(hit.value.pdfUrl, path, MaxRetries);
        if f.Ok? {
          var valid := ValidatePdf(path);
          if valid {
            return Ok(Fetched(path, metadata));
          }
        }
      }
      r := Err(ScholarNoPdf);
    }

    /** The loop over the page's PDF links, then the title search. */
    method TryScholarLinks(hrefs: seq<Option<string>>, title: string, metadata: Metadata, dir: string) returns (r: Result<Fetched, Error>)
      modifies this
      ensures Outcome(State(), r) == ScholarLinks(world, old(State()), hrefs, title, metadata, dir)
    {
      var i := 0;
      while i < |hrefs|
        invariant 0 <= i <= |hrefs|
        invariant ScholarLinks(world, old(State()), hrefs, title, metadata, dir)
               == ScholarLinks(world, State(), hrefs[i..], title, metadata, dir)
      {
        assert hrefs[i..][1..] == hrefs[i + 1..];
        if hrefs[i].Some? {
          var now := ReadClock();
          var path := JoinPath(dir, "googlescholar_" + NatToString(now) + ".pdf");
          var f := DownloadFile(AbsoluteLink(hrefs[i].value), path, MaxRetries);
          if f.Ok? {
            var valid := ValidatePdf(path);
            if valid {
              return Ok(Fetched(path, metadata));
            }
          }
        }
        i := i + 1;
      }
      r := SearchByTitle(title, metadata, dir);
    }

    /** `_download_googlescholar(url, dir)`. */
    method DownloadGoogleScholar(url: string, dir: string) returns (r: Result<Fetched, Error>)
      modifies this
      ensures Outcome(State(), r) == GoogleScholarSpec(world, old(State()), url, dir)
    {
      var page := world.scholar(url, |requests|);
      Send(Get(url));
      if page.PageRaised? {
        return Err(ScholarFailed(RequestFailed));
      }
      var title := ScholarTitle(url, page);
      if title == "" {
        return Err(ScholarFailed(ScholarNoPdf));
      }
      var metadata := SourceOnly(url).(title := Some(title));
      var arxivId := UrlPatterns.Search(page.text, ArxivAbsPattern);
      if arxivId.Some? {
        r := DownloadArxiv(ArxivAbsUrl(arxivId.value), dir);
      } else if page.doiMatch.Some? {
        r := DownloadDoi("https://doi.org/" + page.doiMatch.value, dir);
      } else {
        r := TryScholarLinks([page.pdfHref, page.cacheHref], title, metadata, dir);
      }
      if r.Err? {
        r := Err(ScholarFailed(r.error));
      }
    }

    // ------------------------------------------------------------ _try_wget_curl and download

    /** Runs `wget` or `curl` on `url` with `path` as the output file. */
    method Execute(tool: string, url: string, path: string) returns (r: Result<(), Error>)
      requires tool == "wget" || tool == "curl"
      modifies this
      ensures Outcome(State(), r) == RunTool(world, tool, old(State()), url, path)
    {
      var run := if tool == "wget" then world.wget(url, |requests|) else world.curl(url, |requests|);
      Send(Run(tool, url));
      if run.written.Some? {
        files := files[path := run.written.value];
      }
      r := if run.exitOk then Ok(()) else Err(ToolFailed);
    }

    /** `_try_wget_curl(url, dir)`. */
    method TryWgetCurl(url: string, dir: string) returns (r: Result<string, Error>)
      modifies this
      ensures Outcome(State(), r) == ToolsSpec(world, old(State()), url, dir)
    {
      var now := ReadClock();
      var path := JoinPath(dir, "paper_wget_" + NatToString(now) + ".pdf");
      if world.wgetInstalled {
        var run := Execute("wget", url, path);
        if run.Ok? {
          var valid := ValidatePdf(path);
          if valid {
            return Ok(path);
          }
        }
      }
      if world.curlInstalled {
        var run := Execute("curl", url, path);
        if run.Ok? {
          var valid := ValidatePdf(path);
          if valid {
            return Ok(path);
          }
        }
      }
      r := Err(AllToolsFailed);
    }

    /** The resolver chosen by the link's kind. */
    method ResolveLink(url: string, dir: string) returns (r: Result<Fetched, Error>)
      modifies this
      ensures Outcome(State(), r) == Resolve(world, old(State()), url, dir)
    {
      match DetectLinkType(url) {
        case ArXiv => r := DownloadArxiv(url, dir);
        case Doi => r := DownloadDoi(url, dir);
        case OpenReview => r := DownloadOpenReview(url, dir);
        case SemanticScholar => r := DownloadSemanticScholar(url, dir);
        case GoogleScholar => r := DownloadGoogleScholar(url, dir);
        case PdfDirect => r := DownloadGeneric(url, dir, None);
        case Generic => r := DownloadGeneric(url, dir, None);
      }
    }

    /** `download(url, output_dir)`. */
    method Download(url: string, outputDir: Option<string>) returns (r: Result<Fetched, Error>)
      modifies this
      ensures Outcome(State(), r) == DownloadSpec(world, old(State()), url, outputDir)
      ensures r.Ok? ==> IsValidPdf(files, r.value.path)
    {
      var dir: string;
      if outputDir.Some? {
        dir := outputDir.value;
      } else {
        var now := ReadClock();
        dir := TempDir + "/" + NatToString(now);
      }
      r := ResolveLink(url, dir);
      if r.Err? {
        return;
      }
      var valid := ValidatePdf(r.value.path);
      if !valid {
        var t := TryWgetCurl(url, dir);
        if t.Err? {
          return Err(t.error);
        }
        r := Ok(Fetched(t.value, r.value.metadata));
      }
    }
  }
}
