# paper_to_popsci in Dafny

A Dafny model of the core of `paper_to_popsci`, a tool that turns a research paper into a popular-science
article. The pipeline runs in this order:

1. Acquire the PDF from an arXiv, DOI, OpenReview, Semantic Scholar, Google Scholar or plain link.
2. Extract its text and metadata.
3. Plan an article outline and illustration prompts with an LLM.
4. Write the article sections.
5. Render HTML.
6. Export Markdown, Word and PDF.
7. Suggest related papers.

The model centres on the paper-acquisition resolver (`PaperDownloader`), which is modelled in the most detail:

- Link classification.
- Identifier extraction per site.
- arXiv date inference.
- Delegation between resolvers.
- The retrying fetch with exponential back-off.
- The `%PDF` header check.
- The wget/curl fallback.

The network, the clock, `time.sleep` and the file system are a `World` of oracle answers and an `Env` of files (path to bytes), request log, sleep log and clock reads.

The downstream stages are modelled as the text and list transformations they perform:

- Text cleaning and section grouping in the extractor.
- Outline parsing and the choice of illustration prompts in the analyzer.
- Article assembly, metrics and paper-info lines in the writer.
- HTML escaping, hero and paper-info parsing, code-block restoration and the paragraph pass in the renderer.
- Result-map bookkeeping, the Word line pass, MIME lookup and Markdown front matter in the exporter.
- Identifier resolution, keyword extraction, abstract truncation, fallback ordering and formatting in the recommender.
- File-name sanitising in the command-line entry point.

Modules:

| module | file | models |
|---|---|---|
| `Wrappers`, `Text` | wrappers.dfy, text.dfy | `Option`/`Result`, and the Python `str` operations the source uses (`strip`, `lower`, `replace`, `split`, `join`, `find`, `int()`) |
| `LinkClassifier` | link_classifier.dfy | `_detect_link_type` |
| `UrlPatterns`, `UrlPaths`, `ArxivDates` | url_patterns.dfy, url_paths.dfy, arxiv_dates.dfy | identifier extraction, file names and date labels of the resolvers |
| `DownloaderModel` | downloader_model.dfy | the resolvers, `_download_file`, `_validate_pdf`, `_try_wget_curl` and `download` as functions of a `World` and an `Env` |
| `Downloader` | downloader.dfy | class `PaperDownloader`, whose methods update the environment in place and are proved equal to those functions |
| `DownloaderProperties` | downloader_properties.dfy | retry schedule, fallback waterfall and delegation properties |
| `Extractor` | extractor.dfy | `PDFExtractor` |
| `Analyzer` | analyzer.dfy | `ContentAnalyzer` |
| `Writer` | writer.dfy | `ArticleWriter` |
| `Renderer` | renderer.dfy | `HTMLRenderer` |
| `Exporter` | exporter.dfy | `MultiFormatExporter` |
| `Keywords`, `Recommender` | keywords.dfy, recommender.dfy | `PaperRecommender` |
| `Cli` | cli.dfy | `sanitize_filename` |

## Model

All source paths are under `paper_to_popsci/`.

| member | source | states |
|---|---|---|
| LinkClassifier.DetectLinkType | paper_to_popsci/core/downloader.py:77-94 | the rules are tried on the lower-cased text in the source's order and the first that matches decides: arXiv iff it contains `arxiv.org`; DOI iff not arXiv and it contains `doi.org` or starts with `10.`; then OpenReview (`openreview.net`), Semantic Scholar (`semanticscholar.org`), Google Scholar (`scholar.google.com` or `google.com/scholar`) and direct PDF (ends with `.pdf`), each iff no earlier rule matches and its own does; generic iff no rule matches |
| LinkClassifier.DetectIgnoresCase | paper_to_popsci/core/downloader.py:79 | classifying the lower-cased reference gives the same type as classifying the reference |
| LinkClassifier.ArxivHostInAnyCase | paper_to_popsci/core/downloader.py:81-82 | any text containing `arxiv.org` in any mix of letter case is an arXiv reference, whatever surrounds it |
| LinkClassifier.BareDoiIsDoi | paper_to_popsci/core/downloader.py:83-84 | a reference starting `10.` that does not mention arXiv is a DOI |
| LinkClassifier.PdfSuffixDecides | paper_to_popsci/core/downloader.py:91-94 | on no known host, the type is `pdf_direct` iff the lower-cased reference ends in `.pdf`, and generic otherwise |
| ArxivDates.InferDate | paper_to_popsci/core/downloader.py:170-175 | an identifier shorter than 4 characters or not starting with two digits gives `未知日期`; otherwise the label is missing (`int()` raises) exactly when characters 2-3 are not a number `int()` accepts |
| ArxivDates.PublicationLabel | paper_to_popsci/core/downloader.py:159-175 | a non-empty `published` gives `{year}年{month}月` of the parsed timestamp, or `published[:7]` when parsing fails; an empty one gives the label inferred from the identifier |
| ArxivDates.InferDateOfNewStyleId | paper_to_popsci/core/downloader.py:170-173 | an identifier `YYMM…` of four digits gives `(2000+YY)年(MM)月`, with the month as a number without a leading zero |
| ArxivDates.InferDateExample | paper_to_popsci/core/downloader.py:170-173 | `2312.00752` gives `2023年12月` |
| ArxivDates.InferDateRaisesOnDotInMonth | paper_to_popsci/core/downloader.py:171-173 | characters 2-3 are not checked to be digits: `12.345` makes `int()` raise instead of giving a label |
| ArxivDates.InferDateOfOldStyleId | paper_to_popsci/core/downloader.py:174-175 | an old-style identifier such as `hep-th/…` gives `未知日期` |
| Cli.Sanitized | paper_to_popsci/cli.py:30-39 | the sanitised name has at most 100 characters and no surrounding whitespace |
| Cli.SanitizeFilename | paper_to_popsci/cli.py:30-39 | the replacement loop, truncation and strip return `Sanitized(name)`, and no character of `<>:"/\|?*` is left |
| Cli.ReplacedUpToChars | paper_to_popsci/cli.py:34-35 | after the first k unsafe characters were processed, the length is unchanged and each character is `_` exactly when it is one of those k |
| Cli.ReplacedChars | paper_to_popsci/cli.py:33-35 | the loop maps every unsafe character to `_` and keeps every other character in place |
| Cli.SanitizedIsSafe | paper_to_popsci/cli.py:33-39 | no unsafe character survives truncation and strip |
| Cli.SanitizeKeepsCleanName | paper_to_popsci/cli.py:30-39 | a name with no unsafe character, at most 100 characters and already stripped is returned unchanged |
| Cli.SanitizeIdempotent | paper_to_popsci/cli.py:30-39 | sanitising twice gives the same result as sanitising once |
| UrlPatterns.MatchDotted | paper_to_popsci/core/downloader.py:100-101 | a match of `(\d+\.\d+)` is a prefix of the text and is one or more digits, one dot, then one or more digits |
| UrlPatterns.Search | paper_to_popsci/core/downloader.py:108-110 | a value found by `re.search(...).group(1)` has the shape of the pattern's group |
| UrlPatterns.SearchNeedsLiteral | paper_to_popsci/core/downloader.py:108 | a search fails when the pattern's literal part does not occur in the text |
| UrlPatterns.FirstMatch | paper_to_popsci/core/downloader.py:105-111 | there is no match iff none of the patterns matches; a match is the match of some pattern that comes after only patterns that do not match, so the first matching pattern wins |
| UrlPatterns.ArxivId | paper_to_popsci/core/downloader.py:99-111 | a found arXiv identifier is `D.D` (non-empty digit runs around one dot) or `D` (digits) |
| UrlPatterns.FindArxivId | paper_to_popsci/core/downloader.py:106-111 | the loop over the four patterns that stops at the first match returns `ArxivId(url)` |
| UrlPatterns.ArxivIdOfAbsLink | paper_to_popsci/core/downloader.py:100 | `…arxiv.org/abs/D1.D2` gives `D1.D2` |
| UrlPatterns.ArxivIdOfPdfLink | paper_to_popsci/core/downloader.py:101 | `…arxiv.org/pdf/D1.D2` and `…arxiv.org/pdf/D1.D2.pdf` both give `D1.D2` |
| UrlPatterns.UpperCaseArxivLinkHasNoId | paper_to_popsci/core/downloader.py:99-111 | the patterns are case-sensitive: `HTTPS://ARXIV.ORG/ABS/2312.00752` yields no identifier, although the classifier calls it arXiv |
| UrlPatterns.SelectCandidate | paper_to_popsci/core/downloader.py:291-297 | the candidate loop yields nothing only when no pattern matched |
| UrlPatterns.FindPaperId | paper_to_popsci/core/downloader.py:290-297 | the loop that keeps the latest candidate and stops at one of at least 20 characters or all lower-case hex returns `PaperId(url)` |
| UrlPatterns.PaperIdIsFirstMatch | paper_to_popsci/core/downloader.py:285-297 | a 40- or 32-character hex match always stops the loop, so the identifier is the first pattern's match |
| UrlPatterns.NoPaperSegmentNoId | paper_to_popsci/core/downloader.py:299-301 | a link without `/paper/` has no identifier, so the generic resolver is used |
| UrlPatterns.HexIdAfterTitle | paper_to_popsci/core/downloader.py:286 | in `/paper/<title>/<40 hex>` the hex identifier is found, not the title |
| UrlPatterns.ForumId | paper_to_popsci/core/downloader.py:242 | a forum identifier is non-empty and holds no `&` |
| UrlPatterns.ForumIdOfForumLink | paper_to_popsci/core/downloader.py:242-247 | `…id=<id>` followed by the end or `&…` gives `<id>` |
| UrlPaths.UrlPath | paper_to_popsci/core/downloader.py:495 | the path part of `urlparse(url)` holds no `?` and no `#`; `UrlPathOfLink` says which part of a link it is |
| UrlPaths.Netloc | paper_to_popsci/core/downloader.py:495 | the network location of `urlparse(url)` holds no `/`, `?` or `#`; `NetlocOfLink` says which part of a link it is |
| UrlPaths.NetlocOfLink | paper_to_popsci/core/downloader.py:495 | for `scheme://host<tail>`, with a host free of `/?#` and a tail that is empty or starts with `/`, `?` or `#`, the network location is exactly `host` |
| UrlPaths.UrlPathOfLink | paper_to_popsci/core/downloader.py:495 | for `scheme://host/path?query#fragment`, with a host free of `/?#` and a path free of `;?#` and line breaks, the path is exactly `/path`, whatever follows it from `?` or `#` on |
| UrlPaths.Unquote | paper_to_popsci/core/downloader.py:496 | `unquote` never lengthens the text and leaves text without `%` unchanged |
| UrlPaths.UnquoteEscape | paper_to_popsci/core/downloader.py:496 | `%XY` for an ASCII code `XY` decodes to the character with that code, and decoding goes on after it |
| UrlPaths.UnquoteEncodedChar | paper_to_popsci/core/downloader.py:496 | the percent-encoding of one character, followed by any text, decodes to that character followed by the decoding of the text |
| UrlPaths.UnquotePercentEncode | paper_to_popsci/core/downloader.py:496 | decoding inverts the percent-encoding of RFC 3986 section 2.1 (ASCII characters other than the unreserved ones become `%XY`) for every text |
| UrlPaths.PathName | paper_to_popsci/core/downloader.py:496 | `Path(p).name` holds no `/` and is never `.` |
| UrlPaths.PathNameOfJoin | paper_to_popsci/core/downloader.py:496 | the name of `dir/name` is `name` for a proper component |
| UrlPaths.UrlFileName | paper_to_popsci/core/downloader.py:496 | the decoded last path component of a link holds no `/`; `UrlFileNameOfLink` says which component it is |
| UrlPaths.UrlFileNameOfLink | paper_to_popsci/core/downloader.py:495-496 | the file name of `https://host/dir/<name percent-encoded>` is `name`, for any proper name (not empty, not `.`, no `/`) |
| UrlPaths.LinkPdfName | paper_to_popsci/core/downloader.py:496-497 | the link's own name is used iff it ends in `.pdf` (case-sensitively), and it then holds no `/` |
| UrlPaths.GenericFileName | paper_to_popsci/core/downloader.py:493-499 | the generic resolver's file name ends in `.pdf` and holds no `/`; it is `paper_<timestamp>.pdf` when the link's own name is unusable |
| UrlPaths.GenericFileNameOfPdfLink | paper_to_popsci/core/downloader.py:495-499 | a link whose decoded last segment ends in `.pdf` gives that segment as the file name, not the timestamp name |
| UrlPaths.TimestampName | paper_to_popsci/core/downloader.py:498 | `paper_<timestamp>.pdf` ends in `.pdf` and holds no `/` |
| DownloaderModel.Message | paper_to_popsci/core/downloader.py:343-349 | the open-access error of Semantic Scholar and the no-PDF error of Google Scholar (478-484) both end with the three suggestions: arXiv link, DOI link, direct PDF link |
| DownloaderModel.AttemptSpec | paper_to_popsci/core/downloader.py:517-538 | a successful attempt was served within the size limit, could open the path and wrote the concatenated chunks over it; an attempt whose path cannot be opened writes nothing; it touches nothing else |
| DownloaderModel.FetchFrom | paper_to_popsci/core/downloader.py:513-545 | the retry loop from a given attempt only appends to the logs, reads no clock, and changes no file but the target |
| DownloaderModel.Fetch | paper_to_popsci/core/downloader.py:508-545 | `_download_file` changes no file but the target and reads no clock |
| DownloaderModel.GenericSpec | paper_to_popsci/core/downloader.py:490-506 | on success the generic resolver returns the supplied metadata, or `{source_url: url}` when none was supplied; `GenericRejectsHalfBracketedHost` states the `urlparse` error |
| DownloaderModel.FailureRecord | paper_to_popsci/core/downloader.py:186-200 | the record of a failed metadata call exists iff the date can be inferred without `int()` raising |
| DownloaderModel.ArxivMetadataSpec | paper_to_popsci/core/downloader.py:131-200 | the metadata call issues exactly one request, to the arXiv API for the identifier, and writes no file |
| DownloaderModel.ArxivSpec | paper_to_popsci/core/downloader.py:96-129 | the arXiv resolver only appends to the environment's logs; its branches are stated by `ArxivWithoutId`, `ArxivWithoutArxivPath`, `ArxivDownloadShape` and `ArxivSourceUrl` |
| DownloaderModel.UnpaywallPdf | paper_to_popsci/core/downloader.py:219-225 | the Unpaywall answer gives a PDF link iff the status is 200 and `is_oa`, `best_oa_location` and `url_for_pdf` are all truthy |
| DownloaderModel.DoiFileName | paper_to_popsci/core/downloader.py:226 | the DOI in a file name holds no `/` |
| DownloaderModel.DoiOpenAccess | paper_to_popsci/core/downloader.py:216-237 | the first request after resolving the DOI is the Unpaywall query for that DOI; its branches are stated by `UnpaywallDeclined`, `OpenAccessFetchFailed` and `DoiMetadataKept` |
| DownloaderModel.DoiSpec | paper_to_popsci/core/downloader.py:202-237 | the DOI resolver only appends to the environment's logs |
| DownloaderModel.OpenReviewSpec | paper_to_popsci/core/downloader.py:239-274 | the OpenReview resolver only appends to the environment's logs |
| DownloaderModel.WrapSemanticScholar | paper_to_popsci/core/downloader.py:351-353 | every failure inside the outer `try` comes out as the wrapped Semantic Scholar error |
| DownloaderModel.SsAfterApi | paper_to_popsci/core/downloader.py:310-349 | after the Graph API answered, only appends to the environment's logs |
| DownloaderModel.SemanticScholarSpec | paper_to_popsci/core/downloader.py:276-353 | the Semantic Scholar resolver only appends to the environment's logs; its branches are stated by `SemanticScholarWithoutPaper`, `SemanticScholarOpenAccess`, `SemanticScholarDelegatesToArxiv`, `SemanticScholarNothingToFetch` and `SemanticScholarErrorStatus` |
| DownloaderModel.ScholarTitle | paper_to_popsci/core/downloader.py:399-413 | the extracted title is empty or stripped |
| DownloaderModel.AbsoluteLink | paper_to_popsci/core/downloader.py:442-443 | an href starting with `/` is prefixed with `https://scholar.google.com`; any other is kept |
| DownloaderModel.ScholarLinks | paper_to_popsci/core/downloader.py:434-451 | trying the page's PDF links only appends to the environment's logs |
| DownloaderModel.ScholarSearch | paper_to_popsci/core/downloader.py:453-484 | the title search only appends to the environment's logs |
| DownloaderModel.WrapScholar | paper_to_popsci/core/downloader.py:486-488 | every failure inside the outer `try` comes out as the wrapped Google Scholar error |
| DownloaderModel.ScholarStrategies | paper_to_popsci/core/downloader.py:415-484 | the sub-strategies only append to the environment's logs |
| DownloaderModel.GoogleScholarSpec | paper_to_popsci/core/downloader.py:355-488 | the Google Scholar resolver only appends to the environment's logs; its order (arXiv link, DOI, page links, title search) is stated by `ScholarPrefersArxiv`, `ScholarThenDoi`, `ScholarLinkStep`, `ScholarLinksWithoutHrefs` and `ScholarSearchLast` |
| DownloaderModel.RunTool | paper_to_popsci/core/downloader.py:574-578 | running a tool logs exactly that tool on the original link |
| DownloaderModel.ToolStep | paper_to_popsci/core/downloader.py:572-582 | a tool counts only if it leaves a valid PDF; a tool that is not installed changes nothing |
| DownloaderModel.ToolsSpec | paper_to_popsci/core/downloader.py:564-597 | on success the returned path holds a valid PDF; otherwise the error is "all methods failed" |
| DownloaderModel.Resolve | paper_to_popsci/core/downloader.py:50-66 | the dispatch on the link type only appends to the environment's logs |
| DownloaderModel.DownloadSpec | paper_to_popsci/core/downloader.py:32-75 | on success the returned path holds a valid PDF |
| Downloader.PaperDownloader.constructor | paper_to_popsci/core/downloader.py:28-30 | a new downloader starts with the given files and empty request, sleep and clock logs |
| Downloader.PaperDownloader.DownloadFile | paper_to_popsci/core/downloader.py:508-545 | the loop of at most `n` attempts leaves the environment and result that `Fetch` gives: stop at the first success, sleep `2^attempt` s after every failed attempt but the last, re-raise the last failure |
| Downloader.PaperDownloader.ValidatePdf | paper_to_popsci/core/downloader.py:547-562 | true iff the file exists, has at least four bytes and its first four bytes are `%PDF` (ISO 32000-1, section 7.5.2) |
| Downloader.PaperDownloader.DownloadGeneric | paper_to_popsci/core/downloader.py:490-506 | the state and result are `GenericSpec`'s |
| Downloader.PaperDownloader.FetchArxivMetadata | paper_to_popsci/core/downloader.py:131-200 | the state and result are `ArxivMetadataSpec`'s |
| Downloader.PaperDownloader.DownloadArxiv | paper_to_popsci/core/downloader.py:96-129 | the state and result are `ArxivSpec`'s |
| Downloader.PaperDownloader.TryOpenAccess | paper_to_popsci/core/downloader.py:213-237 | the state and result are `DoiOpenAccess`'s |
| Downloader.PaperDownloader.DownloadDoi | paper_to_popsci/core/downloader.py:202-237 | the state and result are `DoiSpec`'s |
| Downloader.PaperDownloader.DownloadOpenReview | paper_to_popsci/core/downloader.py:239-274 | the state and result are `OpenReviewSpec`'s |
| Downloader.PaperDownloader.SemanticScholarAttempt | paper_to_popsci/core/downloader.py:310-349 | the state and result are `SsAfterApi`'s |
| Downloader.PaperDownloader.DownloadSemanticScholar | paper_to_popsci/core/downloader.py:276-353 | the state and result are `SemanticScholarSpec`'s |
| Downloader.PaperDownloader.SearchByTitle | paper_to_popsci/core/downloader.py:453-484 | the state and result are `ScholarSearch`'s |
| Downloader.PaperDownloader.TryScholarLinks | paper_to_popsci/core/downloader.py:434-451 | the loop over the page's PDF links leaves the state and result that `ScholarLinks` gives |
| Downloader.PaperDownloader.DownloadGoogleScholar | paper_to_popsci/core/downloader.py:355-488 | the state and result are `GoogleScholarSpec`'s |
| Downloader.PaperDownloader.TryWgetCurl | paper_to_popsci/core/downloader.py:564-597 | the state and result are `ToolsSpec`'s |
| Downloader.PaperDownloader.ResolveLink | paper_to_popsci/core/downloader.py:50-66 | the state and result are `Resolve`'s |
| Downloader.PaperDownloader.Download | paper_to_popsci/core/downloader.py:32-75 | the state and result are `DownloadSpec`'s, and a returned path holds a valid PDF |
| DownloaderProperties.Backoff | paper_to_popsci/core/downloader.py:542-543 | the sleeps after `m` failed attempts starting at attempt `a` are `m` values, `2^a`, `2^(a+1)`, … |
| DownloaderProperties.FetchFromFailure | paper_to_popsci/core/downloader.py:513-545 | a failed fetch made every remaining attempt, each a `GET` of the link, with every back-off sleep but the last |
| DownloaderProperties.FetchFromSuccess | paper_to_popsci/core/downloader.py:513-538 | a successful fetch wrote the target file and slept one time fewer than it made attempts |
| DownloaderProperties.FetchFromRefused | paper_to_popsci/core/downloader.py:513-545 | against a server that always refuses, the fetch fails, writes no file and reads no clock |
| DownloaderProperties.AllRefused | paper_to_popsci/core/downloader.py:513-545 | against a server that always refuses, `n ≥ 1` attempts are made with sleeps 1, 2, 4, … s between them |
| DownloaderProperties.ThreeAttempts | paper_to_popsci/core/downloader.py:510-511 | with the default `MAX_RETRIES = 3`: three requests and sleeps of 1 s then 2 s |
| DownloaderProperties.ZeroRetries | paper_to_popsci/core/downloader.py:513 | zero retries is a success that requests and writes nothing |
| DownloaderProperties.FirstAnswerAccepted | paper_to_popsci/core/downloader.py:517-538 | an accepted first answer, written to a path that opens, ends the loop: its body is the file and nobody sleeps |
| DownloaderProperties.UnopenablePathIsRetried | paper_to_popsci/core/downloader.py:513-545 | `open(path, "wb")` fails inside the retry `try`: with a path that cannot be opened, whatever the server answers, all `n` requests are made with sleeps 1, 2, 4, … s between them, the fetch fails and no file changes |
| DownloaderProperties.OversizeIsRetried | paper_to_popsci/core/downloader.py:526-530 | the size-limit error is raised inside the retry `try`, so an oversized answer is retried after a 1 s sleep and is never written |
| DownloaderProperties.SizeLimitIsFiftyMib | paper_to_popsci/core/downloader.py:527-530 | an answer is refused iff its declared length exceeds 52428800 bytes (50 MiB) |
| DownloaderProperties.FetchFirstRequest | paper_to_popsci/core/downloader.py:517-522 | the first request of a fetch with at least one attempt is a `GET` of its link |
| DownloaderProperties.PdfDirectIsGeneric | paper_to_popsci/core/downloader.py:64-66 | a link classified `pdf_direct` goes to the generic resolver |
| DownloaderProperties.ResolverErrorPropagates | paper_to_popsci/core/downloader.py:54-72 | a resolver's error is `download`'s error: the tools run only on an invalid file, never after an exception |
| DownloaderProperties.ValidResolverResultKept | paper_to_popsci/core/downloader.py:68-75 | a valid file from the resolver is returned together with its metadata, unchanged |
| DownloaderProperties.FallbackOnOriginalLink | paper_to_popsci/core/downloader.py:68-75 | an invalid file sends the original link to `wget` first, then `curl`; the tool's file `paper_wget_<time>.pdf` replaces the path and the resolver's metadata is kept; with neither tool installed it fails |
| DownloaderProperties.WgetSuffices | paper_to_popsci/core/downloader.py:571-580 | a valid file from `wget` ends the fallback without running `curl` |
| DownloaderProperties.FailedExitIgnored | paper_to_popsci/core/downloader.py:573-582 | a tool that exits with an error does not count, even when it left a valid file |
| DownloaderProperties.GenericNamesFileAfterLink | paper_to_popsci/core/downloader.py:490-506 | the generic resolver saves `https://host/dir/<encoded name>.pdf` as `<dir>/<name>.pdf`, the link's decoded last segment |
| DownloaderProperties.GenericRejectsHalfBracketedHost | paper_to_popsci/core/downloader.py:490-497 | a link `scheme://host…` whose host holds one square bracket without the other (`http://[x/a.pdf`) makes `urlparse` raise: the generic resolver fails with that error, without reading the clock or making a request |
| DownloaderProperties.GenericNaming | paper_to_popsci/core/downloader.py:490-506 | the generic file is `<dir>/GenericFileName(url, now)`, ends in `.pdf`, the supplied metadata comes back unchanged, and the first request is a `GET` of the link |
| DownloaderProperties.ArxivSourceUrl | paper_to_popsci/core/downloader.py:121-123 | every success of the arXiv resolver records the link it was given as the source |
| DownloaderProperties.ArxivDownloadShape | paper_to_popsci/core/downloader.py:117-127 | with an identifier: the metadata request first, then `https://arxiv.org/pdf/<id>.pdf` into `<id>.pdf`, with `arxiv_id` and `source_url` set |
| DownloaderProperties.ArxivWithoutId | paper_to_popsci/core/downloader.py:105-115 | a link in which no pattern finds an identifier goes to the generic resolver without metadata |
| DownloaderProperties.ArxivWithoutArxivPath | paper_to_popsci/core/downloader.py:98-115 | a link holding neither `arxiv.org/abs/` nor `arxiv.org/pdf/` goes to the generic resolver without metadata |
| DownloaderProperties.AbsLinkDownload | paper_to_popsci/core/downloader.py:99-127 | `…/abs/D1.D2` is fetched from `https://arxiv.org/pdf/D1.D2.pdf` into `D1.D2.pdf` |
| DownloaderProperties.FailureRecordFields | paper_to_popsci/core/downloader.py:186-200 | when the API call fails, the record has empty title, authors, abstract and DOI and the inferred date |
| DownloaderProperties.BadMonthFailsDownload | paper_to_popsci/core/downloader.py:170-173 | for an identifier `DD.D…` with no date in the feed, the `int()` of the inference raises and the whole download fails |
| DownloaderProperties.DoiOfDoiLink | paper_to_popsci/core/downloader.py:208 | the DOI of `https://doi.org/<d>` is `<d>` |
| DownloaderProperties.BareDoi | paper_to_popsci/core/downloader.py:210-212 | a bare DOI needs no `HEAD`: Unpaywall is asked about it, and the fallback goes to `https://doi.org/<doi>` |
| DownloaderProperties.UnpaywallDeclined | paper_to_popsci/core/downloader.py:219-237 | without an open-access PDF from Unpaywall, the generic resolver runs on the final link carrying `{doi, source_url}` |
| DownloaderProperties.OpenAccessFetchFailed | paper_to_popsci/core/downloader.py:219-237 | when the Unpaywall PDF cannot be fetched, the generic resolver runs on the final link, after the failed fetch, carrying `{doi, source_url}` |
| DownloaderProperties.DoiMetadataKept | paper_to_popsci/core/downloader.py:214-237 | every success of the DOI resolver carries the DOI and the given link; its file is `doi_<doi with _>.pdf` or the generic one |
| DownloaderProperties.OpenReviewSourceUrl | paper_to_popsci/core/downloader.py:255-274 | every success of the OpenReview resolver records the link it was given |
| DownloaderProperties.OpenReviewUnopenablePath | paper_to_popsci/core/downloader.py:248-274 | when `openreview_<id>.pdf` cannot be opened under the output directory (an id such as `ab/cd` names a missing sub-directory), the PDF link is requested three times with sleeps of 1 s and 2 s, then the generic resolver restarts on the original link |
| DownloaderProperties.OpenReviewFallback | paper_to_popsci/core/downloader.py:252-274 | a failed PDF download restarts on the original link with the generic resolver; the notes API is not asked |
| DownloaderProperties.SemanticScholarWithoutPaper | paper_to_popsci/core/downloader.py:299-301 | a link without `/paper/` goes to the generic resolver |
| DownloaderProperties.SemanticScholarErrorsWrapped | paper_to_popsci/core/downloader.py:351-353 | once an identifier is found, every failure is reported as a Semantic Scholar failure |
| DownloaderProperties.SemanticScholarDelegatesToArxiv | paper_to_popsci/core/downloader.py:331-349 | with no open-access PDF but an arXiv identifier, the arXiv resolver's result replaces the metadata gathered so far; its failure becomes the guidance error |
| DownloaderProperties.SemanticScholarErrorStatus | paper_to_popsci/core/downloader.py:312-349 | a non-200 status gives the guidance error after one request, and its message ends with the suggestions |
| DownloaderProperties.SemanticScholarOpenAccess | paper_to_popsci/core/downloader.py:312-324 | an open-access PDF link in a 200 answer is fetched into `semanticscholar_<id>.pdf`, with the answer's title and authors and the link as source; a failed fetch is the Semantic Scholar error wrapping the fetch error |
| DownloaderProperties.SemanticScholarNothingToFetch | paper_to_popsci/core/downloader.py:322-349 | a 200 answer with neither an open-access PDF nor an arXiv identifier gives the guidance error after one request |
| DownloaderProperties.ScholarErrorsWrapped | paper_to_popsci/core/downloader.py:486-488 | every failure is reported as a Google Scholar failure |
| DownloaderProperties.ScholarNeedsTitle | paper_to_popsci/core/downloader.py:415-484 | without a title, nothing else is tried and the guidance error follows the page request |
| DownloaderProperties.ScholarPrefersArxiv | paper_to_popsci/core/downloader.py:420-424 | an arXiv link on the page wins over everything else, and the arXiv resolver's metadata replaces the page's title |
| DownloaderProperties.ScholarThenDoi | paper_to_popsci/core/downloader.py:427-431 | without an arXiv link on the page, a DOI on it is resolved through `https://doi.org/<doi>`, and a failure is wrapped as a Google Scholar error |
| DownloaderProperties.ScholarDoiRequests | paper_to_popsci/core/downloader.py:427-431 | after the page request, the next request is a `HEAD` of `https://doi.org/<doi>`, and then Unpaywall is asked about that DOI |
| DownloaderProperties.DoiLinkRequests | paper_to_popsci/core/downloader.py:204-219 | resolving `https://doi.org/<doi>` issues the `HEAD` first, then asks Unpaywall about `<doi>` |
| DownloaderProperties.ScholarLinksValid | paper_to_popsci/core/downloader.py:438-451 | a file from the page's own links is returned only after it passed validation, with the page's metadata |
| DownloaderProperties.ScholarFirstLink | paper_to_popsci/core/downloader.py:438-447 | the page's first PDF link is fetched first, made absolute when it starts with `/` |
| DownloaderProperties.ScholarLinkStep | paper_to_popsci/core/downloader.py:438-451 | a page link whose download is a valid PDF ends the resolver with that file; otherwise the next link is tried |
| DownloaderProperties.ScholarLinksWithoutHrefs | paper_to_popsci/core/downloader.py:438-453 | with no PDF link on the page the title search runs at once, on the same state |
| DownloaderProperties.ScholarSearchLast | paper_to_popsci/core/downloader.py:417-488 | with a title but no arXiv link, DOI or PDF link on the page, the result is the wrapped title search |
| Extractor.CleanText | paper_to_popsci/core/extractor.py:290-297 | the cleaned text has no NUL and no surrounding whitespace |
| Extractor.CollapseIsCollapsed | paper_to_popsci/core/extractor.py:293 | after `re.sub(r'\s+', ' ', …)` whitespace occurs only as single spaces |
| Extractor.CleanTextIdempotent | paper_to_popsci/core/extractor.py:290-297 | on NUL-free text, cleaning twice equals cleaning once, and the result's whitespace is single spaces |
| Extractor.CleanTextNotIdempotentWithNul | paper_to_popsci/core/extractor.py:293-295 | NUL is removed after whitespace is collapsed, so `"a \0 b"` cleans to `"a  b"` and only a second cleaning gives `"a b"` |
| Extractor.HeadingLevel | paper_to_popsci/core/extractor.py:236-252 | the level is 1 or 2; it is 2 iff the heading is shorter than 50 characters and contains no level-1 keyword in lower case |
| Extractor.HeadingLevelIgnoresCase | paper_to_popsci/core/extractor.py:239-244 | the level of a lower-cased heading is that of the heading |
| Extractor.Texts | paper_to_popsci/core/extractor.py:165-166 | the texts of the elements that have one are at most as many as the elements |
| Extractor.GroupElements | paper_to_popsci/core/extractor.py:104-168 | the element loop, the final close and the raw-text replacement give `Grouped(content, elements)` |
| Extractor.StoredSectionsHaveText | paper_to_popsci/core/extractor.py:110-122 | every section the loop stores has non-empty content and the heading level of its title, and the sections already present stay in front |
| Extractor.GroupedAuthors | paper_to_popsci/core/extractor.py:130-132 | author elements are added without duplicates after the known authors, every author element is present, and nothing else is added |
| Extractor.GroupedAbstract | paper_to_popsci/core/extractor.py:125-127 | the abstract is first-wins: a known abstract is kept, else the first non-empty abstract element is taken |
| Extractor.RunBeforeTitles | paper_to_popsci/core/extractor.py:135-142 | before the first title, each non-blank text goes to the raw text with a newline, and no section is opened or stored |
| Extractor.RunAfterTitle | paper_to_popsci/core/extractor.py:135-139 | once a section is open, the raw text does not change any more |
| Extractor.TextBeforeFirstTitle | paper_to_popsci/core/extractor.py:108-142 | the raw text after the loop is the text before the first title, and none of the text after it |
| Extractor.NoTitlesAllRawText | paper_to_popsci/core/extractor.py:163-166 | with no title and no earlier section nothing is stored, and the raw text becomes all texts joined by newlines |
| Extractor.PageBlock | paper_to_popsci/core/extractor.py:190-195 | a page adds nothing iff its text is empty or its extraction failed |
| Extractor.ReadPages | paper_to_popsci/core/extractor.py:188-195 | the page loop builds `FullText(pages)`: `\n--- Page <i+1> ---\n<text>` for every page with text |
| Extractor.FullTextEmpty | paper_to_popsci/core/extractor.py:188-195 | the full text is empty iff no page has text |
| Extractor.NonBlankLines | paper_to_popsci/core/extractor.py:201 | the kept lines are stripped and non-empty |
| Extractor.PickTitle | paper_to_popsci/core/extractor.py:204-207 | the title loop returns the first candidate that looks like a title |
| Extractor.FirstTitleLikeSpec | paper_to_popsci/core/extractor.py:204-207 | the chosen line is longer than 20 characters, mentions none of arxiv, proceedings and conference, and every earlier line fails that test; with no such line the title is not set |
| Extractor.PlainExtract | paper_to_popsci/core/extractor.py:177-227 | the PyPDF2 fallback returns `PlainContent(content, pages, abstractMatch)` |
| Extractor.PlainContentShape | paper_to_popsci/core/extractor.py:197-225 | a known title and abstract are kept; a guessed title is the first title-like line among at most ten non-blank lines; a found abstract has at most 2000 characters; one section of at most 10000 characters is added exactly when some page has text |
| Extractor.CapAbstract | paper_to_popsci/core/extractor.py:264-265 | an abstract of at most 3000 characters is unchanged; a longer one becomes its first 3000 characters plus `...` |
| Extractor.CleanAuthors | paper_to_popsci/core/extractor.py:268 | the cleaned author list is never longer than the input |
| Extractor.CleanAuthorsSpec | paper_to_popsci/core/extractor.py:268 | every author that is not blank is present cleaned, nothing else is, and with no blank author the count is unchanged |
| Extractor.NulAuthorKept | paper_to_popsci/core/extractor.py:268 | an author made of a NUL is not blank to `strip()`, so it survives as an empty name |
| Extractor.InstitutionFromSpec | paper_to_popsci/core/extractor.py:279-286 | the institution comes from the first pattern whose cleaned match has 5 < length < 100; every earlier pattern found nothing or something implausible; with none it is not set |
| Extractor.PostProcess | paper_to_popsci/core/extractor.py:254-288 | the method returns `PostProcessed(content, search)` |
| Extractor.PostProcessedShape | paper_to_popsci/core/extractor.py:254-288 | the title and authors are cleaned, the abstract is cleaned and capped at 3000 plus `...`, a missing institution is filled only with a plausible name when there is raw text, and sections, raw text and figures are untouched |
| Extractor.Prefilled | paper_to_popsci/core/extractor.py:58-67 | the prefilled content has no sections, no raw text and no institution |
| Extractor.Extract | paper_to_popsci/core/extractor.py:45-83 | `extract` returns `Extracted(metadata, layout, plain, search)` |
| Extractor.RunKeepsMetadata | paper_to_popsci/core/extractor.py:104-161 | the grouping loop never changes the title, date or identifiers |
| Extractor.PostProcessedKeepsIds | paper_to_popsci/core/extractor.py:254-288 | post-processing keeps the identifiers, date and extraction method, and cleans a known title |
| Extractor.ExtractKeepsMetadata | paper_to_popsci/core/extractor.py:58-80 | extraction fails iff both libraries fail; otherwise the identifiers and date of the metadata pass through unchanged, a known title comes out cleaned, and the method is `unstructured` iff the layout library succeeded |
| Analyzer.ParseOutlineText | paper_to_popsci/core/analyzer.py:176-206 | the text fallback builds `OutlineFromText` from the three pattern matches |
| Analyzer.OutlineFromTextShape | paper_to_popsci/core/analyzer.py:176-206 | the fallback always yields the seven default sections in the order hero, intro, problem, method, results, impact, conclusion; a field whose pattern did not match stays empty, and a matched one is stripped |
| Analyzer.ParseOutlineDefaults | paper_to_popsci/core/analyzer.py:165-170 | a decoded answer keeps every key it has; a missing `article_type` becomes `技术创新`, `core_innovation` `""`, `analogy_theme` `日常生活` and `sections` `[]` |
| Analyzer.FirstOfTypeSpec | paper_to_popsci/core/analyzer.py:234 | `next(…)` finds a section iff one has the type, and then the first such one |
| Analyzer.FindFirst | paper_to_popsci/core/analyzer.py:234 | the search loop returns `FirstOfType(sections, t)` |
| Analyzer.GenerateIllustrationPrompts | paper_to_popsci/core/analyzer.py:208-312 | the method builds `IllustrationPrompts(outline, title)` |
| Analyzer.IllustrationPromptsShape | paper_to_popsci/core/analyzer.py:208-312 | there are 1 to 5 prompts; the hero diagram is first with the title's first 50 characters; the intro, method, comparison and conclusion prompts are present iff the outline has an intro, method, problem, conclusion section respectively |
| Analyzer.PromptsRanked | paper_to_popsci/core/analyzer.py:208-312 | the prompts come in the fixed order hero, intro, method, comparison, conclusion, one per section found, all with the default negative prompt |
| Analyzer.PromptsNaming | paper_to_popsci/core/analyzer.py:208-312 | a prompt names a section iff it is the hero, or the outline has a section of the matching type |
| Analyzer.HasPromptIf | paper_to_popsci/core/analyzer.py:234-236 | an optional prompt is present iff the outline has a section of its type |
| Analyzer.MethodTopicFromFirstMethod | paper_to_popsci/core/analyzer.py:252-255 | the flowchart is built from the first method section of the outline |
| Analyzer.MethodTopicSpec | paper_to_popsci/core/analyzer.py:254-255 | the flowchart topic is the first two key concepts joined by `、`, the single concept when there is one, and `核心方法` when there are none |
| Analyzer.FoundAll | paper_to_popsci/core/analyzer.py:314-333 | an outline with the seven default section types has an intro, a method, a problem and a conclusion section |
| Analyzer.AllPictures | paper_to_popsci/core/analyzer.py:208-312 | an outline with the seven default section types gets all five pictures, the flowchart third |
| Analyzer.DefaultOutlineTypes | paper_to_popsci/core/analyzer.py:314-333 | the default outline has the seven section types in order |
| Analyzer.DefaultAnalysisShape | paper_to_popsci/core/analyzer.py:314-338 | the default has the seven sections, a hero titled with the paper title or `论文解读`, and exactly five prompts whose flowchart topic is `核心方法、关键技术` |
| Analyzer.AnalyzeShape | paper_to_popsci/core/analyzer.py:39-78 | `analyze` always gives 1 to 5 prompts with the hero first, and all five when the LLM call failed or its answer could not be decoded |
| Writer.BuildImageMap | paper_to_popsci/core/writer.py:52-56 | the loop builds `ImageMap(illustrations)` |
| Writer.ImageMapSpec | paper_to_popsci/core/writer.py:52-56 | a section has an image iff some illustration with truthy `success` and `filepath` names it, and the image is that of the last such illustration |
| Writer.Recognised | paper_to_popsci/core/writer.py:58-76 | the kept outline entries are at most as many as the outline's and all have a known type |
| Writer.Sections | paper_to_popsci/core/writer.py:58-83 | one section per recognised entry, in outline order, each generated for its entry and given its image when the map has one |
| Writer.Write | paper_to_popsci/core/writer.py:29-89 | the method builds `Written(…)`: the image map, the section loop, then the paper-info section |
| Writer.WrittenShape | paper_to_popsci/core/writer.py:58-89 | the article has one section per recognised entry in outline order, then the paper-info section last; a section has an image iff its type is in the image map |
| Writer.UnknownTypesSkipped | paper_to_popsci/core/writer.py:75-76 | entries of unknown type produce no section |
| Writer.ExtractMetrics | paper_to_popsci/core/writer.py:374-396 | the pattern loop builds `ExtractedMetrics(rawText, findAll)` |
| Writer.MetricsOfBound | paper_to_popsci/core/writer.py:387-394 | each pattern contributes at most two metrics, named after the pattern |
| Writer.ExtractedMetricsBound | paper_to_popsci/core/writer.py:374-396 | at most eight metrics, each named after one of the four patterns, and only the first 5000 characters of the raw text matter |
| Writer.MetricLines | paper_to_popsci/core/writer.py:240-244 | the results list has one line for each of the first five metrics |
| Writer.MetricMentions | paper_to_popsci/core/writer.py:461-462 | the fallback mentions exactly the first three metrics |
| Writer.DefaultResultsMentions | paper_to_popsci/core/writer.py:459-464 | with no metrics the fallback is the generic text; otherwise it opens with the lead sentence, closes with the closing one and mentions only the first three metrics |
| Writer.InfoValues | paper_to_popsci/core/writer.py:353-366 | there is one value per paper-info caption |
| Writer.InfoRows | paper_to_popsci/core/writer.py:353-366 | there is one row per paper-info caption |
| Writer.PaperInfoValues | paper_to_popsci/core/writer.py:353-366 | every missing field reads `N/A` and every present one reads as itself; the original link is `https://arxiv.org/abs/<arxiv_id>`, and `N/A` exactly when there is no arXiv ID |
| Writer.LeadingNewlines | paper_to_popsci/core/writer.py:425 | the count is the length of the text's leading run of newlines |
| Writer.CollapseNewlinesSpec | paper_to_popsci/core/writer.py:425 | after `re.sub(r'\n{3,}', '\n\n', …)` no three newlines follow each other |
| Writer.CollapseNewlinesKeeps | paper_to_popsci/core/writer.py:425 | text without three newlines in a row is left alone |
| Writer.StripNoTriple | paper_to_popsci/core/writer.py:428 | stripping keeps text free of triple newlines |
| Writer.CleanGenerated | paper_to_popsci/core/writer.py:424-430 | the cleaned output has no surrounding whitespace and no three consecutive newlines |
| Writer.CleanGeneratedIdempotent | paper_to_popsci/core/writer.py:424-430 | cleaning the output a second time changes nothing |
| Renderer.EscapeHtml | paper_to_popsci/core/renderer.py:475-482 | the replace chain equals escaping each character on its own: `&`, `<`, `>`, `"`, `'` become their entities and every other character is kept |
| Renderer.EscapeChainIsPerChar | paper_to_popsci/core/renderer.py:477-482 | the five `replace` calls in the source's order compute the per-character escape |
| Renderer.EscapeHtmlRoundTrip | paper_to_popsci/core/renderer.py:475-482 | decoding the five entities gives back the original text, which holds only because `&` is replaced first |
| Renderer.EscapeHtmlSafe | paper_to_popsci/core/renderer.py:475-482 | the escaped text contains none of `<`, `>`, `"` and `'` |
| Renderer.EscapeHtmlPlain | paper_to_popsci/core/renderer.py:475-482 | a text without any of the five characters is returned unchanged |
| Renderer.RendererFor | paper_to_popsci/core/renderer.py:99-125 | each known section type goes to its own renderer (intro, problem and method to the standard one with their class) and every unknown type to the standard renderer without a class |
| Renderer.Get | paper_to_popsci/core/renderer.py:135-143 | a key has a value iff it was assigned |
| Renderer.Put | paper_to_popsci/core/renderer.py:136-143 | assigning a key sets its value and leaves the others; an existing key keeps its place and a new one goes last, as in a Python `dict` |
| Renderer.LineValue | paper_to_popsci/core/renderer.py:137 | `line.split(":", 1)[-1].strip()` is stripped, and is the whole stripped line when it has no `:` |
| Renderer.Entries | paper_to_popsci/core/renderer.py:135-143 | each line gives the marker it carries, checked in the source's order, and its value |
| Renderer.Assign | paper_to_popsci/core/renderer.py:134-143 | the dictionary built by the loop has no repeated key |
| Renderer.HeroMeta | paper_to_popsci/core/renderer.py:134-143 | the meta dictionary has no repeated key |
| Renderer.HeroMetaHasKey | paper_to_popsci/core/renderer.py:135-143 | a marker is in the dictionary iff some line from line 2 on carries it |
| Renderer.HeroMetaLastLineWins | paper_to_popsci/core/renderer.py:135-143 | a marker's value comes from the last line carrying it |
| Renderer.HeroMetaOverwriteKeepsOrder | paper_to_popsci/core/renderer.py:135-143 | overwriting a marker keeps its place in the dictionary's order |
| Renderer.MetaSpans | paper_to_popsci/core/renderer.py:145-148 | the spans are those of the non-empty values other than `N/A`, every such value is shown, and nothing else is |
| Renderer.MetaSpansConcat | paper_to_popsci/core/renderer.py:145-148 | the spans keep the values' order and multiplicity: the spans of two runs of values are the first run's spans, then the second's |
| Renderer.MetaSpansOne | paper_to_popsci/core/renderer.py:145-148 | a single value gives its span when it is non-empty and not `N/A`, and nothing otherwise |
| Renderer.RenderHeroText | paper_to_popsci/core/renderer.py:127-148 | the title, the subtitle, the meta dictionary and its ` \| `-joined line are those of the content's lines |
| Renderer.HeroTextOfLines | paper_to_popsci/core/renderer.py:129-148 | the loop over the lines builds the same heading, dictionary and meta line |
| Renderer.HeroTitleIsFirstLine | paper_to_popsci/core/renderer.py:130 | the main title is the content's first line, stripped |
| Renderer.WriterHeroLines | paper_to_popsci/core/writer.py:96-104 | the writer's hero content splits into title, blank, subtitle, blank, then the meta lines |
| Renderer.HeroSubtitleLost | paper_to_popsci/core/renderer.py:130-131 | with the writer's blank line after the title, line 1 is empty and the shown subtitle is always empty |
| Renderer.FirstNonBlankSpec | paper_to_popsci/core/renderer.py:131 | the intended subtitle is a stripped later line, empty only when every later line is blank |
| Renderer.HeroSubtitleShown | paper_to_popsci/core/renderer.py:131 | with the intended heading, the writer's subtitle is shown |
| Renderer.ArticleHeroSubtitleLost | paper_to_popsci/core/renderer.py:129-131 | the hero section that `ArticleWriter` produces reaches the renderer with an empty subtitle |
| Renderer.ArticleHeroSubtitleShown | paper_to_popsci/core/renderer.py:129-131 | with the intended heading, the article's hero subtitle is shown |
| Renderer.InfoLine | paper_to_popsci/core/renderer.py:288-296 | an item comes only from a line that starts with `**` and has a later `**`; its label has no `:`, and its value is stripped, not empty and not `N/A` |
| Renderer.LabelOf | paper_to_popsci/core/renderer.py:292 | a label has every `:` removed |
| Renderer.InfoItems | paper_to_popsci/core/renderer.py:285-296 | there are at most as many items as lines |
| Renderer.InfoItemsGood | paper_to_popsci/core/renderer.py:285-296 | every item has a label without `:` and a stripped value that is shown |
| Renderer.InfoItemsConcat | paper_to_popsci/core/renderer.py:285-296 | items keep the order of their lines |
| Renderer.PaperInfoItems | paper_to_popsci/core/renderer.py:285-296 | the item loop over the content's lines builds `InfoItems` |
| Renderer.CollectInfoItems | paper_to_popsci/core/renderer.py:288-296 | the loop over the lines builds `InfoItems` |
| Renderer.DropColonPrefix | paper_to_popsci/core/renderer.py:305-306 | a leading `": "` is removed, and only that |
| Renderer.FormatValue | paper_to_popsci/core/renderer.py:298-307 | a value is an anchor iff its label is a link label and it starts with `http`; otherwise it is the escaped value without a leading `": "`, which decodes back to that value |
| Renderer.WriterRowShape | paper_to_popsci/core/writer.py:353-366 | a writer paper-info row reads `**label**: value` |
| Renderer.WriterRowKeepsColon | paper_to_popsci/core/renderer.py:288-296 | a writer row's value keeps its `": "`, so `N/A` rows are not dropped |
| Renderer.NotAvailableCell | paper_to_popsci/core/renderer.py:305-307 | the kept `": N/A"` is shown as `N/A` |
| Renderer.WriterLinkNotAnchor | paper_to_popsci/core/renderer.py:301-303 | a writer row's link value starts with `": "`, so it never becomes an anchor |
| Renderer.ArticleInfoRowKeepsColon | paper_to_popsci/core/renderer.py:288-296 | every row of the article's paper-info section keeps the `": "` in its value |
| Renderer.MissingDoiRowShown | paper_to_popsci/core/renderer.py:288-307 | a paper without a DOI gets a DOI row reading `N/A` instead of no row |
| Renderer.InfoLineIntended | paper_to_popsci/core/renderer.py:288-296 | an intended item has a label without `:` and a stripped, shown value |
| Renderer.WriterRowIntended | paper_to_popsci/core/renderer.py:288-296 | intended: a writer row yields its own value, and `N/A` rows are dropped |
| Renderer.WriterLinkIntended | paper_to_popsci/core/renderer.py:298-303 | intended: a writer row with a link under a link label becomes an anchor |
| Renderer.CodeHtml | paper_to_popsci/core/renderer.py:434-439 | a block is rendered as `<pre…` iff it contains a newline, and as inline `<code…` otherwise |
| Renderer.RestoreCodeBlocks | paper_to_popsci/core/renderer.py:429-441 | the loop over the blocks builds `Restored(text, blocks)`, which `RestorePieces` characterises |
| Renderer.RestorePieces | paper_to_popsci/core/renderer.py:429-441 | for a text made of runs with no `<<` and placeholders in any order and number, restoring replaces every placeholder whose index is below the number of blocks, wherever it stands, by that block's HTML; runs and out-of-range placeholders are kept |
| Renderer.ReplaceSlot | paper_to_popsci/core/renderer.py:431-440 | iteration `i` replaces exactly the placeholders of index `i`: runs, HTML restored earlier and other indices' placeholders are left alone |
| Renderer.CodeHtmlFollowed | paper_to_popsci/core/renderer.py:434-439 | the HTML of a code block never contains `<<`, so a later placeholder can never be matched inside it |
| Renderer.NoMatchInPlaceholder | paper_to_popsci/core/renderer.py:432 | no placeholder of another index occurs inside a placeholder, even overlapping the text after it (`<<<CODE_BLOCK_1>>>` does not begin `<<<CODE_BLOCK_10>>>`) |
| Renderer.RestoreStepIsReplace | paper_to_popsci/core/renderer.py:433-440 | the `in` test is a shortcut only: replacing an absent placeholder changes nothing |
| Renderer.RestoreWithoutPlaceholders | paper_to_popsci/core/renderer.py:429-441 | a text without `<` comes back unchanged |
| Renderer.RestoreOnePlaceholder | paper_to_popsci/core/renderer.py:429-441 | a single placeholder between texts without `<` becomes its block's HTML |
| Renderer.DigitRun | paper_to_popsci/core/renderer.py:406 | the run is the text's leading ASCII digits |
| Renderer.SearchFindsPlaceholder | paper_to_popsci/core/renderer.py:406 | the placeholder made for block `i` is read back as index `i` |
| Renderer.ListItems | paper_to_popsci/core/renderer.py:414 | there are at most as many list items as lines |
| Renderer.ParagraphBlockOf | paper_to_popsci/core/renderer.py:400-424 | the method returns the block that `ParagraphBlock` gives for one paragraph, if any; the four branches are stated by `BlankParagraphSkipped`, `PlaceholderParagraph`, `ListParagraph` and `PlainParagraph` |
| Renderer.ParagraphPass | paper_to_popsci/core/renderer.py:398-426 | a successful pass gives at most one block per paragraph |
| Renderer.ParagraphPassErrorPersists | paper_to_popsci/core/renderer.py:398-426 | the first paragraph that raises ends the whole pass with its error |
| Renderer.MarkdownParagraphs | paper_to_popsci/core/renderer.py:397-426 | the paragraph loop over the text split on blank lines builds `ParagraphPass` |
| Renderer.ParagraphLoop | paper_to_popsci/core/renderer.py:399-424 | the loop over the paragraphs builds `ParagraphPass` |
| Renderer.BlankParagraphSkipped | paper_to_popsci/core/renderer.py:401-402 | a blank paragraph produces nothing |
| Renderer.PlaceholderParagraph | paper_to_popsci/core/renderer.py:405-412 | a paragraph that is a saved block's placeholder becomes that block, as `<pre>` iff it spans lines |
| Renderer.ListParagraph | paper_to_popsci/core/renderer.py:413-417 | a `- ` paragraph gives one list of the inline-formatted `- ` lines, or nothing when there are none |
| Renderer.PlainParagraph | paper_to_popsci/core/renderer.py:419-424 | any other non-blank paragraph becomes one paragraph of its inline-formatted text with the saved blocks restored; text the formatting leaves without `<` is kept as it is |
| Renderer.LoneDashParagraphVanishes | paper_to_popsci/core/renderer.py:413-417 | the paragraph `"- \n<text>"` produces nothing: the dash line strips to `-`, which is not an item |
| Exporter.Export | paper_to_popsci/core/multi_format_exporter.py:33-78 | the method builds `Exported(formats, outputDir, pdf, docx, md)` |
| Exporter.ExportedSpec | paper_to_popsci/core/multi_format_exporter.py:33-78 | `html` is always in the result, with `<dir>/article.html`; no key other than the four formats appears; `pdf`, `docx` and `md` are present iff requested (all four when none are given) and their exporter returned an existing path, which is the value; a failing exporter removes nothing else |
| Exporter.WordLines | paper_to_popsci/core/multi_format_exporter.py:416-423 | the line pass keeps the number of lines |
| Exporter.CleanWordLines | paper_to_popsci/core/multi_format_exporter.py:415-425 | the loop over the lines builds `WordText(text)`: the cleaned lines joined by a blank line |
| Exporter.WordLinesAt | paper_to_popsci/core/multi_format_exporter.py:417-423 | each cleaned line is its own line's cleaning, whatever came before it |
| Exporter.WordLineSpec | paper_to_popsci/core/multi_format_exporter.py:418-420 | a cleaned line is stripped and no longer starts with `- ` or `* `; a list item becomes `• ` followed by its text after the marker |
| Exporter.WordLineIdempotent | paper_to_popsci/core/multi_format_exporter.py:418-422 | cleaning a cleaned line changes nothing |
| Exporter.RFind | paper_to_popsci/core/multi_format_exporter.py:535 | a found dot is inside the name |
| Exporter.MimeOfFileName | paper_to_popsci/core/multi_format_exporter.py:535-543 | `stem.ext` has suffix `.ext`, and its MIME type is the one of the lower-cased suffix, so `.JPG` is JPEG as well |
| Exporter.MimeWithoutSuffix | paper_to_popsci/core/multi_format_exporter.py:535-543 | a proper name (not empty, not `.`) without a dot, or whose only dot is in front, gets `image/png` |
| Exporter.ImageDataUrlSpec | paper_to_popsci/core/multi_format_exporter.py:529-548 | the data URL is empty exactly when reading failed, otherwise it starts `data:image/`; the MIME type is always one of png, jpeg, gif, webp |
| Exporter.NonBlank | paper_to_popsci/core/multi_format_exporter.py:469-470 | the kept lines are at most as many as the lines |
| Exporter.NonBlankSpec | paper_to_popsci/core/multi_format_exporter.py:469-470 | the kept lines are exactly the lines that are not blank |
| Exporter.NonBlankConcat | paper_to_popsci/core/multi_format_exporter.py:469-470 | keeping non-blank lines respects concatenation, so order is kept |
| Exporter.AppendHero | paper_to_popsci/core/multi_format_exporter.py:458-472 | the hero branch appends `HeroMarkdown(content)` |
| Exporter.AppendMetaLines | paper_to_popsci/core/multi_format_exporter.py:468-471 | the detail loop appends one italic line per non-blank line |
| Exporter.AppendPaperInfo | paper_to_popsci/core/multi_format_exporter.py:473-481 | the paper-info branch appends `PaperInfoMarkdown(title, content)` |
| Exporter.AppendNonBlank | paper_to_popsci/core/multi_format_exporter.py:476-480 | the paper-info loop appends the non-blank lines unchanged |
| Exporter.AppendBody | paper_to_popsci/core/multi_format_exporter.py:458-490 | the branch on the section type appends `SectionBody(s, io)` |
| Exporter.AppendSection | paper_to_popsci/core/multi_format_exporter.py:458-502 | one section appends its body, then its image lines |
| Exporter.AppendSections | paper_to_popsci/core/multi_format_exporter.py:451-502 | the section loop appends `SectionsMarkdown(sections, io)` |
| Exporter.ExportMarkdown | paper_to_popsci/core/multi_format_exporter.py:439-509 | the text written is `MarkdownText(pc, sections, io)`: front matter, then each section's lines, joined by newlines |
| Exporter.ReplaceSelf | paper_to_popsci/core/multi_format_exporter.py:479 | `line.replace("**", "**")` changes nothing, so paper-info lines keep their bold markers |
| Exporter.FrontMatterFirst | paper_to_popsci/core/multi_format_exporter.py:443-449 | whatever the sections, the document opens with `---`, the title line (title defaulted to `论文解读`), a third line, the date line, `---` and a blank line |
| Exporter.NoBoldLeft | paper_to_popsci/core/multi_format_exporter.py:470 | after `replace("**", "")` no `**` is left, not even one formed where pieces join |
| Exporter.MetaLinesOfNonBlank | paper_to_popsci/core/multi_format_exporter.py:468-471 | the later hero lines become, in order, one italic line per non-blank line |
| Exporter.MetaLineSpec | paper_to_popsci/core/multi_format_exporter.py:470-471 | a detail line is wrapped in single `*` and holds no `**` inside |
| Exporter.WriterHeroQuoteEmpty | paper_to_popsci/core/multi_format_exporter.py:462-471 | with the writer's hero text the quote line is `> ` (empty), and the subtitle becomes the first italic detail line instead |
| Exporter.WriterHeroQuoteIntended | paper_to_popsci/core/multi_format_exporter.py:462-471 | with the intended hero, the writer's subtitle is the quote and the details are the writer's meta lines, each once |
| Exporter.HeroIntendedShape | paper_to_popsci/core/multi_format_exporter.py:462-472 | the intended hero is the title, a blank, the first non-blank later line as the quote, a blank, the other non-blank lines in italics, then a blank |
| Exporter.ImageLinesSpec | paper_to_popsci/core/multi_format_exporter.py:492-502 | the image and its caption `*图：<title>*` appear iff the section has an image path that exists and could be read, and the image is a `data:image/` URL |
| Keywords.Cleaned | paper_to_popsci/core/paper_recommender.py:382 | lower-casing and blanking punctuation keeps the length of the text |
| Keywords.RunLength | paper_to_popsci/core/paper_recommender.py:383 | a word of `split()` ends at the first whitespace character or at the end |
| Keywords.WordsAreRuns | paper_to_popsci/core/paper_recommender.py:383 | every word `split()` yields is non-empty and holds no whitespace |
| Keywords.FirstIndex | paper_to_popsci/core/paper_recommender.py:405-408 | the position where a word first occurs, which fixes its place among the dictionary's keys |
| Keywords.FirstIndexFirst | paper_to_popsci/core/paper_recommender.py:405-408 | no earlier word is the same word |
| Keywords.Lookup | paper_to_popsci/core/paper_recommender.py:408 | a word is found exactly when it is a key of the tally, at that key's position |
| Keywords.TallyOfTallies | paper_to_popsci/core/paper_recommender.py:405-408 | the counting loop builds a dictionary whose keys are exactly the qualifying words, in order of first occurrence, each with its number of occurrences |
| Keywords.SortPermutes | paper_to_popsci/core/paper_recommender.py:411 | the sort only reorders the entries |
| Keywords.SortRanks | paper_to_popsci/core/paper_recommender.py:411 | sorting by descending count, stably, ranks the entries by count and equal counts by first occurrence |
| Keywords.Keywords | paper_to_popsci/core/paper_recommender.py:374-412 | at most `top_n` keywords |
| Keywords.ExtractKeywords | paper_to_popsci/core/paper_recommender.py:374-412 | the method (counting loop, then the sort) returns `Keywords(text, top_n)`; an empty text gives none |
| Keywords.RankedTally | paper_to_popsci/core/paper_recommender.py:405-411 | the sorted dictionary is ranked, each entry is a qualifying word of the text with its count, and every qualifying word of the text has an entry |
| Keywords.KeywordsRanked | paper_to_popsci/core/paper_recommender.py:374-412 | the keywords are qualifying words of the text (at least four letters, alphabetic, not a stop word), most frequent first, equally frequent ones in order of first appearance |
| Keywords.KeywordsAreTop | paper_to_popsci/core/paper_recommender.py:411-412 | a qualifying word that is left out means the list is full and every keyword ranks before that word |
| Keywords.KeywordsDistinct | paper_to_popsci/core/paper_recommender.py:405-412 | no keyword is returned twice |
| Recommender.ResolvePaperId | paper_to_popsci/core/paper_recommender.py:101-109 | there is no identifier exactly when all three arguments are absent or empty |
| Recommender.ResolvePriority | paper_to_popsci/core/paper_recommender.py:101-109 | a Semantic Scholar identifier decides alone; otherwise an arXiv identifier decides over a DOI and yields an `arxiv:` identifier |
| Recommender.ArxivPrefixIgnored | paper_to_popsci/core/paper_recommender.py:105-106 | `X` and `arxiv:X` resolve to the same identifier |
| Recommender.LastSpace | paper_to_popsci/core/paper_recommender.py:421 | none exactly when the text has no space; otherwise a position holding a space with no space after it, so the last one |
| Recommender.BeforeLastSpace | paper_to_popsci/core/paper_recommender.py:421 | `rsplit(" ", 1)[0]` is a prefix of the text: all of it when there is no space, otherwise the text up to the last space, which is followed by no other space |
| Recommender.TruncateAbstract | paper_to_popsci/core/paper_recommender.py:414-421 | the result is at most three characters longer than the limit |
| Recommender.TruncateAbstractShape | paper_to_popsci/core/paper_recommender.py:414-421 | the result has no line break; a short abstract comes back on one line and stripped; a long one ends in `...` after a prefix of the one-line text, which is the first `max_length` characters when they hold no space and otherwise the text before the last space among them |
| Recommender.AuthorListCut | paper_to_popsci/core/paper_recommender.py:143-145 | up to three authors are kept as they are; more become the first three and `et al.` |
| Recommender.SsRecommendationsShape | paper_to_popsci/core/paper_recommender.py:111-168 | a failed call, status 429 or an HTTP error gives nothing; otherwise one recommendation per returned paper, in order, with its title and URL, at most four author entries, the fourth being `et al.` exactly when the paper had more than three authors |
| Recommender.WithSource | paper_to_popsci/core/paper_recommender.py:490-491 | filtering by source keeps at most the papers there were |
| Recommender.WithSourceConcat | paper_to_popsci/core/paper_recommender.py:490-491 | filtering respects concatenation, so order is kept |
| Recommender.WithSourceHas | paper_to_popsci/core/paper_recommender.py:490-491 | every paper kept has the source asked for |
| Recommender.CitationNetworkShape | paper_to_popsci/core/paper_recommender.py:170-227 | the network holds only citing papers and references, at most `limit` of each |
| Recommender.CitationNetworkContents | paper_to_popsci/core/paper_recommender.py:170-227 | an exception, a 429 or another error status gives `[]`; otherwise the network is the first `limit` citations, in order, each as a citing paper, then the first `limit` references, in order, each as a reference |
| Recommender.LocalKeywordRecommendations | paper_to_popsci/core/paper_recommender.py:309-372 | the method builds `LocalLinks(title, abstract, limit)` |
| Recommender.LocalLinksCount | paper_to_popsci/core/paper_recommender.py:309-372 | no keywords, no links; otherwise the three keyword-search links cut as `[:limit]` cuts them: `min(limit, 3)` of them for a limit of 0 or more, `max(0, 3 + limit)` for a negative one |
| Recommender.LocalLinksOrder | paper_to_popsci/core/paper_recommender.py:322-370 | the links come in the order Semantic Scholar, Google Scholar, arXiv search |
| Recommender.GetRecommendations | paper_to_popsci/core/paper_recommender.py:50-99 | the method builds `RecommendationsOf(query, answers)` |
| Recommender.RecommendationsOfFields | paper_to_popsci/core/paper_recommender.py:69-99 | citations come only with an identifier, at half the limit; the primary list falls back to arXiv, and the offline links are filled only when the primary list is empty and there is a title |
| Recommender.FallbackOrder | paper_to_popsci/core/paper_recommender.py:75-97 | the sources are tried in order: Semantic Scholar with an identifier, arXiv only when that gave nothing and there is an arXiv identifier, offline links only when both gave nothing and there is a title |
| Recommender.CitationsCapped | paper_to_popsci/core/paper_recommender.py:80 | at most `limit // 2` citing papers and at most `limit // 2` references |
| Recommender.AppendEntries | paper_to_popsci/core/paper_recommender.py:448-481 | the entry loop appends one numbered block per paper |
| Recommender.AppendPrimary | paper_to_popsci/core/paper_recommender.py:440-481 | the primary block is appended: heading by the first paper's source, then the first five entries |
| Recommender.AppendCited | paper_to_popsci/core/paper_recommender.py:494-501 | one link line per cited paper |
| Recommender.AppendCitedBlock | paper_to_popsci/core/paper_recommender.py:492-502 | a non-empty list of citing papers or references gets its heading, its first three lines and a blank |
| Recommender.AppendCitations | paper_to_popsci/core/paper_recommender.py:484-502 | the citation block is appended |
| Recommender.FormatForArticle | paper_to_popsci/core/paper_recommender.py:423-517 | the method returns `FormatText(r)`, the lines joined by newlines |
| Recommender.FormatShowsFirstFive | paper_to_popsci/core/paper_recommender.py:448 | only the first five primary recommendations reach the article |
| Recommender.FormatShowsFirstThreeCitations | paper_to_popsci/core/paper_recommender.py:489-502 | only the first three citing papers and the first three references reach the article |
| Recommender.FormatEndsWithRule | paper_to_popsci/core/paper_recommender.py:514-517 | the block always ends with `\n---\n` |
| Recommender.BodyOrdinary | paper_to_popsci/core/paper_recommender.py:438-502 | with something to recommend, no line reads like the manual-advice heading |
| Recommender.ManualAdviceIffEmpty | paper_to_popsci/core/paper_recommender.py:428-512 | the manual exploration advice appears exactly when all three lists are empty |
| Recommender.OnlySimilarTopicsShowsNothing | paper_to_popsci/core/paper_recommender.py:428-517 | with only offline links, the block is the introduction that promises recommendations, then the rule, and nothing in between |
| Recommender.OfflineLinksNotShown | paper_to_popsci/core/paper_recommender.py:438-502 | with no identifier and a title that has keywords, links are produced but the block shows none of them |
| Recommender.SimilarTopicsShown | paper_to_popsci/core/paper_recommender.py:438-481 | in the corrected block the offline links are listed, under the search heading when they are search links |
| Recommender.IntendedLinesShape | paper_to_popsci/core/paper_recommender.py:438-517 | the corrected block treats the offline links as the primary list when the primary list is empty |
| Recommender.OfflineLinksShownWhenCorrected | paper_to_popsci/core/paper_recommender.py:438-481 | for the same query, the corrected block shows the search heading and the Semantic Scholar search link |

## Left out

- HTTP traffic, in every resolver, in the recommender and in the LLM and image clients, is not modelled as transport. Each answer is an oracle value of `World`, or a parameter: status, optional fields and body chunks. Redirects, sessions, headers sent and timeouts are not modelled.
- JSON decoding, the arXiv Atom feed (`xml.etree`) and `datetime.fromisoformat` are not modelled. Their decoded results are inputs. A decoded JSON value of the wrong shape, such as a list where a dictionary is expected, is not modelled.
- `subprocess`, `shutil.which`, `time.time` and `time.sleep` are not executed. Tool availability and runs are `World` answers. Clock readings are a function of how many readings came before. Sleeps are appended to a log.
- The foreign document libraries produce no modelled output: Playwright, WeasyPrint, pandoc, python-docx, unstructured's `partition_pdf`, PyPDF2 and PIL. The extractor receives their elements or page texts as inputs. The PDF and Word exporters are outcomes: raised, or returned a path that exists or not.
- Base64 encoding (RFC 4648 section 4) is the parameter `encode` of `Exporter.ImageDataUrl`.
- LLM prompts and answers are not modelled, because they are natural-language text with no checkable behaviour:
  - The writer's generated section texts are inputs.
  - An illustration prompt keeps its kind and the fields that vary (`Analyzer.Picture`), not its English wording.
- Regular-expression passes are modelled by their matches or results, given as inputs:
  - Google Scholar HTML scraping.
  - The institution, abstract and metric patterns (`findall` is a parameter of `Writer.ExtractMetrics`).
  - Outline field patterns in `_parse_outline_text`.
  - `_clean_llm_output` before its last two steps.
  - Inline bold, italic and term annotations, `_highlight_numbers` and code-block extraction in the renderer.
  - The regex pre-pass of `_clean_markdown_for_word`.
  - `_clean_markdown_for_md` and `_process_terms_for_word`.

  The identifier patterns of the resolvers are the exception: they are modelled character by character, with `\d` over ASCII digits only (see the next lines).
- HTML generation is not modelled: the page template, the CSS, `_generate_html` and the Word document layout.
- `get_recommendations`' arXiv fallback is reduced to its keyword guard and its final cut. The Atom entries, the exclusion of the paper itself and the `SequenceMatcher` similarity ranking come in as a ranked list. Relevance scores are floating point and are not part of `RelatedPaper`.
- Lower-casing and `\w` are ASCII only. So are `\d` (the arXiv and Semantic Scholar identifier patterns and the placeholder pattern), `str.isdigit` and `int()`: `IsDigit` accepts `0`-`9` only, where Python also accepts the other Unicode decimal digits. `str.isspace` is modelled over the Unicode whitespace set. Case folding and normalisation beyond ASCII are not modelled.
- UrlFileName: its own contract states only that the name holds no `/`. Which segment it is, is proved by `UrlFileNameOfLink` for `https` links without a query, with a path free of `;` and `%` before the last segment. Links with `;parameters`, with other schemes or with a query are covered by `UrlPathOfLink` only as far as the path.
- MimeWithoutSuffix: states nothing for the names `""` and `.`. For those, `Path` takes the name of the directory instead.
- `UrlPaths.Unquote` decodes percent-escapes of ASCII characters only. A multi-byte UTF-8 escape is kept as written rather than decoded.
- `Path(...).name` and `.suffix` are modelled on `/`-separated paths.
- `JoinPath` writes `output_dir / name` as `dir + "/" + name`. `pathlib` would drop a `.` directory and a trailing `/` of the directory, so `Path(".") / "x.pdf"` is `x.pdf` where the model has `./x.pdf`. Every resolver uses the same function, so only the spelling of returned paths differs.
- Directories are not modelled. Whether `open(path, "wb")` succeeds is the `World` answer `opens(path)`. So a name holding `/` (an OpenReview id `ab/cd`) fails only where `opens` says so; the model does not derive that from the directory tree.
- `urlparse`'s "Invalid IPv6 URL" error is modelled for a network location with one square bracket only. The check of the text inside brackets that newer Python versions add is not modelled, so a link such as `http://[x]/a.pdf` goes on to the fetch here.
- `PaperContent` and the article sections are values. The in-place field updates of `_post_process` and `write` become functions returning the new value, because every caller uses only the updated object. Aliasing of these objects is not modelled.
- The unused `elements` argument of `_detect_heading_level` and the unused `TitleExtractor` class are not modelled.
- The user interfaces are not part of this model: Streamlit, FastAPI, the command-line argument handling apart from `sanitize_filename`, and the logger.
- `config.py` is not part of this model. `MAX_RETRIES = 3` and `MAX_PAPER_SIZE_MB = 50` are constants or parameters of the downloader model.
- The corrected definitions under "Findings" sit beside the as-written ones. The modelled pipeline follows the code as written, so that each row above describes the program as it is.

## Findings

| source | as written | input that shows it | evidently intended | confidence | as-written member | corrected member |
|---|---|---|---|---|---|---|
| paper_to_popsci/core/renderer.py:129-131 | the hero renderer takes line 1 of the content as the subtitle, but the writer's hero content (paper_to_popsci/core/writer.py:96-104) has a blank line after the title, so the subtitle shown is always empty | any article: title `T`, subtitle `S`; the content's lines are `T`, an empty line, `S`, an empty line, then the meta lines, and the renderer shows `T` with an empty subtitle | the subtitle is the first non-blank line after the title, so `S` is shown | not executed | Renderer.HeroSubtitleLost, Renderer.ArticleHeroSubtitleLost | Renderer.HeroSubtitleShown, Renderer.ArticleHeroSubtitleShown |
| paper_to_popsci/core/multi_format_exporter.py:462-471 | the Markdown hero quotes line 1 of the same content, so the quote is `> ` (empty) and the subtitle appears as the first italic detail line | the same article: the Markdown hero reads `# T`, an empty line, `> `, an empty line, `*S*`, then the meta lines | the subtitle is quoted and the detail lines are the hero's meta lines | not executed | Exporter.WriterHeroQuoteEmpty | Exporter.WriterHeroQuoteIntended |
| paper_to_popsci/core/renderer.py:288-307 | the writer's paper-info rows read `**label**: value` (paper_to_popsci/core/writer.py:353-366); the renderer splits after the closing `**`, so the value keeps its leading `": "`. The `N/A` filter then never drops a row, and a link never becomes an anchor, because `startswith("http")` is evaluated before the `": "` is removed | a paper without a DOI: the row `**DOI**: N/A` gives the value `": N/A"`, which is kept and shown as `N/A`; the row `**原文链接**: https://arxiv.org/abs/X` is shown as escaped text, not as a link | the value is stripped of `": "` first, so `N/A` rows are dropped and links become anchors | not executed | Renderer.WriterRowKeepsColon, Renderer.MissingDoiRowShown, Renderer.WriterLinkNotAnchor | Renderer.WriterRowIntended, Renderer.WriterLinkIntended |
| paper_to_popsci/core/paper_recommender.py:423-517 | `format_for_article` counts `similar_topics` when choosing its introduction but never lists them | no identifier, a title with keywords (say `Diffusion Transformers`): `get_recommendations` returns three search links in `similar_topics`, and the block is only the introduction promising recommendations, then the rule | the offline links are listed as the primary list when that list is empty | not executed | Recommender.OfflineLinksNotShown | Recommender.SimilarTopicsShown, Recommender.OfflineLinksShownWhenCorrected |
