/**
 * The multi-format exporter: which files end up in the result map, the
 * line pass of the Word clean-up, the MIME type of an embedded image and
 * the Markdown document (front matter, hero, paper info, sections, images).
 */
module Exporter {
  import opened Wrappers
  import opened Text
  import Extractor
  import Writer
  import Renderer
  import UrlPaths

  // ---------------------------------------------------------------- export: the result map

  const AllFormats: seq<string> := ["html", "pdf", "docx", "md"]

  /** What one format's exporter did: it raised, or it returned a path (or `None`) that exists or not. */
  datatype Outcome = Raised | Produced(path: Option<string>, present: bool)

  /** The path an exporter delivered: one it returned and that exists. */
  function Delivered(o: Outcome): Option<string> {
    if o.Produced? && o.path.Some? && o.present then o.path else None
  }

  function HtmlPath(outputDir: string): string {
    outputDir + "/article.html"
  }

  /** The map after the optional format `f` was tried. */
  function AddIf(results: map<string, string>, formats: seq<string>, f: string, o: Outcome): map<string, string> {
    if f in formats && Delivered(o).Some? then results[f := Delivered(o).value] else results
  }

  /**
   * What `export` returns: `formats` is `None` when the caller gave none;
   * `pdf`, `docx` and `md` are what each exporter did when it was called.
   */
  function Exported(formats: Option<seq<string>>, outputDir: string, pdf: Outcome, docx: Outcome, md: Outcome)
    : map<string, string>
  {
    var fs := formats.GetOr(AllFormats);
    AddIf(AddIf(AddIf(map["html" := HtmlPath(outputDir)], fs, "pdf", pdf), fs, "docx", docx), fs, "md", md)
  }

  method Export(formats: Option<seq<string>>, outputDir: string, pdf: Outcome, docx: Outcome, md: Outcome)
    returns (results: map<string, string>)
    ensures results == Exported(formats, outputDir, pdf, docx, md)
  {
    var fs := AllFormats;
    if formats.Some? {
      fs := formats.value;
    }
    assert fs == formats.GetOr(AllFormats);
    results := map[];
    results := results["html" := HtmlPath(outputDir)];
    ghost var r0 := results;
    if "pdf" in fs {
      if pdf.Produced? && pdf.path.Some? && pdf.present {
        results := results["pdf" := pdf.path.value];
      }
    }
    assert results == AddIf(r0, fs, "pdf", pdf);
    ghost var r1 := results;
    if "docx" in fs {
      if docx.Produced? && docx.path.Some? && docx.present {
        results := results["docx" := docx.path.value];
      }
    }
    assert results == AddIf(r1, fs, "docx", docx);
    ghost var r2 := results;
    if "md" in fs {
      if md.Produced? && md.path.Some? && md.present {
        results := results["md" := md.path.value];
      }
    }
    assert results == AddIf(r2, fs, "md", md);
  }

  /**
   * The HTML file is always in the result, whatever was requested; each
   * other format is in it exactly when it was requested (all four when none
   * were given) and its exporter returned an existing path, which is the
   * value; a failing exporter removes nothing else.
   */
  lemma ExportedSpec(formats: Option<seq<string>>, outputDir: string, pdf: Outcome, docx: Outcome, md: Outcome)
    ensures var r := Exported(formats, outputDir, pdf, docx, md);
      var fs := if formats.Some? then formats.value else AllFormats;
      && "html" in r && r["html"] == HtmlPath(outputDir)
      && (forall k :: k in r ==> k in AllFormats)
      && ("pdf" in r <==> "pdf" in fs && pdf.Produced? && pdf.path.Some? && pdf.present)
      && ("docx" in r <==> "docx" in fs && docx.Produced? && docx.path.Some? && docx.present)
      && ("md" in r <==> "md" in fs && md.Produced? && md.path.Some? && md.present)
      && ("pdf" in r ==> r["pdf"] == pdf.path.value)
      && ("docx" in r ==> r["docx"] == docx.path.value)
      && ("md" in r ==> r["md"] == md.path.value)
  {
  }

  // ---------------------------------------------------------------- _clean_markdown_for_word: the line pass

  const Bullet: string := "• "

  /** One line of the Word text: stripped, and a `- ` or `* ` list marker turned into a bullet. */
  function WordLine(line: string): string {
    var l := Strip(line);
    if StartsWith(l, "- ") || StartsWith(l, "* ") then Bullet + l[2..] else l
  }

  function WordLines(lines: seq<string>): (r: seq<string>)
    ensures |r| == |lines|
    decreases |lines|
  {
    if |lines| == 0 then [] else WordLines(lines[..|lines| - 1]) + [WordLine(lines[|lines| - 1])]
  }

  /** The line pass: the text's lines, each cleaned, joined with a blank line between them. */
  function WordText(text: string): string {
    Join(WordLines(Split(text, "\n")), "\n\n")
  }

  method CleanWordLines(text: string) returns (r: string)
    ensures r == WordText(text)
  {
    var lines := Split(text, "\n");
    var resultLines: seq<string> := [];
    for i := 0 to |lines|
      invariant resultLines == WordLines(lines[..i])
    {
      var line := Strip(lines[i]);
      if StartsWith(line, "- ") || StartsWith(line, "* ") {
        line := Bullet + line[2..];
      }
      assert line == WordLine(lines[i]);
      WordLinesSnoc(lines, i);
      resultLines := resultLines + [line];
    }
    assert lines[..|lines|] == lines;
    r := Join(resultLines, "\n\n");
  }

  lemma WordLinesSnoc(lines: seq<string>, i: nat)
    requires i < |lines|
    ensures WordLines(lines[..i + 1]) == WordLines(lines[..i]) + [WordLine(lines[i])]
  {
    assert lines[..i + 1][..i] == lines[..i];
  }

  /** Each cleaned line is the corresponding line's, whatever came before it. */
  lemma {:induction false} WordLinesAt(lines: seq<string>, i: nat)
    requires i < |lines|
    ensures WordLines(lines)[i] == WordLine(lines[i])
    decreases |lines|
  {
    if i < |lines| - 1 {
      WordLinesAt(lines[..|lines| - 1], i);
    }
  }

  /**
   * A cleaned line is stripped, carries no list marker any more, and a
   * list item keeps its text after the bullet.
   */
  lemma WordLineSpec(line: string)
    ensures IsStripped(WordLine(line))
    ensures !StartsWith(WordLine(line), "- ") && !StartsWith(WordLine(line), "* ")
    ensures StartsWith(Strip(line), "- ") || StartsWith(Strip(line), "* ") ==>
      |Strip(line)| > 2 && WordLine(line) == Bullet + Strip(line)[2..]
  {
    var l := Strip(line);
    if StartsWith(l, "- ") || StartsWith(l, "* ") {
      assert IsSpace(l[1]);
      assert |l| > 2;
      var r := Bullet + l[2..];
      assert r[|r| - 1] == l[|l| - 1];
      assert r[0] == '•';
    }
  }

  /** Cleaning a cleaned line changes nothing. */
  lemma WordLineIdempotent(line: string)
    ensures WordLine(WordLine(line)) == WordLine(line)
  {
    WordLineSpec(line);
    StripStripped(WordLine(line));
  }

  // ---------------------------------------------------------------- _image_to_base64: the MIME type

  /** The index of the last `c` in `s`, like `rfind`. */
  function RFind(s: string, c: char): (r: Option<nat>)
    ensures r.Some? ==> r.value < |s| && s[r.value] == c
    decreases |s|
  {
    if |s| == 0 then None
    else if s[|s| - 1] == c then Some(|s| - 1)
    else RFind(s[..|s| - 1], c)
  }

  /** The `c` after which `tail` has none is the last one. */
  lemma {:induction false} RFindLast(head: string, c: char, tail: string)
    requires c !in tail
    ensures RFind(head + [c] + tail, c) == Some(|head|)
    decreases |tail|
  {
    if |tail| > 0 {
      assert (head + [c] + tail)[..|head + [c] + tail| - 1] == head + [c] + tail[..|tail| - 1];
      RFindLast(head, c, tail[..|tail| - 1]);
    }
  }

  /** `Path(p).suffix`: from the name's last dot, when that dot is neither its first nor its last character. */
  function PathSuffix(path: string): string {
    var name := UrlPaths.PathName(path);
    match RFind(name, '.')
    case Some(i) => if 0 < i < |name| - 1 then name[i..] else ""
    case None => ""
  }

  /** The MIME type for a lower-cased suffix; PNG for any other. */
  function MimeForSuffix(ext: string): string {
    if ext == ".jpg" || ext == ".jpeg" then "image/jpeg"
    else if ext == ".gif" then "image/gif"
    else if ext == ".webp" then "image/webp"
    else "image/png"
  }

  function MimeType(path: string): string {
    MimeForSuffix(Lower(PathSuffix(path)))
  }

  /**
   * `_image_to_base64`: `data` is the file's bytes, `None` when reading
   * raised; `encode` is the Base64 encoder.
   */
  function ImageDataUrl(path: string, data: Option<seq<bv8>>, encode: seq<bv8> -> string): string {
    match data
    case Some(bytes) => "data:" + MimeType(path) + ";base64," + encode(bytes)
    case None => ""
  }

  /**
   * A file named `stem.ext`, in any directory, has suffix `.ext`, so its
   * MIME type is the one of `.ext` lower-cased: `.JPG` is JPEG as well.
   */
  lemma MimeOfFileName(dir: string, stem: string, ext: string)
    requires |stem| > 0 && |ext| > 0 && '/' !in stem && '/' !in ext && '.' !in ext
    ensures PathSuffix(dir + "/" + stem + "." + ext) == "." + ext
    ensures MimeType(dir + "/" + stem + "." + ext) == MimeForSuffix("." + Lower(ext))
  {
    SuffixOfFileName(dir, stem, ext);
    LowerConcat(".", ext);
    assert Lower(".") == ".";
  }

  lemma SuffixOfFileName(dir: string, stem: string, ext: string)
    requires |stem| > 0 && |ext| > 0 && '/' !in stem && '/' !in ext && '.' !in ext
    ensures PathSuffix(dir + "/" + stem + "." + ext) == "." + ext
  {
    var name := stem + "." + ext;
    assert dir + "/" + stem + "." + ext == dir + "/" + name;
    UrlPaths.PathNameOfJoin(dir, name);
    SuffixOfName(stem, ext);
  }

  lemma SuffixOfName(stem: string, ext: string)
    requires |stem| > 0 && |ext| > 0 && '/' !in stem && '/' !in ext && '.' !in ext
    ensures var name := stem + "." + ext; RFind(name, '.') == Some(|stem|) && name[|stem|..] == "." + ext
  {
    var name := stem + "." + ext;
    assert name == stem + ['.'] + ext;
    RFindLast(stem, '.', ext);
  }

  /** A name without a dot, or one whose only dot is in front, gets the PNG type. */
  lemma MimeWithoutSuffix(dir: string, name: string)
    requires name != "" && name != "." && '/' !in name
    requires '.' !in name || ('.' !in name[1..] && name[0] == '.')
    ensures MimeType(dir + "/" + name) == "image/png"
  {
    UrlPaths.PathNameOfJoin(dir, name);
    if '.' in name {
      RFindLast([], '.', name[1..]);
      assert [] + ['.'] + name[1..] == name;
    } else {
      RFindAbsent(name, '.');
    }
    assert Lower("") == "";
  }

  lemma {:induction false} RFindAbsent(s: string, c: char)
    requires c !in s
    ensures RFind(s, c) == None
    decreases |s|
  {
    if |s| > 0 {
      RFindAbsent(s[..|s| - 1], c);
    }
  }

  /** The data URL is empty exactly when reading failed; otherwise it names the image type. */
  lemma ImageDataUrlSpec(path: string, data: Option<seq<bv8>>, encode: seq<bv8> -> string)
    ensures ImageDataUrl(path, data, encode) == "" <==> data.None?
    ensures data.Some? ==> StartsWith(ImageDataUrl(path, data, encode), "data:image/")
    ensures MimeType(path) in ["image/png", "image/jpeg", "image/gif", "image/webp"]
  {
    var m := MimeType(path);
    MimeForSuffixValues(Lower(PathSuffix(path)));
    if data.Some? {
      var rest := ";base64," + encode(data.value);
      assert ImageDataUrl(path, data, encode) == "data:" + m + rest;
      DataPrefix(m, rest);
    }
  }

  lemma MimeForSuffixValues(ext: string)
    ensures MimeForSuffix(ext) in ["image/png", "image/jpeg", "image/gif", "image/webp"]
    ensures StartsWith(MimeForSuffix(ext), "image/")
  {
  }

  lemma DataPrefix(m: string, rest: string)
    requires StartsWith(m, "image/")
    ensures StartsWith("data:" + m + rest, "data:image/")
  {
    assert ("data:" + m + rest)[..11] == "data:" + m[..6];
  }

  // ---------------------------------------------------------------- _export_markdown

  /**
   * What the Markdown export reads from outside: whether a path exists
   * (`Path.exists()`, so a directory counts; opening it then fails, and
   * `read` gives `None`), a file's bytes (`None` when reading raised), the
   * Base64 encoder, and the term and code-fence clean-up of a section's text.
   */
  datatype MarkdownIo = MarkdownIo(
    pathExists: string -> bool, read: string -> Option<seq<bv8>>, encode: seq<bv8> -> string,
    cleanForMarkdown: string -> string)

  const DefaultTitle: string := "论文解读"

  /** The YAML front matter, before any section. */
  function FrontMatter(pc: Extractor.PaperContent): seq<string> {
    ["---", "title: \"" + (if pc.title != "" then pc.title else DefaultTitle) + "\"", "author: \"Paper Interpreter\"",
     "date: \"" + pc.publicationDate + "\"", "---", ""]
  }

  /** The lines whose stripped form is not empty, in order. */
  function NonBlank(lines: seq<string>): (r: seq<string>)
    ensures |r| <= |lines|
    decreases |lines|
  {
    if |lines| == 0 then [] else NonBlank(lines[..|lines| - 1]) + KeptLine(lines[|lines| - 1])
  }

  function KeptLine(line: string): seq<string> {
    if Strip(line) != "" then [line] else []
  }

  /** A hero detail line: bold markers removed, the rest in italics. */
  function MetaLine(line: string): string {
    "*" + ReplaceAll(line, "**", "") + "*"
  }

  function MetaLines(lines: seq<string>): seq<string>
    decreases |lines|
  {
    if |lines| == 0 then []
    else (MetaLines(lines[..|lines| - 1])
          + (if Strip(lines[|lines| - 1]) != "" then [MetaLine(lines[|lines| - 1])] else []))
  }

  function AfterTwo(lines: seq<string>): seq<string> {
    if |lines| >= 2 then lines[2..] else []
  }

  /** The hero: its first line as the heading, its second as a quote, the later non-blank lines in italics. */
  function HeroMarkdown(content: string): seq<string> {
    HeroLines(Split(content, "\n"))
  }

  function HeroLines(lines: seq<string>): seq<string>
    requires |lines| > 0
  {
    ["# " + lines[0]] + (if |lines| > 1 then ["", "> " + lines[1]] else []) + [""] + MetaLines(AfterTwo(lines)) + [""]
  }

  function PaperInfoMarkdown(title: string, content: string): seq<string> {
    ["## " + title, ""] + NonBlank(Split(content, "\n")) + [""]
  }

  function SectionBody(s: Writer.ArticleSection, io: MarkdownIo): seq<string> {
    if s.sectionType == "hero" then HeroMarkdown(s.content)
    else if s.sectionType == "paper_info" then PaperInfoMarkdown(s.title, s.content)
    else ["## " + s.title, "", io.cleanForMarkdown(s.content), ""]
  }

  /** The embedded image and its caption, when the section has an existing, readable image file. */
  function ImageLines(s: Writer.ArticleSection, io: MarkdownIo): seq<string> {
    if s.imagePath.Some? && s.imagePath.value != "" && io.pathExists(s.imagePath.value) then
      var url := ImageDataUrl(s.imagePath.value, io.read(s.imagePath.value), io.encode);
      if url != "" then ImageLinesFor(s.title, url) else []
    else []
  }

  function SectionMarkdown(s: Writer.ArticleSection, io: MarkdownIo): seq<string> {
    SectionBody(s, io) + ImageLines(s, io)
  }

  function SectionsMarkdown(sections: seq<Writer.ArticleSection>, io: MarkdownIo): seq<string> {
    Flatten(sections, s => SectionMarkdown(s, io))
  }

  /** The lines of each item in turn. */
  function Flatten<T>(xs: seq<T>, f: T -> seq<string>): seq<string>
    decreases |xs|
  {
    if |xs| == 0 then [] else Flatten(xs[..|xs| - 1], f) + f(xs[|xs| - 1])
  }

  function MarkdownLines(pc: Extractor.PaperContent, sections: seq<Writer.ArticleSection>, io: MarkdownIo): seq<string> {
    FrontMatter(pc) + SectionsMarkdown(sections, io)
  }

  /** The text written to `article.md`. */
  function MarkdownText(pc: Extractor.PaperContent, sections: seq<Writer.ArticleSection>, io: MarkdownIo): string {
    Join(MarkdownLines(pc, sections, io), "\n")
  }

  method AppendHero(md: seq<string>, content: string) returns (out: seq<string>)
    ensures out == md + HeroMarkdown(content)
  {
    var lines := Split(content, "\n");
    var quote: seq<string> := [];
    if |lines| > 1 {
      quote := ["", "> " + lines[1]];
    }
    out := md + ["# " + lines[0]] + quote + [""];
    var rest := AfterTwo(lines);
    out := AppendMetaLines(out, rest);
    out := out + [""];
    assert out == md + (["# " + lines[0]] + quote + [""] + MetaLines(rest) + [""]);
  }

  method AppendMetaLines(md: seq<string>, rest: seq<string>) returns (out: seq<string>)
    ensures out == md + MetaLines(rest)
  {
    out := md;
    for j := 0 to |rest|
      invariant out == md + MetaLines(rest[..j])
    {
      assert rest[..j + 1][..j] == rest[..j];
      if Strip(rest[j]) != "" {
        var clean := ReplaceAll(rest[j], "**", "");
        out := out + ["*" + clean + "*"];
      }
    }
    assert rest[..|rest|] == rest;
  }

  method AppendPaperInfo(md: seq<string>, title: string, content: string) returns (out: seq<string>)
    ensures out == md + PaperInfoMarkdown(title, content)
  {
    out := md + ["## " + title, ""];
    var lines := Split(content, "\n");
    out := AppendNonBlank(out, lines);
    out := out + [""];
    assert out == md + (["## " + title, ""] + NonBlank(lines) + [""]);
  }

  method AppendNonBlank(md: seq<string>, lines: seq<string>) returns (out: seq<string>)
    ensures out == md + NonBlank(lines)
  {
    out := md;
    for j := 0 to |lines|
      invariant out == md + NonBlank(lines[..j])
    {
      assert lines[..j + 1][..j] == lines[..j];
      if Strip(lines[j]) != "" {
        var clean := ReplaceAll(lines[j], "**", "**");
        ReplaceSelf(lines[j], "**");
        out := out + [clean];
      }
    }
    assert lines[..|lines|] == lines;
  }

  method AppendBody(md: seq<string>, s: Writer.ArticleSection, io: MarkdownIo) returns (out: seq<string>)
    ensures out == md + SectionBody(s, io)
  {
    if s.sectionType == "hero" {
      out := AppendHero(md, s.content);
    } else if s.sectionType == "paper_info" {
      out := AppendPaperInfo(md, s.title, s.content);
    } else {
      out := md + ["## " + s.title, "", io.cleanForMarkdown(s.content), ""];
    }
  }

  method AppendSection(md: seq<string>, s: Writer.ArticleSection, io: MarkdownIo) returns (out: seq<string>)
    ensures out == md + SectionMarkdown(s, io)
  {
    out := AppendBody(md, s, io);
    ghost var body := out;
    if s.imagePath.Some? && s.imagePath.value != "" && io.pathExists(s.imagePath.value) {
      var url := ImageDataUrl(s.imagePath.value, io.read(s.imagePath.value), io.encode);
      if url != "" {
        out := out + ImageLinesFor(s.title, url);
      }
    }
    assert out == body + ImageLines(s, io);
    assert out == md + (SectionBody(s, io) + ImageLines(s, io));
  }

  method AppendSections(md: seq<string>, sections: seq<Writer.ArticleSection>, io: MarkdownIo) returns (out: seq<string>)
    ensures out == md + SectionsMarkdown(sections, io)
  {
    out := md;
    for k := 0 to |sections|
      invariant out == md + SectionsMarkdown(sections[..k], io)
    {
      out := AppendSection(out, sections[k], io);
      SectionsMarkdownStep(sections, k, io);
      AppendAssoc(md, SectionsMarkdown(sections[..k], io), SectionMarkdown(sections[k], io));
    }
    assert sections[..|sections|] == sections;
  }

  lemma SectionsMarkdownStep(sections: seq<Writer.ArticleSection>, k: nat, io: MarkdownIo)
    requires k < |sections|
    ensures SectionsMarkdown(sections[..k + 1], io) == SectionsMarkdown(sections[..k], io) + SectionMarkdown(sections[k], io)
  {
    assert sections[..k + 1][..k] == sections[..k];
  }

  lemma AppendAssoc<T>(a: seq<T>, b: seq<T>, c: seq<T>)
    ensures (a + b) + c == a + (b + c)
  {
  }

  method ExportMarkdown(pc: Extractor.PaperContent, sections: seq<Writer.ArticleSection>, io: MarkdownIo)
    returns (text: string)
    ensures text == MarkdownText(pc, sections, io)
  {
    var md: seq<string> := [];
    md := md + ["---"];
    md := md + ["title: \"" + (if pc.title != "" then pc.title else DefaultTitle) + "\""];
    md := md + ["author: \"Paper Interpreter\""];
    md := md + ["date: \"" + pc.publicationDate + "\""];
    md := md + ["---"];
    md := md + [""];
    assert md == FrontMatter(pc);
    md := AppendSections(md, sections, io);
    text := Join(md, "\n");
  }

  // ---------------------------------------------------------------- properties of the Markdown document

  /** Replacing a string by itself changes nothing. */
  lemma {:induction false} ReplaceSelf(s: string, pat: string)
    requires |pat| > 0
    ensures ReplaceAll(s, pat, pat) == s
    decreases |s|
  {
    if |s| >= |pat| {
      if s[..|pat|] == pat {
        ReplaceSelf(s[|pat|..], pat);
        assert s == s[..|pat|] + s[|pat|..];
      } else {
        ReplaceSelf(s[1..], pat);
        assert s == [s[0]] + s[1..];
      }
    }
  }

  /** Whatever the sections, the document opens with the six front-matter lines, the title defaulted. */
  lemma FrontMatterFirst(pc: Extractor.PaperContent, sections: seq<Writer.ArticleSection>, io: MarkdownIo)
    ensures var lines := MarkdownLines(pc, sections, io);
      && |lines| >= 6 && lines[0] == "---" && lines[4] == "---" && lines[5] == ""
      && lines[1] == "title: \"" + (if pc.title == "" then DefaultTitle else pc.title) + "\""
      && lines[3] == "date: \"" + pc.publicationDate + "\""
      && StartsWith(MarkdownText(pc, sections, io), "---" + "\n" + "title: \"")
  {
    var f := FrontMatter(pc);
    var lines := MarkdownLines(pc, sections, io);
    LinesOpenWith(f, SectionsMarkdown(sections, io));
    OpensWith("title: \"", (if pc.title == "" then DefaultTitle else pc.title) + "\"");
    assert f[1] == "title: \"" + ((if pc.title == "" then DefaultTitle else pc.title) + "\"");
    TextOpens(lines, "\n", "title: \"");
  }

  /** Lines put in front keep their places. */
  lemma LinesOpenWith(front: seq<string>, rest: seq<string>)
    ensures |front + rest| >= |front|
    ensures forall i :: 0 <= i < |front| ==> (front + rest)[i] == front[i]
  {
  }

  lemma OpensWith(p: string, q: string)
    ensures StartsWith(p + q, p)
  {
    assert (p + q)[..|p|] == p;
  }

  /** A text joined from lines starts with its first line, the separator and what the second line starts with. */
  lemma TextOpens(lines: seq<string>, sep: string, p: string)
    requires |lines| >= 2 && StartsWith(lines[1], p)
    ensures StartsWith(Join(lines, sep), lines[0] + sep + p)
  {
    var rest := lines[1..];
    assert lines == [lines[0]] + rest;
    JoinCons(lines[0], rest, sep);
    JoinKeepsPrefix(rest, sep, p);
    PrefixConcat(lines[0] + sep, Join(rest, sep), p);
  }

  lemma JoinKeepsPrefix(parts: seq<string>, sep: string, p: string)
    requires |parts| > 0 && StartsWith(parts[0], p)
    ensures StartsWith(Join(parts, sep), p)
  {
    JoinFirst(parts, sep);
    var j := Join(parts, sep);
    assert j[..|parts[0]|] == parts[0];
    assert parts[0][..|p|] == p;
  }

  lemma PrefixConcat(a: string, b: string, p: string)
    requires StartsWith(b, p)
    ensures StartsWith(a + b, a + p)
  {
    assert (a + b)[..|a| + |p|] == a + b[..|p|];
  }

  lemma JoinCons(x: string, rest: seq<string>, sep: string)
    requires |rest| > 0
    ensures Join([x] + rest, sep) == x + sep + Join(rest, sep)
  {
    assert ([x] + rest)[1..] == rest;
  }

  /** A join starts with its first part. */
  lemma {:induction false} JoinFirst(parts: seq<string>, sep: string)
    requires |parts| > 0
    ensures StartsWith(Join(parts, sep), parts[0])
  {
  }

  /** Removing bold markers leaves the first character of a string that does not start with one. */
  lemma UnmarkedHead(t: string)
    requires |t| > 0 && !StartsWith(t, "**")
    ensures |ReplaceAll(t, "**", "")| > 0 && ReplaceAll(t, "**", "")[0] == t[0]
  {
  }

  /** After `replace("**", "")` no bold marker is left, not even one formed by the joined pieces. */
  lemma {:induction false} NoBoldLeft(s: string)
    ensures !Contains(ReplaceAll(s, "**", ""), "**")
    decreases |s|
  {
    var r := ReplaceAll(s, "**", "");
    if |s| < 2 {
      assert r == s;
      assert !StartsWith(r, "**");
      if |r| > 0 {
        assert !StartsWith(r[1..], "**");
      }
    } else if s[..2] == "**" {
      NoBoldLeft(s[2..]);
      var x := ReplaceAll(s[2..], "**", "");
      assert |"**"| == 2;
      assert r == "" + x;
      assert "" + x == x;
    } else {
      var x := ReplaceAll(s[1..], "**", "");
      NoBoldLeft(s[1..]);
      assert r == [s[0]] + x;
      assert r[1..] == x;
      if s[0] == '*' {
        assert s[1] != '*';
        UnmarkedHead(s[1..]);
      }
      assert !StartsWith(r, "**");
    }
  }

  /** The later hero lines become, in order, one italic line per non-blank line. */
  lemma {:induction false} MetaLinesOfNonBlank(lines: seq<string>)
    ensures |MetaLines(lines)| == |NonBlank(lines)|
    ensures forall i :: 0 <= i < |MetaLines(lines)| ==> MetaLines(lines)[i] == MetaLine(NonBlank(lines)[i])
    decreases |lines|
  {
    if |lines| > 0 {
      MetaLinesOfNonBlank(lines[..|lines| - 1]);
    }
  }

  /** An italic detail line is wrapped in single asterisks and holds no bold marker inside. */
  lemma MetaLineSpec(line: string)
    ensures var m := MetaLine(line);
      && |m| >= 2 && m[0] == '*' && m[|m| - 1] == '*' && !Contains(m[1..|m| - 1], "**")
  {
    var m := MetaLine(line);
    NoBoldLeft(line);
    assert m[1..|m| - 1] == ReplaceAll(line, "**", "");
  }

  /** The kept lines are exactly the non-blank ones, in order. */
  lemma {:induction false} NonBlankSpec(lines: seq<string>)
    ensures forall i :: 0 <= i < |NonBlank(lines)| ==> NonBlank(lines)[i] in lines && Strip(NonBlank(lines)[i]) != ""
    ensures forall l :: l in lines && Strip(l) != "" ==> l in NonBlank(lines)
    decreases |lines|
  {
    if |lines| > 0 {
      var front := lines[..|lines| - 1];
      NonBlankSpec(front);
      assert lines == front + [lines[|lines| - 1]];
      forall l | l in lines && Strip(l) != ""
        ensures l in NonBlank(lines)
      {
        if l in front {
          assert l in NonBlank(front);
        }
      }
    }
  }

  lemma {:induction false} NonBlankConcat(a: seq<string>, b: seq<string>)
    ensures NonBlank(a + b) == NonBlank(a) + NonBlank(b)
    decreases |b|
  {
    if |b| == 0 {
      assert a + b == a;
    } else {
      var front, last := b[..|b| - 1], b[|b| - 1];
      calc {
        NonBlank(a + b);
        { assert a + b == (a + front) + [last]; }
        NonBlank((a + front) + [last]);
        { NonBlankSnoc(a + front, last); }
        NonBlank(a + front) + KeptLine(last);
        { NonBlankConcat(a, front); }
        (NonBlank(a) + NonBlank(front)) + KeptLine(last);
        { AppendAssoc(NonBlank(a), NonBlank(front), KeptLine(last)); }
        NonBlank(a) + (NonBlank(front) + KeptLine(last));
        { assert b == front + [last]; NonBlankSnoc(front, last); }
        NonBlank(a) + NonBlank(b);
      }
    }
  }

  lemma NonBlankSnoc(lines: seq<string>, line: string)
    ensures NonBlank(lines + [line]) == NonBlank(lines) + KeptLine(line)
  {
    assert (lines + [line])[..|lines|] == lines;
  }

  /**
   * With the writer's hero text the quote line is empty, because the line
   * after the title is the blank separator, and the subtitle turns into the
   * first italic detail line instead.
   */
  lemma WriterHeroQuoteEmpty(t: string, sub: string, pc: Extractor.PaperContent)
    requires '\n' !in t && '\n' !in sub && Strip(sub) != "" && !Contains(sub, "**")
    ensures var md := HeroMarkdown(Writer.HeroContent(t, sub, pc));
      |md| > 4 && md[..4] == ["# " + t, "", "> ", ""] && md[4] == "*" + sub + "*"
  {
    Renderer.WriterHeroLines(t, sub, Writer.HeroDetails(pc));
    HeroLinesQuoteEmpty(t, sub, Split(Writer.HeroDetails(pc), "\n"));
  }

  lemma HeroLinesQuoteEmpty(t: string, sub: string, more: seq<string>)
    requires Strip(sub) != "" && !Contains(sub, "**")
    ensures var md := HeroLines([t, "", sub, ""] + more);
      |md| > 4 && md[..4] == ["# " + t, "", "> ", ""] && md[4] == "*" + sub + "*"
  {
    var lines := [t, "", sub, ""] + more;
    var after := AfterTwo(lines);
    assert after == [sub, ""] + more;
    SubtitleFirstDetail(sub, more);
    var meta := MetaLines(after);
    assert "> " + lines[1] == "> ";
    var md := HeroLines(lines);
    assert md == ["# " + t, "", "> ", ""] + (meta + [""]);
    assert md[4] == meta[0];
  }

  /** The subtitle, followed by a blank line, is the first italic detail line. */
  lemma SubtitleFirstDetail(sub: string, more: seq<string>)
    requires Strip(sub) != "" && !Contains(sub, "**")
    ensures |MetaLines([sub, ""] + more)| > 0 && MetaLines([sub, ""] + more)[0] == "*" + sub + "*"
  {
    MetaLinesOfNonBlank([sub, ""] + more);
    NonBlankConcat([sub, ""], more);
    BlankIsBlank();
    assert [sub, ""][..1] == [sub];
    assert [sub][..0] == [];
    assert NonBlank([sub]) == [sub];
    assert NonBlank([sub, ""]) == [sub];
    ReplaceAbsent(sub, "**", "");
  }

  lemma BlankIsBlank()
    ensures Strip("") == ""
  {
    assert LStrip("") == "";
  }

  /**
   * The evidently intended hero: the quote is the first non-blank line after
   * the title, and the details are the non-blank lines after that one.
   */
  function HeroMarkdownIntended(content: string): seq<string> {
    HeroLinesIntended(Split(content, "\n"))
  }

  function HeroLinesIntended(lines: seq<string>): seq<string>
    requires |lines| > 0
  {
    HeroLinesFrom(lines[0], NonBlank(lines[1..]))
  }

  function HeroLinesFrom(title: string, later: seq<string>): seq<string> {
    ["# " + title] + (if |later| > 0 then ["", "> " + later[0]] else []) + [""]
    + MetaLines(if |later| > 0 then later[1..] else []) + [""]
  }

  /** With the intended hero, the writer's subtitle is the quote and no detail line repeats it. */
  lemma WriterHeroQuoteIntended(t: string, sub: string, pc: Extractor.PaperContent)
    requires '\n' !in t && '\n' !in sub && Strip(sub) != ""
    ensures var md := HeroMarkdownIntended(Writer.HeroContent(t, sub, pc));
      var details := NonBlank(Split(Writer.HeroDetails(pc), "\n"));
      && |md| > 3 && md[..4] == ["# " + t, "", "> " + sub, ""]
      && md[4..] == MetaLines(details) + [""]
  {
    Renderer.WriterHeroLines(t, sub, Writer.HeroDetails(pc));
    HeroLinesQuoteIntended(t, sub, Split(Writer.HeroDetails(pc), "\n"));
  }

  /** Between blank lines, the subtitle is the first line kept. */
  lemma SubtitleFirstNonBlank(sub: string, more: seq<string>)
    requires Strip(sub) != ""
    ensures NonBlank(["", sub, ""] + more) == [sub] + NonBlank(more)
  {
    NonBlankConcat(["", sub, ""], more);
    BlankIsBlank();
    assert ["", sub, ""][..2] == ["", sub];
    assert ["", sub][..1] == [""];
    assert [""][..0] == [];
    assert NonBlank([""]) == [];
    assert NonBlank(["", sub]) == [sub];
    assert NonBlank(["", sub, ""]) == [sub];
  }

  lemma HeroLinesQuoteIntended(t: string, sub: string, more: seq<string>)
    requires Strip(sub) != ""
    ensures var md := HeroLinesIntended([t, "", sub, ""] + more);
      && |md| > 3 && md[..4] == ["# " + t, "", "> " + sub, ""]
      && md[4..] == MetaLines(NonBlank(more)) + [""]
  {
    var lines := [t, "", sub, ""] + more;
    assert lines[1..] == ["", sub, ""] + more;
    SubtitleFirstNonBlank(sub, more);
    var later := NonBlank(lines[1..]);
    assert later == [sub] + NonBlank(more);
    assert later[1..] == NonBlank(more);
    HeroIntendedShape(lines);
  }

  lemma HeroIntendedShape(lines: seq<string>)
    requires |lines| > 0 && |NonBlank(lines[1..])| > 0
    ensures var later := NonBlank(lines[1..]);
      HeroLinesIntended(lines) == ["# " + lines[0], "", "> " + later[0], ""] + (MetaLines(later[1..]) + [""])
  {
    HeroFromShape(lines[0], NonBlank(lines[1..]));
  }

  lemma HeroFromShape(title: string, later: seq<string>)
    requires |later| > 0
    ensures HeroLinesFrom(title, later) == ["# " + title, "", "> " + later[0], ""] + (MetaLines(later[1..]) + [""])
  {
  }

  /** The image and its caption appear exactly when the section's image file exists and could be read. */
  lemma ImageLinesSpec(s: Writer.ArticleSection, io: MarkdownIo)
    ensures ImageLines(s, io) != [] <==>
      s.imagePath.Some? && s.imagePath.value != "" && io.pathExists(s.imagePath.value) && io.read(s.imagePath.value).Some?
    ensures ImageLines(s, io) != [] ==>
      ImageLines(s, io)[1] == "*图：" + s.title + "*" && StartsWith(ImageLines(s, io)[0], "![" + s.title + "](data:image/")
  {
    if s.imagePath.Some? && s.imagePath.value != "" && io.pathExists(s.imagePath.value) {
      var p := s.imagePath.value;
      ImageDataUrlSpec(p, io.read(p), io.encode);
      var url := ImageDataUrl(p, io.read(p), io.encode);
      assert ImageLines(s, io) == (if url != "" then ImageLinesFor(s.title, url) else []);
      if url != "" {
        ImageLinesForSpec(s.title, url);
      }
    }
  }

  function ImageLinesFor(title: string, url: string): seq<string> {
    ["![" + title + "](" + url + ")", "*图：" + title + "*", ""]
  }

  lemma ImageLinesForSpec(title: string, url: string)
    requires StartsWith(url, "data:image/")
    ensures ImageLinesFor(title, url)[1] == "*图：" + title + "*"
    ensures StartsWith(ImageLinesFor(title, url)[0], "![" + title + "](data:image/")
  {
    LinkPrefix("![" + title + "](", url, ")");
  }

  lemma LinkPrefix(pre: string, url: string, post: string)
    requires StartsWith(url, "data:image/")
    ensures StartsWith(pre + url + post, pre + "data:image/")
  {
    assert (pre + url + post)[..|pre| + 11] == pre + url[..11];
  }
}
