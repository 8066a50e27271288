/**
 * The text handling of `HTMLRenderer`: HTML escaping, the choice of a
 * section renderer, the hero's title and meta line, the paper-info rows,
 * code-block restoration and the paragraph pass of `_markdown_to_html`.
 * The page template, the CSS and the regular-expression passes (inline
 * bold/italic, term annotations, heading and formula removal, code-block
 * extraction) are not part of this model; their results are inputs.
 */
module Renderer {
  import opened Wrappers
  import opened Text
  import Extractor
  import Writer

  // ---------------------------------------------------------------- _escape_html

  /** `_escape_html`: `&` first, then `<`, `>`, `"` and `'`. */
  function EscapeHtml(s: string): (r: string)
    ensures r == EscapeChars(s)
  {
    EscapeChainIsPerChar(s);
    ReplaceAll(ReplaceAll(ReplaceAll(ReplaceAll(ReplaceAll(s, "&", "&amp;"), "<", "&lt;"), ">", "&gt;"),
                          "\"", "&quot;"), "'", "&#x27;")
  }

  /** The entity of one character. */
  function EscapeChar(c: char): string {
    if c == '&' then "&amp;"
    else if c == '<' then "&lt;"
    else if c == '>' then "&gt;"
    else if c == '"' then "&quot;"
    else if c == '\'' then "&#x27;"
    else [c]
  }

  /** Escaping as an independent reference: each character by its entity. */
  function EscapeChars(s: string): string
    decreases |s|
  {
    if |s| == 0 then "" else EscapeChar(s[0]) + EscapeChars(s[1..])
  }

  predicate Special(c: char) {
    c == '&' || c == '<' || c == '>' || c == '"' || c == '\''
  }

  function Chain(s: string): string {
    SubstituteChar(SubstituteChar(SubstituteChar(SubstituteChar(SubstituteChar(s, '&', "&amp;"), '<', "&lt;"),
                                                 '>', "&gt;"), '"', "&quot;"), '\'', "&#x27;")
  }

  lemma ChainConcat(a: string, b: string)
    ensures Chain(a + b) == Chain(a) + Chain(b)
  {
    var a1, b1 := SubstituteChar(a, '&', "&amp;"), SubstituteChar(b, '&', "&amp;");
    SubstituteConcat(a, b, '&', "&amp;");
    var a2, b2 := SubstituteChar(a1, '<', "&lt;"), SubstituteChar(b1, '<', "&lt;");
    SubstituteConcat(a1, b1, '<', "&lt;");
    var a3, b3 := SubstituteChar(a2, '>', "&gt;"), SubstituteChar(b2, '>', "&gt;");
    SubstituteConcat(a2, b2, '>', "&gt;");
    var a4, b4 := SubstituteChar(a3, '"', "&quot;"), SubstituteChar(b3, '"', "&quot;");
    SubstituteConcat(a3, b3, '"', "&quot;");
    SubstituteConcat(a4, b4, '\'', "&#x27;");
  }

  /** The five substitutions leave `rest` alone once none of the remaining characters occurs in it. */
  lemma ChainTail(rest: string, from: nat)
    requires from <= 4
    requires from <= 1 ==> '<' !in rest
    requires from <= 2 ==> '>' !in rest
    requires from <= 3 ==> '"' !in rest
    requires '\'' !in rest
    ensures from == 1 ==> Chain2(rest) == rest
    ensures from == 2 ==> Chain3(rest) == rest
    ensures from == 3 ==> Chain4(rest) == rest
    ensures from == 4 ==> SubstituteChar(rest, '\'', "&#x27;") == rest
  {
    SubstituteAbsent(rest, '\'', "&#x27;");
    if from <= 3 {
      SubstituteAbsent(rest, '"', "&quot;");
    }
    if from <= 2 {
      SubstituteAbsent(rest, '>', "&gt;");
    }
    if from <= 1 {
      SubstituteAbsent(rest, '<', "&lt;");
    }
  }

  function Chain2(s: string): string {
    SubstituteChar(SubstituteChar(SubstituteChar(SubstituteChar(s, '<', "&lt;"), '>', "&gt;"), '"', "&quot;"), '\'', "&#x27;")
  }

  function Chain3(s: string): string {
    SubstituteChar(SubstituteChar(SubstituteChar(s, '>', "&gt;"), '"', "&quot;"), '\'', "&#x27;")
  }

  function Chain4(s: string): string {
    SubstituteChar(SubstituteChar(s, '"', "&quot;"), '\'', "&#x27;")
  }

  lemma SubstituteOne(c: char, d: char, rep: string)
    ensures SubstituteChar([c], d, rep) == if c == d then rep else [c]
  {
    assert [c][1..] == [];
  }

  lemma ChainChar(c: char)
    ensures Chain([c]) == EscapeChar(c)
  {
    SubstituteOne(c, '&', "&amp;");
    if c == '&' {
      ChainTail("&amp;", 1);
    } else {
      SubstituteOne(c, '<', "&lt;");
      if c == '<' {
        ChainTail("&lt;", 2);
      } else {
        SubstituteOne(c, '>', "&gt;");
        if c == '>' {
          ChainTail("&gt;", 3);
        } else {
          SubstituteOne(c, '"', "&quot;");
          if c == '"' {
            ChainTail("&quot;", 4);
          } else {
            SubstituteOne(c, '\'', "&#x27;");
          }
        }
      }
    }
  }

  lemma {:induction false} ChainIsEscapeChars(s: string)
    ensures Chain(s) == EscapeChars(s)
    decreases |s|
  {
    if |s| > 0 {
      assert s == [s[0]] + s[1..];
      ChainConcat([s[0]], s[1..]);
      ChainChar(s[0]);
      ChainIsEscapeChars(s[1..]);
    }
  }

  /** The replace chain of the source computes the per-character escape. */
  lemma EscapeChainIsPerChar(s: string)
    ensures ReplaceAll(ReplaceAll(ReplaceAll(ReplaceAll(ReplaceAll(s, "&", "&amp;"), "<", "&lt;"), ">", "&gt;"),
                                  "\"", "&quot;"), "'", "&#x27;") == EscapeChars(s)
  {
    var s1 := ReplaceAll(s, "&", "&amp;");
    ReplaceCharIsSubstitute(s, '&', "&amp;");
    var s2 := ReplaceAll(s1, "<", "&lt;");
    ReplaceCharIsSubstitute(s1, '<', "&lt;");
    var s3 := ReplaceAll(s2, ">", "&gt;");
    ReplaceCharIsSubstitute(s2, '>', "&gt;");
    var s4 := ReplaceAll(s3, "\"", "&quot;");
    ReplaceCharIsSubstitute(s3, '"', "&quot;");
    ReplaceCharIsSubstitute(s4, '\'', "&#x27;");
    ChainIsEscapeChars(s);
  }

  /** The entity `s` starts with, as the character it stands for and its length. */
  function EntityAt(s: string): (r: Option<(char, nat)>)
    ensures r.Some? ==> 0 < r.value.1 <= |s|
  {
    if StartsWith(s, "&amp;") then Some(('&', 5))
    else if StartsWith(s, "&lt;") then Some(('<', 4))
    else if StartsWith(s, "&gt;") then Some(('>', 4))
    else if StartsWith(s, "&quot;") then Some(('"', 6))
    else if StartsWith(s, "&#x27;") then Some(('\'', 6))
    else None
  }

  /** Decodes the five entities `_escape_html` produces; any other text is kept. */
  function UnescapeHtml(s: string): (r: string)
    decreases |s|
  {
    if |s| == 0 then ""
    else
      match EntityAt(s)
      case Some((c, n)) => [c] + UnescapeHtml(s[n..])
      case None => [s[0]] + UnescapeHtml(s[1..])
  }

  lemma EntityOfPlain(c: char, u: string)
    requires !Special(c)
    ensures EntityAt([c] + u) == None
  {
    assert ([c] + u)[0] == c;
  }

  lemma EntityOfSpecial(c: char, u: string)
    requires Special(c)
    ensures EntityAt(EscapeChar(c) + u) == Some((c, |EscapeChar(c)|))
  {
    var e := EscapeChar(c);
    var t := e + u;
    assert t[..|e|] == e;
    if c == '<' {
      assert t[1] == 'l';
    } else if c == '>' {
      assert t[1] == 'g';
    } else if c == '"' {
      assert t[1] == 'q';
    } else if c == '\'' {
      assert t[1] == '#';
    }
  }

  /** Decoding an escaped character and what follows it. */
  lemma UnescapeAfterEntity(c: char, u: string)
    ensures UnescapeHtml(EscapeChar(c) + u) == [c] + UnescapeHtml(u)
  {
    var t := EscapeChar(c) + u;
    assert t[|EscapeChar(c)|..] == u;
    if Special(c) {
      EntityOfSpecial(c, u);
    } else {
      EntityOfPlain(c, u);
    }
  }

  lemma {:induction false} UnescapeEscapeChars(s: string)
    ensures UnescapeHtml(EscapeChars(s)) == s
    decreases |s|
  {
    if |s| > 0 {
      UnescapeAfterEntity(s[0], EscapeChars(s[1..]));
      UnescapeEscapeChars(s[1..]);
      assert [s[0]] + s[1..] == s;
    }
  }

  /** Escaping loses nothing: decoding the five entities gives back the text (so `&` must go first). */
  lemma EscapeHtmlRoundTrip(s: string)
    ensures UnescapeHtml(EscapeHtml(s)) == s
  {
    UnescapeEscapeChars(s);
  }

  lemma {:induction false} EscapeCharsSafe(s: string)
    ensures '<' !in EscapeChars(s) && '>' !in EscapeChars(s)
    ensures '"' !in EscapeChars(s) && '\'' !in EscapeChars(s)
    decreases |s|
  {
    if |s| > 0 {
      EscapeCharsSafe(s[1..]);
      EscapeCharSafe(s[0]);
      assert EscapeChars(s) == EscapeChar(s[0]) + EscapeChars(s[1..]);
    }
  }

  /** One escaped character holds none of the four characters. */
  lemma EscapeCharSafe(c: char)
    ensures '<' !in EscapeChar(c) && '>' !in EscapeChar(c)
    ensures '"' !in EscapeChar(c) && '\'' !in EscapeChar(c)
  {
    var e := EscapeChar(c);
    if c == '&' || c == '<' || c == '>' || c == '"' || c == '\'' {
      assert e[0] == '&';
      assert forall i :: 1 <= i < |e| ==> e[i] in "amplgtquo;#x27";
    }
  }

  /** The escaped text contains none of `<`, `>`, `"` and `'`. */
  lemma EscapeHtmlSafe(s: string)
    ensures '<' !in EscapeHtml(s) && '>' !in EscapeHtml(s)
    ensures '"' !in EscapeHtml(s) && '\'' !in EscapeHtml(s)
  {
    EscapeCharsSafe(s);
  }

  lemma {:induction false} EscapeCharsPlain(s: string)
    requires forall i :: 0 <= i < |s| ==> !Special(s[i])
    ensures EscapeChars(s) == s
    decreases |s|
  {
    if |s| > 0 {
      EscapeCharsPlain(s[1..]);
      assert [s[0]] + s[1..] == s;
    }
  }

  /** A text without any of the five characters is returned unchanged. */
  lemma EscapeHtmlPlain(s: string)
    requires forall i :: 0 <= i < |s| ==> !Special(s[i])
    ensures EscapeHtml(s) == s
  {
    EscapeCharsPlain(s);
  }

  // ---------------------------------------------------------------- _render_section

  /** The renderer `_render_section` hands a section to. */
  datatype SectionRenderer =
    | HeroRenderer
    | StandardRenderer(sectionClass: string)
    | ResultsRenderer
    | ImpactRenderer
    | ConclusionRenderer
    | PaperInfoRenderer
    | RecommendationsRenderer

  const SectionTypes: seq<string> :=
    ["hero", "intro", "problem", "method", "results", "impact", "conclusion", "paper_info", "recommendations"]

  /** The dispatch on `section_type`; the paper-info renderer is the only one not given the image. */
  function RendererFor(sectionType: string): (r: SectionRenderer)
    ensures sectionType !in SectionTypes <==> r == StandardRenderer("")
    ensures r.StandardRenderer? <==> sectionType !in SectionTypes || sectionType in ["intro", "problem", "method"]
    ensures r.StandardRenderer? && r.sectionClass != "" ==> r.sectionClass == sectionType
    ensures r == HeroRenderer <==> sectionType == "hero"
    ensures r == ResultsRenderer <==> sectionType == "results"
    ensures r == ImpactRenderer <==> sectionType == "impact"
    ensures r == ConclusionRenderer <==> sectionType == "conclusion"
    ensures r == PaperInfoRenderer <==> sectionType == "paper_info"
    ensures r == RecommendationsRenderer <==> sectionType == "recommendations"
  {
    if sectionType == "hero" then HeroRenderer
    else if sectionType == "intro" then StandardRenderer("intro")
    else if sectionType == "problem" then StandardRenderer("problem")
    else if sectionType == "method" then StandardRenderer("method")
    else if sectionType == "results" then ResultsRenderer
    else if sectionType == "impact" then ImpactRenderer
    else if sectionType == "conclusion" then ConclusionRenderer
    else if sectionType == "paper_info" then PaperInfoRenderer
    else if sectionType == "recommendations" then RecommendationsRenderer
    else StandardRenderer("")
  }

  // ---------------------------------------------------------------- _render_hero

  /** The keys of the hero's `meta_info` dictionary. */
  datatype MetaKey = Authors | Institution | Date | ArxivKey

  /** A dictionary as the list of its entries in insertion order. */
  type Meta = seq<(MetaKey, string)>

  function Keys(m: Meta): seq<MetaKey>
    decreases |m|
  {
    if |m| == 0 then [] else [m[0].0] + Keys(m[1..])
  }

  function Values(m: Meta): seq<string>
    decreases |m|
  {
    if |m| == 0 then [] else [m[0].1] + Values(m[1..])
  }

  /** `m.get(k)`. */
  function Get(m: Meta, k: MetaKey): (r: Option<string>)
    ensures r.Some? <==> k in Keys(m)
    decreases |m|
  {
    if |m| == 0 then None else if m[0].0 == k then Some(m[0].1) else Get(m[1..], k)
  }

  predicate Distinct<T(==)>(s: seq<T>) {
    forall i, j :: 0 <= i < j < |s| ==> s[i] != s[j]
  }

  /** `m[k] = v`: an existing key keeps its place, a new one goes last. */
  function Put(m: Meta, k: MetaKey, v: string): (r: Meta)
    ensures Keys(r) == if k in Keys(m) then Keys(m) else Keys(m) + [k]
    ensures Get(r, k) == Some(v)
    ensures forall k' :: k' != k ==> Get(r, k') == Get(m, k')
    decreases |m|
  {
    if |m| == 0 then
      MetaCons((k, v), []);
      [(k, v)]
    else if m[0].0 == k then
      MetaCons((k, v), m[1..]);
      [(k, v)] + m[1..]
    else
      MetaCons(m[0], Put(m[1..], k, v));
      [m[0]] + Put(m[1..], k, v)
  }

  /** The keys and lookups of a dictionary with one more entry in front. */
  lemma MetaCons(e: (MetaKey, string), rest: Meta)
    ensures Keys([e] + rest) == [e.0] + Keys(rest)
    ensures forall k :: Get([e] + rest, k) == if e.0 == k then Some(e.1) else Get(rest, k)
  {
    assert ([e] + rest)[1..] == rest;
  }

  /** The marker a hero line carries, tried in the source's order. */
  function LineKey(line: string): Option<MetaKey> {
    if Contains(line, "**作者**") then Some(Authors)
    else if Contains(line, "**机构**") then Some(Institution)
    else if Contains(line, "**发表时间**") then Some(Date)
    else if Contains(line, "**arXiv ID**") then Some(ArxivKey)
    else None
  }

  /** `line.split(":", 1)[-1].strip()`. */
  function LineValue(line: string): (r: string)
    ensures IsStripped(r)
    ensures !Contains(line, ":") ==> r == Strip(line)
  {
    Strip(AfterFirst(line, ":"))
  }

  /** What a hero line contributes: its marker, if it has one, and its value. */
  type Entry = (Option<MetaKey>, string)

  function EntryOf(line: string): Entry {
    (LineKey(line), LineValue(line))
  }

  function Entries(lines: seq<string>): (r: seq<Entry>)
    ensures |r| == |lines| && forall i :: 0 <= i < |lines| ==> r[i] == EntryOf(lines[i])
  {
    MapSeq(lines, EntryOf)
  }

  /** The dictionary after assigning the entries in order, as the loop builds it. */
  function Assign(entries: seq<Entry>): (m: Meta)
    ensures Distinct(Keys(m))
    decreases |entries|
  {
    if |entries| == 0 then []
    else
      var m := Assign(entries[..|entries| - 1]);
      var e := entries[|entries| - 1];
      match e.0
      case None => m
      case Some(k) => Put(m, k, e.1)
  }

  /** The meta dictionary of the given lines. */
  function HeroMeta(lines: seq<string>): (m: Meta)
    ensures Distinct(Keys(m))
  {
    Assign(Entries(lines))
  }

  /** One more entry: the dictionary so far, with that entry's marker set if it has one. */
  lemma AssignStep(entries: seq<Entry>, i: nat)
    requires i < |entries|
    ensures Assign(entries[..i + 1]) ==
            match entries[i].0
            case None => Assign(entries[..i])
            case Some(k) => Put(Assign(entries[..i]), k, entries[i].1)
  {
    assert entries[..i + 1][..i] == entries[..i];
  }

  lemma {:induction false} AssignHasKey(entries: seq<Entry>, k: MetaKey)
    ensures Get(Assign(entries), k).None? <==> forall i :: 0 <= i < |entries| ==> entries[i].0 != Some(k)
    decreases |entries|
  {
    if |entries| > 0 {
      var n := |entries| - 1;
      var init := entries[..n];
      AssignHasKey(init, k);
      AssignLastGet(entries, k);
      if entries[n].0 == Some(k) {
        assert Get(Assign(entries), k).Some?;
      } else if Get(Assign(init), k).None? {
        forall i | 0 <= i < |entries|
          ensures entries[i].0 != Some(k)
        {
          if i < n {
            assert entries[i] == init[i];
          }
        }
      } else {
        var j :| 0 <= j < n && init[j].0 == Some(k);
        assert entries[j] == init[j];
      }
    }
  }

  /** Looking a key up after one more entry: that entry's value if it sets the key, else the earlier lookup. */
  lemma AssignLastGet(entries: seq<Entry>, k: MetaKey)
    requires |entries| > 0
    ensures var n := |entries| - 1;
      Get(Assign(entries), k) == if entries[n].0 == Some(k) then Some(entries[n].1) else Get(Assign(entries[..n]), k)
  {
  }

  lemma {:induction false} AssignLastWins(entries: seq<Entry>, k: MetaKey, i: nat)
    requires i < |entries| && entries[i].0 == Some(k)
    requires forall j :: i < j < |entries| ==> entries[j].0 != Some(k)
    ensures Get(Assign(entries), k) == Some(entries[i].1)
    decreases |entries|
  {
    var n := |entries| - 1;
    AssignLastGet(entries, k);
    if i < n {
      var init := entries[..n];
      LaterEntriesOfInit(entries, k, i);
      AssignLastWins(init, k, i);
      assert Get(Assign(entries), k) == Get(Assign(init), k);
    }
  }

  lemma LaterEntriesOfInit(entries: seq<Entry>, k: MetaKey, i: nat)
    requires i < |entries| - 1 && entries[i].0 == Some(k)
    requires forall j :: i < j < |entries| ==> entries[j].0 != Some(k)
    ensures var init := entries[..|entries| - 1];
      && entries[|entries| - 1].0 != Some(k) && init[i] == entries[i]
      && forall j :: i < j < |init| ==> init[j].0 != Some(k)
  {
  }

  /** A marker is in the dictionary iff some line carries it. */
  lemma HeroMetaHasKey(lines: seq<string>, k: MetaKey)
    ensures Get(HeroMeta(lines), k).None? <==> forall i :: 0 <= i < |lines| ==> LineKey(lines[i]) != Some(k)
  {
    AssignHasKey(Entries(lines), k);
  }

  /** A marker's value comes from the last line carrying it: later lines overwrite earlier ones. */
  lemma HeroMetaLastLineWins(lines: seq<string>, k: MetaKey, i: nat)
    requires i < |lines| && LineKey(lines[i]) == Some(k)
    requires forall j :: i < j < |lines| ==> LineKey(lines[j]) != Some(k)
    ensures Get(HeroMeta(lines), k) == Some(LineValue(lines[i]))
  {
    AssignLastWins(Entries(lines), k, i);
  }

  /** Overwriting a marker keeps its place in the dictionary's order. */
  lemma HeroMetaOverwriteKeepsOrder(lines: seq<string>, line: string, k: MetaKey)
    requires LineKey(line) == Some(k) && k in Keys(HeroMeta(lines))
    ensures Keys(HeroMeta(lines + [line])) == Keys(HeroMeta(lines))
  {
    var es := Entries(lines + [line]);
    var n := |lines|;
    assert es[..n] == Entries(lines);
    assert es[n] == EntryOf(line);
    assert es[..n + 1] == es;
    AssignStep(es, n);
    assert Assign(es) == Put(HeroMeta(lines), k, LineValue(line));
  }

  /** `f"<span>{v}</span>"`: the value is inserted without escaping. */
  function Span(v: string): string {
    "<span>" + v + "</span>"
  }

  predicate Shown(v: string) {
    v != "" && v != "N/A"
  }

  /** The spans of the shown values, in order. */
  function MetaSpans(values: seq<string>): (r: seq<string>)
    ensures |r| <= |values|
    ensures forall i :: 0 <= i < |r| ==> exists j :: 0 <= j < |values| && Shown(values[j]) && r[i] == Span(values[j])
    ensures forall j :: 0 <= j < |values| && Shown(values[j]) ==> Span(values[j]) in r
    decreases |values|
  {
    if |values| == 0 then []
    else
      var rest := MetaSpans(values[1..]);
      if Shown(values[0]) then
        var r := [Span(values[0])] + rest;
        assert forall i :: 1 <= i < |r| ==> r[i] == rest[i - 1];
        r
      else rest
  }

  /**
   * The spans keep the values' order and multiplicity: the spans of two
   * runs of values are the first run's spans followed by the second's.
   */
  lemma {:induction false} MetaSpansConcat(a: seq<string>, b: seq<string>)
    ensures MetaSpans(a + b) == MetaSpans(a) + MetaSpans(b)
    decreases |a|
  {
    if |a| == 0 {
      assert a + b == b;
    } else {
      assert (a + b)[1..] == a[1..] + b;
      MetaSpansConcat(a[1..], b);
    }
  }

  /** A single value gives its span when shown and nothing otherwise. */
  lemma MetaSpansOne(v: string)
    ensures MetaSpans([v]) == if Shown(v) then [Span(v)] else []
  {
    assert [v][1..] == [];
  }

  /** `" | ".join(...)` over the spans. */
  function MetaLine(m: Meta): string {
    Join(MetaSpans(Values(m)), " | ")
  }

  /** The title and subtitle: the first two lines, stripped. */
  function HeroHeading(title: string, lines: seq<string>): (string, string) {
    (if |lines| > 0 then Strip(lines[0]) else title, if |lines| > 1 then Strip(lines[1]) else "")
  }

  /** The lines after the first two. */
  function MetaLines(lines: seq<string>): seq<string> {
    if |lines| > 2 then lines[2..] else []
  }

  /** The text parts of `_render_hero`: title, subtitle, the meta dictionary and its line. */
  method RenderHeroText(title: string, content: string)
      returns (mainTitle: string, subtitle: string, meta: Meta, metaHtml: string)
    ensures (mainTitle, subtitle) == HeroHeading(title, Split(content, "\n"))
    ensures meta == HeroMeta(MetaLines(Split(content, "\n")))
    ensures metaHtml == MetaLine(meta)
  {
    var lines := Split(content, "\n");
    mainTitle, subtitle, meta, metaHtml := HeroTextOfLines(title, lines);
  }

  /** The hero text of the content's lines. */
  method HeroTextOfLines(title: string, lines: seq<string>)
      returns (mainTitle: string, subtitle: string, meta: Meta, metaHtml: string)
    ensures (mainTitle, subtitle) == HeroHeading(title, lines)
    ensures meta == HeroMeta(MetaLines(lines))
    ensures metaHtml == MetaLine(meta)
  {
    mainTitle := if |lines| > 0 then Strip(lines[0]) else title;
    subtitle := if |lines| > 1 then Strip(lines[1]) else "";
    var rest := MetaLines(lines);
    ghost var entries := Entries(rest);
    meta := [];
    assert entries[..0] == [];
    var i := 0;
    while i < |rest|
      invariant 0 <= i <= |rest|
      invariant meta == Assign(entries[..i])
    {
      var line := rest[i];
      AssignStep(entries, i);
      assert entries[i] == EntryOf(line);
      var key := LineKey(line);
      if key.Some? {
        meta := Put(meta, key.value, LineValue(line));
      }
      i := i + 1;
    }
    assert entries[..i] == entries;
    metaHtml := MetaLine(meta);
  }

  /** The main title is the first line of the content, stripped. */
  lemma HeroTitleIsFirstLine(title: string, first: string, rest: string)
    requires '\n' !in first
    ensures HeroHeading(title, Split(first + "\n" + rest, "\n")).0 == Strip(first)
  {
    SplitAtFirst(first, rest, "\n");
  }

  /** The lines of the hero content the article writer produces: title, blank, subtitle, blank, the rest. */
  lemma WriterHeroLines(t: string, sub: string, rest: string)
    requires '\n' !in t && '\n' !in sub
    ensures Split(t + "\n\n" + sub + "\n\n" + rest, "\n") == [t, "", sub, ""] + Split(rest, "\n")
  {
    var nl := "\n";
    assert t + "\n\n" + sub + "\n\n" + rest == t + nl + ("" + nl + (sub + nl + ("" + nl + rest)));
    SplitAtFirst(t, "" + nl + (sub + nl + ("" + nl + rest)), nl);
    SplitAtFirst("", sub + nl + ("" + nl + rest), nl);
    SplitAtFirst(sub, "" + nl + rest, nl);
    SplitAtFirst("", rest, nl);
  }

  /**
   * The hero content the article writer produces puts a blank line between
   * the title and the subtitle, so line 1 is empty and the subtitle the
   * renderer shows is always empty.
   */
  lemma HeroSubtitleLost(title: string, t: string, sub: string, more: seq<string>)
    ensures HeroHeading(title, [t, "", sub, ""] + more) == (Strip(t), "")
  {
    var lines := [t, "", sub, ""] + more;
    assert lines[0] == t && lines[1] == "";
    assert Strip("") == "" by {
      assert LStrip("") == "";
    }
  }

  /** The intended heading: the subtitle is the first non-blank line after the title. */
  function HeroHeadingIntended(title: string, lines: seq<string>): (string, string) {
    (if |lines| > 0 then Strip(lines[0]) else title, if |lines| > 1 then FirstNonBlank(lines[1..]) else "")
  }

  /** The first line whose stripped form is not empty, stripped. */
  function FirstNonBlank(lines: seq<string>): string
    decreases |lines|
  {
    if |lines| == 0 then ""
    else if Strip(lines[0]) != "" then Strip(lines[0])
    else FirstNonBlank(lines[1..])
  }

  /** The intended subtitle is a later line, stripped, and it is empty only when every later line is blank. */
  lemma {:induction false} FirstNonBlankSpec(lines: seq<string>)
    ensures var r := FirstNonBlank(lines);
            (r != "" ==> exists i :: 0 <= i < |lines| && r == Strip(lines[i]))
            && (r == "" <==> forall i :: 0 <= i < |lines| ==> Strip(lines[i]) == "")
    decreases |lines|
  {
    if |lines| > 0 && Strip(lines[0]) == "" {
      FirstNonBlankSpec(lines[1..]);
      assert forall i :: 1 <= i < |lines| ==> lines[i] == lines[1..][i - 1];
      var r := FirstNonBlank(lines[1..]);
      if r != "" {
        var i :| 0 <= i < |lines[1..]| && r == Strip(lines[1..][i]);
        assert r == Strip(lines[i + 1]);
      }
    }
  }

  /** With the intended heading the writer's subtitle is shown. */
  lemma HeroSubtitleShown(title: string, t: string, sub: string, more: seq<string>)
    requires Strip(sub) != ""
    ensures HeroHeadingIntended(title, [t, "", sub, ""] + more) == (Strip(t), Strip(sub))
  {
    var lines := [t, "", sub, ""] + more;
    var tail := ["", sub, ""] + more;
    assert lines[1..] == tail;
    BlankThenShown(sub, [""] + more);
    assert tail == [""] + ([sub] + ([""] + more));
  }

  /** A blank line is skipped in the search for the first non-blank one. */
  lemma BlankThenShown(sub: string, more: seq<string>)
    requires Strip(sub) != ""
    ensures FirstNonBlank([""] + ([sub] + more)) == Strip(sub)
  {
    var lines := [""] + ([sub] + more);
    assert Strip("") == "" by {
      assert LStrip("") == "";
    }
    assert lines[0] == "";
    assert lines[1..] == [sub] + more;
    assert ([sub] + more)[0] == sub;
  }

  /** As written: the hero the article writer produces reaches the renderer with an empty subtitle. */
  lemma ArticleHeroSubtitleLost(fallback: string, t: string, sub: string, pc: Extractor.PaperContent)
    requires '\n' !in t && '\n' !in sub
    ensures HeroHeading(fallback, Split(Writer.HeroContent(t, sub, pc), "\n")) == (Strip(t), "")
  {
    WriterHeroLines(t, sub, Writer.HeroDetails(pc));
    HeroSubtitleLost(fallback, t, sub, Split(Writer.HeroDetails(pc), "\n"));
  }

  /** With the intended heading the article writer's subtitle is shown. */
  lemma ArticleHeroSubtitleShown(fallback: string, t: string, sub: string, pc: Extractor.PaperContent)
    requires '\n' !in t && '\n' !in sub && Strip(sub) != ""
    ensures HeroHeadingIntended(fallback, Split(Writer.HeroContent(t, sub, pc), "\n")) == (Strip(t), Strip(sub))
  {
    WriterHeroLines(t, sub, Writer.HeroDetails(pc));
    HeroSubtitleShown(fallback, t, sub, Split(Writer.HeroDetails(pc), "\n"));
  }

  // ---------------------------------------------------------------- _render_paper_info_section

  /** What every kept item satisfies: a label without `:`, a stripped value that is neither empty nor `N/A`. */
  predicate GoodItem(item: (string, string)) {
    ':' !in item.0 && Shown(item.1) && IsStripped(item.1)
  }

  /** The item of one line: `**label**value`, value stripped, empty and `N/A` values dropped. */
  function InfoLine(line: string): (r: Option<(string, string)>)
    ensures r.Some? ==> GoodItem(r.value)
    ensures r.Some? ==> StartsWith(Strip(line), "**") && Contains(Strip(line)[2..], "**")
  {
    var l := Strip(line);
    if StartsWith(l, "**") && Contains(l[2..], "**") then
      var rest := l[2..];
      var i := Find(rest, "**").value;
      var caption := LabelOf(rest[..i]);
      var value := Strip(rest[i + 2..]);
      if Shown(value) then Some((caption, value)) else None
    else None
  }

  /** `part.replace(":", "").strip()`. */
  function LabelOf(part: string): (r: string)
    ensures ':' !in r
  {
    ReplaceCharRemoves(part, ':', "");
    StripKeepsAbsent(ReplaceAll(part, ":", ""), ':');
    Strip(ReplaceAll(part, ":", ""))
  }

  /** `info_items` after the given lines. */
  function InfoItems(lines: seq<string>): (items: seq<(string, string)>)
    ensures |items| <= |lines|
  {
    Somes(MapSeq(lines, InfoLine))
  }

  /** Every item has a label without `:` and a shown, stripped value. */
  lemma InfoItemsGood(lines: seq<string>)
    ensures forall i :: 0 <= i < |InfoItems(lines)| ==> GoodItem(InfoItems(lines)[i])
  {
    SomesOfMapSatisfy(lines, InfoLine, GoodItem);
  }

  /** Items keep the order of their lines. */
  lemma InfoItemsConcat(a: seq<string>, b: seq<string>)
    ensures InfoItems(a + b) == InfoItems(a) + InfoItems(b)
  {
    MapSeqConcat(a, b, InfoLine);
    SomesConcat(MapSeq(a, InfoLine), MapSeq(b, InfoLine));
  }

  lemma InfoItemsOne(line: string)
    ensures InfoItems([line]) == if InfoLine(line).Some? then [InfoLine(line).value] else []
  {
    var os := MapSeq([line], InfoLine);
    assert os == [InfoLine(line)];
    assert os[1..] == [];
  }

  /** The item loop of `_render_paper_info_section`. */
  method PaperInfoItems(content: string) returns (items: seq<(string, string)>)
    ensures items == InfoItems(Split(content, "\n"))
  {
    var lines := Split(content, "\n");
    items := CollectInfoItems(lines);
  }

  /** The loop over the lines of the paper-info content: each line's item, if it has one. */
  method CollectInfoItems(lines: seq<string>) returns (items: seq<(string, string)>)
    ensures items == InfoItems(lines)
  {
    items := CollectSomes(lines, InfoLine);
  }


  const LinkLabels: seq<string> := ["原文链接", "链接", "arXiv", "DOI"]

  /** What `format_value` puts in a row: a link, or escaped text. */
  datatype Cell = Anchor(href: string) | Escaped(html: string)

  /** `s[2:]` when `s` starts with `": "`. */
  function DropColonPrefix(s: string): (r: string)
    ensures StartsWith(s, ": ") ==> ": " + r == s
    ensures !StartsWith(s, ": ") ==> r == s
  {
    if StartsWith(s, ": ") then s[2..] else s
  }

  /** `format_value`: link labels with an `http` value become anchors; other values are escaped after losing a leading `": "`. */
  function FormatValue(caption: string, value: string): (r: Cell)
    ensures r.Anchor? <==> caption in LinkLabels && StartsWith(value, "http")
    ensures r.Anchor? ==> r.href == value
    ensures r.Escaped? ==> UnescapeHtml(r.html) == DropColonPrefix(value)
    ensures r.Escaped? ==> '<' !in r.html && '>' !in r.html && '"' !in r.html
  {
    if caption in LinkLabels && StartsWith(value, "http") then Anchor(value)
    else
      var v := DropColonPrefix(value);
      EscapeHtmlRoundTrip(v);
      EscapeHtmlSafe(v);
      Escaped(EscapeHtml(v))
  }

  predicate RowParts(caption: string, value: string) {
    '*' !in caption && ':' !in caption && IsStripped(caption) && IsStripped(value) && value != ""
  }

  lemma StripOfSpaced(v: string)
    requires IsStripped(v) && v != ""
    ensures Strip(" " + v) == v
  {
    var s := " " + v;
    assert s[1..] == v;
    assert LStrip(s) == LStrip(v);
    StripStripped(v);
  }

  /** A line reading `**c**v` once stripped, with no `*` in `c`, yields label `c` and value `v`, stripped. */
  lemma InfoLineOfRow(line: string, c: string, v: string)
    requires Strip(line) == "**" + c + "**" + v && '*' !in c
    ensures InfoLine(line) == (var value := Strip(v); if Shown(value) then Some((LabelOf(c), value)) else None)
  {
    var l := Strip(line);
    assert l[..2] == "**";
    var rest := l[2..];
    assert rest == c + ("**" + v);
    FindAfterFreePrefix(c, "**" + v, "**");
    assert rest[..|c|] == c;
    assert rest[|c| + 2..] == v;
  }

  /** The same split for the intended reading. */
  lemma InfoLineIntendedOfRow(line: string, c: string, v: string)
    requires Strip(line) == "**" + c + "**" + v && '*' !in c
    ensures InfoLineIntended(line) ==
            (var raw := Strip(v);
             var value := if StartsWith(raw, ":") then Strip(raw[1..]) else raw;
             if Shown(value) then Some((LabelOf(c), value)) else None)
  {
    var l := Strip(line);
    assert l[..2] == "**";
    var rest := l[2..];
    assert rest == c + ("**" + v);
    FindAfterFreePrefix(c, "**" + v, "**");
    assert rest[..|c|] == c;
    assert rest[|c| + 2..] == v;
  }

  /** A writer row is already stripped and reads `**label**: value`. */
  lemma WriterRowShape(caption: string, value: string)
    requires RowParts(caption, value)
    ensures Strip(Writer.InfoRow(caption, value)) == "**" + caption + "**" + (": " + value)
    ensures LabelOf(caption) == caption
    ensures Strip(": " + value) == ": " + value
  {
    var row := Writer.InfoRow(caption, value);
    assert row == "**" + caption + "**" + (": " + value);
    assert row[0] == '*' && row[|row| - 1] == value[|value| - 1];
    StripStripped(row);
    ReplaceAbsent(caption, ":", "") by {
      if Contains(caption, ":") {
        ContainsHead(caption, ":");
      }
    }
    StripStripped(caption);
    StripStripped(": " + value);
  }

  /**
   * As written: a writer row keeps the `": "` in its value, so its `N/A`
   * rows are not dropped (`": N/A"` is not `"N/A"`).
   */
  lemma WriterRowKeepsColon(caption: string, value: string)
    requires RowParts(caption, value)
    ensures InfoLine(Writer.InfoRow(caption, value)) == Some((caption, ": " + value))
  {
    WriterRowShape(caption, value);
    InfoLineOfRow(Writer.InfoRow(caption, value), caption, ": " + value);
  }

  /** As written: the `": N/A"` a writer row keeps for a missing link or date is shown as `N/A`. */
  lemma NotAvailableCell(caption: string)
    ensures FormatValue(caption, ": N/A") == Escaped("N/A")
  {
    var v := ": N/A";
    assert !StartsWith(v, "http") by {
      assert v[0] == ':';
    }
    assert v[..2] == ": ";
    assert v[2..] == "N/A";
    EscapeHtmlPlain("N/A");
  }


  /** As written: a writer row's link value starts with `": "`, so it is never made an anchor. */
  lemma WriterLinkNotAnchor(caption: string, url: string)
    requires RowParts(caption, url)
    ensures InfoLine(Writer.InfoRow(caption, url)) == Some((caption, ": " + url))
    ensures FormatValue(caption, ": " + url).Escaped?
  {
    WriterRowKeepsColon(caption, url);
    ColonValueNotLink(caption, url);
  }

  /** As written: every row of the article's paper-info section keeps the `": "` in its value. */
  lemma ArticleInfoRowKeepsColon(pc: Extractor.PaperContent, i: nat)
    requires i < |Writer.InfoCaptions| && RowParts(Writer.InfoCaptions[i], Writer.InfoValues(pc)[i])
    ensures InfoLine(Writer.InfoRows(pc)[i]) == Some((Writer.InfoCaptions[i], ": " + Writer.InfoValues(pc)[i]))
  {
    WriterRowKeepsColon(Writer.InfoCaptions[i], Writer.InfoValues(pc)[i]);
  }

  /** As written: a paper without a DOI gets a DOI row whose cell reads `N/A` instead of being dropped. */
  lemma MissingDoiRowShown(pc: Extractor.PaperContent)
    requires pc.doi == ""
    ensures InfoLine(Writer.InfoRows(pc)[5]) == Some(("DOI", ": N/A"))
    ensures FormatValue("DOI", ": N/A") == Escaped("N/A")
  {
    DoiRowOfMissingDoi(pc);
    DoiRowParts();
    WriterRowKeepsColon("DOI", "N/A");
    ColonNotAvailable();
    NotAvailableCell("DOI");
  }

  lemma ColonNotAvailable()
    ensures ": " + "N/A" == ": N/A"
  {
  }

  lemma DoiRowOfMissingDoi(pc: Extractor.PaperContent)
    requires pc.doi == ""
    ensures Writer.InfoRows(pc)[5] == Writer.InfoRow("DOI", "N/A")
  {
    assert Writer.InfoValues(pc)[5] == "N/A";
  }

  lemma DoiRowParts()
    ensures RowParts("DOI", "N/A")
  {
    assert "DOI"[0] == 'D' && "DOI"[2] == 'I' && "N/A"[0] == 'N' && "N/A"[2] == 'A';
  }

  lemma ColonValueNotLink(caption: string, v: string)
    ensures FormatValue(caption, ": " + v).Escaped?
  {
    assert (": " + v)[0] == ':';
  }

  /** The intended item: the value without the `:` that separates it from the label. */
  function InfoLineIntended(line: string): (r: Option<(string, string)>)
    ensures r.Some? ==> GoodItem(r.value)
  {
    var l := Strip(line);
    if StartsWith(l, "**") && Contains(l[2..], "**") then
      var rest := l[2..];
      var i := Find(rest, "**").value;
      var caption := LabelOf(rest[..i]);
      var raw := Strip(rest[i + 2..]);
      var value := if StartsWith(raw, ":") then Strip(raw[1..]) else raw;
      if Shown(value) then Some((caption, value)) else None
    else None
  }

  /** Intended behaviour: a writer row yields its own value, and `N/A` rows are dropped. */
  lemma WriterRowIntended(caption: string, value: string)
    requires RowParts(caption, value)
    ensures InfoLineIntended(Writer.InfoRow(caption, value)) == if value == "N/A" then None else Some((caption, value))
  {
    WriterRowShape(caption, value);
    ColonValue(value);
    InfoLineIntendedOfRow(Writer.InfoRow(caption, value), caption, ": " + value);
  }

  /** The intended reading of a `: value` text drops the colon and the space. */
  lemma ColonValue(value: string)
    requires IsStripped(value) && value != ""
    ensures var raw := Strip(": " + value); StartsWith(raw, ":") && Strip(raw[1..]) == value
  {
    var raw := ": " + value;
    StripStripped(raw);
    assert raw[..1] == ":";
    assert raw[1..] == " " + value;
    StripOfSpaced(value);
  }

  /** Intended behaviour: a writer row carrying a link under a link label becomes an anchor. */
  lemma WriterLinkIntended(caption: string, url: string)
    requires RowParts(caption, url) && caption in LinkLabels && StartsWith(url, "http")
    ensures InfoLineIntended(Writer.InfoRow(caption, url)) == Some((caption, url))
    ensures FormatValue(caption, url) == Anchor(url)
  {
    WriterRowIntended(caption, url);
  }

  // ---------------------------------------------------------------- _restore_code_blocks

  /** `f"<<<CODE_BLOCK_{i}>>>"`. */
  function Placeholder(i: nat): string {
    "<<<CODE_BLOCK_" + NatToString(i) + ">>>"
  }

  // The attribute strings are spelled in short pieces so that facts about their characters stay cheap.
  const PreClass: string :=
    " class=\"bg-" + "gray-900 " + "text-gray-" + "100 p-4 " + "rounded-lg " + "overflow-" + "x-auto " + "my-4\">"
  const MonoClass: string := " class=\"font-" + "mono text-sm\">"
  const InlineClass: string :=
    " class=\"bg-" + "gray-200 " + "px-1 " + "py-0.5 " + "rounded " + "font-" + "mono text-sm\">"

  const PreOpen: string := "<pre" + PreClass + "<code" + MonoClass
  const PreClose: string := "</code>" + "</pre>"
  const CodeOpen: string := "<code" + InlineClass
  const CodeClose: string := "</code>"

  /** A code block as HTML: a `<pre>` block iff it spans several lines, its text escaped. */
  function CodeHtml(code: string): (r: string)
    ensures StartsWith(r, "<pre") <==> '\n' in code
  {
    var tail := EscapeHtml(code) + (if '\n' in code then PreClose else CodeClose);
    if '\n' in code then
      OpenedBy(PreOpen, tail, "<pre");
      PreOpen + tail
    else
      OpenedBy(CodeOpen, tail, "<code");
      assert (CodeOpen + tail)[1] == 'c';
      CodeOpen + tail
  }

  lemma OpenedBy(open: string, rest: string, p: string)
    requires StartsWith(open, p)
    ensures StartsWith(open + rest, p)
  {
    assert (open + rest)[..|p|] == open[..|p|];
  }

  /** One step of the restore loop. */
  function RestoreStep(text: string, i: nat, code: string): string {
    if Contains(text, Placeholder(i)) then ReplaceAll(text, Placeholder(i), CodeHtml(code)) else text
  }

  /** The text after restoring the given blocks in index order. */
  function Restored(text: string, blocks: seq<string>): string
    decreases |blocks|
  {
    if |blocks| == 0 then text
    else RestoreStep(Restored(text, blocks[..|blocks| - 1]), |blocks| - 1, blocks[|blocks| - 1])
  }

  /** `_restore_code_blocks`. */
  method RestoreCodeBlocks(text: string, blocks: seq<string>) returns (r: string)
    ensures r == Restored(text, blocks)
  {
    r := text;
    var i := 0;
    while i < |blocks|
      invariant 0 <= i <= |blocks|
      invariant r == Restored(text, blocks[..i])
    {
      assert blocks[..i + 1][..i] == blocks[..i];
      var placeholder := Placeholder(i);
      if Contains(r, placeholder) {
        r := ReplaceAll(r, placeholder, CodeHtml(blocks[i]));
      }
      i := i + 1;
    }
    assert blocks[..i] == blocks;
  }

  /** The `in` test is only a shortcut: replacing an absent placeholder changes nothing. */
  lemma RestoreStepIsReplace(text: string, i: nat, code: string)
    ensures RestoreStep(text, i, code) == ReplaceAll(text, Placeholder(i), CodeHtml(code))
  {
    if !Contains(text, Placeholder(i)) {
      ReplaceAbsent(text, Placeholder(i), CodeHtml(code));
    }
  }

  /** A text without `<` comes back unchanged. */
  lemma {:induction false} RestoreWithoutPlaceholders(text: string, blocks: seq<string>)
    requires '<' !in text
    ensures Restored(text, blocks) == text
    decreases |blocks|
  {
    if |blocks| > 0 {
      RestoreWithoutPlaceholders(text, blocks[..|blocks| - 1]);
      if Contains(text, Placeholder(|blocks| - 1)) {
        ContainsHead(text, Placeholder(|blocks| - 1));
      }
    }
  }

  /** A single inline placeholder between texts without `<` becomes that block's HTML. */
  lemma RestoreOnePlaceholder(a: string, b: string, code: string)
    requires '<' !in a && '<' !in b
    ensures Restored(a + Placeholder(0) + b, [code]) == a + CodeHtml(code) + b
  {
    var p := Placeholder(0);
    assert p[0] == '<';
    assert [code][..0] == [];
    RestoreStepIsReplace(a + p + b, 0, code);
    ReplaceSingle(a, b, p, CodeHtml(code));
  }

  /** Every `<` of `s` is followed, inside `s`, by a character other than `<`: no `<<` starts in `s`. */
  predicate LtFollowed(s: string) {
    forall k :: 0 <= k < |s| && s[k] == '<' ==> k + 1 < |s| && s[k + 1] != '<'
  }

  lemma LtFollowedConcat(x: string, y: string)
    requires LtFollowed(x) && LtFollowed(y)
    ensures LtFollowed(x + y)
  {
    var s := x + y;
    forall k | 0 <= k < |s| && s[k] == '<'
      ensures k + 1 < |s| && s[k + 1] != '<'
    {
      if k < |x| {
        assert s[k] == x[k] && s[k + 1] == x[k + 1];
      } else {
        assert s[k] == y[k - |x|];
        assert k + 1 - |x| < |y| ==> s[k + 1] == y[k + 1 - |x|];
      }
    }
  }

  lemma LtFreeFollowed(s: string)
    requires '<' !in s
    ensures LtFollowed(s)
  {
  }

  /** `<` followed by a name without `<`: the shape of a tag's opening. */
  lemma TagFollowed(name: string)
    requires name != [] && '<' !in name
    ensures LtFollowed("<" + name)
  {
    var s := "<" + name;
    assert s[1] == name[0];
    assert forall k :: 1 <= k < |s| ==> s[k] == name[k - 1];
  }

  lemma PreTagsFollowed()
    ensures LtFollowed(PreOpen) && LtFollowed(PreClose)
  {
    assert "<pre" == "<" + "pre";
    assert "<code" == "<" + "code";
    TagFollowed("pre");
    TagFollowed("code");
    ClassesFollowed();
    LtFollowedConcat("<pre", PreClass);
    LtFollowedConcat("<pre" + PreClass, "<code");
    LtFollowedConcat("<pre" + PreClass + "<code", MonoClass);
    CloseTagsFollowed();
    LtFollowedConcat("</code>", "</pre>");
  }

  lemma InlineTagsFollowed()
    ensures LtFollowed(CodeOpen) && LtFollowed(CodeClose)
  {
    assert "<code" == "<" + "code";
    TagFollowed("code");
    ClassesFollowed();
    LtFollowedConcat("<code", InlineClass);
    CloseTagsFollowed();
  }

  lemma CloseTagsFollowed()
    ensures LtFollowed("</code>") && LtFollowed("</pre>")
  {
    assert "</code>" == "<" + "/code>";
    assert "</pre>" == "<" + "/pre>";
    TagFollowed("/code>");
    TagFollowed("/pre>");
  }

  lemma ClassesFollowed()
    ensures LtFollowed(PreClass) && LtFollowed(MonoClass) && LtFollowed(InlineClass)
  {
    PreClassFree();
    InlineClassFree();
    LtFreeFollowed(PreClass);
    LtFreeFollowed(MonoClass);
    LtFreeFollowed(InlineClass);
  }

  lemma PreClassFree()
    ensures '<' !in PreClass
  {
    assert '<' !in " class=\"bg-" + "gray-900 " + "text-gray-";
  }

  lemma InlineClassFree()
    ensures '<' !in InlineClass
  {
    assert '<' !in " class=\"bg-" + "gray-200 " + "px-1 ";
  }

  /** The HTML of a code block never holds `<<`, so no placeholder can begin inside it. */
  lemma CodeHtmlFollowed(code: string)
    ensures LtFollowed(CodeHtml(code))
  {
    EscapeHtmlSafe(code);
    LtFreeFollowed(EscapeHtml(code));
    if '\n' in code {
      PreTagsFollowed();
      LtFollowedConcat(EscapeHtml(code), PreClose);
      LtFollowedConcat(PreOpen, EscapeHtml(code) + PreClose);
    } else {
      InlineTagsFollowed();
      LtFollowedConcat(EscapeHtml(code), CodeClose);
      LtFollowedConcat(CodeOpen, EscapeHtml(code) + CodeClose);
    }
  }

  /** No occurrence of a pattern opening with `<<` begins inside a `LtFollowed` prefix. */
  lemma NoMatchInFollowed(x: string, q: string, pat: string)
    requires LtFollowed(x) && |pat| >= 2 && pat[0] == '<' && pat[1] == '<'
    ensures forall k :: 0 <= k < |x| ==> !StartsWith((x + q)[k..], pat)
  {
  }

  /** A placeholder is found at the front of any text it starts. */
  lemma PlaceholderAtFront(i: nat, rest: string)
    ensures PlaceholderAt(Placeholder(i) + rest) == Some(i)
  {
    var digits := NatToString(i);
    var s := Placeholder(i) + rest;
    assert s == PlaceholderHead + (digits + ">>>" + rest);
    var t := s[|PlaceholderHead|..];
    assert t == digits + (">>>" + rest);
    assert t[..|digits|] == digits;
    DigitRunOf(digits, ">>>" + rest);
    assert t[|digits|..] == ">>>" + rest;
    NatToStringRoundTrip(i);
  }

  /** The shape of a placeholder: `<<<`, then `C`, then no `<` at all. */
  lemma PlaceholderShape(i: nat)
    ensures |Placeholder(i)| > 3 && Placeholder(i)[..3] == "<<<" && Placeholder(i)[3] == 'C'
    ensures forall j :: 3 <= j < |Placeholder(i)| ==> Placeholder(i)[j] != '<'
  {
    var d := NatToString(i);
    assert PlaceholderHead == "<<<" + "CODE_BLOCK_";
    assert Placeholder(i) == "<<<" + ("CODE_BLOCK_" + d + ">>>");
    assert '<' !in "CODE_BLOCK_" + d + ">>>";
  }

  /** No occurrence of another index's placeholder begins inside a placeholder. */
  lemma NoMatchInPlaceholder(i: nat, m: nat, q: string)
    requires i != m
    ensures forall k :: 0 <= k < |Placeholder(i)| ==> !StartsWith((Placeholder(i) + q)[k..], Placeholder(m))
  {
    var x, p := Placeholder(i), Placeholder(m);
    var s := x + q;
    PlaceholderShape(i);
    PlaceholderShape(m);
    forall k | 0 <= k < |x|
      ensures !StartsWith(s[k..], p)
    {
      if k == 0 && StartsWith(s, p) {
        assert s == p + s[|p|..];
        PlaceholderAtFront(m, s[|p|..]);
        PlaceholderAtFront(i, q);
      } else if k >= 3 {
        assert s[k..][0] == x[k] != '<';
      }
    }
  }

  /** A text to restore, cut into runs of text and code-block placeholders. */
  datatype Piece = Run(text: string) | Slot(index: nat)

  /** Runs may hold HTML tags, but no `<<`. */
  predicate RunsFollowed(ps: seq<Piece>) {
    forall k :: 0 <= k < |ps| && ps[k].Run? ==> LtFollowed(ps[k].text)
  }

  /** A piece once the blocks below `m` have been restored. */
  function PieceText(p: Piece, blocks: seq<string>, m: nat): string {
    match p
    case Run(t) => t
    case Slot(i) => if i < m && i < |blocks| then CodeHtml(blocks[i]) else Placeholder(i)
  }

  /** The text of the pieces once the blocks below `m` have been restored. */
  function Assemble(ps: seq<Piece>, blocks: seq<string>, m: nat): string
    decreases |ps|
  {
    if |ps| == 0 then "" else PieceText(ps[0], blocks, m) + Assemble(ps[1..], blocks, m)
  }

  /** Step `m` of the loop turns exactly the slots of index `m` into that block's HTML. */
  lemma {:induction false} ReplaceSlot(ps: seq<Piece>, blocks: seq<string>, m: nat)
    requires RunsFollowed(ps) && m < |blocks|
    ensures ReplaceAll(Assemble(ps, blocks, m), Placeholder(m), CodeHtml(blocks[m])) == Assemble(ps, blocks, m + 1)
    decreases |ps|
  {
    var pat, rep := Placeholder(m), CodeHtml(blocks[m]);
    if |ps| > 0 {
      var x := PieceText(ps[0], blocks, m);
      var rest := Assemble(ps[1..], blocks, m);
      assert RunsFollowed(ps[1..]) by {
        assert forall k :: 0 <= k < |ps| - 1 ==> ps[1..][k] == ps[k + 1];
      }
      ReplaceSlot(ps[1..], blocks, m);
      if ps[0] == Slot(m) {
        ReplaceAtHead(pat, rest, rep);
      } else {
        SkipPiece(ps[0], blocks, m, rest);
        ReplaceSkip(x, rest, pat, rep);
      }
    }
  }

  /** A piece other than a slot of index `m` is left alone by step `m`. */
  lemma SkipPiece(p: Piece, blocks: seq<string>, m: nat, rest: string)
    requires (p.Run? ==> LtFollowed(p.text)) && p != Slot(m) && m < |blocks|
    ensures PieceText(p, blocks, m + 1) == PieceText(p, blocks, m)
    ensures var x := PieceText(p, blocks, m);
      forall k :: 0 <= k < |x| ==> !StartsWith((x + rest)[k..], Placeholder(m))
  {
    var x, pat := PieceText(p, blocks, m), Placeholder(m);
    PlaceholderShape(m);
    assert pat[0] == pat[..3][0] && pat[1] == pat[..3][1];
    match p
    case Run(t) =>
      NoMatchInFollowed(x, rest, pat);
    case Slot(i) =>
      if i < m {
        CodeHtmlFollowed(blocks[i]);
        NoMatchInFollowed(x, rest, pat);
      } else {
        NoMatchInPlaceholder(i, m, rest);
      }
  }

  lemma {:induction false} RestorePrefix(ps: seq<Piece>, blocks: seq<string>, m: nat)
    requires RunsFollowed(ps) && m <= |blocks|
    ensures Restored(Assemble(ps, blocks, 0), blocks[..m]) == Assemble(ps, blocks, m)
    decreases m
  {
    if m > 0 {
      var prev := m - 1;
      assert blocks[..m][..prev] == blocks[..prev];
      assert blocks[..m][prev] == blocks[prev];
      RestorePrefix(ps, blocks, prev);
      RestoreStepIsReplace(Assemble(ps, blocks, prev), prev, blocks[prev]);
      ReplaceSlot(ps, blocks, prev);
    }
  }

  /**
   * Restoring a text made of runs without `<<` and placeholders turns every
   * placeholder of an index below `|blocks|` into its block's HTML, wherever
   * it stands and however often, and leaves the runs and the other
   * placeholders as they were.
   */
  lemma RestorePieces(ps: seq<Piece>, blocks: seq<string>)
    requires RunsFollowed(ps)
    ensures Restored(Assemble(ps, blocks, 0), blocks) == Assemble(ps, blocks, |blocks|)
  {
    RestorePrefix(ps, blocks, |blocks|);
    assert blocks[..|blocks|] == blocks;
  }


  // ---------------------------------------------------------------- the paragraph pass of _markdown_to_html

  /** One HTML paragraph of the output. */
  datatype Block = CodeBlock(html: string) | ListBlock(items: seq<string>) | Paragraph(html: string)

  /** The two ways a placeholder paragraph makes the pass raise. */
  datatype RenderError = NoPlaceholderMatch | CodeIndexOutOfRange(index: nat)

  /** The number of leading ASCII digits. */
  function DigitRun(s: string): (n: nat)
    ensures n <= |s| && AllDigits(s[..n]) && (n < |s| ==> !IsDigit(s[n]))
    decreases |s|
  {
    if |s| > 0 && IsDigit(s[0]) then
      var n := 1 + DigitRun(s[1..]);
      assert forall i :: 1 <= i < n ==> s[..n][i] == s[1..][..n - 1][i - 1];
      n
    else 0
  }

  const PlaceholderHead: string := "<<<CODE_BLOCK_"

  /** The index of a placeholder that starts `s`. */
  function PlaceholderAt(s: string): Option<nat> {
    if StartsWith(s, PlaceholderHead) then
      var t := s[|PlaceholderHead|..];
      var n := DigitRun(t);
      if n > 0 && StartsWith(t[n..], ">>>") then Some(DigitsToNat(t[..n])) else None
    else None
  }

  /** `re.search(r'<<<CODE_BLOCK_(\d+)>>>', p)`: the index of the leftmost placeholder. */
  function SearchPlaceholder(s: string): Option<nat>
    decreases |s|
  {
    if |s| == 0 then None
    else if PlaceholderAt(s).Some? then PlaceholderAt(s)
    else SearchPlaceholder(s[1..])
  }

  /** A placeholder made for block `i` is found again with index `i`. */
  lemma SearchFindsPlaceholder(i: nat, rest: string)
    ensures SearchPlaceholder(Placeholder(i) + rest) == Some(i)
  {
    var digits := NatToString(i);
    var s := Placeholder(i) + rest;
    assert s == PlaceholderHead + (digits + ">>>" + rest);
    var t := s[|PlaceholderHead|..];
    assert t == digits + (">>>" + rest);
    assert t[..|digits|] == digits;
    DigitRunOf(digits, ">>>" + rest);
    assert t[|digits|..] == ">>>" + rest;
    NatToStringRoundTrip(i);
  }

  lemma {:induction false} DigitRunOf(d: string, rest: string)
    requires AllDigits(d) && (|rest| > 0 ==> !IsDigit(rest[0]))
    ensures DigitRun(d + rest) == |d|
    decreases |d|
  {
    if |d| > 0 {
      assert (d + rest)[1..] == d[1..] + rest;
      DigitRunOf(d[1..], rest);
    } else {
      assert d + rest == rest;
    }
  }

  /** `[item.strip()[2:] for item in p.split('\n') if item.strip().startswith('- ')]`. */
  function ListItems(lines: seq<string>): (items: seq<string>)
    ensures |items| <= |lines|
    decreases |lines|
  {
    if |lines| == 0 then []
    else
      var l := Strip(lines[0]);
      (if StartsWith(l, "- ") then [l[2..]] else []) + ListItems(lines[1..])
  }

  /** The items of a list paragraph. */
  function ListItemsOf(p: string): (items: seq<string>) {
    ListItems(Split(p, "\n"))
  }

  /** What one paragraph becomes; `inline` is `_apply_inline_formatting`. */
  function ParagraphBlock(p: string, blocks: seq<string>, inline: string -> string): Result<Option<Block>, RenderError> {
    var q := Strip(p);
    if q == "" then Ok(None)
    else if StartsWith(q, PlaceholderHead) then
      match SearchPlaceholder(q)
      case None => Err(NoPlaceholderMatch)
      case Some(k) => if k < |blocks| then Ok(Some(CodeBlock(CodeHtml(blocks[k])))) else Err(CodeIndexOutOfRange(k))
    else if StartsWith(q, "- ") then
      var items := ListItemsOf(q);
      if |items| > 0 then Ok(Some(ListBlock(MapSeq(items, inline)))) else Ok(None)
    else Ok(Some(Paragraph(Restored(inline(q), blocks))))
  }

  /** The block one paragraph of the loop of `_markdown_to_html` produces, if any. */
  method ParagraphBlockOf(paragraph: string, blocks: seq<string>, inline: string -> string)
      returns (r: Result<Option<Block>, RenderError>)
    ensures r == ParagraphBlock(paragraph, blocks, inline)
  {
    var p := Strip(paragraph);
    if p == "" {
      return Ok(None);
    }
    if StartsWith(p, PlaceholderHead) {
      var found := SearchPlaceholder(p);
      if found.None? {
        return Err(NoPlaceholderMatch);
      }
      var k := found.value;
      if k >= |blocks| {
        return Err(CodeIndexOutOfRange(k));
      }
      return Ok(Some(CodeBlock(CodeHtml(blocks[k]))));
    } else if StartsWith(p, "- ") {
      var items := ListItemsOf(p);
      if |items| > 0 {
        return Ok(Some(ListBlock(MapSeq(items, inline))));
      }
      return Ok(None);
    } else {
      var formatted := inline(p);
      formatted := RestoreCodeBlocks(formatted, blocks);
      return Ok(Some(Paragraph(formatted)));
    }
  }

  /** The blocks of the given paragraphs; the first raising paragraph ends the pass. */
  function ParagraphPass(ps: seq<string>, blocks: seq<string>, inline: string -> string): (r: Result<seq<Block>, RenderError>)
    ensures r.Ok? ==> |r.value| <= |ps|
    decreases |ps|
  {
    if |ps| == 0 then Ok([])
    else
      match ParagraphPass(ps[..|ps| - 1], blocks, inline)
      case Err(e) => Err(e)
      case Ok(out) =>
        match ParagraphBlock(ps[|ps| - 1], blocks, inline)
        case Err(e) => Err(e)
        case Ok(None) => Ok(out)
        case Ok(Some(b)) => Ok(out + [b])
  }

  /** One more paragraph extends the pass by that paragraph's block. */
  lemma ParagraphPassStep(ps: seq<string>, i: nat, blocks: seq<string>, inline: string -> string)
    requires i < |ps|
    ensures ParagraphPass(ps[..i + 1], blocks, inline) ==
            match ParagraphPass(ps[..i], blocks, inline)
            case Err(e) => Err(e)
            case Ok(out) =>
              match ParagraphBlock(ps[i], blocks, inline)
              case Err(e) => Err(e)
              case Ok(None) => Ok(out)
              case Ok(Some(b)) => Ok(out + [b])
  {
    assert ps[..i + 1][..i] == ps[..i];
  }

  /** A failure in a prefix is the failure of the whole pass. */
  lemma {:induction false} ParagraphPassErrorPersists(ps: seq<string>, i: nat, blocks: seq<string>, inline: string -> string)
    requires i <= |ps| && ParagraphPass(ps[..i], blocks, inline).Err?
    ensures ParagraphPass(ps, blocks, inline) == ParagraphPass(ps[..i], blocks, inline)
    decreases |ps| - i
  {
    if i < |ps| {
      assert ps[..i + 1][..i] == ps[..i];
      ParagraphPassErrorPersists(ps, i + 1, blocks, inline);
    } else {
      assert ps[..i] == ps;
    }
  }

  /** The paragraph loop of `_markdown_to_html`, on the text left after the regular-expression passes. */
  method MarkdownParagraphs(text: string, blocks: seq<string>, inline: string -> string)
      returns (r: Result<seq<Block>, RenderError>)
    ensures r == ParagraphPass(Split(text, "\n\n"), blocks, inline)
  {
    var ps := Split(text, "\n\n");
    r := ParagraphLoop(ps, blocks, inline);
  }

  /** The loop over the paragraphs. */
  method ParagraphLoop(ps: seq<string>, blocks: seq<string>, inline: string -> string)
      returns (r: Result<seq<Block>, RenderError>)
    ensures r == ParagraphPass(ps, blocks, inline)
  {
    var out: seq<Block> := [];
    var i := 0;
    while i < |ps|
      invariant 0 <= i <= |ps|
      invariant ParagraphPass(ps[..i], blocks, inline) == Ok(out)
    {
      ParagraphPassStep(ps, i, blocks, inline);
      var block := ParagraphBlockOf(ps[i], blocks, inline);
      match block {
        case Err(e) =>
          ParagraphPassErrorPersists(ps, i + 1, blocks, inline);
          return Err(e);
        case Ok(None) =>
        case Ok(Some(b)) =>
          out := out + [b];
      }
      i := i + 1;
    }
    assert ps[..i] == ps;
    r := Ok(out);
  }

  /** Paragraphs that are blank produce nothing. */
  lemma BlankParagraphSkipped(p: string, blocks: seq<string>, inline: string -> string)
    requires forall i :: 0 <= i < |p| ==> IsSpace(p[i])
    ensures ParagraphBlock(p, blocks, inline) == Ok(None)
  {
    StripEmpty(p);
  }

  /** A paragraph that is a saved block's placeholder becomes that block, `<pre>` iff it spans lines. */
  lemma PlaceholderParagraph(i: nat, blocks: seq<string>, inline: string -> string)
    requires i < |blocks|
    ensures ParagraphBlock(Placeholder(i), blocks, inline) == Ok(Some(CodeBlock(CodeHtml(blocks[i]))))
  {
    var p := Placeholder(i);
    assert p[|p| - 1] == '>';
    StripStripped(p);
    assert p[..|PlaceholderHead|] == PlaceholderHead;
    SearchFindsPlaceholder(i, "");
    assert p + "" == p;
  }

  /** A list paragraph yields one list of the inline-formatted `- ` lines, or nothing when there are none. */
  lemma ListParagraph(p: string, blocks: seq<string>, inline: string -> string)
    requires StartsWith(Strip(p), "- ")
    ensures var items := ListItemsOf(Strip(p));
            ParagraphBlock(p, blocks, inline) == if |items| > 0 then Ok(Some(ListBlock(MapSeq(items, inline)))) else Ok(None)
  {
    var q := Strip(p);
    assert q[0] == '-';
    assert !StartsWith(q, PlaceholderHead) by {
      assert PlaceholderHead[0] == '<';
    }
  }

  /**
   * Any other paragraph becomes one `<p>` of its inline-formatted text with the
   * saved blocks restored; text the formatting leaves without `<` is kept as it is.
   */
  lemma PlainParagraph(p: string, blocks: seq<string>, inline: string -> string)
    requires Strip(p) != "" && !StartsWith(Strip(p), PlaceholderHead) && !StartsWith(Strip(p), "- ")
    ensures ParagraphBlock(p, blocks, inline) == Ok(Some(Paragraph(Restored(inline(Strip(p)), blocks))))
    ensures '<' !in inline(Strip(p)) ==> ParagraphBlock(p, blocks, inline) == Ok(Some(Paragraph(inline(Strip(p)))))
  {
    if '<' !in inline(Strip(p)) {
      RestoreWithoutPlaceholders(inline(Strip(p)), blocks);
    }
  }

  /** A `- ` paragraph whose first line is only the dash and whose other line is not an item vanishes. */
  lemma LoneDashParagraphVanishes(rest: string, blocks: seq<string>, inline: string -> string)
    requires '\n' !in rest && IsStripped(rest) && rest != "" && rest[0] != '-'
    ensures ParagraphBlock("- \n" + rest, blocks, inline) == Ok(None)
  {
    var p := "- \n" + rest;
    assert p[0] == '-' && p[|p| - 1] == rest[|rest| - 1];
    StripStripped(p);
    assert StartsWith(p, "- ") by {
      assert p[..2] == "- ";
    }
    ListParagraph(p, blocks, inline);
    LoneDashItems(rest);
  }

  /** The dash line `- ` strips to `-`, which is not an item. */
  lemma LoneDashItems(rest: string)
    requires '\n' !in rest && IsStripped(rest) && rest != "" && rest[0] != '-'
    ensures ListItemsOf("- \n" + rest) == []
  {
    assert "- \n" + rest == "- " + "\n" + rest;
    SplitAtFirst("- ", rest, "\n");
    SplitWithoutSeparator(rest, "\n") by {
      if Contains(rest, "\n") {
        ContainsHead(rest, "\n");
      }
    }
    var lines := Split("- \n" + rest, "\n");
    assert lines == ["- ", rest];
    assert Strip("- ") == "-" by {
      assert RStrip("- ") == "-";
    }
    StripStripped(rest);
    assert lines[1..] == [rest];
    assert !StartsWith(rest, "- ");
    assert ListItems([rest]) == [] by {
      assert [rest][1..] == [];
    }
    assert !StartsWith(Strip("- "), "- ");
  }


}
