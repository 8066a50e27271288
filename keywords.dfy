/**
 * `PaperRecommender._extract_keywords`: the most frequent long, alphabetic,
 * non-stopword words of a text, most frequent first, ties in order of first
 * appearance (Python's `sorted(..., reverse=True)` is stable).
 */
module Keywords {
  import opened Wrappers
  import opened Text

  // ---------------------------------------------------------------- words

  /** `\w` of Python's `re`, restricted to ASCII: letters, digits and `_`. */
  predicate IsWordChar(c: char) {
    IsAsciiLetter(c) || IsDigit(c) || c == '_'
  }

  /** What `re.sub(r'[^\w\s]', ' ', ...)` makes of one character. */
  function CleanChar(c: char): char {
    if IsWordChar(c) || IsSpace(c) then c else ' '
  }

  /** `re.sub(r'[^\w\s]', ' ', text.lower())`. */
  function Cleaned(text: string): (r: string)
    ensures |r| == |text|
  {
    MapSeq(Lower(text), CleanChar)
  }

  /** The number of leading characters that are not whitespace. */
  function RunLength(s: string): (n: nat)
    ensures n <= |s|
    ensures n < |s| ==> IsSpace(s[n])
    decreases |s|
  {
    if |s| == 0 || IsSpace(s[0]) then 0 else 1 + RunLength(s[1..])
  }

  lemma {:induction false} RunHasNoSpace(s: string)
    ensures forall i :: 0 <= i < RunLength(s) ==> !IsSpace(s[i])
    decreases |s|
  {
    if |s| > 0 && !IsSpace(s[0]) {
      RunHasNoSpace(s[1..]);
      assert forall i :: 1 <= i < RunLength(s) ==> s[i] == s[1..][i - 1];
    }
  }

  /** `s.split()`: the maximal runs of non-whitespace characters, in order. */
  function Words(s: string): seq<string>
    decreases |s|
  {
    var t := LStrip(s);
    if |t| == 0 then []
    else
      var n := RunLength(t);
      [t[..n]] + Words(t[n..])
  }

  /** Every word `split()` yields is non-empty and holds no whitespace. */
  lemma {:induction false} WordsAreRuns(s: string)
    ensures forall i :: 0 <= i < |Words(s)| ==> Words(s)[i] != "" && forall j :: 0 <= j < |Words(s)[i]| ==> !IsSpace(Words(s)[i][j])
    decreases |s|
  {
    var t := LStrip(s);
    if |t| > 0 {
      var n := RunLength(t);
      RunHasNoSpace(t);
      WordsAreRuns(t[n..]);
      assert Words(s) == [t[..n]] + Words(t[n..]);
    }
  }

  // ---------------------------------------------------------------- the filter

  const Stopwords: set<string> := {
    "the", "a", "an", "and", "or", "but", "in", "on", "at", "to", "for",
    "of", "with", "by", "from", "as", "is", "was", "are", "were", "be",
    "been", "being", "have", "has", "had", "do", "does", "did", "will",
    "would", "could", "should", "may", "might", "must", "can", "this",
    "that", "these", "those", "i", "you", "he", "she", "it", "we", "they",
    "using", "based", "via", "through", "over", "under", "between", "among",
    "our", "ours", "ourselves", "your", "yours", "yourself",
    "yourselves", "him", "his", "himself", "her", "hers",
    "herself", "its", "itself", "them", "their", "theirs",
    "themselves", "what", "which", "who", "whom", "whose", "where", "when",
    "why", "how", "all", "each", "few", "more", "most", "other", "some",
    "such", "no", "nor", "not", "only", "own", "same", "so", "than", "too",
    "very", "just", "now", "also", "new", "novel", "proposed", "approach",
    "method", "methods", "algorithm", "algorithms", "model", "models",
    "system", "systems", "framework", "frameworks", "technique", "techniques"
  }

  /** `str.isalpha()`, restricted to ASCII letters. */
  predicate IsAlpha(w: string) {
    |w| > 0 && forall i :: 0 <= i < |w| ==> IsAsciiLetter(w[i])
  }

  /** The words counted: at least four characters, not a stopword, alphabetic. */
  predicate Qualifies(w: string) {
    |w| >= 4 && w !in Stopwords && IsAlpha(w)
  }

  // ---------------------------------------------------------------- counting

  /** How often `w` occurs in `ws`. */
  function Count(ws: seq<string>, w: string): nat
    decreases |ws|
  {
    if |ws| == 0 then 0 else Count(ws[..|ws| - 1], w) + (if ws[|ws| - 1] == w then 1 else 0)
  }

  lemma CountAppend(ws: seq<string>, x: string, w: string)
    ensures Count(ws + [x], w) == Count(ws, w) + (if x == w then 1 else 0)
  {
    assert (ws + [x])[..|ws|] == ws;
  }

  /** The position of the first occurrence of `w`. */
  function FirstIndex(ws: seq<string>, w: string): (i: nat)
    requires w in ws
    ensures i < |ws| && ws[i] == w
    decreases |ws|
  {
    if ws[0] == w then 0 else FirstIndex(ws[1..], w) + 1
  }

  /** Nothing before the first occurrence is `w`. */
  lemma {:induction false} FirstIndexFirst(ws: seq<string>, w: string)
    requires w in ws
    ensures w !in ws[..FirstIndex(ws, w)]
    decreases |ws|
  {
    if ws[0] != w {
      var j := FirstIndex(ws[1..], w);
      FirstIndexFirst(ws[1..], w);
      assert ws[..j + 1] == [ws[0]] + ws[1..][..j];
    }
  }

  lemma FirstIndexIs(ws: seq<string>, w: string, i: nat)
    requires i < |ws| && ws[i] == w && w !in ws[..i]
    ensures FirstIndex(ws, w) == i
  {
    var k := FirstIndex(ws, w);
    FirstIndexFirst(ws, w);
  }

  /** A word already seen keeps its first position when the list grows. */
  lemma FirstIndexAppend(ws: seq<string>, x: string, w: string)
    requires w in ws
    ensures FirstIndex(ws + [x], w) == FirstIndex(ws, w)
  {
    var i := FirstIndex(ws, w);
    FirstIndexFirst(ws, w);
    assert (ws + [x])[..i] == ws[..i];
    FirstIndexIs(ws + [x], w, i);
  }

  /** A new word's first position is where it is appended. */
  lemma FirstIndexNew(ws: seq<string>, x: string)
    requires x !in ws
    ensures FirstIndex(ws + [x], x) == |ws|
  {
    assert (ws + [x])[..|ws|] == ws;
    FirstIndexIs(ws + [x], x, |ws|);
  }

  // ---------------------------------------------------------------- the frequency dictionary

  /** A word and its count. */
  type Entry = (string, nat)

  /** The `word_freq` dictionary, in insertion order. */
  type Tally = seq<Entry>

  function EntryWord(e: Entry): string {
    e.0
  }

  /** Where `w` is a key, if it is one. */
  function Lookup(t: Tally, w: string): (r: Option<nat>)
    ensures r.Some? ==> r.value < |t| && t[r.value].0 == w
    ensures r.None? ==> forall i :: 0 <= i < |t| ==> t[i].0 != w
    decreases |t|
  {
    if |t| == 0 then None
    else if t[0].0 == w then Some(0)
    else
      match Lookup(t[1..], w)
      case None => None
      case Some(i) => Some(i + 1)
  }

  /** `word_freq[w] = word_freq.get(w, 0) + 1`. */
  function Bump(t: Tally, w: string): Tally {
    match Lookup(t, w)
    case Some(i) => t[i := (w, t[i].1 + 1)]
    case None => t + [(w, 1)]
  }

  /** The dictionary after counting the qualifying words of `ws` in order. */
  function TallyOf(ws: seq<string>): Tally
    decreases |ws|
  {
    if |ws| == 0 then []
    else
      var t := TallyOf(ws[..|ws| - 1]);
      var w := ws[|ws| - 1];
      if Qualifies(w) then Bump(t, w) else t
  }

  /** Each key once, each a word of `ws`, and the keys in order of first occurrence. */
  predicate KeyedInOrder(ws: seq<string>, t: Tally) {
    (forall i :: 0 <= i < |t| ==> t[i].0 in ws)
    && (forall i, j :: 0 <= i < j < |t| ==> t[i].0 in ws && t[j].0 in ws && FirstIndex(ws, t[i].0) < FirstIndex(ws, t[j].0))
  }

  /** Every key qualifies and is paired with its number of occurrences. */
  predicate Counted(ws: seq<string>, t: Tally) {
    forall i :: 0 <= i < |t| ==> Qualifies(t[i].0) && t[i].1 == Count(ws, t[i].0) && t[i].1 > 0
  }

  /** Every qualifying word is a key. */
  predicate Complete(ws: seq<string>, t: Tally) {
    forall w {:trigger Lookup(t, w)} :: Qualifies(w) && w in ws ==> Lookup(t, w).Some?
  }

  /** `t` is the dictionary of `ws`: every qualifying word, with its number of occurrences. */
  predicate Tallies(ws: seq<string>, t: Tally) {
    KeyedInOrder(ws, t) && Counted(ws, t) && Complete(ws, t)
  }

  lemma StepKeyed(ws: seq<string>, t: Tally, x: string, ws': seq<string>)
    requires Tallies(ws, t) && ws' == ws + [x]
    ensures KeyedInOrder(ws', if Qualifies(x) then Bump(t, x) else t)
  {
    var t' := if Qualifies(x) then Bump(t, x) else t;
    if Qualifies(x) && Lookup(t, x).None? {
      assert x !in ws;
      KeysAppended(ws, t, x, ws');
    } else {
      assert |t'| == |t| && forall i :: 0 <= i < |t| ==> t'[i].0 == t[i].0;
      KeysKept(ws, t, t', x, ws');
    }
  }

  lemma KeysKept(ws: seq<string>, t: Tally, t': Tally, x: string, ws': seq<string>)
    requires KeyedInOrder(ws, t) && ws' == ws + [x]
    requires |t'| == |t| && forall i :: 0 <= i < |t| ==> t'[i].0 == t[i].0
    ensures KeyedInOrder(ws', t')
  {
    forall i | 0 <= i < |t'|
      ensures t'[i].0 in ws' && FirstIndex(ws', t'[i].0) == FirstIndex(ws, t[i].0)
    {
      FirstIndexAppend(ws, x, t[i].0);
    }
  }

  lemma KeysAppended(ws: seq<string>, t: Tally, x: string, ws': seq<string>)
    requires KeyedInOrder(ws, t) && ws' == ws + [x] && x !in ws
    ensures KeyedInOrder(ws', t + [(x, 1)])
  {
    var t' := t + [(x, 1)];
    FirstIndexNew(ws, x);
    forall i | 0 <= i < |t|
      ensures t'[i].0 in ws' && FirstIndex(ws', t'[i].0) == FirstIndex(ws, t[i].0) < |ws|
    {
      assert t'[i] == t[i];
      FirstIndexAppend(ws, x, t[i].0);
    }
    assert t'[|t|].0 == x;
  }

  lemma StepCounted(ws: seq<string>, t: Tally, x: string, ws': seq<string>)
    requires Tallies(ws, t) && ws' == ws + [x]
    ensures Counted(ws', if Qualifies(x) then Bump(t, x) else t)
  {
    var t' := if Qualifies(x) then Bump(t, x) else t;
    var appended := Qualifies(x) && Lookup(t, x).None?;
    if appended {
      assert x !in ws;
      CountAbsent(ws, x);
    }
    assert |t'| == if appended then |t| + 1 else |t|;
    assert appended ==> t'[|t|] == (x, 1);
    forall i | 0 <= i < |t'|
      ensures Qualifies(t'[i].0) && t'[i].1 == Count(ws', t'[i].0) && t'[i].1 > 0
    {
      CountAppend(ws, x, t'[i].0);
      if i < |t| {
        assert t'[i].0 == t[i].0;
        if t[i].0 == x {
          assert Qualifies(x) && Lookup(t, x) == Some(i);
        } else {
          assert t'[i] == t[i];
        }
      }
    }
  }

  lemma {:induction false} CountAbsent(ws: seq<string>, w: string)
    requires w !in ws
    ensures Count(ws, w) == 0
    decreases |ws|
  {
    if |ws| > 0 {
      CountAbsent(ws[..|ws| - 1], w);
    }
  }

  lemma StepComplete(ws: seq<string>, t: Tally, x: string, ws': seq<string>)
    requires Tallies(ws, t) && ws' == ws + [x]
    ensures Complete(ws', if Qualifies(x) then Bump(t, x) else t)
  {
    if Qualifies(x) {
      var t' := Bump(t, x);
      assert forall i :: 0 <= i < |t| ==> t'[i].0 == t[i].0;
      forall w | Qualifies(w) && w in ws + [x]
        ensures Lookup(t', w).Some?
      {
        if w == x {
          if Lookup(t, x).None? {
            assert t'[|t|].0 == x;
          }
        } else {
          assert w in ws;
          var i := Lookup(t, w).value;
          assert t'[i].0 == w;
        }
      }
    }
  }

  /** The counting loop builds the dictionary of the words. */
  lemma {:induction false} TallyOfTallies(ws: seq<string>)
    ensures Tallies(ws, TallyOf(ws))
    decreases |ws|
  {
    if |ws| > 0 {
      var p := ws[..|ws| - 1];
      var x := ws[|ws| - 1];
      TallyOfTallies(p);
      assert p + [x] == ws;
      StepKeyed(p, TallyOf(p), x, ws);
      StepCounted(p, TallyOf(p), x, ws);
      StepComplete(p, TallyOf(p), x, ws);
    }
  }

  // ---------------------------------------------------------------- the stable sort by count

  /** `x` placed after every entry counted at least as often: one step of a stable descending sort. */
  function Insert(x: Entry, s: Tally): Tally
    decreases |s|
  {
    if |s| == 0 then [x]
    else if s[0].1 >= x.1 then [s[0]] + Insert(x, s[1..])
    else [x] + s
  }

  /** `sorted(t, key=count, reverse=True)`. */
  function SortByCount(t: Tally): Tally
    decreases |t|
  {
    if |t| == 0 then [] else Insert(t[|t| - 1], SortByCount(t[..|t| - 1]))
  }

  lemma {:induction false} InsertPermutes(x: Entry, s: Tally)
    ensures multiset(Insert(x, s)) == multiset(s) + multiset{x}
    decreases |s|
  {
    if |s| > 0 && s[0].1 >= x.1 {
      InsertPermutes(x, s[1..]);
      assert s == [s[0]] + s[1..];
    }
  }

  /** The sort only reorders. */
  lemma {:induction false} SortPermutes(t: Tally)
    ensures multiset(SortByCount(t)) == multiset(t)
    decreases |t|
  {
    if |t| > 0 {
      var p := t[..|t| - 1];
      SortPermutes(p);
      InsertPermutes(t[|t| - 1], SortByCount(p));
      assert t == p + [t[|t| - 1]];
    }
  }

  /** `a` comes before `b`: counted more often, or as often and seen first. */
  predicate Ahead(ws: seq<string>, a: Entry, b: Entry) {
    a.0 in ws && b.0 in ws
    && (a.1 > b.1 || (a.1 == b.1 && FirstIndex(ws, a.0) < FirstIndex(ws, b.0)))
  }

  predicate Ranked(ws: seq<string>, s: Tally) {
    forall i, j :: 0 <= i < j < |s| ==> Ahead(ws, s[i], s[j])
  }

  /** Inserting `x` keeps the entries ranked when `x` was seen after all of them. */
  lemma {:induction false} InsertRanked(ws: seq<string>, x: Entry, s: Tally)
    requires Ranked(ws, s) && x.0 in ws
    requires forall i :: 0 <= i < |s| ==> s[i].0 in ws && FirstIndex(ws, s[i].0) < FirstIndex(ws, x.0)
    ensures Ranked(ws, Insert(x, s))
    decreases |s|
  {
    if |s| > 0 {
      if s[0].1 >= x.1 {
        InsertRanked(ws, x, s[1..]);
        InsertPermutes(x, s[1..]);
        PrependRanked(ws, s[0], Insert(x, s[1..]), x, s[1..]);
      } else {
        InsertInFront(ws, x, s);
      }
    }
  }

  lemma PrependRanked(ws: seq<string>, h: Entry, rest: Tally, x: Entry, s: Tally)
    requires Ranked(ws, rest) && Ahead(ws, h, x)
    requires forall i :: 0 <= i < |s| ==> Ahead(ws, h, s[i])
    requires multiset(rest) == multiset(s) + multiset{x}
    ensures Ranked(ws, [h] + rest)
  {
    forall j | 0 <= j < |rest|
      ensures Ahead(ws, h, rest[j])
    {
      assert rest[j] in multiset(rest);
      if rest[j] != x {
        assert rest[j] in s;
      }
    }
    var r := [h] + rest;
    forall i, j | 0 <= i < j < |r|
      ensures Ahead(ws, r[i], r[j])
    {
      assert r[j] == rest[j - 1];
      if i > 0 {
        assert r[i] == rest[i - 1];
      }
    }
  }

  lemma InsertInFront(ws: seq<string>, x: Entry, s: Tally)
    requires Ranked(ws, s) && x.0 in ws && |s| > 0 && s[0].1 < x.1
    requires forall i :: 0 <= i < |s| ==> s[i].0 in ws
    ensures Ranked(ws, [x] + s)
  {
    var r := [x] + s;
    forall i, j | 0 <= i < j < |r|
      ensures Ahead(ws, r[i], r[j])
    {
      assert r[j] == s[j - 1];
      if i == 0 {
        if j > 1 {
          assert Ahead(ws, s[0], s[j - 1]);
        }
      } else {
        assert r[i] == s[i - 1];
      }
    }
  }

  /** Sorting a dictionary whose keys come in order of first occurrence ranks it by count, ties by first occurrence. */
  lemma {:induction false} SortRanks(ws: seq<string>, t: Tally)
    requires KeyedInOrder(ws, t)
    ensures Ranked(ws, SortByCount(t))
    decreases |t|
  {
    if |t| > 0 {
      var p := t[..|t| - 1];
      var x := t[|t| - 1];
      assert KeyedInOrder(ws, p);
      SortRanks(ws, p);
      SortPermutes(p);
      var s := SortByCount(p);
      forall i | 0 <= i < |s|
        ensures s[i].0 in ws && FirstIndex(ws, s[i].0) < FirstIndex(ws, x.0)
      {
        assert s[i] in multiset(p);
        var k :| 0 <= k < |p| && p[k] == s[i];
      }
      InsertRanked(ws, x, s);
    }
  }

  // ---------------------------------------------------------------- the keywords

  /** What `_extract_keywords(text, top_n)` returns. */
  function Keywords(text: string, topN: int): (r: seq<string>)
    ensures topN >= 0 ==> |r| <= topN
  {
    if text == "" then []
    else MapSeq(Prefix(SortByCount(TallyOf(Words(Cleaned(text)))), topN), EntryWord)
  }

  method ExtractKeywords(text: string, topN: int) returns (keywords: seq<string>)
    ensures keywords == Keywords(text, topN)
  {
    if text == "" {
      return [];
    }
    var words := Words(Cleaned(text));
    var freq: Tally := [];
    for k := 0 to |words|
      invariant freq == TallyOf(words[..k])
    {
      var w := words[k];
      assert words[..k + 1][..k] == words[..k];
      if |w| >= 4 && w !in Stopwords && IsAlpha(w) {
        match Lookup(freq, w) {
          case Some(i) => freq := freq[i := (w, freq[i].1 + 1)];
          case None => freq := freq + [(w, 1)];
        }
      }
    }
    assert words[..|words|] == words;
    var ranked := SortByCount(freq);
    keywords := MapSeq(Prefix(ranked, topN), EntryWord);
  }

  /** The words of `text` that `_extract_keywords` looks at. */
  function TextWords(text: string): seq<string> {
    Words(Cleaned(text))
  }

  /** The ranked dictionary and what it shares with the keywords. */
  lemma RankedTally(text: string)
    requires text != ""
    ensures var ws := TextWords(text);
      var s := SortByCount(TallyOf(ws));
      && Ranked(ws, s)
      && (forall i :: 0 <= i < |s| ==> Qualifies(s[i].0) && s[i].0 in ws && s[i].1 == Count(ws, s[i].0))
      && (forall w :: Qualifies(w) && w in ws ==> exists k :: 0 <= k < |s| && s[k].0 == w)
  {
    var ws := TextWords(text);
    var t := TallyOf(ws);
    var s := SortByCount(t);
    TallyOfTallies(ws);
    SortRanks(ws, t);
    SortPermutes(t);
    forall i | 0 <= i < |s|
      ensures Qualifies(s[i].0) && s[i].0 in ws && s[i].1 == Count(ws, s[i].0)
    {
      assert s[i] in multiset(t);
      var k :| 0 <= k < |t| && t[k] == s[i];
    }
    forall w | Qualifies(w) && w in ws
      ensures exists k :: 0 <= k < |s| && s[k].0 == w
    {
      var j := Lookup(t, w).value;
      assert t[j] in multiset(s);
      var k :| 0 <= k < |s| && s[k] == t[j];
    }
  }

  /**
   * The keywords are distinct qualifying words of the text, most frequent
   * first, equally frequent ones in order of first appearance.
   */
  lemma KeywordsRanked(text: string, topN: int)
    ensures var r := Keywords(text, topN);
      var ws := TextWords(text);
      && (forall i :: 0 <= i < |r| ==> Qualifies(r[i]) && r[i] in ws)
      && (forall i, j :: 0 <= i < j < |r| ==>
            r[i] in ws && r[j] in ws
            && (Count(ws, r[i]) > Count(ws, r[j])
                || (Count(ws, r[i]) == Count(ws, r[j]) && FirstIndex(ws, r[i]) < FirstIndex(ws, r[j]))))
  {
    if text != "" {
      RankedTally(text);
      var ws := TextWords(text);
      var s := SortByCount(TallyOf(ws));
      var p := Prefix(s, topN);
      var r := Keywords(text, topN);
      assert forall i :: 0 <= i < |r| ==> r[i] == s[i].0;
      forall i, j | 0 <= i < j < |r|
        ensures Ahead(ws, s[i], s[j])
      {
      }
    }
  }

  /** A qualifying word of the text that is left out ranks after every keyword, and the list is full. */
  lemma KeywordsAreTop(text: string, topN: int, w: string)
    requires topN >= 0
    requires Qualifies(w) && w in TextWords(text) && w !in Keywords(text, topN)
    ensures |Keywords(text, topN)| == topN
    ensures var ws := TextWords(text);
      forall i :: 0 <= i < |Keywords(text, topN)| ==>
        var k := Keywords(text, topN)[i];
        k in ws && (Count(ws, k) > Count(ws, w) || (Count(ws, k) == Count(ws, w) && FirstIndex(ws, k) < FirstIndex(ws, w)))
  {
    EmptyTextNoWords();
    RankedTally(text);
    var ws := TextWords(text);
    var s := SortByCount(TallyOf(ws));
    var r := Keywords(text, topN);
    KeywordsOfRanking(text, topN);
    var k :| 0 <= k < |s| && s[k].0 == w;
    assert k >= |r|;
    forall i | 0 <= i < |r|
      ensures Ahead(ws, s[i], s[k])
    {
    }
  }

  lemma EmptyTextNoWords()
    ensures TextWords("") == []
  {
  }

  /** The keywords of a non-empty text are the words of the first `topN` ranked entries. */
  lemma KeywordsOfRanking(text: string, topN: int)
    requires text != "" && topN >= 0
    ensures var s := SortByCount(TallyOf(TextWords(text)));
      var r := Keywords(text, topN);
      && |r| == Min(topN, |s|)
      && forall i :: 0 <= i < |r| ==> r[i] == s[i].0
  {
  }

  /** The keywords are distinct. */
  lemma KeywordsDistinct(text: string, topN: int)
    ensures var r := Keywords(text, topN);
      forall i, j :: 0 <= i < j < |r| ==> r[i] != r[j]
  {
    KeywordsRanked(text, topN);
  }
}
