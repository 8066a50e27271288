/**
 * The publication-date label of an arXiv paper (`_fetch_arxiv_metadata`):
 * taken from the feed's `published` field when there is one, otherwise
 * inferred from the identifier's `YYMM` prefix.
 */
module ArxivDates {
  import opened Wrappers
  import opened Text

  const UnknownDate: string := "未知日期"

  /** `f"{year}年{month}月"`. */
  function YearMonth(year: int, month: int): (r: string)
    ensures |r| >= 4
  {
    IntToString(year) + "年" + IntToString(month) + "月"
  }

  /**
   * The label inferred from an identifier; `None` where `int()` on
   * characters 2-3 raises `ValueError` (they are not checked to be digits).
   */
  function InferDate(id: string): (r: Option<string>)
    ensures r.None? <==> |id| >= 4 && IsDigit(id[0]) && IsDigit(id[1]) && PyInt(id[2..4]).None?
    ensures (|id| < 4 || !IsDigit(id[0]) || !IsDigit(id[1])) ==> r == Some(UnknownDate)
  {
    if |id| >= 4 && IsDigit(id[0]) && IsDigit(id[1]) then
      var yy := DigitsToNat(id[..2]);
      match PyInt(id[2..4])
      case None => None
      case Some(mm) => Some(YearMonth(2000 + yy, mm))
    else Some(UnknownDate)
  }

  /** The label of a feed entry: the parsed timestamp, else the first seven characters, else the inferred label. */
  function PublicationLabel(published: string, parsed: Option<(int, int)>, id: string): (r: Option<string>)
    ensures published != "" && parsed.Some? ==> r == Some(YearMonth(parsed.value.0, parsed.value.1))
    ensures published != "" && parsed.None? ==> r == Some(Prefix(published, 7))
    ensures published == "" ==> r == InferDate(id)
  {
    if published != "" then
      match parsed
      case Some((y, m)) => Some(YearMonth(y, m))
      case None => Some(Prefix(published, 7))
    else InferDate(id)
  }

  lemma TwoDigits(a: char, b: char)
    requires IsDigit(a) && IsDigit(b)
    ensures DigitsToNat([a, b]) == 10 * DigitValue(a) + DigitValue(b)
  {
    assert [a, b][..1] == [a];
    assert [a][..0] == [];
    assert DigitsToNat([a]) == DigitValue(a);
  }

  /** A new-style identifier `YYMM.NNNNN` gives `(2000+YY)年(MM)月`, with MM as a number (no leading zero). */
  lemma InferDateOfNewStyleId(id: string)
    requires |id| >= 4 && IsDigit(id[0]) && IsDigit(id[1]) && IsDigit(id[2]) && IsDigit(id[3])
    ensures InferDate(id) == Some(YearMonth(2000 + 10 * DigitValue(id[0]) + DigitValue(id[1]),
                                            10 * DigitValue(id[2]) + DigitValue(id[3])))
  {
    assert id[..2] == [id[0], id[1]];
    assert id[2..4] == [id[2], id[3]];
    TwoDigits(id[0], id[1]);
    TwoDigits(id[2], id[3]);
    PyIntOfDigits(id[2..4]);
  }

  lemma YearMonthExample()
    ensures YearMonth(2023, 12) == "2023年12月"
  {
    assert IntToString(2023) == "2023" by {
      assert NatToString(2) == "2";
      assert NatToString(20) == "20";
      assert NatToString(202) == "202";
    }
    assert IntToString(12) == "12" by {
      assert NatToString(1) == "1";
    }
  }

  /** The example of the source's own comment: `2312.00752` was published in December 2023. */
  lemma InferDateExample(id: string)
    requires id == "2312.00752"
    ensures InferDate(id) == Some("2023年12月")
  {
    InferDateOfNewStyleId(id);
    assert 2000 + 10 * DigitValue(id[0]) + DigitValue(id[1]) == 2023;
    assert 10 * DigitValue(id[2]) + DigitValue(id[3]) == 12;
    YearMonthExample();
  }

  /** Characters 2-3 are not checked: a dot among them (`12.345`) makes `int()` raise instead of giving a label. */
  lemma InferDateRaisesOnDotInMonth(id: string)
    requires |id| >= 4 && IsDigit(id[0]) && IsDigit(id[1]) && id[2] == '.'
    ensures InferDate(id) == None
  {
    PyIntRejects(id[2..4]);
  }

  /** An identifier not starting with two digits has no inferable date. */
  lemma InferDateOfOldStyleId(rest: string)
    ensures InferDate("hep-th/" + rest) == Some(UnknownDate)
  {
  }
}
