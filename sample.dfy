/** The dummy sheet that `fetchData` installs (sheet.js:199-205), and what the model says the
    page does with it. */
module Sample {
  import opened Pattern
  import opened Classifier
  import opened Rows
  import opened Csv
  import opened Table

  function R(a: string, b: string, c: string): Row {
    [Field("A", Str(a)), Field("B", Str(b)), Field("C", Str(c))]
  }

  /** `sheetData` after `fetchData`: the first object spells out column names, but to the
      code it is an ordinary data row. */
  function SampleData(): Dataset {
    [ R("Name", "Age", "Link"),
      R("Alice", "30", "http://example.com"),
      R("Bob", "25", ""),
      R("", "35", "http://example.org"),
      R("Charlie", "", "http://example.net") ]
  }

  // ---------------------------------------------------------------------------
  // Single values.

  lemma ClassifierVectors()
    ensures IsNumber("123") && !IsNumber("12a") && !IsNumber("")
    ensures IsWord("abc") && !IsWord("abc1") && !IsWord("")
  {
    assert "12a"[2] == 'a';
    assert "abc1"[3] == '1';
  }

  /** "30" matches `^\d+$` and not `^[a-zA-Z]+$`. */
  lemma ThirtyIsANumber()
    ensures Matches(NumberPattern, "30") && !Matches(WordPattern, "30")
  {
    NumberIsPattern("30");
    WordIsPattern("30");
    assert IsNumber("30");
    assert !IsWord("30") by { assert "30"[0] == '3'; }
  }

  /** The address in the second sample row, `v`, is a link. Its host is passed as `host`
      so that the literal is unfolded once. */
  lemma SampleAddressIsLink(v: string, host: string)
    requires v == TestText(SampleData()[1][2].value) && host == "example.com"
    ensures IsLink(v)
  {
    HostLetters(host);
    HttpLetterHostIsLink(host);
    assert v == "http://" + host;
  }

  lemma HostLetters(host: string)
    requires host == "example.com"
    ensures |host| >= 2 && IsAsciiLetter(host[0])
    ensures forall i :: 0 <= i < |host| ==> IsAsciiLetter(host[i]) || host[i] == '.'
  {
  }

  lemma TextIsNoLink()
    ensures !IsLink("not a url")
  {
    assert "not a url"[0] == 'n';
  }

  /** The `.` after the bracket class demands a second character after the host's first one,
      and it may be a space: "http://a" is no link, "http://a b" is one. */
  lemma LinkNeedsTwoCharacters()
    ensures !IsLink("http://a")
    ensures IsLink("http://a b")
  {
    assert "http://a"[7..] == "a";
    assert "http://a"[4] == ':';
    assert "http://a b"[..7] == "http://";
    assert "http://a b"[7..] == "a b";
    assert "http://a b"[4] == ':';
  }

  /** `RegExp.prototype.test(null)` reads "null", which is a word. */
  lemma NullIsAWord()
    ensures CheckContentType([Field("A", Null)], "word")
  {
    EveryAt("null", Letter);
    assert IsWord(TestText(Null));
  }

  // ---------------------------------------------------------------------------
  // The filter over the sample.

  lemma SampleRowsNotNull()
    ensures forall i :: 0 <= i < |SampleData()| ==> !IsNull(SampleData()[i])
  {
    forall i | 0 <= i < |SampleData()|
      ensures !IsNull(SampleData()[i])
    {
      assert !IsBlank(SampleData()[i][1].value) || !IsBlank(SampleData()[i][0].value);
    }
  }

  /** Rows 1 to 5, not null, any content: every row comes back, in order. */
  lemma SampleNotNullAll()
    ensures FilterData(SampleData(), "A", ["A"], 1, 5, "not-null", "all") == SampleData()
  {
    FilterDataNotNullAll(SampleData(), "A", ["A"], 1, 5, "not-null", "all");
    assert RangeSlice(SampleData(), 1, 5) == SampleData();
    SampleRowsNotNull();
    NonEmptyRowsAllNonNull(SampleData());
  }

  /** Rows 1 to 5 under 'null': no sample row is empty, so nothing is kept. */
  lemma SampleNull()
    ensures FilterData(SampleData(), "A", ["A"], 1, 5, "null", "all") == []
  {
    SampleRowsNotNull();
    FilterDataNone(SampleData(), "A", ["A"], 1, 5, "null", "all");
  }

  lemma SampleWordRows()
    ensures CheckContentType(SampleData()[0], "word")
    ensures forall i :: 1 <= i < |SampleData()| ==> !CheckContentType(SampleData()[i], "word")
  {
    var d: Dataset := SampleData();
    assert IsWord("Name") && IsWord("Age") && IsWord("Link");
    assert !IsWord("30") by { assert "30"[0] == '3'; }
    assert !IsWord("25") by { assert "25"[0] == '2'; }
    assert TestText(d[1][1].value) == "30" && TestText(d[2][1].value) == "25";
    assert TestText(d[3][0].value) == "" && TestText(d[4][1].value) == "";
  }

  /** Under 'word' only the first row is kept: every other row holds a digit or an empty
      string. */
  lemma SampleWords()
    ensures FilterData(SampleData(), "A", ["A"], 1, 5, "not-null", "word") == [SampleData()[0]]
  {
    SampleRowsNotNull();
    SampleWordRows();
    FilterDataSingle(SampleData(), "A", ["A"], 1, 5, "not-null", "word", 0);
  }

  /** A row range that starts after the last row keeps nothing, whatever the tests. */
  lemma SampleOutOfRange()
    ensures FilterData(SampleData(), "A", [], 6, 9, "not-null", "all") == []
  {
    FilterDataEmptyRange(SampleData(), "A", [], 6, 9, "not-null", "all");
  }

  // ---------------------------------------------------------------------------
  // The page after `fetchData`, then a highlight of columns A and C over rows 2 to 3.

  lemma TrimmedAC()
    ensures Trimmed(["A", " C"]) == ["A", "C"]
  {
    assert TrimStart(" C") == "C";
    assert Trim(" C") == "C";
    assert Trim("A") == "A";
  }

  /** A row with cells in the first and third place records "A" and then "C". */
  lemma TokensAC(tr: Tr, i: nat)
    requires |tr| >= 3 && tr[0].Td? && tr[2].Td?
    ensures NonBlank(["A", "C"])
    ensures TokenPicks(tr, i, ["A", "C"]) == [Pick(i, "A"), Pick(i, "C")]
  {
    assert ["A", "C"][..1] == ["A"];
    assert ["A"][..0] == [];
    assert Position("A") == 1 && Position("C") == 3;
  }

  /** The highlight picks `tr` numbers 1 and 2, which show data rows 0 and 1. */
  lemma SampleHighlightPicks()
    ensures Trimmed(["A", " C"]) == ["A", "C"]
    ensures Picks(Grid(SampleData()), ["A", "C"], 2, 3)
         == [Pick(1, "A"), Pick(1, "C"), Pick(2, "A"), Pick(2, "C")]
  {
    TrimmedAC();
    var ts := ["A", "C"];
    var g := Grid(SampleData());
    GridLayout(SampleData());
    assert |g| == 6;
    TokensAC(g[1], 1);
    TokensAC(g[2], 2);
    PicksPrefix(g, ts, 2, 3, 3);
    assert Picks(g[..1], ts, 2, 3) == [] by {
      assert g[..1][..0] == [];
    }
    assert Picks(g[..2], ts, 2, 3) == [Pick(1, "A"), Pick(1, "C")] by {
      assert g[..2][..1] == g[..1] && g[..2][1] == g[1];
    }
    assert Picks(g[..3], ts, 2, 3) == [Pick(1, "A"), Pick(1, "C"), Pick(2, "A"), Pick(2, "C")] by {
      assert g[..3][..2] == g[..2] && g[..3][2] == g[2];
    }
  }

  /** The filter with the same range keeps data rows 1 and 2. */
  lemma SampleFilterRange()
    ensures FilterData(SampleData(), "A", ["A", " C"], 2, 3, "not-null", "all") == SampleData()[1..3]
  {
    var d: Dataset := SampleData();
    FilterDataNotNullAll(d, "A", ["A", " C"], 2, 3, "not-null", "all");
    assert RangeSlice(d, 2, 3) == d[1..3];
    SampleRowsNotNull();
    assert forall i :: 0 <= i < 2 ==> d[1..3][i] == d[i + 1];
    NonEmptyRowsAllNonNull(d[1..3]);
  }

  /** The click handler's highlight step on the page `fetchData` leaves behind. */
  method SampleSession() returns (rows: seq<int>, columns: seq<string>)
    ensures rows == [1, 1, 2, 2]
    ensures columns == ["A", "C", "A", "C"]
  {
    var sheet := new Sheet();
    var shown := sheet.DisplayData(SampleData());
    sheet.ResetSelection();
    sheet.HighlightRanges(["A", " C"], 2, 3);
    SampleHighlightPicks();
    rows, columns := sheet.selectedRows, sheet.selectedColumns;
  }

  /** A click that filters the shown sample under 'null' passes `[]` to `displayData`: the
      table is cleared and the call throws, so nothing is shown afterwards. */
  method SampleNullClearsTable() returns (ok: bool, shown: seq<Tr>)
    ensures !ok && shown == []
  {
    var sheet := new Sheet();
    var first := sheet.DisplayData(SampleData());
    var filtered := FilterData(SampleData(), "A", ["A"], 1, 5, "null", "all");
    SampleNull();
    ok := sheet.DisplayData(filtered);
    shown := sheet.content;
  }

  // ---------------------------------------------------------------------------
  // The CSV export of the sample.

  /** A blank value leaves an empty field at the end of its line, and the line splits back. */
  lemma SampleCsvLine()
    ensures CsvLine(SampleData()[2]) == "Bob,25,"
    ensures Split(CsvLine(SampleData()[2]), ',') == ["Bob", "25", ""]
  {
    var f := Fields(SampleData()[2]);
    BobFields(SampleData()[2], f);
    BobJoin(f);
    SplitJoin(f, ',');
  }

  lemma BobFields(row: Row, f: seq<string>)
    requires row == R("Bob", "25", "") && f == Fields(row)
    ensures f == ["Bob", "25", ""]
    ensures forall k :: 0 <= k < |f| ==> ',' !in f[k]
  {
  }

  lemma BobJoin(f: seq<string>)
    requires f == ["Bob", "25", ""]
    ensures Join(f, ',') == "Bob,25,"
  {
    assert Join(f[1..][1..], ',') == "";
    assert Join(f[1..], ',') == "25" + [','];
  }
}
