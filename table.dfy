/** The displayed table and the two functions of sheet.js that work on it: `displayData`
    (83-107), which projects a dataset onto a grid of `tr` rows, and `highlightRanges`
    (29-45), which records the cells of a row and column range in the globals `selectedRows`
    and `selectedColumns` (3-4). The DOM is abstracted to the cells of each `tr`. */
module Table {
  import opened Pattern
  import opened Rows

  /** A child cell of a `tr`: a header cell or a data cell, with its text. */
  datatype Node = Th(text: string) | Td(text: string)

  /** The children of one `tr`, in order. */
  type Tr = seq<Node>

  /** The header `tr`: one `th` per key of the row, in key order. */
  function HeaderRow(row: Row): (tr: Tr)
    ensures |tr| == |row|
    ensures forall k :: 0 <= k < |row| ==> tr[k] == Th(row[k].key)
  {
    seq(|row|, k requires 0 <= k < |row| => Th(row[k].key))
  }

  /** The `tr` of a data row: one `td` per value, in key order. */
  function DataRow(row: Row): (tr: Tr)
    ensures |tr| == |row|
    ensures forall k :: 0 <= k < |row| ==> tr[k] == Td(PlainText(row[k].value))
  {
    seq(|row|, k requires 0 <= k < |row| => Td(PlainText(row[k].value)))
  }

  /** The rows of the table `displayData` builds: a header from the keys of the first row,
      then one row of values per data row. */
  function Grid(data: Dataset): (g: seq<Tr>)
    requires |data| > 0
  {
    [HeaderRow(data[0])] + seq(|data|, i requires 0 <= i < |data| => DataRow(data[i]))
  }

  /** The shape of the grid: one `tr` more than there are data rows; the first holds only
      `th` cells, named by the first row's keys; `tr` number `i + 1` holds one `td` per value of
      data row `i`, in order. */
  lemma GridLayout(data: Dataset)
    requires |data| > 0
    ensures |Grid(data)| == |data| + 1
    ensures |Grid(data)[0]| == |data[0]|
    ensures forall k :: 0 <= k < |data[0]| ==> Grid(data)[0][k] == Th(data[0][k].key)
    ensures forall i :: 0 <= i < |data| ==> |Grid(data)[i + 1]| == |data[i]|
    ensures forall i, k :: 0 <= i < |data| && 0 <= k < |data[i]| ==>
              Grid(data)[i + 1][k] == Td(PlainText(data[i][k].value))
  {
  }

  /** The table-building loops of `displayData` (sheet.js:87-104). */
  method BuildTable(data: Dataset) returns (table: seq<Tr>)
    requires |data| > 0
    ensures table == Grid(data)
  {
    var headerRow: Tr := [];
    var k := 0;
    while k < |data[0]|
      invariant 0 <= k <= |data[0]|
      invariant headerRow == HeaderRow(data[0])[..k]
    {
      headerRow := headerRow + [Th(data[0][k].key)];
      k := k + 1;
    }
    assert HeaderRow(data[0])[..k] == HeaderRow(data[0]);
    table := [headerRow];
    var i := 0;
    while i < |data|
      invariant 0 <= i <= |data|
      invariant table == Grid(data)[..i + 1]
    {
      var rowElement: Tr := [];
      var j := 0;
      while j < |data[i]|
        invariant 0 <= j <= |data[i]|
        invariant rowElement == DataRow(data[i])[..j]
      {
        rowElement := rowElement + [Td(PlainText(data[i][j].value))];
        j := j + 1;
      }
      assert DataRow(data[i])[..j] == DataRow(data[i]);
      assert Grid(data)[..i + 2] == Grid(data)[..i + 1] + [DataRow(data[i])];
      table := table + [rowElement];
      i := i + 1;
    }
  }

  // ---------------------------------------------------------------------------
  // Column tokens.

  /** `trimStart` */
  function TrimStart(s: string): string
    decreases |s|
  {
    if s != [] && IsWhitespace(s[0]) then TrimStart(s[1..]) else s
  }

  /** `trimStart` removes a prefix made only of whitespace, and all of it. */
  lemma {:induction false} TrimStartStrips(s: string)
    ensures |TrimStart(s)| <= |s| && TrimStart(s) == s[|s| - |TrimStart(s)|..]
    ensures TrimStart(s) == [] || !IsWhitespace(TrimStart(s)[0])
    ensures forall k :: 0 <= k < |s| - |TrimStart(s)| ==> IsWhitespace(s[k])
    decreases |s|
  {
    if s != [] && IsWhitespace(s[0]) {
      TrimStartStrips(s[1..]);
      assert forall k :: 1 <= k < |s| ==> s[k] == s[1..][k - 1];
    }
  }

  /** `trimEnd` */
  function TrimEnd(s: string): string
    decreases |s|
  {
    if s != [] && IsWhitespace(s[|s| - 1]) then TrimEnd(s[..|s| - 1]) else s
  }

  /** `trimEnd` removes a suffix made only of whitespace, and all of it. */
  lemma {:induction false} TrimEndStrips(s: string)
    ensures |TrimEnd(s)| <= |s| && TrimEnd(s) == s[..|TrimEnd(s)|]
    ensures TrimEnd(s) == [] || !IsWhitespace(TrimEnd(s)[|TrimEnd(s)| - 1])
    ensures forall k :: |TrimEnd(s)| <= k < |s| ==> IsWhitespace(s[k])
    decreases |s|
  {
    if s != [] && IsWhitespace(s[|s| - 1]) {
      TrimEndStrips(s[..|s| - 1]);
      assert s[..|s| - 1][..|TrimEnd(s)|] == s[..|TrimEnd(s)|];
    }
  }

  /** `col.trim()` */
  function Trim(s: string): string {
    TrimEnd(TrimStart(s))
  }

  /** `trim` leaves no whitespace at either end, and removes nothing but whitespace: the
      result is a slice of `s`, and all around it is whitespace. */
  lemma TrimStrips(s: string)
    ensures Trim(s) == [] || (!IsWhitespace(Trim(s)[0]) && !IsWhitespace(Trim(s)[|Trim(s)| - 1]))
    ensures exists lo :: TrimmedAt(s, Trim(s), lo)
  {
    var t := TrimStart(s);
    var r := TrimEnd(t);
    TrimStartStrips(s);
    TrimEndStrips(t);
    var lo := |s| - |t|;
    assert r == s[lo..lo + |r|];
    assert forall k :: lo + |r| <= k < |s| ==> s[k] == t[k - lo];
    assert TrimmedAt(s, r, lo);
  }

  /** `r` is `s` from index `lo` on, less a suffix, and all that was cut off is whitespace. */
  ghost predicate TrimmedAt(s: string, r: string, lo: int) {
    && 0 <= lo <= |s| - |r|
    && r == s[lo..lo + |r|]
    && (forall k :: 0 <= k < lo ==> IsWhitespace(s[k]))
    && (forall k :: lo + |r| <= k < |s| ==> IsWhitespace(s[k]))
  }

  /** Each token of the column list, trimmed, as the `forEach` callback sees it. */
  function Trimmed(cols: seq<string>): (ts: seq<string>)
    ensures |ts| == |cols|
    ensures forall k :: 0 <= k < |cols| ==> ts[k] == Trim(cols[k])
  {
    seq(|cols|, k requires 0 <= k < |cols| => Trim(cols[k]))
  }

  /** No trimmed token is empty. */
  predicate NonBlank(ts: seq<string>) {
    forall k :: 0 <= k < |ts| ==> |ts[k]| > 0
  }

  /** Every token of the column list is non-blank once trimmed (a blank one makes the
      selector `td:nth-child(NaN)`, which `querySelector` rejects with an exception). */
  predicate Tokens(cols: seq<string>) {
    NonBlank(Trimmed(cols))
  }

  /** A string is a trimmed token iff some token of the list trims to it. */
  lemma TrimmedMembers(cols: seq<string>, column: string)
    ensures column in Trimmed(cols) <==> exists t :: t in cols && Trim(t) == column
  {
    var ts := Trimmed(cols);
    if column in ts {
      var k :| 0 <= k < |ts| && ts[k] == column;
      assert cols[k] in cols && Trim(cols[k]) == column;
    }
    if exists t :: t in cols && Trim(t) == column {
      var t :| t in cols && Trim(t) == column;
      var k :| 0 <= k < |cols| && cols[k] == t;
      assert ts[k] == column;
    }
  }

  /** `col.trim().charCodeAt(0) - 65 + 1`: 'A' is child 1, 'B' child 2, and so on. */
  function Position(column: string): int
    requires |column| > 0
  {
    (column[0] as int) - 65 + 1
  }

  /** `row.querySelector('td:nth-child(n)')` finds a cell: child `n` (1-based) is a `td`. */
  predicate HasTd(tr: Tr, n: int) {
    1 <= n <= |tr| && tr[n - 1].Td?
  }

  // ---------------------------------------------------------------------------
  // The cells the highlight records. They are stated over the trimmed tokens `ts`;
  // `Trimmed` links them to the column list the user typed.

  /** One recorded cell: the `tr` index pushed on `selectedRows` and the trimmed token pushed
      on `selectedColumns`. */
  datatype Pick = Pick(row: nat, column: string)

  /** The cell recorded for `tr` number `i` and one trimmed token: none unless the token's
      position holds a `td`. */
  function TokenCell(tr: Tr, i: nat, t: string): seq<Pick>
    requires |t| > 0
  {
    if HasTd(tr, Position(t)) then [Pick(i, t)] else []
  }

  /** The cells recorded for `tr` number `i` while `rangeColumns.forEach` runs. */
  function TokenPicks(tr: Tr, i: nat, ts: seq<string>): seq<Pick>
    requires NonBlank(ts)
    decreases |ts|
  {
    if ts == [] then []
    else
      var n := |ts| - 1;
      TokenPicks(tr, i, ts[..n]) + TokenCell(tr, i, ts[n])
  }

  /** The cells recorded for `tr` number `i`: none unless the range guard admits `i`. */
  function RowPicks(tr: Tr, i: nat, ts: seq<string>, rowRangeFrom: int, rowRangeTo: int): seq<Pick>
    requires NonBlank(ts)
  {
    if InRowRange(i, rowRangeFrom, rowRangeTo) then TokenPicks(tr, i, ts) else []
  }

  /** The cells `highlightRanges` records over all rows of the table, in the order it pushes
      them: row by row, and within a row in the order of the tokens. */
  function Picks(table: seq<Tr>, ts: seq<string>, rowRangeFrom: int, rowRangeTo: int): seq<Pick>
    requires NonBlank(ts)
    decreases |table|
  {
    if table == [] then []
    else
      var n := |table| - 1;
      Picks(table[..n], ts, rowRangeFrom, rowRangeTo) + RowPicks(table[n], n, ts, rowRangeFrom, rowRangeTo)
  }

  function RowsOf(picks: seq<Pick>): (r: seq<int>)
    ensures |r| == |picks|
  {
    seq(|picks|, k requires 0 <= k < |picks| => picks[k].row as int)
  }

  function ColumnsOf(picks: seq<Pick>): (c: seq<string>)
    ensures |c| == |picks|
  {
    seq(|picks|, k requires 0 <= k < |picks| => picks[k].column)
  }

  lemma RecordAppend(picks: seq<Pick>, more: seq<Pick>)
    ensures RowsOf(picks + more) == RowsOf(picks) + RowsOf(more)
    ensures ColumnsOf(picks + more) == ColumnsOf(picks) + ColumnsOf(more)
  {
  }

  /** Regrouping a concatenation: stated once, so that the loops of `Sheet` need not
      rediscover it for each of the two globals. */
  lemma AppendAssoc<T>(a: seq<T>, b: seq<T>, c: seq<T>)
    ensures (a + b) + c == a + (b + c)
  {
  }

  /** What trimmed token number `c` adds to each global, on top of what was there before the
      row. */
  lemma TokenRecorded(rows0: seq<int>, columns0: seq<string>, tr: Tr, i: nat, ts: seq<string>, c: nat)
    requires NonBlank(ts)
    requires c < |ts|
    ensures NonBlank(ts[..c]) && NonBlank(ts[..c + 1]) && |ts[c]| > 0
    ensures rows0 + RowsOf(TokenPicks(tr, i, ts[..c + 1]))
         == rows0 + RowsOf(TokenPicks(tr, i, ts[..c])) + (if HasTd(tr, Position(ts[c])) then [i as int] else [])
    ensures columns0 + ColumnsOf(TokenPicks(tr, i, ts[..c + 1]))
         == columns0 + ColumnsOf(TokenPicks(tr, i, ts[..c])) + (if HasTd(tr, Position(ts[c])) then [ts[c]] else [])
  {
    assert ts[..c + 1][..c] == ts[..c];
    var cell := TokenCell(tr, i, ts[c]);
    var before := TokenPicks(tr, i, ts[..c]);
    RecordAppend(before, cell);
    AppendAssoc(rows0, RowsOf(before), RowsOf(cell));
    AppendAssoc(columns0, ColumnsOf(before), ColumnsOf(cell));
  }

  /** A cell is recorded for `tr` number `i` iff it is one of the trimmed tokens and that
      position holds a `td`. */
  lemma {:induction false} TokenPicksMembers(tr: Tr, i: nat, ts: seq<string>, p: Pick)
    requires NonBlank(ts)
    ensures p in TokenPicks(tr, i, ts)
            <==> p.row == i && p.column in ts && |p.column| > 0 && HasTd(tr, Position(p.column))
    decreases |ts|
  {
    if ts != [] {
      var n := |ts| - 1;
      TokenPicksMembers(tr, i, ts[..n], p);
      assert ts == ts[..n] + [ts[n]];
    }
  }

  /** A cell is recorded iff its row exists and the range guard admits it, it is one of the
      trimmed tokens, and that position of the row holds a `td`. */
  lemma {:induction false} PicksMembers(table: seq<Tr>, ts: seq<string>, rowRangeFrom: int, rowRangeTo: int, p: Pick)
    requires NonBlank(ts)
    ensures p in Picks(table, ts, rowRangeFrom, rowRangeTo)
            <==> && p.row < |table|
                 && InRowRange(p.row, rowRangeFrom, rowRangeTo)
                 && p.column in ts && |p.column| > 0
                 && HasTd(table[p.row], Position(p.column))
    decreases |table|
  {
    if table != [] {
      var n := |table| - 1;
      PicksMembers(table[..n], ts, rowRangeFrom, rowRangeTo, p);
      TokenPicksMembers(table[n], n, ts, p);
      if p.row < n {
        assert table[..n][p.row] == table[p.row];
      }
    }
  }

  /** Every cell recorded for a row carries that row's index. */
  lemma {:induction false} TokenPicksRow(tr: Tr, i: nat, ts: seq<string>)
    requires NonBlank(ts)
    ensures forall k :: 0 <= k < |TokenPicks(tr, i, ts)| ==> TokenPicks(tr, i, ts)[k].row == i
    decreases |ts|
  {
    if ts != [] {
      TokenPicksRow(tr, i, ts[..|ts| - 1]);
    }
  }

  /** Cells are recorded row-major: the row indices never decrease, and stay below the
      number of rows. */
  lemma {:induction false} PicksRowMajor(table: seq<Tr>, ts: seq<string>, rowRangeFrom: int, rowRangeTo: int)
    requires NonBlank(ts)
    ensures forall k :: 0 <= k < |Picks(table, ts, rowRangeFrom, rowRangeTo)| ==>
              Picks(table, ts, rowRangeFrom, rowRangeTo)[k].row < |table|
    ensures forall k, l :: 0 <= k <= l < |Picks(table, ts, rowRangeFrom, rowRangeTo)| ==>
              Picks(table, ts, rowRangeFrom, rowRangeTo)[k].row <= Picks(table, ts, rowRangeFrom, rowRangeTo)[l].row
    decreases |table|
  {
    if table != [] {
      var n := |table| - 1;
      PicksRowMajor(table[..n], ts, rowRangeFrom, rowRangeTo);
      TokenPicksRow(table[n], n, ts);
    }
  }

  /** Rows past the range record nothing: when no index from `m` on passes the range guard,
      the table's first `m` rows record all the cells. */
  lemma {:induction false} PicksPrefix(table: seq<Tr>, ts: seq<string>, rowRangeFrom: int, rowRangeTo: int, m: nat)
    requires NonBlank(ts)
    requires m <= |table|
    requires forall i :: m <= i < |table| ==> !InRowRange(i, rowRangeFrom, rowRangeTo)
    ensures Picks(table, ts, rowRangeFrom, rowRangeTo) == Picks(table[..m], ts, rowRangeFrom, rowRangeTo)
    decreases |table|
  {
    if |table| > m {
      var n := |table| - 1;
      PicksPrefix(table[..n], ts, rowRangeFrom, rowRangeTo, m);
      assert table[..n][..m] == table[..m];
    } else {
      assert table[..m] == table;
    }
  }

  /** On a table that `displayData` built, `tr` number `d + 1` shows data row `d`, and the
      header `tr` (`d == -1`) is never recorded. So a cell of data row `d` is recorded iff
      `d + 1`, not `d`, passes the range guard: the highlight is one data row behind the
      filter, which keeps data row `d` iff `d` passes the same guard. */
  lemma GridPicks(data: Dataset, cols: seq<string>, rowRangeFrom: int, rowRangeTo: int, p: Pick, d: int)
    requires |data| > 0
    requires Tokens(cols)
    requires p.row == d + 1
    ensures p in Picks(Grid(data), Trimmed(cols), rowRangeFrom, rowRangeTo)
            <==> && 0 <= d < |data|
                 && InRowRange(d + 1, rowRangeFrom, rowRangeTo)
                 && (exists t :: t in cols && Trim(t) == p.column)
                 && |p.column| > 0
                 && 1 <= Position(p.column) <= |data[d]|
  {
    PicksMembers(Grid(data), Trimmed(cols), rowRangeFrom, rowRangeTo, p);
    TrimmedMembers(cols, p.column);
    GridLayout(data);
  }

  // ---------------------------------------------------------------------------
  // The page state that sheet.js keeps.

  class Sheet {
    /** The `tr` rows of the table inside `#sheet-content`. */
    var content: seq<Tr>
    /** The globals `selectedRows` and `selectedColumns`. */
    var selectedRows: seq<int>
    var selectedColumns: seq<string>

    /** The two globals stay in step: entry `k` of each describes the same cell. */
    ghost predicate Valid()
      reads this
    {
      |selectedRows| == |selectedColumns|
    }

    /** The state at load time: nothing shown and nothing selected. */
    constructor ()
      ensures Valid()
      ensures content == [] && selectedRows == [] && selectedColumns == []
    {
      content := [];
      selectedRows := [];
      selectedColumns := [];
    }

    /** `selectedRows = []; selectedColumns = [];` (sheet.js:17-18). */
    method ResetSelection()
      modifies this
      ensures Valid()
      ensures selectedRows == [] && selectedColumns == []
      ensures content == old(content)
    {
      selectedRows := [];
      selectedColumns := [];
    }

    /** `highlightRanges`: for every displayed `tr` whose index passes the range guard, and for
        every token, record the cell when the row has a `td` at the token's position. Both
        globals grow by the same cells, in the order of `Picks`; the table is not changed. */
    method HighlightRanges(rangeColumns: seq<string>, rowRangeFrom: int, rowRangeTo: int)
      requires Valid()
      requires Tokens(rangeColumns)
      modifies this`selectedRows, this`selectedColumns
      ensures Valid()
      ensures selectedRows == old(selectedRows) + RowsOf(Picks(content, Trimmed(rangeColumns), rowRangeFrom, rowRangeTo))
      ensures selectedColumns == old(selectedColumns) + ColumnsOf(Picks(content, Trimmed(rangeColumns), rowRangeFrom, rowRangeTo))
    {
      var rows := content;
      var rowIndex := 0;
      ghost var ts := Trimmed(rangeColumns);
      ghost var done: seq<Pick> := [];
      ghost var rows0, columns0 := selectedRows, selectedColumns;
      while rowIndex < |rows|
        invariant 0 <= rowIndex <= |rows|
        invariant done == Picks(rows[..rowIndex], ts, rowRangeFrom, rowRangeTo)
        invariant selectedRows == rows0 + RowsOf(done)
        invariant selectedColumns == columns0 + ColumnsOf(done)
      {
        ghost var here := RowPicks(rows[rowIndex], rowIndex, ts, rowRangeFrom, rowRangeTo);
        assert rows[..rowIndex + 1][..rowIndex] == rows[..rowIndex];
        RecordAppend(done, here);
        AppendAssoc(rows0, RowsOf(done), RowsOf(here));
        AppendAssoc(columns0, ColumnsOf(done), ColumnsOf(here));
        if rowIndex >= rowRangeFrom - 1 && rowIndex <= rowRangeTo - 1 {
          HighlightRow(rows[rowIndex], rowIndex, rangeColumns);
        } else {
          assert RowsOf(done) + [] == RowsOf(done) && ColumnsOf(done) + [] == ColumnsOf(done);
        }
        done := done + here;
        rowIndex := rowIndex + 1;
      }
      assert rows[..rowIndex] == rows;
    }

    /** The `rangeColumns.forEach` callback of `highlightRanges` for `tr` number `rowIndex`. */
    method HighlightRow(row: Tr, rowIndex: nat, rangeColumns: seq<string>)
      requires Valid()
      requires Tokens(rangeColumns)
      modifies this`selectedRows, this`selectedColumns
      ensures Valid()
      ensures selectedRows == old(selectedRows) + RowsOf(TokenPicks(row, rowIndex, Trimmed(rangeColumns)))
      ensures selectedColumns == old(selectedColumns) + ColumnsOf(TokenPicks(row, rowIndex, Trimmed(rangeColumns)))
    {
      ghost var ts := Trimmed(rangeColumns);
      var c := 0;
      while c < |rangeColumns|
        invariant 0 <= c <= |rangeColumns|
        invariant NonBlank(ts[..c])
        invariant selectedRows == old(selectedRows) + RowsOf(TokenPicks(row, rowIndex, ts[..c]))
        invariant selectedColumns == old(selectedColumns) + ColumnsOf(TokenPicks(row, rowIndex, ts[..c]))
      {
        TokenRecorded(old(selectedRows), old(selectedColumns), row, rowIndex, ts, c);
        var col := Trim(rangeColumns[c]);
        if HasTd(row, Position(col)) {
          selectedRows := selectedRows + [rowIndex];
          selectedColumns := selectedColumns + [col];
        }
        c := c + 1;
      }
      assert ts[..c] == ts;
    }

    /** `displayData`: the old table is cleared and the grid of `data` takes its place, whatever
        was shown before (so showing the same data twice gives the same table). On an empty
        dataset the clearing still happens, and then `Object.keys(data[0])` throws a
        `TypeError` before any table is appended: `ok` is false exactly then, and nothing is
        shown. */
    method DisplayData(data: Dataset) returns (ok: bool)
      requires Valid()
      modifies this
      ensures Valid()
      ensures ok <==> |data| > 0
      ensures ok ==> content == Grid(data)
      ensures !ok ==> content == []
      ensures selectedRows == old(selectedRows) && selectedColumns == old(selectedColumns)
    {
      content := [];
      if |data| == 0 {
        return false;
      }
      var table := BuildTable(data);
      content := table;
      ok := true;
    }
  }
}
