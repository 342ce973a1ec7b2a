/** Rows of the sheet and the row filter of sheet.js: `isNull` (61-63), `checkContentType`
    (66-80) and `filterData` (48-58). */
module Rows {
  import opened Classifier

  /** A cell value: the sample data holds strings, and `isNull` also tests for `null`. */
  datatype Cell = Str(s: string) | Null

  /** One own property of a row object: its key (a column label) and its value. */
  datatype Field = Field(key: string, value: Cell)

  /** A row object, its properties in `Object.keys`/`Object.values` order. */
  type Row = seq<Field>

  type Dataset = seq<Row>

  /** The string `RegExp.prototype.test` examines: it converts `null` to "null". */
  function TestText(c: Cell): (t: string)
    ensures c.Str? ==> t == c.s
  {
    match c
    case Str(s) => s
    case Null => "null"
  }

  /** The string `Array.prototype.join` and an `innerText` assignment write for a value:
      they turn `null` into the empty string. */
  function PlainText(c: Cell): (t: string)
    ensures c.Str? ==> t == c.s
    ensures c == Null ==> t == ""
  {
    match c
    case Str(s) => s
    case Null => ""
  }

  /** `value === '' || value === null` */
  predicate IsBlank(c: Cell) {
    c == Str("") || c == Null
  }

  /** `isNull`: every value of the row is blank (so a row without properties is null). */
  predicate IsNull(row: Row) {
    forall k :: 0 <= k < |row| ==> IsBlank(row[k].value)
  }

  /** `(operation === 'null') ? isNull(row) : !isNull(row)` */
  predicate NullCheck(row: Row, operation: string) {
    if operation == "null" then IsNull(row) else !IsNull(row)
  }

  /** `checkContentType`: every value of the row, as the regular expression sees it, is of the
      content type the `switch` selects. */
  predicate CheckContentType(row: Row, contentType: string) {
    forall k :: 0 <= k < |row| ==> Classify(TestText(row[k].value), ContentTypeOf(contentType))
  }

  /** The row-range guard of sheet.js:50 does not reject the 0-based index `i`. */
  predicate InRowRange(i: int, rowRangeFrom: int, rowRangeTo: int) {
    !(i < rowRangeFrom - 1 || i > rowRangeTo - 1)
  }

  /** The `filter` callback of `filterData` returns true for the row at index `i`. */
  predicate Keeps(row: Row, i: int, rowRangeFrom: int, rowRangeTo: int, operation: string, contentType: string) {
    InRowRange(i, rowRangeFrom, rowRangeTo) && NullCheck(row, operation) && CheckContentType(row, contentType)
  }

  /** `filterData`: `data.filter((row, rowIndex) => …)`. `primaryColumn` and `rangeColumns` are
      accepted and never consulted. Written as recursion on the last row, which is the row at
      index `|data| - 1`. */
  function FilterData(data: Dataset, primaryColumn: string, rangeColumns: seq<string>,
                      rowRangeFrom: int, rowRangeTo: int, operation: string, contentType: string): (r: Dataset)
    ensures |r| <= |data|
    ensures forall row :: row in r ==> row in data
    decreases |data|
  {
    if data == [] then []
    else
      var n := |data| - 1;
      FilterData(data[..n], primaryColumn, rangeColumns, rowRangeFrom, rowRangeTo, operation, contentType)
      + (if Keeps(data[n], n, rowRangeFrom, rowRangeTo, operation, contentType) then [data[n]] else [])
  }

  // ---------------------------------------------------------------------------
  // What the filter keeps.

  /** The indices of the rows the filter callback accepts, in increasing order. */
  ghost function KeptIndices(data: Dataset, rowRangeFrom: int, rowRangeTo: int, operation: string, contentType: string): seq<nat>
    decreases |data|
  {
    if data == [] then []
    else
      var n := |data| - 1;
      KeptIndices(data[..n], rowRangeFrom, rowRangeTo, operation, contentType)
      + (if Keeps(data[n], n, rowRangeFrom, rowRangeTo, operation, contentType) then [n] else [])
  }

  /** `r` is `data[K[0]], data[K[1]], …`. */
  ghost predicate ListsRowsAt(r: Dataset, data: Dataset, K: seq<nat>) {
    |r| == |K| && forall k :: 0 <= k < |K| ==> K[k] < |data| && r[k] == data[K[k]]
  }

  /** `K` is strictly increasing. */
  ghost predicate Increasing(K: seq<nat>) {
    forall k, l :: 0 <= k < l < |K| ==> K[k] < K[l]
  }

  /** `K` holds exactly the indices whose row the filter callback accepts. */
  ghost predicate AcceptedExactly(K: seq<nat>, data: Dataset, rowRangeFrom: int, rowRangeTo: int, operation: string, contentType: string) {
    forall i :: 0 <= i < |data| ==> (i in K <==> Keeps(data[i], i, rowRangeFrom, rowRangeTo, operation, contentType))
  }

  /** The accepted indices are in bounds and strictly increasing. */
  lemma {:induction false} KeptIndicesIncrease(data: Dataset, rowRangeFrom: int, rowRangeTo: int, operation: string, contentType: string)
    ensures forall k :: 0 <= k < |KeptIndices(data, rowRangeFrom, rowRangeTo, operation, contentType)|
                        ==> KeptIndices(data, rowRangeFrom, rowRangeTo, operation, contentType)[k] < |data|
    ensures forall k, l :: 0 <= k < l < |KeptIndices(data, rowRangeFrom, rowRangeTo, operation, contentType)|
                           ==> KeptIndices(data, rowRangeFrom, rowRangeTo, operation, contentType)[k]
                               < KeptIndices(data, rowRangeFrom, rowRangeTo, operation, contentType)[l]
    decreases |data|
  {
    if data != [] {
      var n := |data| - 1;
      KeptIndicesIncrease(data[..n], rowRangeFrom, rowRangeTo, operation, contentType);
      var K0 := KeptIndices(data[..n], rowRangeFrom, rowRangeTo, operation, contentType);
      assert forall k :: 0 <= k < |K0| ==> K0[k] < n;
      assert KeptIndices(data, rowRangeFrom, rowRangeTo, operation, contentType)
          == K0 + (if Keeps(data[n], n, rowRangeFrom, rowRangeTo, operation, contentType) then [n] else []);
    }
  }

  /** An index is accepted iff the filter callback returns true for its row. */
  lemma {:induction false} KeptIndicesExact(data: Dataset, rowRangeFrom: int, rowRangeTo: int, operation: string, contentType: string, i: int)
    requires 0 <= i < |data|
    ensures i in KeptIndices(data, rowRangeFrom, rowRangeTo, operation, contentType)
            <==> Keeps(data[i], i, rowRangeFrom, rowRangeTo, operation, contentType)
    decreases |data|
  {
    var n := |data| - 1;
    KeptIndicesIncrease(data[..n], rowRangeFrom, rowRangeTo, operation, contentType);
    if i < n {
      KeptIndicesExact(data[..n], rowRangeFrom, rowRangeTo, operation, contentType, i);
      assert data[..n][i] == data[i];
    }
  }

  /** The result lists the rows at the accepted indices, one for one. */
  lemma {:induction false} FilterDataAtKeptIndices(data: Dataset, primaryColumn: string, rangeColumns: seq<string>,
                                                   rowRangeFrom: int, rowRangeTo: int, operation: string, contentType: string)
    ensures ListsRowsAt(FilterData(data, primaryColumn, rangeColumns, rowRangeFrom, rowRangeTo, operation, contentType),
                        data, KeptIndices(data, rowRangeFrom, rowRangeTo, operation, contentType))
    decreases |data|
  {
    if data != [] {
      var n := |data| - 1;
      FilterDataAtKeptIndices(data[..n], primaryColumn, rangeColumns, rowRangeFrom, rowRangeTo, operation, contentType);
      var r0 := FilterData(data[..n], primaryColumn, rangeColumns, rowRangeFrom, rowRangeTo, operation, contentType);
      var K0 := KeptIndices(data[..n], rowRangeFrom, rowRangeTo, operation, contentType);
      var b := Keeps(data[n], n, rowRangeFrom, rowRangeTo, operation, contentType);
      assert FilterData(data, primaryColumn, rangeColumns, rowRangeFrom, rowRangeTo, operation, contentType)
          == r0 + (if b then [data[n]] else []);
      assert KeptIndices(data, rowRangeFrom, rowRangeTo, operation, contentType) == K0 + (if b then [n] else []);
      forall k | 0 <= k < |K0|
        ensures K0[k] < |data| && r0[k] == data[K0[k]]
      {
        assert data[..n][K0[k]] == data[K0[k]];
      }
    }
  }

  /** The filter returns exactly the rows that pass all three tests, unchanged and in their
      original order: `r` is `data[K[0]], data[K[1]], …` for strictly increasing indices `K`,
      and `K` holds exactly the indices whose row the callback accepts. */
  lemma FilterDataIsOrderedSelection(data: Dataset, primaryColumn: string, rangeColumns: seq<string>,
                                     rowRangeFrom: int, rowRangeTo: int, operation: string, contentType: string)
    ensures ListsRowsAt(FilterData(data, primaryColumn, rangeColumns, rowRangeFrom, rowRangeTo, operation, contentType),
                        data, KeptIndices(data, rowRangeFrom, rowRangeTo, operation, contentType))
    ensures Increasing(KeptIndices(data, rowRangeFrom, rowRangeTo, operation, contentType))
    ensures AcceptedExactly(KeptIndices(data, rowRangeFrom, rowRangeTo, operation, contentType),
                            data, rowRangeFrom, rowRangeTo, operation, contentType)
  {
    FilterDataAtKeptIndices(data, primaryColumn, rangeColumns, rowRangeFrom, rowRangeTo, operation, contentType);
    KeptIndicesIncrease(data, rowRangeFrom, rowRangeTo, operation, contentType);
    forall i | 0 <= i < |data|
      ensures i in KeptIndices(data, rowRangeFrom, rowRangeTo, operation, contentType)
              <==> Keeps(data[i], i, rowRangeFrom, rowRangeTo, operation, contentType)
    {
      KeptIndicesExact(data, rowRangeFrom, rowRangeTo, operation, contentType, i);
    }
  }

  /** Membership, both ways: a row is in the result iff some index holds it and its row passes. */
  lemma FilterDataMembers(data: Dataset, primaryColumn: string, rangeColumns: seq<string>,
                          rowRangeFrom: int, rowRangeTo: int, operation: string, contentType: string, row: Row)
    ensures row in FilterData(data, primaryColumn, rangeColumns, rowRangeFrom, rowRangeTo, operation, contentType)
            <==> exists i :: 0 <= i < |data| && data[i] == row
                             && Keeps(row, i, rowRangeFrom, rowRangeTo, operation, contentType)
  {
    FilterDataIsOrderedSelection(data, primaryColumn, rangeColumns, rowRangeFrom, rowRangeTo, operation, contentType);
    var r := FilterData(data, primaryColumn, rangeColumns, rowRangeFrom, rowRangeTo, operation, contentType);
    var K := KeptIndices(data, rowRangeFrom, rowRangeTo, operation, contentType);
    if row in r {
      var k :| 0 <= k < |r| && r[k] == row;
      assert K[k] in K;
    }
    if exists i :: 0 <= i < |data| && data[i] == row && Keeps(row, i, rowRangeFrom, rowRangeTo, operation, contentType) {
      var i :| 0 <= i < |data| && data[i] == row && Keeps(row, i, rowRangeFrom, rowRangeTo, operation, contentType);
      var k :| 0 <= k < |K| && K[k] == i;
      assert r[k] == row;
    }
  }

  /** The emptiness test of every kept row points the way `operation` says. */
  lemma FilterDataNullness(data: Dataset, primaryColumn: string, rangeColumns: seq<string>,
                           rowRangeFrom: int, rowRangeTo: int, operation: string, contentType: string)
    ensures forall row :: row in FilterData(data, primaryColumn, rangeColumns, rowRangeFrom, rowRangeTo, operation, contentType)
                          ==> (IsNull(row) <==> operation == "null")
  {
    forall row | row in FilterData(data, primaryColumn, rangeColumns, rowRangeFrom, rowRangeTo, operation, contentType)
      ensures IsNull(row) <==> operation == "null"
    {
      FilterDataMembers(data, primaryColumn, rangeColumns, rowRangeFrom, rowRangeTo, operation, contentType, row);
    }
  }

  /** When the callback accepts no row, nothing is kept. */
  lemma FilterDataNone(data: Dataset, primaryColumn: string, rangeColumns: seq<string>,
                       rowRangeFrom: int, rowRangeTo: int, operation: string, contentType: string)
    requires forall i :: 0 <= i < |data| ==> !Keeps(data[i], i, rowRangeFrom, rowRangeTo, operation, contentType)
    ensures FilterData(data, primaryColumn, rangeColumns, rowRangeFrom, rowRangeTo, operation, contentType) == []
  {
    var r := FilterData(data, primaryColumn, rangeColumns, rowRangeFrom, rowRangeTo, operation, contentType);
    if r != [] {
      FilterDataMembers(data, primaryColumn, rangeColumns, rowRangeFrom, rowRangeTo, operation, contentType, r[0]);
    }
  }

  /** When the callback accepts the row at index `j` and no other, that row alone is kept. */
  lemma {:induction false} FilterDataSingle(data: Dataset, primaryColumn: string, rangeColumns: seq<string>,
                                            rowRangeFrom: int, rowRangeTo: int, operation: string, contentType: string, j: nat)
    requires j < |data|
    requires Keeps(data[j], j, rowRangeFrom, rowRangeTo, operation, contentType)
    requires forall i :: 0 <= i < |data| && i != j ==> !Keeps(data[i], i, rowRangeFrom, rowRangeTo, operation, contentType)
    ensures FilterData(data, primaryColumn, rangeColumns, rowRangeFrom, rowRangeTo, operation, contentType) == [data[j]]
    decreases |data|
  {
    var n := |data| - 1;
    if n > j {
      assert data[..n][j] == data[j];
      FilterDataSingle(data[..n], primaryColumn, rangeColumns, rowRangeFrom, rowRangeTo, operation, contentType, j);
    } else {
      FilterDataNone(data[..n], primaryColumn, rangeColumns, rowRangeFrom, rowRangeTo, operation, contentType);
    }
  }

  /** An empty range, or one that starts after the last row, keeps nothing. */
  lemma {:induction false} FilterDataEmptyRange(data: Dataset, primaryColumn: string, rangeColumns: seq<string>,
                                                rowRangeFrom: int, rowRangeTo: int, operation: string, contentType: string)
    requires rowRangeFrom > rowRangeTo || rowRangeFrom > |data|
    ensures FilterData(data, primaryColumn, rangeColumns, rowRangeFrom, rowRangeTo, operation, contentType) == []
    decreases |data|
  {
    if data != [] {
      FilterDataEmptyRange(data[..|data| - 1], primaryColumn, rangeColumns, rowRangeFrom, rowRangeTo, operation, contentType);
    }
  }

  /** Which column is primary and which are in the range never changes the result. */
  lemma {:induction false} FilterDataIgnoresColumns(data: Dataset, p1: string, c1: seq<string>, p2: string, c2: seq<string>,
                                                    rowRangeFrom: int, rowRangeTo: int, operation: string, contentType: string)
    ensures FilterData(data, p1, c1, rowRangeFrom, rowRangeTo, operation, contentType)
         == FilterData(data, p2, c2, rowRangeFrom, rowRangeTo, operation, contentType)
    decreases |data|
  {
    if data != [] {
      FilterDataIgnoresColumns(data[..|data| - 1], p1, c1, p2, c2, rowRangeFrom, rowRangeTo, operation, contentType);
    }
  }

  // ---------------------------------------------------------------------------
  // The common case: not-null rows of any content.

  /** The rows whose 0-based index lies in `[rowRangeFrom - 1, rowRangeTo - 1]`. */
  function RangeSlice(data: Dataset, rowRangeFrom: int, rowRangeTo: int): (s: Dataset)
    ensures |s| <= |data|
  {
    var lo := if rowRangeFrom - 1 < 0 then 0 else if rowRangeFrom - 1 > |data| then |data| else rowRangeFrom - 1;
    var hi := if rowRangeTo < lo then lo else if rowRangeTo > |data| then |data| else rowRangeTo;
    data[lo..hi]
  }

  /** The rows of `rows` that are not null, in order. */
  function NonEmptyRows(rows: Dataset): Dataset
    decreases |rows|
  {
    if rows == [] then []
    else
      var n := |rows| - 1;
      NonEmptyRows(rows[..n]) + (if IsNull(rows[n]) then [] else [rows[n]])
  }

  lemma RangeSliceStep(data: Dataset, rowRangeFrom: int, rowRangeTo: int)
    requires data != []
    ensures var n := |data| - 1;
            RangeSlice(data, rowRangeFrom, rowRangeTo)
            == RangeSlice(data[..n], rowRangeFrom, rowRangeTo)
               + (if InRowRange(n, rowRangeFrom, rowRangeTo) then [data[n]] else [])
  {
    var n := |data| - 1;
    var lo := if rowRangeFrom - 1 < 0 then 0 else if rowRangeFrom - 1 > |data| then |data| else rowRangeFrom - 1;
    var hi := if rowRangeTo < lo then lo else if rowRangeTo > |data| then |data| else rowRangeTo;
    var lo' := if rowRangeFrom - 1 < 0 then 0 else if rowRangeFrom - 1 > n then n else rowRangeFrom - 1;
    var hi' := if rowRangeTo < lo' then lo' else if rowRangeTo > n then n else rowRangeTo;
    if InRowRange(n, rowRangeFrom, rowRangeTo) {
      assert lo == lo' && hi == n + 1 && hi' == n;
      assert data[..n][lo'..hi'] == data[lo..n];
      assert data[lo..hi] == data[lo..n] + [data[n]];
    } else if lo > n {
      assert lo == hi && lo' == hi';
    } else {
      assert lo == lo' && hi == hi' && hi <= n;
      assert data[..n][lo'..hi'] == data[lo..hi];
    }
  }

  /** A row is among the non-null rows iff it is a row of the list and not null. */
  lemma {:induction false} NonEmptyRowsMembers(rows: Dataset, row: Row)
    ensures row in NonEmptyRows(rows) <==> row in rows && !IsNull(row)
    decreases |rows|
  {
    if rows != [] {
      var n := |rows| - 1;
      NonEmptyRowsMembers(rows[..n], row);
      assert rows == rows[..n] + [rows[n]];
    }
  }

  lemma NonEmptyRowsSnoc(rows: Dataset, row: Row)
    ensures NonEmptyRows(rows + [row]) == NonEmptyRows(rows) + (if IsNull(row) then [] else [row])
  {
    assert (rows + [row])[..|rows|] == rows;
  }

  /** A list without null rows loses nothing. */
  lemma {:induction false} NonEmptyRowsAllNonNull(rows: Dataset)
    requires forall i :: 0 <= i < |rows| ==> !IsNull(rows[i])
    ensures NonEmptyRows(rows) == rows
    decreases |rows|
  {
    if rows != [] {
      var n := |rows| - 1;
      var init := rows[..n];
      NoNullRowsPrefix(rows, n);
      NonEmptyRowsAllNonNull(init);
      NonEmptyRowsSnoc(init, rows[n]);
      assert init + [rows[n]] == rows;
    }
  }

  lemma NoNullRowsPrefix(rows: Dataset, n: nat)
    requires n <= |rows|
    requires forall i :: 0 <= i < |rows| ==> !IsNull(rows[i])
    ensures forall i :: 0 <= i < n ==> !IsNull(rows[..n][i])
  {
    forall i | 0 <= i < n
      ensures !IsNull(rows[..n][i])
    {
      assert rows[..n][i] == rows[i];
    }
  }

  lemma KeepsNotNullAll(row: Row, i: int, rowRangeFrom: int, rowRangeTo: int, operation: string, contentType: string)
    requires operation != "null"
    requires ContentTypeOf(contentType) == All
    ensures Keeps(row, i, rowRangeFrom, rowRangeTo, operation, contentType)
            <==> InRowRange(i, rowRangeFrom, rowRangeTo) && !IsNull(row)
  {
  }

  /** With an operation other than 'null' and content type 'all' (or any unrecognised tag),
      the filter is exactly the non-null rows of the range. */
  lemma {:induction false} FilterDataNotNullAll(data: Dataset, primaryColumn: string, rangeColumns: seq<string>,
                                                rowRangeFrom: int, rowRangeTo: int, operation: string, contentType: string)
    requires operation != "null"
    requires ContentTypeOf(contentType) == All
    ensures FilterData(data, primaryColumn, rangeColumns, rowRangeFrom, rowRangeTo, operation, contentType)
         == NonEmptyRows(RangeSlice(data, rowRangeFrom, rowRangeTo))
    decreases |data|
  {
    if data != [] {
      var n := |data| - 1;
      FilterDataNotNullAll(data[..n], primaryColumn, rangeColumns, rowRangeFrom, rowRangeTo, operation, contentType);
      RangeSliceStep(data, rowRangeFrom, rowRangeTo);
      KeepsNotNullAll(data[n], n, rowRangeFrom, rowRangeTo, operation, contentType);
      var s0 := RangeSlice(data[..n], rowRangeFrom, rowRangeTo);
      var r0 := FilterData(data[..n], primaryColumn, rangeColumns, rowRangeFrom, rowRangeTo, operation, contentType);
      var last := if InRowRange(n, rowRangeFrom, rowRangeTo) && !IsNull(data[n]) then [data[n]] else [];
      assert FilterData(data, primaryColumn, rangeColumns, rowRangeFrom, rowRangeTo, operation, contentType) == r0 + last;
      if InRowRange(n, rowRangeFrom, rowRangeTo) {
        NonEmptyRowsSnoc(s0, data[n]);
        assert NonEmptyRows(RangeSlice(data, rowRangeFrom, rowRangeTo)) == NonEmptyRows(s0) + last;
      } else {
        assert RangeSlice(data, rowRangeFrom, rowRangeTo) == s0 + [] == s0;
        assert NonEmptyRows(RangeSlice(data, rowRangeFrom, rowRangeTo)) == NonEmptyRows(s0) + last;
      }
    }
  }

  /** A row without properties is null and of every content type, so it is kept under
      'null' (when in range) whatever the content type. */
  lemma EmptyRowPassesEverything(rowRangeFrom: int, rowRangeTo: int, contentType: string, i: int)
    requires InRowRange(i, rowRangeFrom, rowRangeTo)
    ensures IsNull([]) && CheckContentType([], contentType)
    ensures Keeps([], i, rowRangeFrom, rowRangeTo, "null", contentType)
  {
  }
}
