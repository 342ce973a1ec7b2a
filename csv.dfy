/** The CSV body built by `downloadAsCSV` (sheet.js:147):
    `sheetData.map(e => Object.values(e).join(",")).join("\n")`, and the split that reads it back. */
module Csv {
  import opened Rows

  /** `Array.prototype.join(sep)` on strings: the parts with one `sep` between neighbours. */
  function Join(parts: seq<string>, sep: char): (s: string)
    ensures parts == [] ==> s == []
    ensures |parts| == 1 ==> s == parts[0]
    decreases |parts|
  {
    if parts == [] then ""
    else if |parts| == 1 then parts[0]
    else parts[0] + [sep] + Join(parts[1..], sep)
  }

  /** `String.prototype.split(sep)` for a one-character separator: the maximal pieces without
      `sep`, so there is always at least one (`"".split(",")` is `[""]`). */
  function Split(s: string, sep: char): (r: seq<string>)
    ensures |r| > 0
    ensures forall k :: 0 <= k < |r| ==> sep !in r[k]
    decreases |s|
  {
    if s == [] then [""]
    else
      var rest := Split(s[1..], sep);
      if s[0] == sep then [""] + rest
      else [[s[0]] + rest[0]] + rest[1..]
  }

  /** `Object.values(row)`, each as `join` writes it. */
  function Fields(row: Row): (f: seq<string>)
    ensures |f| == |row|
    ensures forall k :: 0 <= k < |row| ==> f[k] == PlainText(row[k].value)
  {
    seq(|row|, k requires 0 <= k < |row| => PlainText(row[k].value))
  }

  /** One line of the export: the row's values in key order, joined by commas. */
  function CsvLine(row: Row): string {
    Join(Fields(row), ',')
  }

  function CsvLines(data: Dataset): (lines: seq<string>)
    ensures |lines| == |data|
    ensures forall i :: 0 <= i < |data| ==> lines[i] == CsvLine(data[i])
  {
    seq(|data|, i requires 0 <= i < |data| => CsvLine(data[i]))
  }

  /** The text written to the `.csv` file. */
  function CsvContent(data: Dataset): string {
    Join(CsvLines(data), '\n')
  }

  // ---------------------------------------------------------------------------
  // Round trips.

  lemma {:induction false} SplitNoSeparator(a: string, sep: char)
    requires sep !in a
    ensures Split(a, sep) == [a]
    decreases |a|
  {
    if a != [] {
      SplitNoSeparator(a[1..], sep);
      assert [a[0]] + a[1..] == a;
    }
  }

  lemma {:induction false} SplitAtSeparator(a: string, sep: char, b: string)
    requires sep !in a
    ensures Split(a + [sep] + b, sep) == [a] + Split(b, sep)
    decreases |a|
  {
    if a == [] {
      assert a + [sep] + b == [sep] + b;
      assert ([sep] + b)[1..] == b;
    } else {
      SplitAtSeparator(a[1..], sep, b);
      assert (a + [sep] + b)[1..] == a[1..] + [sep] + b;
      assert [a[0]] + a[1..] == a;
    }
  }

  /** Splitting what `join` wrote gives back the parts, when there is at least one and none
      holds the separator. */
  lemma {:induction false} SplitJoin(parts: seq<string>, sep: char)
    requires |parts| > 0
    requires forall k :: 0 <= k < |parts| ==> sep !in parts[k]
    ensures Split(Join(parts, sep), sep) == parts
    decreases |parts|
  {
    if |parts| == 1 {
      SplitNoSeparator(parts[0], sep);
    } else {
      SplitJoin(parts[1..], sep);
      SplitAtSeparator(parts[0], sep, Join(parts[1..], sep));
      assert [parts[0]] + parts[1..] == parts;
    }
  }

  /** Joining what `split` cut gives back the string, for every string. */
  lemma {:induction false} JoinSplit(s: string, sep: char)
    ensures Join(Split(s, sep), sep) == s
    decreases |s|
  {
    if s != [] {
      JoinSplit(s[1..], sep);
      var rest := Split(s[1..], sep);
      if s[0] == sep {
        assert ([""] + rest)[1..] == rest;
        assert s == [s[0]] + s[1..];
      } else {
        var r := [[s[0]] + rest[0]] + rest[1..];
        assert r[1..] == rest[1..];
        if |rest| > 1 {
          assert rest[1..][..] == rest[1..];
          assert Join(rest, sep) == rest[0] + [sep] + Join(rest[1..], sep);
        }
        assert s == [s[0]] + s[1..];
      }
    }
  }

  /** When no value holds `,` or a line break, every row has at least one value and there is
      at least one row, reading the export back line by line and field by field gives the
      values of every row in key order (a `null` coming back as the empty string). */
  lemma CsvRoundTrip(data: Dataset)
    requires |data| > 0
    requires forall i :: 0 <= i < |data| ==> |data[i]| > 0
    requires forall i, k :: 0 <= i < |data| && 0 <= k < |data[i]| ==>
               ',' !in PlainText(data[i][k].value) && '\n' !in PlainText(data[i][k].value)
    ensures |Split(CsvContent(data), '\n')| == |data|
    ensures forall i :: 0 <= i < |data| ==> Split(Split(CsvContent(data), '\n')[i], ',') == Fields(data[i])
  {
    var lines := CsvLines(data);
    forall i | 0 <= i < |data|
      ensures '\n' !in lines[i] && Split(lines[i], ',') == Fields(data[i])
    {
      var f := Fields(data[i]);
      assert forall k :: 0 <= k < |f| ==> '\n' !in f[k] && ',' !in f[k];
      NoSeparatorInJoin(f, ',', '\n');
      SplitJoin(f, ',');
    }
    SplitJoin(lines, '\n');
  }

  lemma {:induction false} NoSeparatorInJoin(parts: seq<string>, sep: char, c: char)
    requires c != sep
    requires forall k :: 0 <= k < |parts| ==> c !in parts[k]
    ensures c !in Join(parts, sep)
    decreases |parts|
  {
    if |parts| > 1 {
      NoSeparatorInJoin(parts[1..], sep, c);
    }
  }
}
