/**
 * The two text functions of the dashboard handler: the naive delimited-text
 * parser `parseCSV` and the change-marker extraction `getLatestTimestamp`.
 * There is no quoting or escaping: a line is cut at every ',' and the text at
 * every '\n'.
 */
module Csv {
  import opened Strings

  /** A parsed record: trimmed column name to trimmed cell text. */
  type Row = map<string, string>

  /** The text stored for column `i`: the trimmed cell, or "" when the line has no such cell. */
  function CellValue(vals: seq<string>, i: nat): string {
    if i < |vals| then Trim(vals[i]) else ""
  }

  /** The row built from the first `n` header cells, assigning left to right as the reduce does. */
  function RowPrefix(keys: seq<string>, vals: seq<string>, n: nat): Row
    requires n <= |keys|
  {
    if n == 0 then map[]
    else RowPrefix(keys, vals, n - 1)[Trim(keys[n - 1]) := CellValue(vals, n - 1)]
  }

  /** One data line zipped against the header cells `keys`. */
  function ParseRow(keys: seq<string>, line: string): Row {
    RowPrefix(keys, Split(line, ','), |keys|)
  }

  /** The trimmed header names, in column order. */
  function HeaderNames(keys: seq<string>): (names: seq<string>)
    ensures |names| == |keys|
  {
    seq(|keys|, i requires 0 <= i < |keys| => Trim(keys[i]))
  }

  /** The header cells: the first line cut at ','. */
  function HeaderCells(csv: string): seq<string> {
    Split(Split(csv, '\n')[0], ',')
  }

  /** `parseCSV(csv)`: every line after the first becomes a row. */
  function ParseCsv(csv: string): seq<Row> {
    var lines := Split(csv, '\n');
    var keys := Split(lines[0], ',');
    seq(|lines| - 1, i requires 0 <= i < |lines| - 1 => ParseRow(keys, lines[i + 1]))
  }

  /** `getLatestTimestamp(csv)`: the text before the first ',' of the last line of the trimmed text. */
  function LatestMarker(csv: string): string {
    var lines := Split(Trim(csv), '\n');
    Split(lines[|lines| - 1], ',')[0]
  }

  /** There is one row per '\n' in the text, blank lines and a trailing newline included. */
  lemma ParseCsvRowCount(csv: string)
    ensures |ParseCsv(csv)| == multiset(csv)['\n']
  {
    SplitCount(csv, '\n');
  }

  /** The key set of a row is the set of trimmed header names. */
  lemma {:induction false} RowPrefixKeys(keys: seq<string>, vals: seq<string>, n: nat)
    requires n <= |keys|
    ensures forall k :: k in RowPrefix(keys, vals, n) <==> k in HeaderNames(keys)[..n]
  {
    if n > 0 {
      RowPrefixKeys(keys, vals, n - 1);
      var names := HeaderNames(keys);
      assert names[..n] == names[..n - 1] + [Trim(keys[n - 1])];
    }
  }

  /**
   * A column's value is the cell of the LAST header cell with that trimmed name:
   * a later duplicate name overwrites an earlier one.
   */
  lemma {:induction false} RowPrefixValue(keys: seq<string>, vals: seq<string>, n: nat, i: nat)
    requires i < n <= |keys|
    requires forall j :: i < j < n ==> Trim(keys[j]) != Trim(keys[i])
    ensures Trim(keys[i]) in RowPrefix(keys, vals, n)
    ensures RowPrefix(keys, vals, n)[Trim(keys[i])] == CellValue(vals, i)
  {
    if i < n - 1 {
      RowPrefixValue(keys, vals, n - 1, i);
    }
  }

  /** Only the first `n` cells of a line matter; cells beyond the header count are ignored. */
  lemma RowPrefixIgnoresExtraCells(keys: seq<string>, vals: seq<string>, n: nat)
    requires n <= |keys| && n <= |vals|
    ensures RowPrefix(keys, vals, n) == RowPrefix(keys, vals[..n], n)
  {
    RowPrefixCellsAgree(keys, vals, vals[..n], n);
  }

  /** Two cell lists that agree on the first `n` columns give the same row. */
  lemma {:induction false} RowPrefixCellsAgree(keys: seq<string>, vals: seq<string>, other: seq<string>, n: nat)
    requires n <= |keys|
    requires forall i :: 0 <= i < n ==> CellValue(vals, i) == CellValue(other, i)
    ensures RowPrefix(keys, vals, n) == RowPrefix(keys, other, n)
  {
    if n > 0 {
      RowPrefixCellsAgree(keys, vals, other, n - 1);
    }
  }

  /** With distinct trimmed header names a row has exactly one field per header cell. */
  lemma {:induction false} RowPrefixFieldCount(keys: seq<string>, vals: seq<string>, n: nat)
    requires n <= |keys|
    requires forall i, j :: 0 <= i < j < n ==> Trim(keys[i]) != Trim(keys[j])
    ensures |RowPrefix(keys, vals, n)| == n
  {
    if n > 0 {
      RowPrefixFieldCount(keys, vals, n - 1);
      RowPrefixKeys(keys, vals, n - 1);
      var names := HeaderNames(keys);
      assert forall j :: 0 <= j < n - 1 ==> names[j] == Trim(keys[j]);
      assert Trim(keys[n - 1]) !in names[..n - 1];
    }
  }

  /** Row `r` of the parse is the zip of line `r + 1` against the header cells. */
  lemma ParsedRow(csv: string, r: nat)
    requires r < |ParseCsv(csv)|
    ensures r + 1 < |Split(csv, '\n')|
    ensures ParseCsv(csv)[r] == RowPrefix(HeaderCells(csv), Split(Split(csv, '\n')[r + 1], ','), |HeaderCells(csv)|)
  {
    var lines := Split(csv, '\n');
    assert ParseCsv(csv)[r] == ParseRow(HeaderCells(csv), lines[r + 1]);
  }

  /** Every parsed row has the trimmed header names as its key set. */
  lemma ParsedRowKeys(csv: string, r: nat)
    requires r < |ParseCsv(csv)|
    ensures ParseCsv(csv)[r].Keys == set k | k in HeaderNames(HeaderCells(csv))
  {
    var keys := HeaderCells(csv);
    var vals := Split(Split(csv, '\n')[r + 1], ',');
    ParsedRow(csv, r);
    RowPrefixKeys(keys, vals, |keys|);
    var names := HeaderNames(keys);
    assert names[..|keys|] == names;
  }

  /**
   * In every parsed row, the name of header cell `i` (when no later header cell
   * trims to the same name) holds the trimmed cell `i` of the line, or "" when
   * the line is shorter than the header.
   */
  lemma ParsedRowValue(csv: string, r: nat, i: nat)
    requires r < |ParseCsv(csv)|
    requires i < |HeaderCells(csv)|
    requires forall j :: i < j < |HeaderCells(csv)| ==> Trim(HeaderCells(csv)[j]) != Trim(HeaderCells(csv)[i])
    ensures Trim(HeaderCells(csv)[i]) in ParseCsv(csv)[r]
    ensures ParseCsv(csv)[r][Trim(HeaderCells(csv)[i])] == CellValue(Split(Split(csv, '\n')[r + 1], ','), i)
  {
    var keys := HeaderCells(csv);
    ParsedRow(csv, r);
    RowPrefixValue(keys, Split(Split(csv, '\n')[r + 1], ','), |keys|, i);
  }

  /** A row in which every field is "". */
  predicate AllEmpty(row: Row) {
    forall k :: k in row ==> row[k] == ""
  }

  /** A trailing newline adds a last row whose every field is "". */
  lemma TrailingNewlineRow(csv: string)
    requires csv != [] && csv[|csv| - 1] == '\n'
    ensures |ParseCsv(csv)| >= 1 && AllEmpty(ParseCsv(csv)[|ParseCsv(csv)| - 1])
  {
    var body := csv[..|csv| - 1];
    assert csv == body + ['\n'];
    SplitTrailingSeparator(body, '\n');
    var lines := Split(csv, '\n');
    assert lines[|lines| - 1] == [];
    var keys := HeaderCells(csv);
    var n := |lines| - 2;
    ParsedRow(csv, n);
    assert Split([], ',') == [[]];
    EmptyLineRow(keys, |keys|);
  }

  lemma {:induction false} EmptyLineRow(keys: seq<string>, n: nat)
    requires n <= |keys|
    ensures AllEmpty(RowPrefix(keys, [[]], n))
  {
    if n > 0 {
      EmptyLineRow(keys, n - 1);
      assert CellValue([[]], n - 1) == [];
    }
  }

  /**
   * Where the marker sits in the trimmed text `t`: it starts a line (position
   * `start` is 0 or follows a '\n'), that line is the last one, and the marker
   * runs up to the line's first ',' or to its end. So it holds no ',' and no '\n'.
   */
  lemma LatestMarkerPosition(csv: string) returns (start: nat)
    ensures var t := Trim(csv); var m := LatestMarker(csv);
      && start + |m| <= |t| && m == t[start..start + |m|]
      && (start == 0 || t[start - 1] == '\n')
      && '\n' !in t[start..]
      && (start + |m| == |t| || t[start + |m|] == ',')
      && ',' !in m && '\n' !in m
  {
    start := FirstFieldOfLastLine(Trim(csv));
  }

  lemma FirstFieldOfLastLine(t: string) returns (start: nat)
    ensures var lines := Split(t, '\n'); var m := Split(lines[|lines| - 1], ',')[0];
      && start + |m| <= |t| && m == t[start..start + |m|]
      && (start == 0 || t[start - 1] == '\n')
      && '\n' !in t[start..]
      && (start + |m| == |t| || t[start + |m|] == ',')
      && ',' !in m && '\n' !in m
  {
    start := LastLine(t);
    var line := t[start..];
    FirstField(line);
    var m := Split(line, ',')[0];
    assert line[..|m|] == t[start..start + |m|];
  }

  /** The last '\n'-piece of `t` is the suffix after the last '\n'. */
  lemma LastLine(t: string) returns (start: nat)
    ensures var lines := Split(t, '\n');
      && start <= |t| && lines[|lines| - 1] == t[start..]
      && (start == 0 || t[start - 1] == '\n')
      && '\n' !in t[start..]
  {
    var lines := Split(t, '\n');
    SplitLastPiece(t, '\n');
    start := |t| - |lines[|lines| - 1]|;
  }

  /** The first ','-piece of a line is the prefix before its first ','. */
  lemma FirstField(line: string)
    ensures var m := Split(line, ',')[0];
      && |m| <= |line| && m == line[..|m|] && (|m| == |line| || line[|m|] == ',') && ',' !in m
  {
    SplitFirstPiece(line, ',');
  }

  /** Text of a single line (after trimming): the marker is its first header cell. */
  lemma HeaderOnlyMarker(csv: string)
    requires '\n' !in Trim(csv)
    ensures LatestMarker(csv) == Split(Trim(csv), ',')[0]
  {
    SplitNoSeparator(Trim(csv), '\n');
  }

  /** A cell text the parser keeps as it is: no ',' or '\n' inside, no whitespace at either end. */
  predicate PlainCell(s: string) {
    s != [] && ',' !in s && '\n' !in s && !IsWhitespace(s[0]) && !IsWhitespace(s[|s| - 1])
  }

  /** `a,b` cut at ','. */
  lemma SplitPair(a: string, b: string)
    requires PlainCell(a) && PlainCell(b)
    ensures Split(a + "," + b, ',') == [a, b]
    ensures '\n' !in a + "," + b
  {
    SplitAfterPiece(a, ',', b);
    SplitNoSeparator(b, ',');
  }

  /** Three lines joined by '\n', with and without a final '\n'. */
  lemma SplitThreeLines(l0: string, l1: string, l2: string)
    requires '\n' !in l0 && '\n' !in l1 && '\n' !in l2
    ensures Split(l0 + "\n" + l1 + "\n" + l2, '\n') == [l0, l1, l2]
    ensures Split(l0 + "\n" + l1 + "\n" + l2 + "\n", '\n') == [l0, l1, l2, []]
  {
    var t := l0 + "\n" + l1 + "\n" + l2;
    assert t == l0 + ['\n'] + (l1 + ['\n'] + l2);
    SplitNoSeparator(l2, '\n');
    SplitAfterPiece(l1, '\n', l2);
    SplitAfterPiece(l0, '\n', l1 + ['\n'] + l2);
    SplitTrailingSeparator(t, '\n');
  }

  /** A header `h1,h2` and a data line `a,b` make the row {h1: a, h2: b}. */
  lemma PairRow(h1: string, h2: string, a: string, b: string)
    requires PlainCell(h1) && PlainCell(h2) && PlainCell(a) && PlainCell(b)
    ensures ParseRow([h1, h2], a + "," + b) == map[h1 := a, h2 := b]
  {
    SplitPair(a, b);
    TrimUnchanged(h1);
    TrimUnchanged(h2);
    TrimUnchanged(a);
    TrimUnchanged(b);
    assert RowPrefix([h1, h2], [a, b], 1) == map[h1 := a];
    assert RowPrefix([h1, h2], [a, b], 2) == map[h1 := a][h2 := b];
  }

  /** An empty line under a header `h1,h2` makes the row {h1: "", h2: ""}. */
  lemma EmptyPairRow(h1: string, h2: string)
    requires PlainCell(h1) && PlainCell(h2)
    ensures ParseRow([h1, h2], []) == map[h1 := "", h2 := ""]
  {
    TrimUnchanged(h1);
    TrimUnchanged(h2);
    assert Trim([]) == [];
    assert Split([], ',') == [[]];
    assert RowPrefix([h1, h2], [[]], 1) == map[h1 := ""];
    assert RowPrefix([h1, h2], [[]], 2) == map[h1 := ""][h2 := ""];
  }

  /**
   * A two-column header and two data lines, each line ended by '\n': the
   * trailing newline makes a third, all-empty row.
   */
  lemma TwoLineExportRows(h1: string, h2: string, a1: string, b1: string, a2: string, b2: string)
    requires PlainCell(h1) && PlainCell(h2) && PlainCell(a1) && PlainCell(b1) && PlainCell(a2) && PlainCell(b2)
    ensures ParseCsv((h1 + "," + h2) + "\n" + (a1 + "," + b1) + "\n" + (a2 + "," + b2) + "\n")
         == [map[h1 := a1, h2 := b1], map[h1 := a2, h2 := b2], map[h1 := "", h2 := ""]]
  {
    var l0, l1, l2 := h1 + "," + h2, a1 + "," + b1, a2 + "," + b2;
    SplitPair(h1, h2);
    SplitPair(a1, b1);
    SplitPair(a2, b2);
    SplitThreeLines(l0, l1, l2);
    ThreeLineRows(l0 + "\n" + l1 + "\n" + l2 + "\n", l0, l1, l2);
    PairRow(h1, h2, a1, b1);
    PairRow(h1, h2, a2, b2);
    EmptyPairRow(h1, h2);
  }

  /** Text cut into a header line, two data lines and an empty tail: the last three become the rows. */
  lemma ThreeLineRows(csv: string, l0: string, l1: string, l2: string)
    requires Split(csv, '\n') == [l0, l1, l2, []]
    ensures ParseCsv(csv) == [ParseRow(Split(l0, ','), l1), ParseRow(Split(l0, ','), l2), ParseRow(Split(l0, ','), [])]
  {
  }

  /** For the same export the marker is the first cell of the last data line. */
  lemma TwoLineExportMarker(h1: string, h2: string, a1: string, b1: string, a2: string, b2: string)
    requires PlainCell(h1) && PlainCell(h2) && PlainCell(a1) && PlainCell(b1) && PlainCell(a2) && PlainCell(b2)
    ensures LatestMarker((h1 + "," + h2) + "\n" + (a1 + "," + b1) + "\n" + (a2 + "," + b2) + "\n") == a2
  {
    var l0, l1, l2 := h1 + "," + h2, a1 + "," + b1, a2 + "," + b2;
    SplitPair(h1, h2);
    SplitPair(a1, b1);
    SplitPair(a2, b2);
    SplitThreeLines(l0, l1, l2);
    var t := l0 + "\n" + l1 + "\n" + l2;
    assert t[0] == h1[0] && t[|t| - 1] == b2[|b2| - 1];
    TrimFinalNewline(t);
  }

  /** One final '\n' after text with no whitespace at either end is trimmed away. */
  lemma TrimFinalNewline(t: string)
    requires t != [] && !IsWhitespace(t[0]) && !IsWhitespace(t[|t| - 1])
    ensures Trim(t + "\n") == t
  {
    var csv := t + "\n";
    assert csv[0] == t[0];
    assert TrimStart(csv) == csv;
    assert csv[..|csv| - 1] == t;
    assert TrimEnd(csv) == TrimEnd(t);
    TrimUnchanged(t);
    assert TrimStart(t) == t;
  }
}
