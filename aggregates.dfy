/**
 * The views the dashboard derives from the parsed rows: per-officer and
 * per-(mandal, panchayat) counts for the two charts, the two KPI figures, and
 * the "recent" table of the last 20 rows, newest first.
 */
module Aggregates {
  import opened Csv

  /** A property read on a row: the cell text, or JavaScript's `undefined` when the row lacks the key. */
  datatype Cell = Undefined | Value(text: string)

  /** `row[name]`. */
  function Lookup(row: Row, name: string): Cell {
    if name in row then Value(row[name]) else Undefined
  }

  /** JavaScript truthiness of a cell: only non-empty text is truthy. */
  predicate Truthy(c: Cell) {
    c.Value? && c.text != ""
  }

  /**
   * `row[clean] || row[legacy]`: the cleaned column when it holds text,
   * otherwise whatever the legacy column holds (possibly "" or `undefined`).
   */
  function Fallback(row: Row, clean: string, legacy: string): (c: Cell)
    ensures Truthy(c) <==> Truthy(Lookup(row, clean)) || Truthy(Lookup(row, legacy))
    ensures Truthy(Lookup(row, clean)) ==> c == Value(row[clean])
    ensures !Truthy(Lookup(row, clean)) ==> c == Lookup(row, legacy)
  {
    var first := Lookup(row, clean);
    if Truthy(first) then first else Lookup(row, legacy)
  }

  /** String conversion of a cell, as a property key or a template slot: `undefined` reads "undefined". */
  function Show(c: Cell): string {
    match c
    case Undefined => "undefined"
    case Value(t) => t
  }

  /** The officer a row is counted under: `Officer_Name_Clean`, falling back to `Name of the Officer`. */
  function OfficerName(row: Row): string {
    Show(Fallback(row, "Officer_Name_Clean", "Name of the Officer"))
  }

  /** The coverage key of a row: mandal, an en dash, then `Panchayat_Clean` or `Panchayat Name`. */
  function CoverageKey(row: Row): string {
    Show(Lookup(row, "Mandal Name")) + "–" + Show(Fallback(row, "Panchayat_Clean", "Panchayat Name"))
  }

  function OfficerNames(data: seq<Row>): (names: seq<string>)
    ensures |names| == |data|
  {
    seq(|data|, i requires 0 <= i < |data| => OfficerName(data[i]))
  }

  function CoverageKeys(data: seq<Row>): (keys: seq<string>)
    ensures |keys| == |data|
  {
    seq(|data|, i requires 0 <= i < |data| => CoverageKey(data[i]))
  }

  /** The `counts` dictionary after the `forEach`: each key seen is incremented once per occurrence. */
  function Tally(keys: seq<string>): map<string, nat> {
    if keys == [] then map[]
    else
      var before := Tally(keys[..|keys| - 1]);
      var k := keys[|keys| - 1];
      before[k := (if k in before then before[k] else 0) + 1]
  }

  function OfficerCounts(data: seq<Row>): map<string, nat> {
    Tally(OfficerNames(data))
  }

  function CoverageCounts(data: seq<Row>): map<string, nat> {
    Tally(CoverageKeys(data))
  }

  /** The sum of the values of a count map. */
  ghost function MapSum(m: map<string, nat>): nat
    decreases |m|
  {
    if m == map[] then 0
    else
      var k :| k in m;
      assert |m.Keys - {k}| < |m.Keys|;
      m[k] + MapSum(m - {k})
  }

  /** Any one key's count can be taken out of the sum. */
  lemma {:induction false} MapSumRemove(m: map<string, nat>, k: string)
    requires k in m
    ensures MapSum(m) == m[k] + MapSum(m - {k})
    decreases |m|
  {
    var j :| j in m && MapSum(m) == m[j] + MapSum(m - {j});
    if j != k {
      assert |(m - {j}).Keys| < |m.Keys|;
      assert |(m - {k}).Keys| < |m.Keys|;
      MapSumRemove(m - {j}, k);
      MapSumRemove(m - {k}, j);
      assert m - {j} - {k} == m - {k} - {j};
    }
  }

  /** The keys of a tally are exactly the keys seen, each with its number of occurrences. */
  lemma {:induction false} TallyCounts(keys: seq<string>)
    ensures forall k :: k in Tally(keys) <==> k in keys
    ensures forall k :: k in Tally(keys) ==> Tally(keys)[k] == multiset(keys)[k]
  {
    if keys != [] {
      var init := keys[..|keys| - 1];
      TallyCounts(init);
      assert keys == init + [keys[|keys| - 1]];
      assert multiset(keys) == multiset(init) + multiset{keys[|keys| - 1]};
    }
  }

  /** The counts of a tally add up to the number of keys counted. */
  lemma {:induction false} TallySum(keys: seq<string>)
    ensures MapSum(Tally(keys)) == |keys|
  {
    if keys != [] {
      var init := keys[..|keys| - 1];
      var k := keys[|keys| - 1];
      var before := Tally(init);
      TallySum(init);
      var after := Tally(keys);
      MapSumRemove(after, k);
      assert after - {k} == before - {k};
      if k in before {
        MapSumRemove(before, k);
      } else {
        assert before - {k} == before;
      }
    }
  }

  /**
   * `counts` as the `forEach` leaves it: every key seen is present with its
   * number of occurrences, and the counts sum to the number of keys.
   */
  method CountKeys(keys: seq<string>) returns (counts: map<string, nat>)
    ensures counts == Tally(keys)
    ensures forall k :: k in counts <==> k in keys
    ensures forall k :: k in counts ==> counts[k] == multiset(keys)[k]
    ensures MapSum(counts) == |keys|
  {
    counts := map[];
    var i := 0;
    while i < |keys|
      invariant 0 <= i <= |keys|
      invariant counts == Tally(keys[..i])
    {
      var k := keys[i];
      assert keys[..i + 1][..i] == keys[..i];
      counts := counts[k := (if k in counts then counts[k] else 0) + 1];
      i := i + 1;
    }
    assert keys[..i] == keys;
    TallyCounts(keys);
    TallySum(keys);
  }

  /**
   * Every row is counted exactly once in the officer chart: the counts add up
   * to the number of rows, an officer appears iff some row names them, and
   * their count is the number of rows naming them.
   */
  lemma OfficerCountsCoverRows(data: seq<Row>, k: string)
    ensures MapSum(OfficerCounts(data)) == |data|
    ensures k in OfficerCounts(data) <==> exists i :: 0 <= i < |data| && OfficerName(data[i]) == k
    ensures k in OfficerCounts(data) ==> OfficerCounts(data)[k] == multiset(OfficerNames(data))[k]
  {
    var names := OfficerNames(data);
    TallySum(names);
    TallyCounts(names);
    if k in names {
      var i :| 0 <= i < |data| && names[i] == k;
    }
    if exists i :: 0 <= i < |data| && OfficerName(data[i]) == k {
      var i :| 0 <= i < |data| && OfficerName(data[i]) == k;
      assert names[i] == k;
    }
  }

  /** The same for the coverage chart and its (mandal, panchayat) keys. */
  lemma CoverageCountsCoverRows(data: seq<Row>, k: string)
    ensures MapSum(CoverageCounts(data)) == |data|
    ensures k in CoverageCounts(data) <==> exists i :: 0 <= i < |data| && CoverageKey(data[i]) == k
    ensures k in CoverageCounts(data) ==> CoverageCounts(data)[k] == multiset(CoverageKeys(data))[k]
  {
    var keys := CoverageKeys(data);
    TallySum(keys);
    TallyCounts(keys);
    if k in keys {
      var i :| 0 <= i < |data| && keys[i] == k;
    }
    if exists i :: 0 <= i < |data| && CoverageKey(data[i]) == k {
      var i :| 0 <= i < |data| && CoverageKey(data[i]) == k;
      assert keys[i] == k;
    }
  }

  /** `r['Attachments']` is truthy. */
  predicate HasAttachment(row: Row) {
    Truthy(Lookup(row, "Attachments"))
  }

  /** `data.filter(r => r['Attachments']).length`. */
  function AttachedCount(data: seq<Row>): (n: nat)
    ensures n <= |data|
    ensures n == |data| <==> forall i :: 0 <= i < |data| ==> HasAttachment(data[i])
    ensures n == 0 <==> forall i :: 0 <= i < |data| ==> !HasAttachment(data[i])
  {
    if data == [] then 0
    else AttachedCount(data[..|data| - 1]) + (if HasAttachment(data[|data| - 1]) then 1 else 0)
  }

  /** The indices of the rows that `filter` keeps. */
  function AttachedIndices(data: seq<Row>): set<nat> {
    set i: nat | i < |data| && HasAttachment(data[i])
  }

  /** `attached` is the number of rows whose `Attachments` is non-empty. */
  lemma {:induction false} AttachedCountIndices(data: seq<Row>)
    ensures AttachedCount(data) == |AttachedIndices(data)|
  {
    if data != [] {
      var n := |data|;
      var init := data[..n - 1];
      AttachedCountIndices(init);
      var now, before := AttachedIndices(data), AttachedIndices(init);
      forall i: nat
        ensures i in now <==> i in before || (i == n - 1 && HasAttachment(data[n - 1]))
      {
        if i < n - 1 {
          assert data[i] == init[i];
        }
      }
      IndicesStep(now, before, n - 1, HasAttachment(data[n - 1]));
    }
  }

  /** Adding index `last`, beyond every index of `before`, exactly when `b` holds. */
  lemma IndicesStep(now: set<nat>, before: set<nat>, last: nat, b: bool)
    requires forall i :: i in before ==> i < last
    requires forall i: nat :: i in now <==> i in before || (i == last && b)
    ensures |now| == |before| + (if b then 1 else 0)
  {
    if b {
      assert now == before + {last};
    } else {
      assert now == before;
    }
  }

  /** The attachment-rate counter: a whole percentage, or `NaN` for an empty data set. */
  datatype Percent = NaN | Rounded(value: nat)

  /**
   * `Math.round(attached / total * 100)` in exact arithmetic: the whole
   * percentage nearest to the rate, halves rounded up; 0/0 is `NaN`.
   */
  function Percentage(attached: nat, total: nat): (p: Percent)
    requires attached <= total
    ensures p == NaN <==> total == 0
    ensures p.Rounded? ==> p.value <= 100
    ensures p.Rounded? ==> -(total as int) <= 200 * attached - 2 * (p.value * total) < total
  {
    if total == 0 then NaN
    else
      var q := (200 * attached + total) / (2 * total);
      RoundedBounds(attached, total);
      Rounded(q)
  }

  /** The rounded quotient is at most 100 and within half a unit of `100 * attached / total`. */
  lemma RoundedBounds(attached: nat, total: nat)
    requires attached <= total && total > 0
    ensures var q := (200 * attached + total) / (2 * total);
      && q <= 100 && -(total as int) <= 200 * attached - 2 * (q * total) < total
  {
    var x, b := 200 * attached + total, 2 * total;
    var q := x / b;
    DivBounds(x, b);
    assert b * q == 2 * (q * total);
    if q > 100 {
      MulMonotone(b, 101, q);
    }
  }

  lemma DivBounds(a: nat, b: nat)
    requires b > 0
    ensures b * (a / b) <= a < b * (a / b) + b
  {
  }

  lemma MulMonotone(b: nat, q: nat, r: nat)
    requires q <= r
    ensures b * q <= b * r
  {
  }

  /** `data.slice(-20)`: the last 20 rows, or all of them when there are fewer. */
  const RecentLimit: nat := 20

  function Last(data: seq<Row>): seq<Row> {
    data[if |data| > RecentLimit then |data| - RecentLimit else 0..]
  }

  /** `s.reverse()`. */
  function Reverse<T>(s: seq<T>): seq<T> {
    if s == [] then [] else Reverse(s[1..]) + [s[0]]
  }

  /** Reversing puts element `|s| - 1 - i` at position `i`. */
  lemma {:induction false} ReverseAt<T>(s: seq<T>)
    ensures |Reverse(s)| == |s|
    ensures forall i :: 0 <= i < |s| ==> Reverse(s)[i] == s[|s| - 1 - i]
  {
    if s != [] {
      ReverseAt(s[1..]);
    }
  }

  /** `data.slice(-20).reverse()`. */
  function Recent(data: seq<Row>): seq<Row> {
    Reverse(Last(data))
  }

  /** One table row: the seven template slots, with the clean-or-legacy fallback where the template has it. */
  function DisplayRow(row: Row): seq<Cell> {
    [ Lookup(row, "Timestamp"),
      Fallback(row, "Officer_Name_Clean", "Name of the Officer"),
      Fallback(row, "Department_Clean", "Department"),
      Lookup(row, "Mandal Name"),
      Fallback(row, "Panchayat_Clean", "Panchayat Name"),
      Lookup(row, "Purpose of Visit"),
      Lookup(row, "Key observations/Outcomes") ]
  }

  /** The table body the update leaves: one display row per recent row. */
  function RecentTable(data: seq<Row>): seq<seq<Cell>> {
    var recent := Recent(data);
    seq(|recent|, i requires 0 <= i < |recent| => DisplayRow(recent[i]))
  }

  function Min(a: nat, b: nat): nat {
    if a < b then a else b
  }

  /**
   * The recent table holds `min(20, n)` rows, newest first: row `i` shows
   * `data[n - 1 - i]`, in seven cells, and its officer cell is the name the
   * officer chart counts that row under.
   */
  lemma RecentTableAt(data: seq<Row>)
    ensures |RecentTable(data)| == Min(RecentLimit, |data|)
    ensures forall i :: 0 <= i < |RecentTable(data)| ==>
      && RecentTable(data)[i] == DisplayRow(data[|data| - 1 - i])
      && |RecentTable(data)[i]| == 7
      && Show(RecentTable(data)[i][1]) == OfficerName(data[|data| - 1 - i])
  {
    var last := Last(data);
    ReverseAt(last);
    var n := |data|;
    var start := if n > RecentLimit then n - RecentLimit else 0;
    forall i | 0 <= i < |RecentTable(data)|
      ensures RecentTable(data)[i] == DisplayRow(data[n - 1 - i])
      ensures |RecentTable(data)[i]| == 7
      ensures Show(RecentTable(data)[i][1]) == OfficerName(data[n - 1 - i])
    {
      assert Recent(data)[i] == last[|last| - 1 - i];
      assert last[|last| - 1 - i] == data[start + |last| - 1 - i];
      DisplayRowOfficer(data[n - 1 - i]);
    }
  }

  /** A table row has the seven slots, and its second slot shows the officer chart's name for the row. */
  lemma DisplayRowOfficer(row: Row)
    ensures |DisplayRow(row)| == 7
    ensures Show(DisplayRow(row)[1]) == OfficerName(row)
  {
  }

  /** Three distinct keys are each counted once. */
  lemma TallyDistinctThree(x: string, y: string, z: string)
    requires x != y && y != z && x != z
    ensures Tally([x, y, z]) == map[x := 1, y := 1, z := 1]
  {
    assert [x, y, z][..2] == [x, y] && [x, y][..1] == [x] && [x][..0] == [];
    assert Tally([x]) == map[x := 1];
    assert Tally([x, y]) == map[x := 1, y := 1];
  }

  /** The officer column of a row with a timestamp column and an `Officer_Name_Clean` column. */
  lemma CleanOnlyOfficer(h1: string, h2: string, a: string, b: string)
    requires h2 == "Officer_Name_Clean" && h1 != h2 && h1 != "Name of the Officer"
    ensures OfficerName(map[h1 := a, h2 := b]) == if b == "" then "undefined" else b
  {
    var row := map[h1 := a, h2 := b];
    assert Lookup(row, h2) == Value(b);
    assert "Name of the Officer" !in row;
  }

  /**
   * An export whose columns are a timestamp and `Officer_Name_Clean`, with two
   * visits by different officers and a trailing newline: the officer chart
   * counts each officer once and the all-empty last row once, under "undefined".
   */
  lemma TwoVisitOfficerCounts(h1: string, h2: string, a1: string, b1: string, a2: string, b2: string)
    requires PlainCell(h1) && PlainCell(h2) && PlainCell(a1) && PlainCell(b1) && PlainCell(a2) && PlainCell(b2)
    requires h2 == "Officer_Name_Clean" && h1 != h2 && h1 != "Name of the Officer"
    requires b1 != b2 && b1 != "undefined" && b2 != "undefined"
    ensures OfficerCounts(ParseCsv((h1 + "," + h2) + "\n" + (a1 + "," + b1) + "\n" + (a2 + "," + b2) + "\n"))
         == map[b1 := 1, b2 := 1, "undefined" := 1]
  {
    TwoLineExportRows(h1, h2, a1, b1, a2, b2);
    var rows := [map[h1 := a1, h2 := b1], map[h1 := a2, h2 := b2], map[h1 := "", h2 := ""]];
    CleanOnlyOfficer(h1, h2, a1, b1);
    CleanOnlyOfficer(h1, h2, a2, b2);
    CleanOnlyOfficer(h1, h2, "", "");
    assert OfficerNames(rows) == [b1, b2, "undefined"];
    TallyDistinctThree(b1, b2, "undefined");
  }

  /**
   * The two-visit export with a trailing newline parses to THREE rows, not
   * two: the last, all-empty row is counted under "undefined" by the officer
   * chart (the export has no `Name of the Officer` column) and in the total.
   * The change marker is the first cell of the last data line.
   */
  lemma TwoVisitExample(csv: string)
    requires csv == "Timestamp,Officer_Name_Clean" + "\n" + "2024-01-01,Alice" + "\n" + "2024-01-02,Bob" + "\n"
    ensures |ParseCsv(csv)| == 3
    ensures LatestMarker(csv) == "2024-01-02"
    ensures OfficerCounts(ParseCsv(csv)) == map["Alice" := 1, "Bob" := 1, "undefined" := 1]
  {
    var h1, h2, a1, b1, a2, b2 := "Timestamp", "Officer_Name_Clean", "2024-01-01", "Alice", "2024-01-02", "Bob";
    ExampleCells(h1, h2, a1, b1, a2, b2);
    ExampleText(h1, h2, a1, b1, a2, b2, csv);
    TwoLineExportRows(h1, h2, a1, b1, a2, b2);
    TwoLineExportMarker(h1, h2, a1, b1, a2, b2);
    TwoVisitOfficerCounts(h1, h2, a1, b1, a2, b2);
  }

  lemma ExampleCells(h1: string, h2: string, a1: string, b1: string, a2: string, b2: string)
    requires h1 == "Timestamp" && h2 == "Officer_Name_Clean" && a1 == "2024-01-01"
    requires b1 == "Alice" && a2 == "2024-01-02" && b2 == "Bob"
    ensures PlainCell(h1) && PlainCell(h2) && PlainCell(a1) && PlainCell(b1) && PlainCell(a2) && PlainCell(b2)
    ensures h1 != "Name of the Officer" && h1 != h2 && b1 != b2 && b1 != "undefined" && b2 != "undefined"
  {
    assert h1[0] != h2[0] && h1[0] != "Name of the Officer"[0];
    assert b1[0] != b2[0] && b1[0] != "undefined"[0] && b2[0] != "undefined"[0];
  }

  lemma ExampleText(h1: string, h2: string, a1: string, b1: string, a2: string, b2: string, csv: string)
    requires h1 == "Timestamp" && h2 == "Officer_Name_Clean" && a1 == "2024-01-01"
    requires b1 == "Alice" && a2 == "2024-01-02" && b2 == "Bob"
    requires csv == "Timestamp,Officer_Name_Clean" + "\n" + "2024-01-01,Alice" + "\n" + "2024-01-02,Bob" + "\n"
    ensures csv == (h1 + "," + h2) + "\n" + (a1 + "," + b1) + "\n" + (a2 + "," + b2) + "\n"
  {
    assert h1 + "," + h2 == "Timestamp,Officer_Name_Clean";
    assert a1 + "," + b1 == "2024-01-01,Alice";
    assert a2 + "," + b2 == "2024-01-02,Bob";
  }
}
