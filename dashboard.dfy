/**
 * The polling handler: one persisted field (the last change marker seen) and
 * the four presentation sinks it pushes derived views into. The network fetch
 * is a parameter of `CheckForUpdates`; the timer that calls it every 30
 * seconds is not modelled.
 */
module Dashboard {
  import opened Strings
  import opened Csv
  import opened Aggregates

  /** What `fetch(url)` followed by `response.text()` produced on one poll. */
  datatype Fetch = Fetched(text: string) | FetchFailed

  /** A chart widget: missing from the page, or present and showing a label-to-count map. */
  datatype Chart = Absent | Showing(counts: map<string, nat>)

  /** `!lastUpdate || currentUpdate > lastUpdate`: whether a poll re-renders the dashboard. */
  predicate UpdateDue(stored: string, current: string) {
    stored == [] || LexLess(stored, current)
  }

  /**
   * With a marker stored, a poll re-renders exactly when the new marker is
   * neither equal to nor before the stored one; in particular the same
   * non-empty marker never triggers twice. An empty stored marker always does.
   */
  lemma UpdateDueIff(stored: string, current: string)
    ensures stored == [] ==> UpdateDue(stored, current)
    ensures stored != [] ==> (UpdateDue(stored, current) <==> !(current == stored || LexLess(current, stored)))
  {
    if stored != [] {
      if current != stored {
        LexLessTotal(stored, current);
      } else {
        LexLessIrreflexive(stored);
      }
      if LexLess(stored, current) && LexLess(current, stored) {
        LexLessTransitive(stored, current, stored);
        LexLessIrreflexive(stored);
      }
    }
  }

  class DashboardWebhookHandler {
    /** `localStorage['lastDashboardUpdate']`; "" stands for "absent", which the source treats alike. */
    var lastMarker: string
    /** `window.officerChart` and `window.coverageChart`. */
    var officerChart: Chart
    var coverageChart: Chart
    /** Whether `#total-tours`, `#perc-attachments` and `#data-table tbody` are on the page. */
    const hasTotalTours: bool
    const hasPercAttachments: bool
    const hasTableBody: bool
    /** What `#total-tours` and `#perc-attachments` show, and the rows of the table body. */
    var totalTours: nat
    var percAttachments: Percent
    var table: seq<seq<Cell>>

    constructor (storedMarker: string, officerChart: Chart, coverageChart: Chart,
                 hasTotalTours: bool, hasPercAttachments: bool, hasTableBody: bool)
      ensures lastMarker == storedMarker
      ensures this.officerChart == officerChart && this.coverageChart == coverageChart
      ensures this.hasTotalTours == hasTotalTours && this.hasPercAttachments == hasPercAttachments
      ensures this.hasTableBody == hasTableBody
      ensures totalTours == 0 && percAttachments == NaN && table == []
    {
      lastMarker := storedMarker;
      this.officerChart := officerChart;
      this.coverageChart := coverageChart;
      this.hasTotalTours := hasTotalTours;
      this.hasPercAttachments := hasPercAttachments;
      this.hasTableBody := hasTableBody;
      totalTours := 0;
      percAttachments := NaN;
      table := [];
    }

    /**
     * The sinks after rendering `csv`: each present chart shows its counts, and
     * the counters and the table are written in order until the first missing
     * element, which throws (`ok` is false) and leaves the rest as they were.
     */
    twostate predicate Rendered(csv: string, ok: bool)
      reads this
    {
      var data := ParseCsv(csv);
      && officerChart == (if old(officerChart).Absent? then Absent else Showing(OfficerCounts(data)))
      && coverageChart == (if old(coverageChart).Absent? then Absent else Showing(CoverageCounts(data)))
      && totalTours == (if hasTotalTours then |data| else old(totalTours))
      && percAttachments == (if hasTotalTours && hasPercAttachments
                             then Percentage(AttachedCount(data), |data|) else old(percAttachments))
      && table == (if hasTotalTours && hasPercAttachments && hasTableBody
                   then RecentTable(data) else old(table))
      && ok == (hasTotalTours && hasPercAttachments && hasTableBody)
    }

    /** `checkForUpdates()` for one poll whose fetch produced `fetch`; `written` says whether the marker was stored. */
    method CheckForUpdates(fetch: Fetch) returns (written: bool)
      modifies this
      ensures fetch.FetchFailed? ==> !written && unchanged(this)
      ensures fetch.Fetched? && !UpdateDue(old(lastMarker), LatestMarker(fetch.text)) ==>
        !written && unchanged(this)
      ensures fetch.Fetched? && UpdateDue(old(lastMarker), LatestMarker(fetch.text)) ==>
        Rendered(fetch.text, written)
      ensures lastMarker == (if written then LatestMarker(fetch.text) else old(lastMarker))
      ensures old(lastMarker) != [] ==> lastMarker == old(lastMarker) || LexLess(old(lastMarker), lastMarker)
    {
      written := false;
      if fetch.FetchFailed? {
        return;
      }
      var current := LatestMarker(fetch.text);
      if UpdateDue(lastMarker, current) {
        var ok := UpdateDashboardData(fetch.text);
        if ok {
          lastMarker := current;
          written := true;
        }
      }
    }

    /** `updateDashboardData(csv)`; `ok` is false when a missing page element made it throw. */
    method UpdateDashboardData(csv: string) returns (ok: bool)
      modifies this`officerChart, this`coverageChart, this`totalTours, this`percAttachments, this`table
      ensures Rendered(csv, ok)
    {
      var data := ParseCsv(csv);
      if officerChart.Showing? {
        UpdateOfficerChart(data);
      }
      if coverageChart.Showing? {
        UpdateCoverageChart(data);
      }
      ok := UpdateKPICards(data);
      if !ok {
        return;
      }
      ok := UpdateDataTable(data);
    }

    /** `updateOfficerChart(data)`: the chart's labels and values become the per-officer counts. */
    method UpdateOfficerChart(data: seq<Row>)
      requires officerChart.Showing?
      modifies this`officerChart
      ensures officerChart == Showing(OfficerCounts(data))
      ensures MapSum(officerChart.counts) == |data|
    {
      var counts := CountKeys(OfficerNames(data));
      officerChart := Showing(counts);
    }

    /** `updateCoverageChart(data)`: the chart's labels and values become the per-(mandal, panchayat) counts. */
    method UpdateCoverageChart(data: seq<Row>)
      requires coverageChart.Showing?
      modifies this`coverageChart
      ensures coverageChart == Showing(CoverageCounts(data))
      ensures MapSum(coverageChart.counts) == |data|
    {
      var counts := CountKeys(CoverageKeys(data));
      coverageChart := Showing(counts);
    }

    /** `updateKPICards(data)`: the row count, then the attachment percentage; a missing element throws. */
    method UpdateKPICards(data: seq<Row>) returns (ok: bool)
      modifies this`totalTours, this`percAttachments
      ensures ok == (hasTotalTours && hasPercAttachments)
      ensures totalTours == if hasTotalTours then |data| else old(totalTours)
      ensures percAttachments == if ok then Percentage(AttachedCount(data), |data|) else old(percAttachments)
    {
      var total := |data|;
      var attached := AttachedCount(data);
      if !hasTotalTours {
        return false;
      }
      totalTours := total;
      if !hasPercAttachments {
        return false;
      }
      percAttachments := Percentage(attached, total);
      ok := true;
    }

    /**
     * `updateDataTable(data)`: clears the table body, then appends one row per
     * recent row, so the body ends up holding `min(20, n)` rows, newest first,
     * whatever it held before. A missing table body throws.
     */
    method UpdateDataTable(data: seq<Row>) returns (ok: bool)
      modifies this`table
      ensures ok == hasTableBody
      ensures table == if ok then RecentTable(data) else old(table)
      ensures ok ==> |table| == Min(RecentLimit, |data|)
      ensures ok ==> forall i :: 0 <= i < |table| ==> table[i] == DisplayRow(data[|data| - 1 - i])
    {
      if !hasTableBody {
        return false;
      }
      table := [];
      var recent := Recent(data);
      var i := 0;
      while i < |recent|
        invariant 0 <= i <= |recent|
        invariant |table| == i
        invariant forall j :: 0 <= j < i ==> table[j] == DisplayRow(recent[j])
      {
        table := table + [DisplayRow(recent[i])];
        i := i + 1;
      }
      RecentTableAt(data);
      ok := true;
    }
  }
}
