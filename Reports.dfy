/**
 * The row lists behind the dashboard's tables and exports: the spreadsheet's
 * Summary and Detailed Criteria sheets, the Full Report table, the CSV export,
 * and the two helpers those tables use (recommendation truncation and the
 * table-height clamp). The spreadsheet and CSV encodings themselves are not
 * modelled; only the rows they are given.
 */
module Reports {
  import opened Wrappers
  import opened Text
  import opened Verdicts
  import opened Tallies

  /** A spreadsheet cell that holds either a number or a text placeholder. */
  datatype Cell = Num(value: real) | Str(text: string)

  /** One row of the Summary sheet. */
  datatype SummaryRow = SummaryRow(
    patientId: string,
    status: string,
    confidence: real,
    criteriaMet: nat,
    criteriaNotMet: nat,
    needsReview: nat,
    recommendation: string)

  function SummaryRowOf(r: Verdict): SummaryRow
  {
    var t := RecordTally(r);
    SummaryRow(PatientIdOr(r), EligibilityOr(r), Confidence(r), t.met, t.notMet, t.needsVerification,
               RecommendationOr(r))
  }

  /** One row of the Detailed Criteria sheet. */
  datatype DetailRow = DetailRow(
    patientId: string,
    criterion: string,
    patientValue: string,
    status: string,
    score: Cell)

  const REVIEW_LABEL := "Review"

  /** `c.get("status", "N/A").replace("NEEDS_VERIFICATION", "Review")` */
  function DetailStatus(c: Criterion): string
  {
    Replace(c.status.GetOr(NOT_AVAILABLE), NEEDS_VERIFICATION, REVIEW_LABEL)
  }

  /**
   * A criterion that needs verification is shown as "Review"; a missing status
   * as "N/A"; any status that does not contain NEEDS_VERIFICATION (MET and
   * NOT_MET among them) is shown unchanged.
   */
  lemma DetailStatusShown(c: Criterion)
    ensures c.status == Some(NEEDS_VERIFICATION) ==> DetailStatus(c) == REVIEW_LABEL
    ensures c.status.None? ==> DetailStatus(c) == NOT_AVAILABLE
    ensures c.status.Some? && !Occurs(c.status.value, NEEDS_VERIFICATION) ==> DetailStatus(c) == c.status.value
    ensures c.status == Some(MET) ==> DetailStatus(c) == MET
    ensures c.status == Some(NOT_MET) ==> DetailStatus(c) == NOT_MET
  {
    ReplaceWhole(NEEDS_VERIFICATION, REVIEW_LABEL);
    if c.status.Some? && !Occurs(c.status.value, NEEDS_VERIFICATION) {
      ReplaceAbsent(c.status.value, NEEDS_VERIFICATION, REVIEW_LABEL);
    }
  }

  function DetailRowOf(patientId: string, c: Criterion): DetailRow
  {
    DetailRow(patientId, c.criterion.GetOr(NOT_AVAILABLE), c.patientValue.GetOr(NOT_AVAILABLE),
              DetailStatus(c), if c.score.Some? then Num(c.score.value) else Str(NOT_AVAILABLE))
  }

  /** The detail rows of one patient's criteria, all stamped with that patient's id. */
  function CriterionRows(patientId: string, cs: seq<Criterion>): seq<DetailRow>
  {
    if cs == [] then [] else CriterionRows(patientId, cs[..|cs| - 1]) + [DetailRowOf(patientId, cs[|cs| - 1])]
  }

  function RecordDetailRows(r: Verdict): seq<DetailRow>
  {
    CriterionRows(PatientIdOr(r), CriteriaOf(r))
  }

  /** The Detailed Criteria sheet: each record's detail rows, record after record. */
  function DetailRows(data: seq<Verdict>): seq<DetailRow>
  {
    if data == [] then [] else DetailRows(data[..|data| - 1]) + RecordDetailRows(data[|data| - 1])
  }

  /** `sum(len(r.get("criteria_evaluation", [])) for r in data)`, the "Total Criteria Checked" figure. */
  function TotalCriteria(data: seq<Verdict>): nat
  {
    if data == [] then 0 else TotalCriteria(data[..|data| - 1]) + |CriteriaOf(data[|data| - 1])|
  }

  /** One detail row per criterion, in the criteria's order, each with the given patient id. */
  lemma {:induction false} CriterionRowsShape(patientId: string, cs: seq<Criterion>)
    ensures |CriterionRows(patientId, cs)| == |cs|
    ensures forall j :: 0 <= j < |cs| ==> CriterionRows(patientId, cs)[j] == DetailRowOf(patientId, cs[j])
    ensures forall j :: 0 <= j < |cs| ==> CriterionRows(patientId, cs)[j].patientId == patientId
  {
    if cs != [] {
      CriterionRowsShape(patientId, cs[..|cs| - 1]);
    }
  }

  /** The detail rows of a concatenation are those of each part, in order: rows are grouped by patient. */
  lemma {:induction false} DetailRowsAppend(a: seq<Verdict>, b: seq<Verdict>)
    ensures DetailRows(a + b) == DetailRows(a) + DetailRows(b)
    decreases |b|
  {
    if b == [] {
      assert a + b == a;
    } else {
      var b', last := b[..|b| - 1], b[|b| - 1];
      assert (a + b)[..|a + b| - 1] == a + b';
      assert (a + b)[|a + b| - 1] == last;
      var rows := RecordDetailRows(last);
      assert DetailRows(a + b) == DetailRows(a + b') + rows;
      assert DetailRows(b) == DetailRows(b') + rows;
      DetailRowsAppend(a, b');
    }
  }

  /** The Detailed Criteria sheet has exactly as many rows as there are criteria in all records. */
  lemma {:induction false} DetailRowsCount(data: seq<Verdict>)
    ensures |DetailRows(data)| == TotalCriteria(data)
  {
    if data != [] {
      DetailRowsCount(data[..|data| - 1]);
      CriterionRowsShape(PatientIdOr(data[|data| - 1]), CriteriaOf(data[|data| - 1]));
    }
  }

  /** No detail rows exactly when no record has a criterion. */
  lemma {:induction false} NoCriteriaNoDetailRows(data: seq<Verdict>)
    ensures TotalCriteria(data) == 0 <==> forall i :: 0 <= i < |data| ==> CriteriaOf(data[i]) == []
  {
    if data != [] {
      var init := data[..|data| - 1];
      NoCriteriaNoDetailRows(init);
      assert forall i :: 0 <= i < |init| ==> init[i] == data[i];
    }
  }

  /** The spreadsheet: the Summary sheet always, the Detailed Criteria sheet only when it has rows. */
  datatype ExcelReport = ExcelReport(summary: seq<SummaryRow>, detailed: Option<seq<DetailRow>>)

  /** `create_excel_report`, up to the point where its row lists are handed to the spreadsheet writer. */
  method CreateExcelReport(data: seq<Verdict>) returns (report: ExcelReport)
    ensures |report.summary| == |data|
    ensures forall i :: 0 <= i < |data| ==> report.summary[i] == SummaryRowOf(data[i])
    ensures report.detailed.Some? <==> exists i :: 0 <= i < |data| && CriteriaOf(data[i]) != []
    ensures report.detailed.Some? ==> report.detailed.value == DetailRows(data)
  {
    var summary: seq<SummaryRow> := [];
    var i := 0;
    while i < |data|
      invariant 0 <= i <= |data|
      invariant |summary| == i
      invariant forall k :: 0 <= k < i ==> summary[k] == SummaryRowOf(data[k])
    {
      summary := summary + [SummaryRowOf(data[i])];
      i := i + 1;
    }

    var detailed: seq<DetailRow> := [];
    i := 0;
    while i < |data|
      invariant 0 <= i <= |data|
      invariant detailed == DetailRows(data[..i])
    {
      var patientId := PatientIdOr(data[i]);
      var criteria := CriteriaOf(data[i]);
      var j := 0;
      while j < |criteria|
        invariant 0 <= j <= |criteria|
        invariant detailed == DetailRows(data[..i]) + CriterionRows(patientId, criteria[..j])
      {
        detailed := detailed + [DetailRowOf(patientId, criteria[j])];
        assert criteria[..j + 1][..j] == criteria[..j];
        j := j + 1;
      }
      assert criteria[..j] == criteria;
      assert data[..i + 1][..i] == data[..i];
      i := i + 1;
    }
    assert data[..i] == data;

    DetailRowsCount(data);
    NoCriteriaNoDetailRows(data);
    report := ExcelReport(summary, if detailed != [] then Some(detailed) else None);
  }

  const RECOMMENDATION_LIMIT := 60
  const ELLIPSIS := "..."

  /** `rec[:60] + "..." if len(rec) > 60 else rec` */
  function TruncateRecommendation(rec: string): (shown: string)
    ensures |shown| <= RECOMMENDATION_LIMIT + |ELLIPSIS|
    ensures |rec| <= RECOMMENDATION_LIMIT ==> shown == rec
    ensures |rec| > RECOMMENDATION_LIMIT ==>
      |shown| == RECOMMENDATION_LIMIT + |ELLIPSIS| && shown[..RECOMMENDATION_LIMIT] == rec[..RECOMMENDATION_LIMIT]
      && shown[RECOMMENDATION_LIMIT..] == ELLIPSIS
  {
    if |rec| > RECOMMENDATION_LIMIT then rec[..RECOMMENDATION_LIMIT] + ELLIPSIS else rec
  }

  /** Truncating an already truncated recommendation changes nothing. */
  lemma TruncateIdempotent(rec: string)
    ensures TruncateRecommendation(TruncateRecommendation(rec)) == TruncateRecommendation(rec)
  {
    var once := TruncateRecommendation(rec);
    if |rec| > RECOMMENDATION_LIMIT {
      assert once[..RECOMMENDATION_LIMIT] == rec[..RECOMMENDATION_LIMIT];
    }
  }

  /** One row of the Full Report tab's patient summary table. */
  datatype ReportRow = ReportRow(
    patientId: string,
    status: string,
    confidence: real,
    met: nat,
    notMet: nat,
    review: nat,
    recommendation: string)

  function ReportRowOf(r: Verdict): ReportRow
  {
    var t := RecordTally(r);
    ReportRow(PatientIdOr(r), EligibilityOr(r), Confidence(r), t.met, t.notMet, t.needsVerification,
              TruncateRecommendation(RecommendationOr(r)))
  }

  /**
   * The table row and the spreadsheet's summary row of a record agree on every
   * column; only the recommendation is shortened in the table.
   */
  lemma ReportRowMatchesSummary(r: Verdict)
    ensures var row, sum := ReportRowOf(r), SummaryRowOf(r);
      row.patientId == sum.patientId && row.status == sum.status && row.confidence == sum.confidence
      && row.met == sum.criteriaMet && row.notMet == sum.criteriaNotMet && row.review == sum.needsReview
      && row.recommendation == TruncateRecommendation(sum.recommendation)
      && |row.recommendation| <= RECOMMENDATION_LIMIT + |ELLIPSIS|
  {
  }

  /** The Full Report table's rows, built by appending one row per filtered record. */
  method FullReportRows(filtered: seq<Verdict>) returns (rows: seq<ReportRow>)
    ensures |rows| == |filtered|
    ensures forall i :: 0 <= i < |filtered| ==> rows[i] == ReportRowOf(filtered[i])
    ensures forall i :: 0 <= i < |rows| ==> |rows[i].recommendation| <= RECOMMENDATION_LIMIT + |ELLIPSIS|
  {
    rows := [];
    var i := 0;
    while i < |filtered|
      invariant 0 <= i <= |filtered|
      invariant |rows| == i
      invariant forall k :: 0 <= k < i ==> rows[k] == ReportRowOf(filtered[k])
    {
      rows := rows + [ReportRowOf(filtered[i])];
      i := i + 1;
    }
  }

  /** One row of the CSV export. */
  datatype CsvRow = CsvRow(patientId: string, eligibility: string, confidence: real, recommendation: string)

  function CsvRowOf(r: Verdict): CsvRow
  {
    CsvRow(PatientIdOr(r), EligibilityOr(r), Confidence(r), RecommendationOr(r))
  }

  /** The CSV export's rows, built by appending one row per filtered record. */
  method CsvRows(filtered: seq<Verdict>) returns (rows: seq<CsvRow>)
    ensures |rows| == |filtered|
    ensures forall i :: 0 <= i < |filtered| ==> rows[i] == CsvRowOf(filtered[i])
  {
    rows := [];
    var i := 0;
    while i < |filtered|
      invariant 0 <= i <= |filtered|
      invariant |rows| == i
      invariant forall k :: 0 <= k < i ==> rows[k] == CsvRowOf(filtered[k])
    {
      rows := rows + [CsvRowOf(filtered[i])];
      i := i + 1;
    }
  }

  /** The CSV row carries the same id, status, confidence and full recommendation as the summary row. */
  lemma CsvRowMatchesSummary(r: Verdict)
    ensures var csv, sum := CsvRowOf(r), SummaryRowOf(r);
      csv.patientId == sum.patientId && csv.eligibility == sum.status
      && csv.confidence == sum.confidence && csv.recommendation == sum.recommendation
  {
  }

  const ROW_HEIGHT := 35
  const HEADER_HEIGHT := 40
  const MIN_TABLE_HEIGHT := 100
  /** Cap of the per-patient criteria table. */
  const CRITERIA_TABLE_CAP := 400
  /** Cap of the Full Report summary table. */
  const SUMMARY_TABLE_CAP := 500

  /** `min(cap, max(100, rows * 35 + 40))` */
  function TableHeight(rows: nat, cap: int): (h: int)
    ensures h <= cap
    ensures cap >= MIN_TABLE_HEIGHT ==> MIN_TABLE_HEIGHT <= h
    ensures h == cap || h == MIN_TABLE_HEIGHT || h == rows * ROW_HEIGHT + HEADER_HEIGHT
  {
    var natural := rows * ROW_HEIGHT + HEADER_HEIGHT;
    var floored := if natural > MIN_TABLE_HEIGHT then natural else MIN_TABLE_HEIGHT;
    if floored < cap then floored else cap
  }

  /** More rows never make a table shorter. */
  lemma TableHeightMonotone(m: nat, n: nat, cap: int)
    requires m <= n
    ensures TableHeight(m, cap) <= TableHeight(n, cap)
  {
    assert m * ROW_HEIGHT <= n * ROW_HEIGHT;
  }

  /**
   * The criteria table is 100 high for at most one row, grows by 35 per row
   * from two rows on, and stays at 400 from eleven rows on.
   */
  lemma CriteriaTableHeight(n: nat)
    ensures n <= 1 ==> TableHeight(n, CRITERIA_TABLE_CAP) == MIN_TABLE_HEIGHT
    ensures 2 <= n <= 10 ==> TableHeight(n, CRITERIA_TABLE_CAP) == n * ROW_HEIGHT + HEADER_HEIGHT
    ensures n >= 11 ==> TableHeight(n, CRITERIA_TABLE_CAP) == CRITERIA_TABLE_CAP
  {
    if n >= 11 {
      assert n * ROW_HEIGHT >= 11 * ROW_HEIGHT;
    }
  }

  /** The Full Report table reaches its cap of 500 from fourteen rows on. */
  lemma SummaryTableHeight(n: nat)
    ensures n <= 1 ==> TableHeight(n, SUMMARY_TABLE_CAP) == MIN_TABLE_HEIGHT
    ensures 2 <= n <= 13 ==> TableHeight(n, SUMMARY_TABLE_CAP) == n * ROW_HEIGHT + HEADER_HEIGHT
    ensures n >= 14 ==> TableHeight(n, SUMMARY_TABLE_CAP) == SUMMARY_TABLE_CAP
  {
    if n >= 14 {
      assert n * ROW_HEIGHT >= 14 * ROW_HEIGHT;
    }
  }
}
