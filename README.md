# Clinical trial eligibility dashboard: result summaries

This project models the part of the screening dashboard (`dashboard.py`) that turns the
stored eligibility verdicts into figures and tables, and it proves properties of that model.
Each verdict is one patient's record: an id, an overall status, a confidence score, a list of
criterion evaluations and a recommendation. The dashboard:

- filters the verdicts by the ticked statuses and a minimum confidence, in each of its three tabs;
- counts patients per status for the Overview cards;
- counts criteria per status for each patient;
- builds the rows of the Excel workbook, the Full Report table and the CSV export;
- writes the plain-text e-mail summary;
- derives the CSS class and text of a status badge;
- shortens long recommendations;
- clamps table heights;
- picks the record to show for the patient chosen in the Patient Details tab.

Every key of a stored verdict may be missing. The model gives each field an `Option` type, and
it writes each `r.get(key, default)` out as an accessor with that default. The modules are:

- `Wrappers`: `Option`.
- `Text`: Python's `str(n)`, `str.replace` and `str.lower`.
- `Verdicts`: the record types and the status constants.
- `Filtering`: the filter comprehension and the selected-status list.
- `Tallies`: the `sum(1 for …)` counts.
- `Reports`: the workbook, table and CSV rows, truncation and table height.
- `Email`: `generate_email_body`.
- `Badge`: `get_status_badge`.
- `Selection`: the patient picker.

The model does not assume that any key is present, not even `patient_id`: the dashboard
supplies a default at every read, and the model covers records that lack any key.

## Model

| member | source | states |
|---|---|---|
| Filtering.Filter | dashboard.py:566-570 | The filtered list is never longer than the input. |
| Filtering.FilterMembers | dashboard.py:566-570 | A record is in the filtered list exactly when it is in the input, its status is present and selected, and its confidence (0 when missing) is at least the threshold. |
| Filtering.FilterIsSubsequence | dashboard.py:566-570 | The filtered list keeps the input's order: it is a subsequence of the input. |
| Filtering.FilterMaximal | dashboard.py:566-570 | Nothing that passes is dropped. Any subsequence of the input whose records all pass is a subsequence of the filtered list. |
| Filtering.FilterKeepsAll | dashboard.py:566-570 | When every record passes, the filtered list is the input itself. |
| Filtering.DefaultFilterShowsAll | dashboard.py:524-527 | With all four boxes ticked, the ticked list is exactly the four statuses. The initial filter (all four ticked, threshold 0.0) then shows every record whose status is one of the four and whose confidence is not negative. |
| Filtering.FilterNarrowing | dashboard.py:566-570 | Fewer selected statuses or a higher threshold give a subsequence of the wider filter's list. |
| Filtering.TickedStatusesOrdered | dashboard.py:555-563 | The ticked-status list follows the order ELIGIBLE, NOT_ELIGIBLE, LIKELY_ELIGIBLE, UNCLEAR (a subsequence of that list). |
| Filtering.TickedStatusesMembers | dashboard.py:555-563 | A status is in the list if and only if its box is ticked, and no status appears twice. |
| Filtering.SelectedStatuses | dashboard.py:555-563 | The conditional appends build exactly the ticked list: its members, its order and no duplicates. |
| Tallies.CountStatus | dashboard.py:576-580 | A status count never exceeds the number of records. |
| Tallies.TwoStatusesSplit | dashboard.py:472-475 | For two different statuses, the two counts plus the count of records having neither add up to the number of records. |
| Tallies.KnownStatusesPartition | dashboard.py:576-580 | When every status is one of the four, the four counts add up to the number of records. |
| Tallies.OverviewPartition | dashboard.py:576-615 | Over any list filtered with a subset of the four statuses, the four cards add up to "Total Screened", and "Requires Review" (likely plus unclear) is total minus eligible minus not eligible. |
| Tallies.CountCriteria | dashboard.py:441-443 | A criterion count never exceeds the number of criteria. |
| Tallies.CriteriaTallyBound | dashboard.py:857-859 | met + not met + needs verification is at most the number of criteria. It is equal exactly when every criterion carries one of those three statuses. |
| Tallies.RecordTally | dashboard.py:436-443 | A record's three tallies stay within its criteria count, and a record without `criteria_evaluation` gets three zeros. |
| Reports.DetailStatusShown | dashboard.py:459 | NEEDS_VERIFICATION is shown as "Review" and a missing status as "N/A". Any status that does not contain NEEDS_VERIFICATION is shown unchanged; MET and NOT_MET are such statuses. |
| Reports.CriterionRowsShape | dashboard.py:454-461 | One detail row per criterion, in order. Row j is built from criterion j and carries the patient's id. |
| Reports.DetailRowsAppend | dashboard.py:452-461 | The detail rows of a concatenation are the rows of each part in order, so rows stay grouped by patient. |
| Reports.DetailRowsCount | dashboard.py:452-461 | The Detailed Criteria sheet has exactly as many rows as all records have criteria ("Total Criteria Checked"). |
| Reports.NoCriteriaNoDetailRows | dashboard.py:463-465 | The criteria total is 0 exactly when no record has a criterion. |
| Reports.CreateExcelReport | dashboard.py:428-468 | The Summary sheet has one row per record, in order, each built from its record. The Detailed Criteria sheet exists exactly when some record has a criterion, and it then holds the detail rows of all records in order. |
| Reports.TruncateRecommendation | dashboard.py:1020 | A recommendation of at most 60 characters is unchanged. A longer one becomes its first 60 characters followed by "...". The result is at most 63 characters long. |
| Reports.TruncateIdempotent | dashboard.py:1020 | Truncating twice gives the same as truncating once. |
| Reports.ReportRowMatchesSummary | dashboard.py:1009-1021 | The Full Report row and the Excel summary row of a record agree on id, status, confidence and the three tallies. The table's recommendation is the truncated one, at most 63 characters. |
| Reports.FullReportRows | dashboard.py:1009-1021 | The table has one row per filtered record, in order, and every recommendation shown is at most 63 characters. |
| Reports.CsvRows | dashboard.py:980-987 | The CSV export has one row per filtered record, in order, each built from its record. |
| Reports.CsvRowMatchesSummary | dashboard.py:980-987 | A CSV row carries the same id, status, confidence and full recommendation as the Excel summary row. |
| Reports.TableHeight | dashboard.py:901 | The height is at most the cap, and at least 100 whenever the cap is at least 100. It is always the cap, 100 or rows × 35 + 40. |
| Reports.TableHeightMonotone | dashboard.py:901 | More rows never give a shorter table. |
| Reports.CriteriaTableHeight | dashboard.py:901 | The criteria table is 100 high for at most one row, rows × 35 + 40 high for 2 to 10 rows, and 400 high from 11 rows on. |
| Reports.SummaryTableHeight | dashboard.py:1037 | The Full Report table is 100 high for at most one row, rows × 35 + 40 high for 2 to 13 rows, and 500 high from 14 rows on. |
| Email.EmailCounts | dashboard.py:472-475 | total is the record count. eligible and not eligible are the status counts. The three figures plus "Requires Review" add up, and "Requires Review" is never negative: it counts exactly the records with neither status. |
| Email.GenerateEmailBody | dashboard.py:470-492 | The body grown by `+=` equals the header with the four figures, then one patient line per record in order, then the footer. |
| Email.DetailLinesAppend | dashboard.py:487-488 | The patient lines of a concatenation are the lines of each part, in order. |
| Email.DetailLineHasOneBreak | dashboard.py:488 | A patient line whose fields hold no line break contains exactly one line break. |
| Email.DetailLinesOnePerRecord | dashboard.py:487-488 | When no id, status or rendered confidence contains a line break, the patient section has exactly one line per record: its count of line breaks is the record count. |
| Email.EmailReviewMatchesOverview | dashboard.py:472-475 | On a list filtered with the four statuses, the e-mail's "Requires Review" equals the Overview's "Requires Review" card. |
| Text.ReplaceOneChar | dashboard.py:380-381 | `replace` with a one-character pattern and a one-character replacement maps each character on its own. |
| Text.ReplaceAbsent | dashboard.py:459 | `replace` leaves a string that does not contain the pattern unchanged. |
| Text.ReplaceWhole | dashboard.py:459 | `replace` applied to the pattern itself gives the replacement. |
| Text.ParseNatToString | dashboard.py:805 | The decimal rendering of a number reads back as that number. |
| Text.NatToStringInjective | dashboard.py:805 | Different numbers are rendered as different strings. |
| Badge.BadgeIsPythonReplace | dashboard.py:380-381 | The badge's class is `status.lower().replace("_", "-")` and its text is `status.replace("_", " ")`. |
| Badge.BadgeClassShape | dashboard.py:380 | The class is the status character by character, with letters lowered and "_" turned into "-". It contains no underscore and no capital letter. |
| Badge.BadgeTextShape | dashboard.py:381 | The text is the status character by character, with "_" turned into a space. It contains no underscore, and a status without one is shown unchanged. |
| Badge.KnownStatusBadges | dashboard.py:378-382 | The four statuses get the classes eligible, not-eligible, likely-eligible and unclear, and the texts ELIGIBLE, NOT ELIGIBLE, LIKELY ELIGIBLE and UNCLEAR. |
| Badge.KnownStatusSpans | dashboard.py:378-382 | The full HTML for each of the four statuses, e.g. `<span class="status-badge status-eligible">ELIGIBLE</span>` and `<span class="status-badge status-not-eligible">NOT ELIGIBLE</span>`. |
| Badge.KnownStatusesStyled | dashboard.py:141-163 | Each of the four statuses gets a class for which the stylesheet has a `.status-…` rule, and no two statuses share one. |
| Selection.PatientLabels | dashboard.py:805 | There is one option per filtered record, in order. Option k is the record's id, or "Patient k" when it has none. Two records without an id never get the same option. |
| Selection.FirstIndex | dashboard.py:821 | `next(…)` finds the first matching position: a match with none before it, or no match anywhere. |
| Selection.SelectAsWritten | dashboard.py:821 | As written: the shown record is the first one whose stored id equals the picked label, or the first record when none does. |
| Selection.SelectByLabel | dashboard.py:821 | Corrected: the shown record is the first one whose label equals the picked label, or the first record when the label is not an option. |
| Selection.SelectByLabelShowsPicked | dashboard.py:805-821 | Corrected, with distinct options: picking option k shows record k. |
| Selection.GeneratedLabelsDistinct | dashboard.py:805 | Two records without an id get different "Patient i" labels. |
| Selection.AsWrittenAgreesWhenAllNamed | dashboard.py:821 | When every record has an id, the code as written and the corrected selection show the same record. |
| Selection.AsWrittenShowsWrongPatient | dashboard.py:805-821 | The options for [A, unnamed] are "A" and "Patient 1". Picking "Patient 1" shows A as written, but the unnamed record after the correction. |

## Left out

- `elgibility-screener.py`: it reads PDFs and holds a prompt literal; there is no computation in it to model.
- The Streamlit layout, the CSS beyond the four status rules, session state, widgets, tabs and HTML markup: these are user interface.
- The charts (plotly), the gauge and the recommendation display defaults: these are presentation.
- Loading the result file and the JSON parsing, `datetime`, `urllib.parse.quote` and the workbook and CSV encoders (pandas, openpyxl): these are I/O or library code. The model stops at the row lists handed to them.
- The average confidence shown in the Key Statistics row: it is a float division, and floating point is not modelled.
- A key that is present with a JSON `null` value: `.get` then returns `None` instead of the default, which can crash a comparison or `.replace`. The model treats a null like a missing key.
- The whole-cell `Series.replace` of the Patient Details criteria table (dashboard.py:880-881): it is pandas display code. The workbook's substring replace at dashboard.py:459 is modelled.
- `trial_id` and `next_steps`: no figure, table or export uses them. `next_steps` is read at dashboard.py:907 only to list suggestions in the Next Steps sub-tab, which is display code.
- Email.GenerateEmailBody: the `:.0%` rendering of a confidence (float formatting) is a parameter `percent`, not a model of Python's formatting.
- Reports.FullReportRows: the Confidence column holds the unformatted number. The source formats it with `:.0%`, which is float formatting.
- Text.Lower: it lowers ASCII letters only. Python's `str.lower` also lowers other Unicode letters; the dashboard applies it only to the four ASCII status names.

## Findings

| source | as written | input that shows it | evidently intended | confidence | as-written member | corrected member |
|---|---|---|---|---|---|---|
| dashboard.py:805-821 | The picked label is compared with `r.get("patient_id")`. For a record without an id, the label "Patient i" matches no stored id, so the first filtered record is shown. | The filtered list [record with id "A", record without id]. Picking the second option, "Patient 1", shows record "A". | Picking an option shows the record that option was made from. | not executed | Selection.AsWrittenShowsWrongPatient | Selection.SelectByLabelShowsPicked |
