/**
 * The verdict records the dashboard reads from the result file. Every key of a
 * record may be absent, so each field is optional; the accessors below are the
 * `r.get(key, default)` fallbacks that the dashboard writes out at each use.
 */
module Verdicts {
  import opened Wrappers

  const ELIGIBLE := "ELIGIBLE"
  const NOT_ELIGIBLE := "NOT_ELIGIBLE"
  const LIKELY_ELIGIBLE := "LIKELY_ELIGIBLE"
  const UNCLEAR := "UNCLEAR"

  /** The four overall-eligibility values, in the order the status filters list them. */
  const KNOWN_STATUSES: seq<string> := [ELIGIBLE, NOT_ELIGIBLE, LIKELY_ELIGIBLE, UNCLEAR]

  const MET := "MET"
  const NOT_MET := "NOT_MET"
  const NEEDS_VERIFICATION := "NEEDS_VERIFICATION"

  /** Placeholder the dashboard shows for a missing text field. */
  const NOT_AVAILABLE := "N/A"

  /** One entry of `criteria_evaluation`. */
  datatype Criterion = Criterion(
    criterion: Option<string>,
    patientValue: Option<string>,
    status: Option<string>,
    score: Option<real>)

  /** One patient's verdict record. Confidence is an abstract real: only `>=` is applied to it. */
  datatype Verdict = Verdict(
    patientId: Option<string>,
    eligibility: Option<string>,
    confidence: Option<real>,
    criteria: Option<seq<Criterion>>,
    recommendation: Option<string>)

  /** `r.get("patient_id", "N/A")` */
  function PatientIdOr(r: Verdict): string { r.patientId.GetOr(NOT_AVAILABLE) }

  /** `r.get("overall_eligibility", "N/A")` */
  function EligibilityOr(r: Verdict): string { r.eligibility.GetOr(NOT_AVAILABLE) }

  /** `r.get("confidence_score", 0)` */
  function Confidence(r: Verdict): real { r.confidence.GetOr(0.0) }

  /** `r.get("criteria_evaluation", [])` */
  function CriteriaOf(r: Verdict): seq<Criterion> { r.criteria.GetOr([]) }

  /** `r.get("recommendation", "N/A")` */
  function RecommendationOr(r: Verdict): string { r.recommendation.GetOr(NOT_AVAILABLE) }

  /** The record's status is one of the four known values. */
  predicate HasKnownStatus(r: Verdict) {
    r.eligibility.Some? && r.eligibility.value in KNOWN_STATUSES
  }

  /** `r.get("overall_eligibility") == status`: a missing status equals nothing. */
  predicate HasStatus(r: Verdict, status: string) {
    r.eligibility == Some(status)
  }

  /** `c.get("status") == status` */
  predicate CriterionHasStatus(c: Criterion, status: string) {
    c.status == Some(status)
  }
}
