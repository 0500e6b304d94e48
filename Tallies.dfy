/**
 * The `sum(1 for ... if ...)` tallies: patients per overall status over the
 * filtered list, and criteria per status within one patient's record.
 */
module Tallies {
  import opened Wrappers
  import opened Verdicts
  import opened Filtering

  /** `sum(1 for r in rs if r.get("overall_eligibility") == status)` */
  function CountStatus(rs: seq<Verdict>, status: string): (n: nat)
    ensures n <= |rs|
  {
    if rs == [] then 0 else (if HasStatus(rs[0], status) then 1 else 0) + CountStatus(rs[1..], status)
  }

  /** Records whose status is neither a nor b (a missing status included). */
  function CountNeither(rs: seq<Verdict>, a: string, b: string): (n: nat)
    ensures n <= |rs|
  {
    if rs == [] then 0
    else (if !HasStatus(rs[0], a) && !HasStatus(rs[0], b) then 1 else 0) + CountNeither(rs[1..], a, b)
  }

  /** Two different statuses split a list into three disjoint parts. */
  lemma {:induction false} TwoStatusesSplit(rs: seq<Verdict>, a: string, b: string)
    requires a != b
    ensures CountStatus(rs, a) + CountStatus(rs, b) + CountNeither(rs, a, b) == |rs|
  {
    if rs != [] {
      TwoStatusesSplit(rs[1..], a, b);
    }
  }

  /** The Overview tab's metric cards. */
  datatype StatusTally = StatusTally(total: nat, eligible: nat, notEligible: nat, likelyEligible: nat, unclear: nat)

  /** `total_patients` and the four per-status counts over the filtered list. */
  function OverviewTally(filtered: seq<Verdict>): StatusTally
  {
    StatusTally(|filtered|, CountStatus(filtered, ELIGIBLE), CountStatus(filtered, NOT_ELIGIBLE),
                CountStatus(filtered, LIKELY_ELIGIBLE), CountStatus(filtered, UNCLEAR))
  }

  /** The "Requires Review" card: likely eligible plus unclear. */
  function RequiresReviewCard(t: StatusTally): nat
  {
    t.likelyEligible + t.unclear
  }

  /** When every status is one of the four, the four counts add up to the number of records. */
  lemma {:induction false} KnownStatusesPartition(rs: seq<Verdict>)
    requires forall r :: r in rs ==> HasKnownStatus(r)
    ensures CountStatus(rs, ELIGIBLE) + CountStatus(rs, NOT_ELIGIBLE)
          + CountStatus(rs, LIKELY_ELIGIBLE) + CountStatus(rs, UNCLEAR) == |rs|
  {
    if rs != [] {
      assert rs[0] in rs;
      assert forall r :: r in rs[1..] ==> r in rs;
      KnownStatusesPartition(rs[1..]);
    }
  }

  /**
   * Over a list filtered with any selection of the four statuses, the four
   * cards partition the total, and "Requires Review" is what neither
   * Eligible nor Not Eligible covers.
   */
  lemma OverviewPartition(results: seq<Verdict>, selected: seq<string>, minConfidence: real)
    requires forall s :: s in selected ==> s in KNOWN_STATUSES
    ensures var t := OverviewTally(Filter(results, selected, minConfidence));
      t.eligible + t.notEligible + t.likelyEligible + t.unclear == t.total
      && RequiresReviewCard(t) == t.total - t.eligible - t.notEligible
  {
    FilterMembers(results, selected, minConfidence);
    KnownStatusesPartition(Filter(results, selected, minConfidence));
  }

  /** `sum(1 for c in criteria if c.get("status") == status)` */
  function CountCriteria(cs: seq<Criterion>, status: string): (n: nat)
    ensures n <= |cs|
  {
    if cs == [] then 0 else (if CriterionHasStatus(cs[0], status) then 1 else 0) + CountCriteria(cs[1..], status)
  }

  /** The met / not-met / needs-verification counts of one record. */
  datatype CriteriaTally = CriteriaTally(met: nat, notMet: nat, needsVerification: nat)

  function TallyCriteria(cs: seq<Criterion>): CriteriaTally
  {
    CriteriaTally(CountCriteria(cs, MET), CountCriteria(cs, NOT_MET), CountCriteria(cs, NEEDS_VERIFICATION))
  }

  /** A criterion whose status is one of the three the tallies look for. */
  predicate IsTallied(c: Criterion) {
    CriterionHasStatus(c, MET) || CriterionHasStatus(c, NOT_MET) || CriterionHasStatus(c, NEEDS_VERIFICATION)
  }

  /**
   * The three tallies never exceed the number of criteria, and they reach it
   * exactly when every criterion carries one of the three statuses.
   */
  lemma {:induction false} CriteriaTallyBound(cs: seq<Criterion>)
    ensures var t := TallyCriteria(cs);
      t.met + t.notMet + t.needsVerification <= |cs|
      && (t.met + t.notMet + t.needsVerification == |cs| <==> forall c :: c in cs ==> IsTallied(c))
  {
    if cs != [] {
      CriteriaTallyBound(cs[1..]);
      assert cs == [cs[0]] + cs[1..];
      assert MET != NOT_MET && MET != NEEDS_VERIFICATION && NOT_MET != NEEDS_VERIFICATION;
      var head := TallyCriteria([cs[0]]);
      assert head.met + head.notMet + head.needsVerification == if IsTallied(cs[0]) then 1 else 0;
      if !IsTallied(cs[0]) {
        assert cs[0] in cs;
      }
    }
  }

  /** The tallies of one record; a record without `criteria_evaluation` counts as having none. */
  function RecordTally(r: Verdict): (t: CriteriaTally)
    ensures t.met + t.notMet + t.needsVerification <= |CriteriaOf(r)|
    ensures r.criteria.None? ==> t == CriteriaTally(0, 0, 0)
  {
    CriteriaTallyBound(CriteriaOf(r));
    TallyCriteria(CriteriaOf(r))
  }
}
