/**
 * The status/confidence filter that each of the dashboard's three tabs applies
 * to the loaded results, and the selected-status list it is given.
 */
module Filtering {
  import opened Wrappers
  import opened Verdicts

  /** s can be obtained from t by deleting elements: s keeps t's order. */
  predicate IsSubsequence<T(==)>(s: seq<T>, t: seq<T>)
    decreases |t|
  {
    s == [] || (t != [] && ((s[0] == t[0] && IsSubsequence(s[1..], t[1..])) || IsSubsequence(s, t[1..])))
  }

  /**
   * The comprehension's condition: the record's status is one of the selected
   * ones (a missing status is in no list) and its confidence, 0 when missing,
   * is at least the threshold.
   */
  predicate Keeps(r: Verdict, selected: seq<string>, minConfidence: real) {
    r.eligibility.Some? && r.eligibility.value in selected && Confidence(r) >= minConfidence
  }

  /** `[r for r in results if <Keeps>]` */
  function Filter(results: seq<Verdict>, selected: seq<string>, minConfidence: real): (kept: seq<Verdict>)
    ensures |kept| <= |results|
  {
    if results == [] then []
    else
      (if Keeps(results[0], selected, minConfidence) then [results[0]] else [])
      + Filter(results[1..], selected, minConfidence)
  }

  /** A record is in the filtered list exactly when it is in the input and passes the condition. */
  lemma {:induction false} FilterMembers(results: seq<Verdict>, selected: seq<string>, minConfidence: real)
    ensures forall r :: r in Filter(results, selected, minConfidence) <==> r in results && Keeps(r, selected, minConfidence)
  {
    if results != [] {
      FilterMembers(results[1..], selected, minConfidence);
      assert results == [results[0]] + results[1..];
    }
  }

  /** The filtered list keeps the input's order: it is a subsequence of the input. */
  lemma {:induction false} FilterIsSubsequence(results: seq<Verdict>, selected: seq<string>, minConfidence: real)
    ensures IsSubsequence(Filter(results, selected, minConfidence), results)
  {
    if results != [] {
      FilterIsSubsequence(results[1..], selected, minConfidence);
      var kept := Filter(results, selected, minConfidence);
      var rest := Filter(results[1..], selected, minConfidence);
      if Keeps(results[0], selected, minConfidence) {
        assert kept == [results[0]] + rest;
        assert kept[0] == results[0] && kept[1..] == rest;
      } else {
        assert kept == rest;
      }
    }
  }

  lemma SubsequenceOfCons<T>(s: seq<T>, x: T, t: seq<T>)
    requires IsSubsequence(s, t)
    ensures IsSubsequence(s, [x] + t)
  {
    assert ([x] + t)[1..] == t;
  }

  /**
   * Nothing that passes is dropped: every subsequence of the input whose
   * records all pass the condition is also a subsequence of the filtered list.
   */
  lemma {:induction false} FilterMaximal(s: seq<Verdict>, results: seq<Verdict>, selected: seq<string>, minConfidence: real)
    requires IsSubsequence(s, results)
    requires forall r :: r in s ==> Keeps(r, selected, minConfidence)
    ensures IsSubsequence(s, Filter(results, selected, minConfidence))
    decreases |results|
  {
    if s != [] {
      var rest := Filter(results[1..], selected, minConfidence);
      if s[0] == results[0] && IsSubsequence(s[1..], results[1..]) {
        assert s[0] in s;
        assert forall r :: r in s[1..] ==> r in s;
        FilterMaximal(s[1..], results[1..], selected, minConfidence);
        var kept := Filter(results, selected, minConfidence);
        assert kept == [results[0]] + rest;
        assert kept[1..] == rest;
      } else {
        FilterMaximal(s, results[1..], selected, minConfidence);
        var kept := Filter(results, selected, minConfidence);
        if Keeps(results[0], selected, minConfidence) {
          assert kept == [results[0]] + rest;
          SubsequenceOfCons(s, results[0], rest);
        } else {
          assert kept == rest;
        }
      }
    }
  }

  /** When every record passes, the filter returns the input unchanged. */
  lemma {:induction false} FilterKeepsAll(results: seq<Verdict>, selected: seq<string>, minConfidence: real)
    requires forall r :: r in results ==> Keeps(r, selected, minConfidence)
    ensures Filter(results, selected, minConfidence) == results
  {
    if results != [] {
      assert results[0] in results;
      assert forall r :: r in results[1..] ==> r in results;
      FilterKeepsAll(results[1..], selected, minConfidence);
    }
  }

  /**
   * The initial filter (all four statuses, threshold 0.0) shows every record
   * whose status is known and whose confidence is not negative.
   */
  lemma DefaultFilterShowsAll(results: seq<Verdict>)
    requires forall r :: r in results ==> HasKnownStatus(r) && Confidence(r) >= 0.0
    ensures TickedStatuses(true, true, true, true) == KNOWN_STATUSES
    ensures Filter(results, TickedStatuses(true, true, true, true), 0.0) == results
  {
    FilterKeepsAll(results, KNOWN_STATUSES, 0.0);
  }

  /**
   * Unticking statuses or raising the threshold only removes records: the
   * narrower filter's list is a subsequence of the wider one's.
   */
  lemma FilterNarrowing(results: seq<Verdict>, narrow: seq<string>, wide: seq<string>, high: real, low: real)
    requires forall s :: s in narrow ==> s in wide
    requires low <= high
    ensures IsSubsequence(Filter(results, narrow, high), Filter(results, wide, low))
  {
    var kept := Filter(results, narrow, high);
    FilterIsSubsequence(results, narrow, high);
    FilterMembers(results, narrow, high);
    FilterMaximal(kept, results, wide, low);
  }

  /** The one-element list [status] when its box is ticked, nothing otherwise. */
  function Ticked(ticked: bool, status: string): seq<string> {
    if ticked then [status] else []
  }

  lemma TickedSubsequence(ticked: bool, status: string, s: seq<string>, t: seq<string>)
    requires IsSubsequence(s, t)
    ensures IsSubsequence(Ticked(ticked, status) + s, [status] + t)
  {
    if ticked {
      var u := [status] + s;
      assert u[0] == status && u[1..] == s && ([status] + t)[1..] == t;
    } else {
      assert Ticked(ticked, status) + s == s;
      SubsequenceOfCons(s, status, t);
    }
  }

  /** The list of ticked statuses, in the order Eligible, Not Eligible, Likely Eligible, Unclear. */
  function TickedStatuses(showEligible: bool, showNotEligible: bool, showLikely: bool, showUnclear: bool): seq<string> {
    Ticked(showEligible, ELIGIBLE) + Ticked(showNotEligible, NOT_ELIGIBLE)
    + Ticked(showLikely, LIKELY_ELIGIBLE) + Ticked(showUnclear, UNCLEAR)
  }

  /** The ticked list follows the fixed order of the four statuses. */
  lemma TickedStatusesOrdered(showEligible: bool, showNotEligible: bool, showLikely: bool, showUnclear: bool)
    ensures IsSubsequence(TickedStatuses(showEligible, showNotEligible, showLikely, showUnclear), KNOWN_STATUSES)
  {
    var tail3 := Ticked(showUnclear, UNCLEAR);
    var tail2 := Ticked(showLikely, LIKELY_ELIGIBLE) + tail3;
    var tail1 := Ticked(showNotEligible, NOT_ELIGIBLE) + tail2;
    TickedSubsequence(showUnclear, UNCLEAR, [], []);
    assert tail3 + [] == tail3 && [UNCLEAR] + [] == [UNCLEAR];
    TickedSubsequence(showLikely, LIKELY_ELIGIBLE, tail3, [UNCLEAR]);
    TickedSubsequence(showNotEligible, NOT_ELIGIBLE, tail2, [LIKELY_ELIGIBLE, UNCLEAR]);
    TickedSubsequence(showEligible, ELIGIBLE, tail1, [NOT_ELIGIBLE, LIKELY_ELIGIBLE, UNCLEAR]);
    assert TickedStatuses(showEligible, showNotEligible, showLikely, showUnclear) == Ticked(showEligible, ELIGIBLE) + tail1;
    assert [ELIGIBLE] + [NOT_ELIGIBLE, LIKELY_ELIGIBLE, UNCLEAR] == KNOWN_STATUSES;
  }

  /** The ticked list holds exactly the ticked statuses, each once. */
  lemma TickedStatusesMembers(showEligible: bool, showNotEligible: bool, showLikely: bool, showUnclear: bool)
    ensures var selected := TickedStatuses(showEligible, showNotEligible, showLikely, showUnclear);
      (forall s :: s in selected <==>
        (s == ELIGIBLE && showEligible) || (s == NOT_ELIGIBLE && showNotEligible) ||
        (s == LIKELY_ELIGIBLE && showLikely) || (s == UNCLEAR && showUnclear))
      && (forall i, j :: 0 <= i < j < |selected| ==> selected[i] != selected[j])
  {
  }

  /**
   * The selected-status list of one tab, built by appending each ticked
   * status in the order Eligible, Not Eligible, Likely Eligible, Unclear.
   */
  method SelectedStatuses(showEligible: bool, showNotEligible: bool, showLikely: bool, showUnclear: bool)
    returns (selected: seq<string>)
    ensures selected == TickedStatuses(showEligible, showNotEligible, showLikely, showUnclear)
    ensures forall s :: s in selected <==>
      (s == ELIGIBLE && showEligible) || (s == NOT_ELIGIBLE && showNotEligible) ||
      (s == LIKELY_ELIGIBLE && showLikely) || (s == UNCLEAR && showUnclear)
    ensures IsSubsequence(selected, KNOWN_STATUSES)
    ensures forall i, j :: 0 <= i < j < |selected| ==> selected[i] != selected[j]
  {
    selected := [];
    if showEligible {
      selected := selected + [ELIGIBLE];
    }
    if showNotEligible {
      selected := selected + [NOT_ELIGIBLE];
    }
    if showLikely {
      selected := selected + [LIKELY_ELIGIBLE];
    }
    if showUnclear {
      selected := selected + [UNCLEAR];
    }
    TickedStatusesOrdered(showEligible, showNotEligible, showLikely, showUnclear);
    TickedStatusesMembers(showEligible, showNotEligible, showLikely, showUnclear);
  }
}
