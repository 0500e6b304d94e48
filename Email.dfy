/**
 * `generate_email_body`: the plain-text summary placed in the e-mail link.
 * The `:.0%` rendering of a confidence is floating-point formatting and is a
 * parameter here (`percent`).
 */
module Email {
  import opened Wrappers
  import opened Text
  import opened Verdicts
  import opened Filtering
  import opened Tallies

  /** The four figures of the summary block. */
  datatype EmailSummary = EmailSummary(total: nat, eligible: nat, notEligible: nat, review: int)

  /**
   * `total`, `eligible`, `not_eligible` and `review = total - eligible - not_eligible`.
   * The figures add up, and "Requires Review" is never negative: it counts
   * the records that are neither Eligible nor Not Eligible, those with a
   * missing status included.
   */
  function EmailCounts(data: seq<Verdict>): (c: EmailSummary)
    ensures c.total == |data|
    ensures c.eligible == CountStatus(data, ELIGIBLE) && c.notEligible == CountStatus(data, NOT_ELIGIBLE)
    ensures c.eligible + c.notEligible + c.review == c.total
    ensures c.review >= 0
    ensures c.review == CountNeither(data, ELIGIBLE, NOT_ELIGIBLE)
  {
    TwoStatusesSplit(data, ELIGIBLE, NOT_ELIGIBLE);
    var total := |data|;
    var eligible := CountStatus(data, ELIGIBLE);
    var notEligible := CountStatus(data, NOT_ELIGIBLE);
    EmailSummary(total, eligible, notEligible, total - eligible - notEligible)
  }

  /** The fixed text before the patient lines, with the four figures filled in. */
  function Header(c: EmailSummary): string
  {
    "Clinical Trial Eligibility Screening Report\n\nSummary:\n- Total Patients Screened: " + IntToString(c.total)
    + "\n- Eligible: " + IntToString(c.eligible)
    + "\n- Not Eligible: " + IntToString(c.notEligible)
    + "\n- Requires Review: " + IntToString(c.review)
    + "\n\nPatient Details:\n"
  }

  const FOOTER := "\n\nPlease find the detailed report attached."

  /** `"\n- {id}: {status} (Confidence: {confidence:.0%})"` for one record. */
  function DetailLine(r: Verdict, percent: real -> string): string
  {
    "\n- " + PatientIdOr(r) + ": " + EligibilityOr(r) + " (Confidence: " + percent(Confidence(r)) + ")"
  }

  /** The patient lines, one per record, in the records' order. */
  function DetailLines(data: seq<Verdict>, percent: real -> string): string
  {
    if data == [] then "" else DetailLines(data[..|data| - 1], percent) + DetailLine(data[|data| - 1], percent)
  }

  /** The whole body: header, one line per record, footer. */
  function EmailBody(data: seq<Verdict>, percent: real -> string): string
  {
    Header(EmailCounts(data)) + DetailLines(data, percent) + FOOTER
  }

  /**
   * Regrouping a concatenation. Sequence concatenation is associative in
   * Dafny's theory; naming the instance the loop needs keeps its proof small.
   */
  lemma AppendAssociative(a: string, b: string, c: string)
    ensures a + b + c == a + (b + c)
  {
  }

  /** `generate_email_body`, growing the body with one `+=` per record. */
  method GenerateEmailBody(data: seq<Verdict>, percent: real -> string) returns (body: string)
    ensures body == EmailBody(data, percent)
  {
    var counts := EmailCounts(data);
    body := Header(counts);
    var i := 0;
    while i < |data|
      invariant 0 <= i <= |data|
      invariant body == Header(counts) + DetailLines(data[..i], percent)
    {
      assert data[..i + 1][..i] == data[..i];
      AppendAssociative(Header(counts), DetailLines(data[..i], percent), DetailLine(data[i], percent));
      body := body + DetailLine(data[i], percent);
      i := i + 1;
    }
    assert data[..i] == data;
    body := body + FOOTER;
  }

  /** The patient lines of a concatenation are those of each part, in order. */
  lemma {:induction false} DetailLinesAppend(a: seq<Verdict>, b: seq<Verdict>, percent: real -> string)
    ensures DetailLines(a + b, percent) == DetailLines(a, percent) + DetailLines(b, percent)
    decreases |b|
  {
    if b == [] {
      assert a + b == a;
    } else {
      var b', last := b[..|b| - 1], b[|b| - 1];
      assert (a + b)[..|a + b| - 1] == a + b';
      assert (a + b)[|a + b| - 1] == last;
      var L := DetailLine(last, percent);
      assert DetailLines(a + b, percent) == DetailLines(a + b', percent) + L;
      assert DetailLines(b, percent) == DetailLines(b', percent) + L;
      DetailLinesAppend(a, b', percent);
    }
  }

  /** Occurrences of a character in a string. */
  function CountChar(s: string, ch: char): nat
  {
    if s == [] then 0 else CountChar(s[..|s| - 1], ch) + (if s[|s| - 1] == ch then 1 else 0)
  }

  /** None of the fields written into a patient line contains a line break. */
  predicate SingleLineFields(r: Verdict, percent: real -> string) {
    '\n' !in PatientIdOr(r) && '\n' !in EligibilityOr(r) && '\n' !in percent(Confidence(r))
  }

  /** A character that does not occur is counted 0 times. */
  lemma {:induction false} CountCharAbsent(s: string, ch: char)
    requires ch !in s
    ensures CountChar(s, ch) == 0
  {
    if s != [] {
      assert forall c :: c in s[..|s| - 1] ==> c in s;
      CountCharAbsent(s[..|s| - 1], ch);
    }
  }

  /** Counts add up over a concatenation. */
  lemma {:induction false} CountCharAppend(s: string, t: string, ch: char)
    ensures CountChar(s + t, ch) == CountChar(s, ch) + CountChar(t, ch)
    decreases |t|
  {
    if t == [] {
      assert s + t == s;
    } else {
      assert (s + t)[..|s + t| - 1] == s + t[..|t| - 1];
      CountCharAppend(s, t[..|t| - 1], ch);
    }
  }

  /** The fixed pieces of a patient line: only the leading "\n- " holds a line break. */
  lemma DetailLinePieces()
    ensures CountChar("\n- ", '\n') == 1
    ensures '\n' !in ": " && '\n' !in " (Confidence: " && '\n' !in ")"
  {
    assert "\n- "[..2][..1] == "\n";
    assert "\n- "[..2] == "\n-";
  }

  /** A patient line holds exactly one line break, the one that starts it. */
  lemma DetailLineHasOneBreak(r: Verdict, percent: real -> string)
    requires SingleLineFields(r, percent)
    ensures CountChar(DetailLine(r, percent), '\n') == 1
  {
    var id, status, pct := PatientIdOr(r), EligibilityOr(r), percent(Confidence(r));
    DetailLinePieces();
    CountCharAbsent(": ", '\n');
    CountCharAbsent(" (Confidence: ", '\n');
    CountCharAbsent(")", '\n');
    CountCharAbsent(id, '\n');
    CountCharAbsent(status, '\n');
    CountCharAbsent(pct, '\n');
    var p1 := "\n- " + id;
    var p2 := p1 + ": ";
    var p3 := p2 + status;
    var p4 := p3 + " (Confidence: ";
    var p5 := p4 + pct;
    CountCharAppend("\n- ", id, '\n');
    CountCharAppend(p1, ": ", '\n');
    CountCharAppend(p2, status, '\n');
    CountCharAppend(p3, " (Confidence: ", '\n');
    CountCharAppend(p4, pct, '\n');
    CountCharAppend(p5, ")", '\n');
  }

  /** The patient section has exactly one line per record. */
  lemma {:induction false} DetailLinesOnePerRecord(data: seq<Verdict>, percent: real -> string)
    requires forall i :: 0 <= i < |data| ==> SingleLineFields(data[i], percent)
    ensures CountChar(DetailLines(data, percent), '\n') == |data|
  {
    if data != [] {
      var init := data[..|data| - 1];
      assert forall i :: 0 <= i < |init| ==> init[i] == data[i];
      DetailLinesOnePerRecord(init, percent);
      LastLineAdds(data, percent);
    }
  }

  /** The last patient line adds one line break to those before it. */
  lemma LastLineAdds(data: seq<Verdict>, percent: real -> string)
    requires data != [] && SingleLineFields(data[|data| - 1], percent)
    ensures CountChar(DetailLines(data, percent), '\n') == CountChar(DetailLines(data[..|data| - 1], percent), '\n') + 1
  {
    var last := data[|data| - 1];
    DetailLineHasOneBreak(last, percent);
    CountCharAppend(DetailLines(data[..|data| - 1], percent), DetailLine(last, percent), '\n');
  }

  /**
   * On a list filtered with the four statuses only (the Full Report tab's
   * list), the e-mail's "Requires Review" figure equals the Overview's
   * "Requires Review" card: likely eligible plus unclear.
   */
  lemma EmailReviewMatchesOverview(results: seq<Verdict>, selected: seq<string>, minConfidence: real)
    requires forall s :: s in selected ==> s in KNOWN_STATUSES
    ensures var filtered := Filter(results, selected, minConfidence);
      EmailCounts(filtered).review == RequiresReviewCard(OverviewTally(filtered))
  {
    OverviewPartition(results, selected, minConfidence);
  }
}
