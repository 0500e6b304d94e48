/**
 * The Patient Details tab's patient picker: the labels offered in the select
 * box and the record shown for the label picked.
 */
module Selection {
  import opened Wrappers
  import opened Text
  import opened Verdicts

  /** `r.get("patient_id", f"Patient {i}")` for the record at position i of the filtered list. */
  function PatientLabel(r: Verdict, i: nat): string
  {
    match r.patientId
    case Some(id) => id
    case None => "Patient " + NatToString(i)
  }

  /**
   * The select box's options, one per filtered record, in the list's order.
   * Records without a stored id never share an option.
   */
  function PatientLabels(filtered: seq<Verdict>): (labels: seq<string>)
    ensures |labels| == |filtered|
    ensures forall k :: 0 <= k < |filtered| ==> labels[k] == PatientLabel(filtered[k], k)
    ensures forall i, j :: 0 <= i < j < |filtered| && filtered[i].patientId.None? && filtered[j].patientId.None? ==>
      labels[i] != labels[j]
  {
    UnnamedLabelsDistinct(filtered);
    seq(|filtered|, k requires 0 <= k < |filtered| => PatientLabel(filtered[k], k))
  }

  /** Every pair of records without a stored id gets two different labels. */
  lemma UnnamedLabelsDistinct(filtered: seq<Verdict>)
    ensures forall i, j :: 0 <= i < j < |filtered| && filtered[i].patientId.None? && filtered[j].patientId.None? ==>
      PatientLabel(filtered[i], i) != PatientLabel(filtered[j], j)
  {
    forall i, j | 0 <= i < j < |filtered| && filtered[i].patientId.None? && filtered[j].patientId.None?
      ensures PatientLabel(filtered[i], i) != PatientLabel(filtered[j], j)
    {
      GeneratedLabelsDistinct(filtered, i, j);
    }
  }

  /** The position of the first element equal to x, if there is one. */
  function FirstIndex<T(==)>(s: seq<T>, x: T): (found: Option<nat>)
    ensures found.Some? ==>
      found.value < |s| && s[found.value] == x && forall j :: 0 <= j < found.value ==> s[j] != x
    ensures found.None? <==> x !in s
  {
    if s == [] then None
    else if s[0] == x then Some(0)
    else match FirstIndex(s[1..], x)
      case None => None
      case Some(k) => Some(k + 1)
  }

  /** The stored `patient_id` of each record, absent where the key is missing. */
  function StoredIds(filtered: seq<Verdict>): (ids: seq<Option<string>>)
    ensures |ids| == |filtered|
    ensures forall k :: 0 <= k < |filtered| ==> ids[k] == filtered[k].patientId
  {
    seq(|filtered|, k requires 0 <= k < |filtered| => filtered[k].patientId)
  }

  /**
   * As written: `next((r for r in filtered if r.get("patient_id") == selected), filtered[0])`.
   * The picked label is compared with the stored id, so a generated
   * "Patient i" label matches no record and the first record is shown.
   */
  function SelectAsWritten(filtered: seq<Verdict>, selected: string): (r: Verdict)
    requires filtered != []
    ensures match FirstIndex(StoredIds(filtered), Some(selected))
      case Some(k) => r == filtered[k] && forall j :: 0 <= j < k ==> filtered[j].patientId != Some(selected)
      case None => r == filtered[0] && forall j :: 0 <= j < |filtered| ==> filtered[j].patientId != Some(selected)
  {
    match FirstIndex(StoredIds(filtered), Some(selected))
    case Some(k) => filtered[k]
    case None => filtered[0]
  }

  /**
   * Corrected: the picked label is compared with each record's label, the
   * same expression that produced the options.
   */
  function SelectByLabel(filtered: seq<Verdict>, selected: string): (r: Verdict)
    requires filtered != []
    ensures match FirstIndex(PatientLabels(filtered), selected)
      case Some(k) => r == filtered[k] && forall j :: 0 <= j < k ==> PatientLabel(filtered[j], j) != selected
      case None => r == filtered[0] && selected !in PatientLabels(filtered)
  {
    match FirstIndex(PatientLabels(filtered), selected)
    case Some(k) => filtered[k]
    case None => filtered[0]
  }

  /** No two options are the same. */
  predicate DistinctLabels(filtered: seq<Verdict>) {
    forall i, j :: 0 <= i < j < |filtered| ==> PatientLabel(filtered[i], i) != PatientLabel(filtered[j], j)
  }

  /** With distinct options, picking the k-th option shows the k-th record. */
  lemma SelectByLabelShowsPicked(filtered: seq<Verdict>, k: nat)
    requires k < |filtered|
    requires DistinctLabels(filtered)
    ensures SelectByLabel(filtered, PatientLabels(filtered)[k]) == filtered[k]
  {
    var labels := PatientLabels(filtered);
    assert labels[k] in labels;
  }

  /** Records without a stored id get labels that differ from one another. */
  lemma GeneratedLabelsDistinct(filtered: seq<Verdict>, i: nat, j: nat)
    requires i < j < |filtered|
    requires filtered[i].patientId.None? && filtered[j].patientId.None?
    ensures PatientLabel(filtered[i], i) != PatientLabel(filtered[j], j)
  {
    if PatientLabel(filtered[i], i) == PatientLabel(filtered[j], j) {
      var p := "Patient ";
      assert (p + NatToString(i))[|p|..] == NatToString(i);
      assert (p + NatToString(j))[|p|..] == NatToString(j);
      NatToStringInjective(i, j);
    }
  }

  /** Two lists whose elements match x and y at the same positions have their first match at the same place. */
  lemma {:induction false} FirstIndexAgrees<T, U>(s: seq<T>, x: T, t: seq<U>, y: U)
    requires |s| == |t|
    requires forall k :: 0 <= k < |s| ==> (s[k] == x <==> t[k] == y)
    ensures FirstIndex(s, x) == FirstIndex(t, y)
  {
    if s != [] {
      FirstIndexAgrees(s[1..], x, t[1..], y);
    }
  }

  /** When every record has a stored id, the code as written shows the same record as the corrected one. */
  lemma AsWrittenAgreesWhenAllNamed(filtered: seq<Verdict>, selected: string)
    requires filtered != []
    requires forall k :: 0 <= k < |filtered| ==> filtered[k].patientId.Some?
    ensures SelectAsWritten(filtered, selected) == SelectByLabel(filtered, selected)
  {
    var ids, labels := StoredIds(filtered), PatientLabels(filtered);
    assert forall k :: 0 <= k < |filtered| ==> (ids[k] == Some(selected) <==> labels[k] == selected);
    FirstIndexAgrees(ids, Some(selected), labels, selected);
  }

  /** The record with stored id "A", followed by one without a stored id. */
  const NAMED := Verdict(Some("A"), Some(ELIGIBLE), Some(0.9), None, None)
  const UNNAMED := Verdict(None, Some(NOT_ELIGIBLE), Some(0.8), None, None)

  /**
   * As written, picking the second option ("Patient 1") shows the first
   * record, although the corrected selection shows the second.
   */
  lemma AsWrittenShowsWrongPatient()
    ensures PatientLabels([NAMED, UNNAMED]) == ["A", "Patient 1"]
    ensures SelectAsWritten([NAMED, UNNAMED], "Patient 1") == NAMED
    ensures SelectByLabel([NAMED, UNNAMED], "Patient 1") == UNNAMED
    ensures NAMED != UNNAMED
  {
    var filtered := [NAMED, UNNAMED];
    assert NatToString(1) == "1";
    assert PatientLabel(UNNAMED, 1) == "Patient 1";
    var labels := PatientLabels(filtered);
    assert labels == ["A", "Patient 1"];
    assert labels[0] != "Patient 1";
    assert FirstIndex(labels, "Patient 1") == Some(1) by {
      assert labels[1..] == ["Patient 1"];
    }
    var ids := StoredIds(filtered);
    assert ids[0] != Some("Patient 1") && ids[1] != Some("Patient 1");
    assert Some("Patient 1") !in ids;
  }
}
