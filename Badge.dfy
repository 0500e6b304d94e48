/**
 * `get_status_badge`: the CSS class and display text of a status badge.
 */
module Badge {
  import opened Text
  import opened Verdicts

  /** `status.lower().replace("_", "-")`, written as a character map (BadgeIsPythonReplace shows they agree). */
  function BadgeClass(status: string): string
  {
    ReplaceChar(Lower(status), '_', '-')
  }

  /** `status.replace("_", " ")`, written as a character map (BadgeIsPythonReplace shows they agree). */
  function BadgeText(status: string): string
  {
    ReplaceChar(status, '_', ' ')
  }

  /** The badge's HTML: a span with classes `status-badge` and `status-<class>` around the text. */
  function StatusBadge(status: string): string
  {
    "<span class=\"status-badge status-" + BadgeClass(status) + "\">" + BadgeText(status) + "</span>"
  }

  /** The stylesheet's `.status-<class>` rules, by the part after `status-`. */
  const STYLED_STATUS_CLASSES: set<string> := {"eligible", "not-eligible", "likely-eligible", "unclear"}

  /** Class and text are exactly what Python's `lower` and `replace` produce. */
  lemma BadgeIsPythonReplace(status: string)
    ensures BadgeClass(status) == Replace(Lower(status), "_", "-")
    ensures BadgeText(status) == Replace(status, "_", " ")
  {
    ReplaceOneChar(Lower(status), '_', '-');
    ReplaceOneChar(status, '_', ' ');
  }

  /**
   * The class is the status character by character, with ASCII capitals
   * lowered and every underscore turned into a hyphen; so it holds neither
   * underscores nor ASCII capitals.
   */
  lemma BadgeClassShape(status: string)
    ensures |BadgeClass(status)| == |status|
    ensures forall i :: 0 <= i < |status| ==>
      BadgeClass(status)[i] == (if status[i] == '_' then '-' else LowerChar(status[i]))
    ensures forall i :: 0 <= i < |status| ==> BadgeClass(status)[i] != '_' && !('A' <= BadgeClass(status)[i] <= 'Z')
  {
  }

  /**
   * The text is the status character by character, with every underscore
   * turned into a space: it holds no underscore, and a status without one is
   * shown as it is.
   */
  lemma BadgeTextShape(status: string)
    ensures |BadgeText(status)| == |status|
    ensures forall i :: 0 <= i < |status| ==>
      BadgeText(status)[i] == (if status[i] == '_' then ' ' else status[i])
    ensures '_' !in BadgeText(status)
    ensures '_' !in status ==> BadgeText(status) == status
  {
  }

  /** The four statuses get the classes and the texts the stylesheet and the cards expect. */
  lemma KnownStatusBadges()
    ensures BadgeClass(ELIGIBLE) == "eligible" && BadgeText(ELIGIBLE) == "ELIGIBLE"
    ensures BadgeClass(NOT_ELIGIBLE) == "not-eligible" && BadgeText(NOT_ELIGIBLE) == "NOT ELIGIBLE"
    ensures BadgeClass(LIKELY_ELIGIBLE) == "likely-eligible" && BadgeText(LIKELY_ELIGIBLE) == "LIKELY ELIGIBLE"
    ensures BadgeClass(UNCLEAR) == "unclear" && BadgeText(UNCLEAR) == "UNCLEAR"
  {
  }

  /** The badge's HTML once its class and text are known. */
  lemma SpanOf(status: string, cls: string, text: string)
    requires BadgeClass(status) == cls && BadgeText(status) == text
    ensures StatusBadge(status) == "<span class=\"status-badge status-" + cls + "\">" + text + "</span>"
  {
  }

  /**
   * The HTML badges `get_status_badge` returns for the four statuses, written
   * as the f-string's fixed parts around each status's class and text.
   */
  lemma KnownStatusSpans()
    ensures StatusBadge(ELIGIBLE) == "<span class=\"status-badge status-" + "eligible" + "\">" + "ELIGIBLE" + "</span>"
    ensures StatusBadge(NOT_ELIGIBLE) == "<span class=\"status-badge status-" + "not-eligible" + "\">" + "NOT ELIGIBLE" + "</span>"
    ensures StatusBadge(LIKELY_ELIGIBLE) == "<span class=\"status-badge status-" + "likely-eligible" + "\">" + "LIKELY ELIGIBLE" + "</span>"
    ensures StatusBadge(UNCLEAR) == "<span class=\"status-badge status-" + "unclear" + "\">" + "UNCLEAR" + "</span>"
  {
    KnownStatusBadges();
    SpanOf(ELIGIBLE, "eligible", "ELIGIBLE");
    SpanOf(NOT_ELIGIBLE, "not-eligible", "NOT ELIGIBLE");
    SpanOf(LIKELY_ELIGIBLE, "likely-eligible", "LIKELY ELIGIBLE");
    SpanOf(UNCLEAR, "unclear", "UNCLEAR");
  }

  /** Each of the four statuses gets a badge class the stylesheet defines, a different one for each. */
  lemma KnownStatusesStyled()
    ensures forall s :: s in KNOWN_STATUSES ==> BadgeClass(s) in STYLED_STATUS_CLASSES
    ensures forall i, j :: 0 <= i < j < |KNOWN_STATUSES| ==> BadgeClass(KNOWN_STATUSES[i]) != BadgeClass(KNOWN_STATUSES[j])
  {
    KnownStatusBadges();
  }
}
