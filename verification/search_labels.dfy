/**
 What both search result label providers share: the sources of an
 element's text, the text fallback, and the match-count suffix.
 */
module SearchLabels {
  import opened Options
  import opened Decimal
  import opened JavaElements

  /**
   The viewer state a label is computed from: the Java label provider's
   text (None for null), the search participant's text (None when the
   element has no participant), the number of matches of an element, and
   the parent the result tree shows (None for null).
   */
  datatype LabelContext = LabelContext(
    labelText: Element -> Option<string>,
    participantText: Element -> Option<string>,
    matchCount: Element -> nat,
    visibleParent: Element -> Option<Element>)

  /** The label provider has a usable text: neither null nor empty. */
  predicate HasLabelText(ctx: LabelContext, e: Element)
  {
    ctx.labelText(e).Some? && ctx.labelText(e).value != ""
  }

  /**
   internalGetText: the label provider's text when it is neither null nor
   empty, else the participant's text, else "".
   */
  function InternalText(ctx: LabelContext, e: Element): (r: string)
    ensures HasLabelText(ctx, e) ==> r == ctx.labelText(e).value
    ensures !HasLabelText(ctx, e) && ctx.participantText(e).Some? ==> r == ctx.participantText(e).value
    ensures !HasLabelText(ctx, e) && ctx.participantText(e).None? ==> r == ""
  {
    var text := ctx.labelText(e);
    if text.Some? && text.value != "" then text.value
    else
      match ctx.participantText(e)
      case Some(t) => t
      case None => ""
  }

  /** The text is empty exactly when neither source supplies a non-empty one. */
  lemma InternalTextEmpty(ctx: LabelContext, e: Element)
    ensures InternalText(ctx, e) == ""
        <==> !HasLabelText(ctx, e) && (ctx.participantText(e).None? || ctx.participantText(e).value == "")
  {
  }

  /** `" (" + matchCount + " matches)"`. */
  function MatchSuffix(n: nat): string
  {
    " (" + NatToString(n) + " matches)"
  }

  /** The suffix reads back as the count it was built from. */
  lemma MatchSuffixShowsCount(n: nat)
    ensures var s := MatchSuffix(n);
            && |s| == |NatToString(n)| + 11
            && s[..2] == " ("
            && s[|s| - 9..] == " matches)"
            && (forall i | 2 <= i < |s| - 9 :: IsDigit(s[i]))
            && DecimalValue(s[2..|s| - 9]) == n
  {
    var s := MatchSuffix(n);
    assert s[2..|s| - 9] == NatToString(n);
    DecimalRoundTrip(n);
  }
}
