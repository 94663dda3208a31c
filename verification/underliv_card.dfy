/**
 * The garment card of the UnderLiv variant (src/components/UnderLivCard.tsx):
 * the progress bar's severity bands, the wash guard, and the action row.
 */
module UnderLivCard {
  import opened Wrappers
  import opened Garments
  import opened Lifespan
  import UnderwearCard

  /** The bar colours, mildest first: success, info, warning, danger. */
  datatype Severity = Success | Info | Warning | Danger

  function SeverityRank(s: Severity): nat {
    match s
    case Success => 0
    case Info => 1
    case Warning => 2
    case Danger => 3
  }

  /** The bands of a percentage, checked from the top: at least 80, 60, 40, else success. */
  function SeverityOf(p: real): (s: Severity)
    ensures s == Danger <==> p >= 80.0
    ensures s == Warning <==> 60.0 <= p < 80.0
    ensures s == Info <==> 40.0 <= p < 60.0
    ensures s == Success <==> p < 40.0
  {
    if p >= 80.0 then Danger
    else if p >= 60.0 then Warning
    else if p >= 40.0 then Info
    else Success
  }

  /** The severity never drops as the percentage rises. */
  lemma SeverityMonotone(p: real, q: real)
    requires p <= q
    ensures SeverityRank(SeverityOf(p)) <= SeverityRank(SeverityOf(q))
  {
  }

  /** The bar's colour: the band of the capped percentage. */
  function BarColor(g: Garment): Severity {
    SeverityOf(CappedPercent(g))
  }

  /** The bar turns to danger exactly when the count reaches four fifths of the budget. */
  lemma BarDangerAtFourFifths(g: Garment)
    ensures BarColor(g) == Danger <==> 5 * g.washCount >= 4 * Budget(g)
  {
    RawPercentAtLeast(g, 80.0);
  }

  /** The action row: wash (disabled only for a retired garment) and retire, or the retirement badge. */
  function Actions(g: Garment): (a: UnderwearCard.ActionRow)
    ensures a.RetiredBadge? <==> g.retired
    ensures a.RetiredBadge? ==> a.retiredDate == g.retiredDate
  {
    if !g.retired then UnderwearCard.WashAndRetire(g.retired) else UnderwearCard.RetiredBadge(g.retiredDate)
  }

  /**
   * Unlike the other card, this one never shows a disabled wash button: the
   * button is disabled only for retired garments, which do not show it; a
   * worn-out garment can still be washed.
   */
  lemma WashNeverDisabled(g: Garment)
    ensures Actions(g).WashAndRetire? ==> !Actions(g).washDisabled
    ensures !g.retired && g.washCount >= Budget(g) ==>
      Actions(g).WashAndRetire? && !Actions(g).washDisabled && UnderwearCard.Actions(g).washDisabled
  {
    CappedFullIffBudgetReached(g);
  }

  /** `handleWash` has the same guard as the other card: nothing for a retired garment. */
  lemma WashGuardShared(g: Garment)
    ensures UnderwearCard.WashRequest(g).None? <==> g.retired
    ensures Actions(g).WashAndRetire? ==> UnderwearCard.WashRequest(g) == Some(g.id)
  {
  }
}
