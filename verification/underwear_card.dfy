/**
 * The garment card of the first frontend (src/components/UnderwearCard.tsx):
 * the colour and status text chosen from the capped wear percentage, the
 * wash handler's guard, and which actions the card offers.
 */
module UnderwearCard {
  import opened Wrappers
  import opened Garments
  import opened Lifespan

  /** `getLifespanColor`: green, yellow, orange, red. */
  datatype Tone = Green | Yellow | Orange | Red

  function ToneRank(t: Tone): nat {
    match t
    case Green => 0
    case Yellow => 1
    case Orange => 2
    case Red => 3
  }

  /** The colour band of a percentage, cut at 25, 50 and 75. */
  function LifespanColor(p: real): (t: Tone)
    ensures t == Green <==> p < 25.0
    ensures t == Yellow <==> 25.0 <= p < 50.0
    ensures t == Orange <==> 50.0 <= p < 75.0
    ensures t == Red <==> 75.0 <= p
  {
    if p < 25.0 then Green
    else if p < 50.0 then Yellow
    else if p < 75.0 then Orange
    else Red
  }

  /** The colour never gets milder as the percentage rises. */
  lemma LifespanColorMonotone(p: real, q: real)
    requires p <= q
    ensures ToneRank(LifespanColor(p)) <= ToneRank(LifespanColor(q))
  {
  }

  /** `getLifespanText`: five messages cut at 25, 50, 75 and 95. */
  function LifespanText(p: real): (s: string)
    ensures p < 25.0 ==> s == "Fresh as a daisy!"
    ensures 25.0 <= p < 50.0 ==> s == "Getting comfy"
    ensures 50.0 <= p < 75.0 ==> s == "Showing character"
    ensures 75.0 <= p < 95.0 ==> s == "Veteran status"
    ensures 95.0 <= p ==> s == "Living on borrowed time!"
  {
    if p < 25.0 then "Fresh as a daisy!"
    else if p < 50.0 then "Getting comfy"
    else if p < 75.0 then "Showing character"
    else if p < 95.0 then "Veteran status"
    else "Living on borrowed time!"
  }

  /** The position of a message in the order the cut points give them. */
  function TextRank(s: string): int {
    if s == "Fresh as a daisy!" then 0
    else if s == "Getting comfy" then 1
    else if s == "Showing character" then 2
    else if s == "Veteran status" then 3
    else 4
  }

  /** The message never steps back as the percentage rises, and the colour and text bands agree below 75. */
  lemma LifespanTextMonotone(p: real, q: real)
    requires p <= q
    ensures TextRank(LifespanText(p)) <= TextRank(LifespanText(q))
    ensures p < 75.0 ==> TextRank(LifespanText(p)) == ToneRank(LifespanColor(p))
  {
  }

  /** `handleWash`: the id handed to `onWash`, or nothing for a retired garment. */
  function WashRequest(g: Garment): (r: Option<string>)
    ensures r.None? <==> g.retired
    ensures r.Some? ==> r.value == g.id
  {
    if g.retired then None else Some(g.id)
  }

  /** What the card's action row shows. */
  datatype ActionRow = WashAndRetire(washDisabled: bool) | RetiredBadge(retiredDate: Option<int>)

  /** The action row: the two buttons, with wash disabled at 100%, or the retirement badge. */
  function Actions(g: Garment): (a: ActionRow)
    ensures a.RetiredBadge? <==> g.retired
    ensures a.RetiredBadge? ==> a.retiredDate == g.retiredDate
  {
    if !g.retired then WashAndRetire(CappedPercent(g) >= 100.0) else RetiredBadge(g.retiredDate)
  }

  /** The wash button is disabled exactly when the count has reached the budget. */
  lemma WashDisabledIffWornOut(g: Garment)
    requires !g.retired
    ensures Actions(g).washDisabled <==> g.washCount >= Budget(g)
  {
    CappedFullIffBudgetReached(g);
  }

  /** Colour and text of the card come from the capped percentage, which stays in [0, 100]. */
  lemma CardBandsOfCount(g: Garment)
    ensures LifespanColor(CappedPercent(g)) == Red <==> 4 * g.washCount >= 3 * Budget(g)
    ensures LifespanText(CappedPercent(g)) == "Living on borrowed time!" <==> 100 * g.washCount >= 95 * Budget(g)
  {
    RawPercentAtLeast(g, 75.0);
    RawPercentAtLeast(g, 95.0);
  }
}
