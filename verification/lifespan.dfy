/**
 * The wash budget and wear percentage shared by the cards and the second
 * avatar (src/components/UnderwearCard.tsx, src/components/UnderLivCard.tsx,
 * src/components/UnderLivAvatar.tsx): a custom garment's own count, never
 * below 1 and 100 when unset, else the material lifespan.
 */
module Lifespan {
  import opened Catalog
  import opened Garments

  /** `maxWashes`: `Math.max(1, customWashes || 100)` for custom garments, else the material lifespan. */
  function Budget(g: Garment): (m: int)
    ensures m >= 1
    ensures g.material == Custom && g.customWashes == 0 ==> m == 100
    ensures g.material == Custom && g.customWashes >= 1 ==> m == g.customWashes
    ensures g.material == Custom && g.customWashes < 0 ==> m == 1
    ensures g.material != Custom ==> m == MaterialLifespan(g.material)
  {
    if g.material == Custom then
      var requested := if g.customWashes == 0 then 100 else g.customWashes;
      if requested < 1 then 1 else requested
    else MaterialLifespan(g.material)
  }

  /** `(washCount / maxWashes) * 100`, not capped. */
  function RawPercent(g: Garment): (p: real)
    ensures p >= 0.0
    ensures p * Budget(g) as real == 100.0 * g.washCount as real
  {
    100.0 * g.washCount as real / Budget(g) as real
  }

  /** `Math.min((washCount / maxWashes) * 100, 100)`. */
  function CappedPercent(g: Garment): (p: real)
    ensures 0.0 <= p <= 100.0
    ensures p <= RawPercent(g)
  {
    if RawPercent(g) < 100.0 then RawPercent(g) else 100.0
  }

  /** The uncapped percentage reaches a cut point exactly when the washes reach that share of the budget. */
  lemma RawPercentAtLeast(g: Garment, cut: real)
    ensures RawPercent(g) >= cut <==> 100.0 * g.washCount as real >= cut * Budget(g) as real
  {
    var b := Budget(g) as real;
    var p := RawPercent(g);
    assert p * b == 100.0 * g.washCount as real;
    if p >= cut {
      assert p * b >= cut * b;
    } else {
      assert p * b < cut * b;
    }
  }

  /** The capped percentage is 100 exactly once the count reaches the budget. */
  lemma CappedFullIffBudgetReached(g: Garment)
    ensures CappedPercent(g) == 100.0 <==> g.washCount >= Budget(g)
    ensures CappedPercent(g) >= 100.0 <==> g.washCount >= Budget(g)
  {
    RawPercentAtLeast(g, 100.0);
  }

  /** One more wash never lowers the percentage. */
  lemma PercentMonotone(g: Garment)
    ensures RawPercent(g) <= RawPercent(g.(washCount := g.washCount + 1))
    ensures CappedPercent(g) <= CappedPercent(g.(washCount := g.washCount + 1))
  {
    var h := g.(washCount := g.washCount + 1);
    assert Budget(h) == Budget(g);
    var b := Budget(g) as real;
    assert RawPercent(h) * b - RawPercent(g) * b == 100.0;
  }
}
