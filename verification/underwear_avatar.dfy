/**
 * The avatar of the first frontend (src/components/UnderwearAvatar.tsx): a
 * percentage over a denominator picked by material only, a three-step glow,
 * and wear markers pushed onto a local array.
 */
module UnderwearAvatar {
  import opened Catalog
  import opened Garments

  /** The denominator: 60 for cotton, 80 for blend, 100 for anything else (a custom garment too). */
  function AvatarBudget(m: Material): int {
    if m == Cotton then 60 else if m == Blend then 80 else 100
  }

  /** For the three listed materials the denominator is the material lifespan; custom counts are ignored. */
  lemma AvatarBudgetIsLifespan(g: Garment)
    ensures g.material != Custom ==> AvatarBudget(g.material) == MaterialLifespan(g.material)
    ensures g.material == Custom ==> AvatarBudget(g.material) == 100
  {
  }

  /** `getLifespanPercentage`: `(washCount / maxWashes) * 100`, not capped. */
  function AvatarPercent(g: Garment): (p: real)
    ensures p >= 0.0
    ensures p * AvatarBudget(g.material) as real == 100.0 * g.washCount as real
  {
    100.0 * g.washCount as real / AvatarBudget(g.material) as real
  }

  /** `getAvatarGlow`. */
  datatype Glow = RetiredGlow | New | Used | Worn

  /** A retired garment glows as retired regardless of wear; otherwise new below 25%, used below 75%, else worn. */
  function AvatarGlow(g: Garment): (r: Glow)
    ensures r == RetiredGlow <==> g.retired
    ensures !g.retired ==> (r == New <==> AvatarPercent(g) < 25.0)
    ensures !g.retired ==> (r == Worn <==> AvatarPercent(g) >= 75.0)
  {
    if g.retired then RetiredGlow
    else if AvatarPercent(g) < 25.0 then New
    else if AvatarPercent(g) < 75.0 then Used
    else Worn
  }

  /** `getAccessories`: holes past 25%, patches past 50%, threads past 75%, then `retired` for a retired garment. */
  method GetAccessories(g: Garment) returns (accessories: seq<string>)
    ensures accessories == Markers(g)
  {
    var lifespan := AvatarPercent(g);
    accessories := [];
    if lifespan > 25.0 {
      accessories := accessories + ["holes"];
    }
    if lifespan > 50.0 {
      accessories := accessories + ["patches"];
    }
    if lifespan > 75.0 {
      accessories := accessories + ["threads"];
    }
    if g.retired {
      accessories := accessories + ["retired"];
    }
  }

  /** The markers of a garment, in push order. */
  function Markers(g: Garment): seq<string> {
    (if AvatarPercent(g) > 25.0 then ["holes"] else [])
      + (if AvatarPercent(g) > 50.0 then ["patches"] else [])
      + (if AvatarPercent(g) > 75.0 then ["threads"] else [])
      + (if g.retired then ["retired"] else [])
  }

  /**
   * The wear markers are nested (threads only with patches, patches only
   * with holes), and `retired` is present exactly for a retired garment and
   * then last.
   */
  lemma MarkersNested(g: Garment)
    ensures var a := Markers(g);
      && ("threads" in a ==> "patches" in a)
      && ("patches" in a ==> "holes" in a)
      && ("retired" in a <==> g.retired)
      && (g.retired ==> a[|a| - 1] == "retired")
      && |a| <= 4
  {
  }

  /** Holes appear exactly once the count passes a quarter of the denominator. */
  lemma HolesPastAQuarter(g: Garment)
    ensures "holes" in Markers(g) <==> 4 * g.washCount > AvatarBudget(g.material)
  {
    var b := AvatarBudget(g.material) as real;
    var p := AvatarPercent(g);
    assert p * b == 100.0 * g.washCount as real;
    if p > 25.0 {
      assert p * b > 25.0 * b;
    } else {
      assert p * b <= 25.0 * b;
    }
    assert "holes" in Markers(g) <==> p > 25.0;
  }
}
