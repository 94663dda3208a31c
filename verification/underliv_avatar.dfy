/**
 * The avatar of the UnderLiv variant (src/components/UnderLivAvatar.tsx):
 * an uncapped wear percentage, a glow picked from it, and a list of
 * accessories built by pushing onto a local array.
 */
module UnderLivAvatar {
  import opened Garments
  import opened Lifespan
  import opened UnderLivCard

  /** `getAvatarGlow`: the retired glow, or a severity band. */
  datatype Glow = RetiredGlow | ActiveGlow(severity: Severity)

  /** A retired garment glows as retired whatever its wear; otherwise the uncapped percentage picks the band. */
  function AvatarGlow(g: Garment): (r: Glow)
    ensures r.RetiredGlow? <==> g.retired
    ensures r.ActiveGlow? ==> r.severity == SeverityOf(RawPercent(g))
  {
    if g.retired then RetiredGlow else ActiveGlow(SeverityOf(RawPercent(g)))
  }

  /** `getAccessories`: the user's own, then sunglasses from 80%, a hat from 90%, and `retired` for a retired garment. */
  method GetAccessories(g: Garment) returns (accessories: seq<string>)
    ensures accessories == g.accessories
      + (if RawPercent(g) >= 80.0 then ["sunglasses"] else [])
      + (if RawPercent(g) >= 90.0 then ["hat"] else [])
      + (if g.retired then ["retired"] else [])
  {
    var lifespan := RawPercent(g);
    accessories := [];
    for i := 0 to |g.accessories|
      invariant accessories == g.accessories[..i]
    {
      accessories := accessories + [g.accessories[i]];
    }
    assert g.accessories[..|g.accessories|] == g.accessories;
    if lifespan >= 80.0 {
      accessories := accessories + ["sunglasses"];
    }
    if lifespan >= 90.0 {
      accessories := accessories + ["hat"];
    }
    if g.retired {
      accessories := accessories + ["retired"];
    }
  }

  /** The accessory list the method builds. */
  function Accessories(g: Garment): seq<string> {
    g.accessories
      + (if RawPercent(g) >= 80.0 then ["sunglasses"] else [])
      + (if RawPercent(g) >= 90.0 then ["hat"] else [])
      + (if g.retired then ["retired"] else [])
  }

  /**
   * The user's accessories come first and in order; the automatic hat comes
   * only with the automatic sunglasses; `retired` is last exactly for a
   * retired garment.
   */
  lemma AccessoriesShape(g: Garment)
    ensures var a := Accessories(g); var n := |g.accessories|;
      && n <= |a| && a[..n] == g.accessories
      && ("hat" in a[n..] ==> "sunglasses" in a[n..])
      && (g.retired <==> |a| > n && a[|a| - 1] == "retired")
  {
    var a := Accessories(g);
    var n := |g.accessories|;
    var auto := a[n..];
    assert auto == (if RawPercent(g) >= 80.0 then ["sunglasses"] else [])
      + (if RawPercent(g) >= 90.0 then ["hat"] else [])
      + (if g.retired then ["retired"] else []);
  }

  /** The list is not de-duplicated: a user's own sunglasses appear again once the wear passes 80%. */
  lemma SunglassesCanRepeat(g: Garment)
    requires g.accessories == ["sunglasses"] && RawPercent(g) >= 80.0
    ensures Accessories(g)[0] == "sunglasses" && Accessories(g)[1] == "sunglasses"
  {
  }

  /** The automatic sunglasses appear exactly once the washes reach four fifths of the budget. */
  lemma SunglassesAtFourFifths(g: Garment)
    ensures RawPercent(g) >= 80.0 <==> 5 * g.washCount >= 4 * Budget(g)
  {
    RawPercentAtLeast(g, 80.0);
  }
}
