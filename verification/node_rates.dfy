/**
  The production math of a recipe node: the four module/beacon multipliers,
  the fuel ("burner") rate, the per-item input and output rates, the reported
  consume/supply rates and the machine count.
 */
module NodeRates {
  import opened Wrappers
  import opened Catalog
  import opened Rounding
  import opened RecipeNodes

  /** The consumption multiplier never drops below this fraction of nominal energy use. */
  const ConsumptionFloor: real := 0.2

  /** The modules' bonuses of one kind, accumulated in list order. */
  function ModuleBonusSum(mods: seq<Module>, kind: BonusKind): real
  {
    if |mods| == 0 then 0.0
    else ModuleBonusSum(mods[..|mods| - 1], kind) + BonusOf(mods[|mods| - 1], kind)
  }

  /** The beacon modules' bonuses, each scaled by effectivity and beacon count as it is added. */
  function BeaconBonusSum(mods: seq<Module>, kind: BonusKind, effectivity: real, count: real): real
  {
    if |mods| == 0 then 0.0
    else BeaconBonusSum(mods[..|mods| - 1], kind, effectivity, count) + BonusOf(mods[|mods| - 1], kind) * effectivity * count
  }

  /** The beacon term reads `SelectedBeacon` only while there are beacon modules. */
  ghost predicate BeaconDefined(n: RecipeNode)
  {
    |n.beaconModules| > 0 ==> n.beacon.Some?
  }

  /** How much one beacon-module bonus point adds to a multiplier. */
  function BeaconScale(n: RecipeNode): real
  {
    if n.beacon.Some? then n.beacon.value.effectivity * n.beaconCount else 0.0
  }

  function BeaconTerm(n: RecipeNode, kind: BonusKind): real
    requires BeaconDefined(n)
  {
    if |n.beaconModules| == 0 then 0.0
    else BeaconBonusSum(n.beaconModules, kind, n.beacon.value.effectivity, n.beaconCount)
  }

  /**
    A multiplier before any floor: `start`, plus each assembler module's
    bonus, plus each beacon module's bonus times effectivity times beacon
    count. Scaling each beacon module as it is added is the same as scaling
    the beacon modules' total once.
   */
  function StackedMultiplier(n: RecipeNode, kind: BonusKind, start: real): (r: real)
    requires BeaconDefined(n)
    ensures r == start + ModuleBonusSum(n.assemblerModules, kind) + BeaconScale(n) * ModuleBonusSum(n.beaconModules, kind)
  {
    var t := BeaconTerm(n, kind);
    assert t == BeaconScale(n) * ModuleBonusSum(n.beaconModules, kind) by {
      if |n.beaconModules| > 0 {
        BeaconSumFactors(n.beaconModules, kind, n.beacon.value.effectivity, n.beaconCount);
      }
    }
    start + ModuleBonusSum(n.assemblerModules, kind) + t
  }

  lemma {:induction false} BeaconSumFactors(mods: seq<Module>, kind: BonusKind, e: real, c: real)
    ensures BeaconBonusSum(mods, kind, e, c) == e * c * ModuleBonusSum(mods, kind)
  {
    if |mods| > 0 {
      var k := |mods| - 1;
      BeaconSumFactors(mods[..k], kind, e, c);
      calc {
        BeaconBonusSum(mods, kind, e, c);
        BeaconBonusSum(mods[..k], kind, e, c) + BonusOf(mods[k], kind) * e * c;
        e * c * ModuleBonusSum(mods[..k], kind) + e * c * BonusOf(mods[k], kind);
        e * c * (ModuleBonusSum(mods[..k], kind) + BonusOf(mods[k], kind));
      }
    }
  }

  function SpeedMultiplier(n: RecipeNode): (r: real)
    requires BeaconDefined(n)
    ensures r == 1.0 + ModuleBonusSum(n.assemblerModules, Speed) + BeaconScale(n) * ModuleBonusSum(n.beaconModules, Speed)
  {
    StackedMultiplier(n, Speed, 1.0)
  }

  /** The assembler's base productivity bonus, or 0 with no assembler. */
  function BaseProductivity(n: RecipeNode): real
  {
    if n.assembler.None? then 0.0 else n.assembler.value.baseProductivityBonus
  }

  function ProductivityMultiplier(n: RecipeNode): (r: real)
    requires BeaconDefined(n)
    ensures r == 1.0 + BaseProductivity(n) + ModuleBonusSum(n.assemblerModules, Productivity)
                 + BeaconScale(n) * ModuleBonusSum(n.beaconModules, Productivity)
  {
    StackedMultiplier(n, Productivity, 1.0 + BaseProductivity(n))
  }

  function PollutionMultiplier(n: RecipeNode): (r: real)
    requires BeaconDefined(n)
    ensures r == 1.0 + ModuleBonusSum(n.assemblerModules, Pollution) + BeaconScale(n) * ModuleBonusSum(n.beaconModules, Pollution)
  {
    StackedMultiplier(n, Pollution, 1.0)
  }

  /** The consumption multiplier, floored: never below 0.2, and exactly 0.2 whenever the stacked sum is at most 0.2. */
  function ConsumptionMultiplier(n: RecipeNode): (r: real)
    requires BeaconDefined(n)
    ensures r >= ConsumptionFloor
    ensures var sum := 1.0 + ModuleBonusSum(n.assemblerModules, Consumption) + BeaconScale(n) * ModuleBonusSum(n.beaconModules, Consumption);
            (sum > ConsumptionFloor ==> r == sum) && (sum <= ConsumptionFloor ==> r == ConsumptionFloor)
  {
    var m := StackedMultiplier(n, Consumption, 1.0);
    if m > ConsumptionFloor then m else ConsumptionFloor
  }

  /** Adding an assembler module raises the unfloored multiplier by exactly that module's bonus. */
  lemma AddAssemblerModule(n: RecipeNode, m: Module, kind: BonusKind, start: real)
    requires BeaconDefined(n)
    ensures var n' := n.(assemblerModules := n.assemblerModules + [m]);
            StackedMultiplier(n', kind, start) == StackedMultiplier(n, kind, start) + BonusOf(m, kind)
  {
    var mods := n.assemblerModules + [m];
    assert mods[..|mods| - 1] == n.assemblerModules;
  }

  /** Adding a beacon module raises the unfloored multiplier by its bonus times effectivity times beacon count. */
  lemma AddBeaconModule(n: RecipeNode, m: Module, kind: BonusKind, start: real)
    requires BeaconDefined(n) && n.beacon.Some?
    ensures var n' := n.(beaconModules := n.beaconModules + [m]);
            StackedMultiplier(n', kind, start)
              == StackedMultiplier(n, kind, start) + BonusOf(m, kind) * n.beacon.value.effectivity * n.beaconCount
  {
    var mods := n.beaconModules + [m];
    assert mods[..|mods| - 1] == n.beaconModules;
  }

  /** Seconds one assembler needs for one craft, after the speed multiplier. */
  function CraftSeconds(n: RecipeNode): real
    requires BeaconDefined(n) && n.assembler.Some?
    requires n.assembler.value.speed * SpeedMultiplier(n) != 0.0
  {
    n.recipe.time / (n.assembler.value.speed * SpeedMultiplier(n))
  }

  /**
    What the burner formula needs: a fuel-burning assembler (the source fails
    its trace assertion otherwise) and a fuel, and no zero divisor.
   */
  ghost predicate FuelRateDefined(n: RecipeNode)
  {
    && BeaconDefined(n)
    && IsBurner(n.assembler)
    && n.burnerItem.Some?
    && n.burnerItem.value.fuelValue != 0.0
    && n.assembler.value.energyEffectivity != 0.0
    && n.assembler.value.speed * SpeedMultiplier(n) != 0.0
  }

  /**
    Fuel units burnt per craft: craft time times the assembler's energy draw
    (scaled by the consumption multiplier, divided by effectivity), divided by
    the fuel value of the burner item.
   */
  function BurnerRate(n: RecipeNode): (r: real)
    requires FuelRateDefined(n)
    ensures && n.recipe.time > 0.0 && n.assembler.value.speed * SpeedMultiplier(n) > 0.0
            && n.assembler.value.energyConsumption > 0.0 && n.assembler.value.energyEffectivity > 0.0
            && n.burnerItem.value.fuelValue > 0.0
            ==> r > 0.0
  {
    var a := n.assembler.value;
    BurnFactorsPositive(n.recipe.time, a.speed * SpeedMultiplier(n), a.energyConsumption, ConsumptionMultiplier(n),
                        a.energyEffectivity, n.burnerItem.value.fuelValue);
    CraftSeconds(n) * (a.energyConsumption * ConsumptionMultiplier(n) / a.energyEffectivity) / n.burnerItem.value.fuelValue
  }

  /** The burner formula is positive when all its factors are. */
  lemma BurnFactorsPositive(time: real, divisor: real, energy: real, consumption: real, effectivity: real, fuelValue: real)
    requires divisor != 0.0 && effectivity != 0.0 && fuelValue != 0.0 && consumption > 0.0
    ensures time > 0.0 && divisor > 0.0 && energy > 0.0 && effectivity > 0.0 && fuelValue > 0.0 ==>
              time / divisor * (energy * consumption / effectivity) / fuelValue > 0.0
  {
    if time > 0.0 && divisor > 0.0 && energy > 0.0 && effectivity > 0.0 && fuelValue > 0.0 {
      QuotientPositive(time, divisor);
      ProductPositive(energy, consumption);
      QuotientPositive(energy * consumption, effectivity);
      ProductPositive(time / divisor, energy * consumption / effectivity);
      QuotientPositive(time / divisor * (energy * consumption / effectivity), fuelValue);
    }
  }

  lemma QuotientPositive(x: real, y: real)
    requires x > 0.0 && y > 0.0
    ensures x / y > 0.0
  {
    assert x / y * y == x;
  }

  /** The rate a recipe side lists for `item`, or 0 when it does not list it. */
  function RateOrZero(rates: map<Item, real>, item: Item): real
  {
    if item in rates then rates[item] else 0.0
  }

  ghost predicate InputRateDefined(n: RecipeNode, item: Item)
  {
    if n.burnerItem == Some(item) then FuelRateDefined(n) else item in n.recipe.ingredientSet
  }

  ghost predicate OutputRateDefined(n: RecipeNode, item: Item)
  {
    if BurntItem(n) == Some(item) then FuelRateDefined(n) else item in n.recipe.productSet
  }

  /**
    `inputRateFor`: the recipe's ingredient rate, except for the fuel, whose
    rate is the rounded sum of its ingredient rate (0 when it is not an
    ingredient) and the burner rate.
   */
  function InputRateFor(n: RecipeNode, item: Item, dp: nat): (r: real)
    requires InputRateDefined(n, item)
    ensures n.burnerItem != Some(item) ==> r == n.recipe.ingredientSet[item]
    ensures n.burnerItem == Some(item) ==>
              -HalfUnit(dp) <= r - (RateOrZero(n.recipe.ingredientSet, item) + BurnerRate(n)) <= HalfUnit(dp)
  {
    if n.burnerItem != Some(item) then n.recipe.ingredientSet[item]
    else Round(RateOrZero(n.recipe.ingredientSet, item) + BurnerRate(n), dp)
  }

  /**
    `outputRateFor`: the recipe's product rate, except for the burnt item,
    whose rate is the rounded sum of its product rate and the same burner
    rate, still divided by the fuel's (not the burnt item's) fuel value.
   */
  function OutputRateFor(n: RecipeNode, item: Item, dp: nat): (r: real)
    requires OutputRateDefined(n, item)
    ensures BurntItem(n) != Some(item) ==> r == n.recipe.productSet[item]
    ensures BurntItem(n) == Some(item) ==>
              -HalfUnit(dp) <= r - (RateOrZero(n.recipe.productSet, item) + BurnerRate(n)) <= HalfUnit(dp)
  {
    if BurntItem(n) != Some(item) then n.recipe.productSet[item]
    else Round(RateOrZero(n.recipe.productSet, item) + BurnerRate(n), dp)
  }

  /** `GetConsumeRate`: the input rate scaled by `ActualRate`, rounded once more. */
  function ConsumeRate(n: RecipeNode, item: Item, dp: nat): (r: real)
    requires InputRateDefined(n, item)
    ensures -HalfUnit(dp) <= r - InputRateFor(n, item, dp) * n.base.actualRate <= HalfUnit(dp)
  {
    Round(InputRateFor(n, item, dp) * n.base.actualRate, dp)
  }

  /** `GetSupplyRate`: the output rate scaled by `ActualRate`, rounded once more. */
  function SupplyRate(n: RecipeNode, item: Item, dp: nat): (r: real)
    requires OutputRateDefined(n, item)
    ensures -HalfUnit(dp) <= r - OutputRateFor(n, item, dp) * n.base.actualRate <= HalfUnit(dp)
  {
    Round(OutputRateFor(n, item, dp) * n.base.actualRate, dp)
  }

  /**
    `GetBaseNumberOfAssemblers`: 0 with no assembler, otherwise `ActualRate`
    times the craft time per assembler, rounded.
   */
  function BaseNumberOfAssemblers(n: RecipeNode, dp: nat): (r: real)
    requires n.assembler.Some? ==> BeaconDefined(n) && n.assembler.value.speed * SpeedMultiplier(n) != 0.0
    ensures n.assembler.None? ==> r == 0.0
    ensures n.assembler.Some? ==> -HalfUnit(dp) <= r - n.base.actualRate * CraftSeconds(n) <= HalfUnit(dp)
  {
    if n.assembler.None? then 0.0
    else Round(n.base.actualRate * CraftSeconds(n), dp)
  }

  /**
    A speed module with a positive bonus shortens the craft, so the same
    actual rate needs fewer assemblers (before rounding).
   */
  lemma SpeedModuleLowersCount(n: RecipeNode, m: Module)
    requires n.assembler.Some? && BeaconDefined(n)
    requires n.assembler.value.speed > 0.0 && SpeedMultiplier(n) > 0.0
    requires BonusOf(m, Speed) > 0.0 && n.recipe.time > 0.0 && n.base.actualRate > 0.0
    ensures var faster := n.(assemblerModules := n.assemblerModules + [m]);
            && faster.assembler.value.speed * SpeedMultiplier(faster) != 0.0
            && faster.base.actualRate * CraftSeconds(faster) < n.base.actualRate * CraftSeconds(n)
  {
    var faster := n.(assemblerModules := n.assemblerModules + [m]);
    AddAssemblerModule(n, m, Speed, 1.0);
    var s, b := n.assembler.value.speed, BonusOf(m, Speed);
    var v, v' := SpeedMultiplier(n), SpeedMultiplier(faster);
    assert v' == v + b;
    FasterDivisor(s, v, b);
    QuotientShrinks(n.recipe.time, s * v, s * v');
    ScaleKeepsOrder(n.base.actualRate, n.recipe.time / (s * v'), n.recipe.time / (s * v));
  }

  /** A larger multiplier on a positive speed gives a larger positive divisor. */
  lemma FasterDivisor(s: real, v: real, b: real)
    requires s > 0.0 && v > 0.0 && b > 0.0
    ensures 0.0 < s * v < s * (v + b)
  {
    ProductPositive(s, v);
    ProductPositive(s, b);
    assert s * (v + b) == s * v + s * b;
  }

  lemma ProductPositive(x: real, y: real)
    requires x > 0.0 && y > 0.0
    ensures x * y > 0.0
  {
  }

  /** Dividing a positive amount by a larger positive divisor gives less. */
  lemma QuotientShrinks(t: real, d: real, d': real)
    requires t > 0.0 && 0.0 < d < d'
    ensures t / d' < t / d
  {
    var q, q' := t / d, t / d';
    assert q * d == t && q' * d' == t;
    assert q - q' == q' * (d' - d) / d;
    ProductPositive(q', d' - d);
  }

  lemma ScaleKeepsOrder(a: real, x: real, y: real)
    requires a > 0.0 && x < y
    ensures a * x < a * y
  {
    assert a * y - a * x == a * (y - x);
  }

  /** Every item the node lists as an input has an input rate. */
  lemma EveryInputHasRate(n: RecipeNode)
    requires WellFormedRecipe(n.recipe)
    requires n.burnerItem.Some? ==> FuelRateDefined(n)
    ensures forall x :: x in Inputs(n) ==> InputRateDefined(n, x)
  {
    InputsListEachItemOnce(n);
  }

  /** Every item the node lists as an output has an output rate. */
  lemma EveryOutputHasRate(n: RecipeNode)
    requires WellFormedRecipe(n.recipe)
    requires BurntItem(n).Some? ==> FuelRateDefined(n)
    ensures forall x :: x in Outputs(n) ==> OutputRateDefined(n, x)
  {
    OutputsListEachItemOnce(n);
  }

  /**
    No double counting: a fuel that is also an ingredient is consumed at its
    recipe rate plus the burner rate; a fuel that is not is consumed at the
    burner rate alone.
   */
  lemma FuelInputRate(n: RecipeNode, dp: nat)
    requires FuelRateDefined(n)
    ensures var f := n.burnerItem.value;
            InputRateFor(n, f, dp)
              == Round((if f in n.recipe.ingredientSet then n.recipe.ingredientSet[f] else 0.0) + BurnerRate(n), dp)
  {
  }

  /**
    When neither fuel nor burnt item belongs to the recipe, the burnt item
    leaves at exactly the rate the fuel is consumed.
   */
  lemma BurntLeavesAtFuelRate(n: RecipeNode, dp: nat)
    requires FuelRateDefined(n)
    requires FuelIsExtraInput(n) && BurntIsExtraOutput(n)
    ensures OutputRateFor(n, BurntItem(n).value, dp) == InputRateFor(n, n.burnerItem.value, dp)
  {
  }

  /** The worked example: 2 s recipe, speed 1, 60 kW, effectivity 1, 8000 kJ fuel burns 0.015 fuel per craft. */
  lemma BurnerRateExample(n: RecipeNode)
    requires n.recipe.time == 2.0
    requires n.assemblerModules == [] && n.beaconModules == []
    requires n.assembler.Some? && n.assembler.value.isBurner
    requires n.assembler.value.speed == 1.0 && n.assembler.value.energyConsumption == 60.0
    requires n.assembler.value.energyEffectivity == 1.0
    requires n.burnerItem.Some? && n.burnerItem.value.fuelValue == 8000.0
    ensures FuelRateDefined(n) && BurnerRate(n) == 0.015
  {
    assert SpeedMultiplier(n) == 1.0;
    assert ConsumptionMultiplier(n) == 1.0;
  }
}
