/**
  Immutable catalog records read by a recipe node: items, recipes, assemblers,
  modules and beacons. Each carries the `isMissing` flag that a loaded graph
  sets when the record is referenced but absent from the active data preset.
  Structural equality of these values stands in for reference identity.
 */
module Catalog {
  import opened Wrappers
  import opened Sequences

  /** An item; `burnResult` is what is left after burning it as fuel. */
  datatype Item = Item(
    name: string,
    isMissing: bool,
    fuelValue: real,
    burnResult: Option<Item>)

  /**
    A recipe. The ordered lists (`IngredientList`, `ProductList`) and the
    rate dictionaries (`IngredientSet`, `ProductSet`) describe the same items.
   */
  datatype Recipe = Recipe(
    recipeId: int,
    name: string,
    isMissing: bool,
    time: real,
    ingredientList: seq<Item>,
    ingredientSet: map<Item, real>,
    productList: seq<Item>,
    productSet: map<Item, real>)

  datatype Assembler = Assembler(
    name: string,
    isMissing: bool,
    isBurner: bool,
    speed: real,
    energyConsumption: real,
    energyEffectivity: real,
    moduleSlots: int,
    baseProductivityBonus: real,
    validFuels: set<Item>)

  datatype Module = Module(
    name: string,
    isMissing: bool,
    speedBonus: real,
    productivityBonus: real,
    consumptionBonus: real,
    pollutionBonus: real)

  datatype Beacon = Beacon(
    name: string,
    isMissing: bool,
    moduleSlots: int,
    effectivity: real)

  /** The four independent bonuses a module carries. */
  datatype BonusKind = Speed | Productivity | Consumption | Pollution

  function BonusOf(m: Module, kind: BonusKind): real
  {
    match kind
    case Speed => m.speedBonus
    case Productivity => m.productivityBonus
    case Consumption => m.consumptionBonus
    case Pollution => m.pollutionBonus
  }

  /**
    The list of a recipe side holds each item once and exactly the keys of
    its rate dictionary, as the catalog builds them together.
   */
  ghost predicate ListMatchesSet(list: seq<Item>, rates: map<Item, real>)
  {
    && NoDuplicates(list)
    && (forall x :: x in list <==> x in rates)
  }

  ghost predicate WellFormedRecipe(r: Recipe)
  {
    && ListMatchesSet(r.ingredientList, r.ingredientSet)
    && ListMatchesSet(r.productList, r.productSet)
  }
}
