/**
  The state of a recipe node (`RecipeNodePrototype`): the recipe it runs, the
  selected assembler with its modules, the beacon loadout, the fuel, and the
  links attached to its input and output tabs. The graph-wide solver's
  `ActualRate` and the node's placement come in through `NodeBase`.
 */
module RecipeNodes {
  import opened Wrappers
  import opened Sequences
  import opened Catalog

  datatype RateType = Auto | Manual

  datatype Point = Point(x: int, y: int)

  /** The fields `RecipeNodePrototype` inherits from the base node. */
  datatype NodeBase = NodeBase(
    nodeId: int,
    location: Point,
    rateType: RateType,
    actualRate: real,
    desiredRate: real)

  /** A link attached to one of the node's tabs, carrying one item. */
  datatype Link = Link(id: nat, item: Item)

  datatype RecipeNode = RecipeNode(
    base: NodeBase,
    recipe: Recipe,
    assembler: Option<Assembler>,
    assemblerModules: seq<Module>,
    beacon: Option<Beacon>,
    beaconCount: real,
    beaconModules: seq<Module>,
    burnerItem: Option<Item>,
    burntOverride: Option<Item>,
    inputLinks: seq<Link>,
    outputLinks: seq<Link>)

  /**
    What the graph's assembler, module and fuel selectors would choose for a
    new node; those selectors are outside this model.
   */
  datatype Defaults = Defaults(
    assembler: Option<Assembler>,
    modules: seq<Module>,
    fuel: Option<Item>)

  /**
    The constructor. An auto-populated node takes the selectors' choices and
    only takes a fuel when the chosen assembler burns fuel; an imported node
    starts empty and is filled in by the importer.
   */
  function NewRecipeNode(base: NodeBase, recipe: Recipe, autoPopulate: bool, defaults: Defaults): (r: RecipeNode)
    ensures r.base == base && r.recipe == recipe
    ensures r.beacon.None? && r.beaconCount == 0.0 && r.beaconModules == []
    ensures r.burntOverride.None? && r.inputLinks == [] && r.outputLinks == []
    ensures autoPopulate ==> r.assembler == defaults.assembler && r.assemblerModules == defaults.modules
    ensures !autoPopulate ==> r.assembler.None? && r.assemblerModules == [] && r.burnerItem.None?
    ensures r.burnerItem.Some? <==> autoPopulate && IsBurner(r.assembler) && defaults.fuel.Some?
    ensures r.burnerItem.Some? ==> r.burnerItem == defaults.fuel
  {
    if autoPopulate then
      var fuel := if defaults.assembler.Some? && defaults.assembler.value.isBurner then defaults.fuel else None;
      RecipeNode(base, recipe, defaults.assembler, defaults.modules, None, 0.0, [], fuel, None, [], [])
    else
      RecipeNode(base, recipe, None, [], None, 0.0, [], None, None, [], [])
  }

  predicate IsBurner(a: Option<Assembler>)
  {
    a.Some? && a.value.isBurner
  }

  /**
    `BurntItem`: the import override when one is set, otherwise the burn
    result of the fuel, otherwise none.
   */
  function BurntItem(n: RecipeNode): (r: Option<Item>)
    ensures n.burntOverride.Some? ==> r == n.burntOverride
    ensures n.burntOverride.None? && n.burnerItem.Some? ==> r == n.burnerItem.value.burnResult
    ensures n.burntOverride.None? && n.burnerItem.None? ==> r.None?
  {
    if n.burntOverride.Some? then n.burntOverride
    else if n.burnerItem.Some? && n.burnerItem.value.burnResult.Some? then n.burnerItem.value.burnResult
    else None
  }

  /** The fuel, when the node lists it as a separate input (it is not already an ingredient). */
  predicate FuelIsExtraInput(n: RecipeNode)
  {
    n.burnerItem.Some? && n.burnerItem.value !in n.recipe.ingredientSet
  }

  /** The burnt item, when the node lists it as a separate output (it is not already a product). */
  predicate BurntIsExtraOutput(n: RecipeNode)
  {
    BurntItem(n).Some? && BurntItem(n).value !in n.recipe.productSet
  }

  /** `Inputs`: the ingredient list, then the fuel if it is not already an ingredient. */
  function Inputs(n: RecipeNode): (r: seq<Item>)
    ensures |r| == |n.recipe.ingredientList| + (if FuelIsExtraInput(n) then 1 else 0)
    ensures r[..|n.recipe.ingredientList|] == n.recipe.ingredientList
    ensures FuelIsExtraInput(n) ==> r[|r| - 1] == n.burnerItem.value
  {
    n.recipe.ingredientList + (if FuelIsExtraInput(n) then [n.burnerItem.value] else [])
  }

  /** `Outputs`: the product list, then the burnt item if it is not already a product. */
  function Outputs(n: RecipeNode): (r: seq<Item>)
    ensures |r| == |n.recipe.productList| + (if BurntIsExtraOutput(n) then 1 else 0)
    ensures r[..|n.recipe.productList|] == n.recipe.productList
    ensures BurntIsExtraOutput(n) ==> r[|r| - 1] == BurntItem(n).value
  {
    n.recipe.productList + (if BurntIsExtraOutput(n) then [BurntItem(n).value] else [])
  }

  /**
    With a well-formed recipe, every input is listed once, and the listed
    inputs are exactly the ingredients plus the fuel.
   */
  lemma InputsListEachItemOnce(n: RecipeNode)
    requires WellFormedRecipe(n.recipe)
    ensures NoDuplicates(Inputs(n))
    ensures forall x :: x in Inputs(n) <==> x in n.recipe.ingredientSet || n.burnerItem == Some(x)
    ensures n.burnerItem.Some? ==> multiset(Inputs(n))[n.burnerItem.value] == 1
  {
    var r := Inputs(n);
    var l := n.recipe.ingredientList;
    if FuelIsExtraInput(n) {
      AppendFreshKeepsDistinct(l, n.burnerItem.value);
    } else {
      assert r == l;
    }
    if n.burnerItem.Some? {
      DistinctCountsOnce(r, n.burnerItem.value);
    }
  }

  /**
    With a well-formed recipe, every output is listed once, and the listed
    outputs are exactly the products plus the burnt item.
   */
  lemma OutputsListEachItemOnce(n: RecipeNode)
    requires WellFormedRecipe(n.recipe)
    ensures NoDuplicates(Outputs(n))
    ensures forall x :: x in Outputs(n) <==> x in n.recipe.productSet || BurntItem(n) == Some(x)
    ensures BurntItem(n).Some? ==> multiset(Outputs(n))[BurntItem(n).value] == 1
  {
    var r := Outputs(n);
    var l := n.recipe.productList;
    if BurntIsExtraOutput(n) {
      AppendFreshKeepsDistinct(l, BurntItem(n).value);
    } else {
      assert r == l;
    }
    if BurntItem(n).Some? {
      DistinctCountsOnce(r, BurntItem(n).value);
    }
  }
}
