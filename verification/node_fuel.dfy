/**
  The `BurnerItem` setter of a recipe node. Changing the fuel deletes the
  input links carrying the old fuel (unless the recipe itself consumes it)
  and the output links carrying the old burnt item (unless the recipe itself
  produces it), stores the new fuel and drops any burnt-item override.
 */
module NodeFuel {
  import opened Wrappers
  import opened Catalog
  import opened RecipeNodes

  /** The links that do not carry `item`, in their original order. */
  function WithoutItem(links: seq<Link>, item: Item): (r: seq<Link>)
    ensures forall l :: l in r <==> l in links && l.item != item
    ensures |r| <= |links|
    ensures forall l :: multiset(r)[l] == if l.item == item then 0 else multiset(links)[l]
    ensures (forall i :: 0 <= i < |links| ==> links[i].item != item) ==> r == links
  {
    if |links| == 0 then []
    else
      var rest := WithoutItem(links[..|links| - 1], item);
      var last := links[|links| - 1];
      assert links == links[..|links| - 1] + [last];
      if last.item == item then rest else rest + [last]
  }

  /** Whether the setter deletes the input links carrying the current fuel. */
  predicate SeversFuelLinks(n: RecipeNode)
  {
    FuelIsExtraInput(n)
  }

  /** Whether the setter deletes the output links carrying the current burnt item. */
  predicate SeversBurntLinks(n: RecipeNode)
  {
    BurntIsExtraOutput(n)
  }

  /**
    `BurnerItem = value`. Setting the current value changes nothing. Setting
    another value removes exactly the input links on the old fuel when that
    fuel is not an ingredient, and exactly the output links on the old
    burnt item (read before the change) when it is not a product; it stores
    the new fuel, clears the override, and leaves every other field alone.
   */
  function SetBurnerItem(n: RecipeNode, value: Option<Item>): (r: RecipeNode)
    ensures value == n.burnerItem ==> r == n
    ensures value != n.burnerItem ==>
              && r.burnerItem == value
              && r.burntOverride.None?
              && r == n.(burnerItem := value, burntOverride := None, inputLinks := r.inputLinks, outputLinks := r.outputLinks)
    ensures forall l :: l in r.inputLinks <==>
              l in n.inputLinks && !(value != n.burnerItem && SeversFuelLinks(n) && Some(l.item) == n.burnerItem)
    ensures forall l :: l in r.outputLinks <==>
              l in n.outputLinks && !(value != n.burnerItem && SeversBurntLinks(n) && Some(l.item) == BurntItem(n))
  {
    if n.burnerItem == value then n
    else
      var inputs := if SeversFuelLinks(n) then WithoutItem(n.inputLinks, n.burnerItem.value) else n.inputLinks;
      var outputs := if SeversBurntLinks(n) then WithoutItem(n.outputLinks, BurntItem(n).value) else n.outputLinks;
      n.(burnerItem := value, burntOverride := None, inputLinks := inputs, outputLinks := outputs)
  }

  /** After a fuel change the burnt item is the new fuel's own burn result. */
  lemma NewFuelSetsBurntItem(n: RecipeNode, value: Option<Item>)
    requires value != n.burnerItem
    ensures BurntItem(SetBurnerItem(n, value)) == (if value.Some? then value.value.burnResult else None)
  {
  }

  /** Every link attached to the node carries an item the node lists on that side. */
  ghost predicate LinksConsistent(n: RecipeNode)
  {
    && (forall l :: l in n.inputLinks ==> l.item in Inputs(n))
    && (forall l :: l in n.outputLinks ==> l.item in Outputs(n))
  }

  /**
    The setter keeps every remaining link on a listed item: the links it
    keeps on the old fuel or burnt item are exactly those the recipe itself
    still lists.
   */
  lemma SetBurnerItemKeepsLinksConsistent(n: RecipeNode, value: Option<Item>)
    requires WellFormedRecipe(n.recipe)
    requires LinksConsistent(n)
    ensures LinksConsistent(SetBurnerItem(n, value))
  {
    var r := SetBurnerItem(n, value);
    if value != n.burnerItem {
      InputsListEachItemOnce(n);
      InputsListEachItemOnce(r);
      OutputsListEachItemOnce(n);
      OutputsListEachItemOnce(r);
      assert r.recipe == n.recipe;
      forall l | l in r.inputLinks
        ensures l.item in Inputs(r)
      {
        assert l in n.inputLinks;
        assert l.item in n.recipe.ingredientSet || n.burnerItem == Some(l.item);
      }
      forall l | l in r.outputLinks
        ensures l.item in Outputs(r)
      {
        assert l in n.outputLinks;
        assert l.item in n.recipe.productSet || BurntItem(n) == Some(l.item);
      }
    }
  }
}
