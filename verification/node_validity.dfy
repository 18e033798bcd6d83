/**
  The validity report of a recipe node: `IsValid`, a chain of early returns,
  and `GetErrors`, which walks every criterion and collects one message per
  violated criterion (null when there is none). Messages are kept as
  structured values carrying the data the formatted text shows.
 */
module NodeValidity {
  import opened Wrappers
  import opened Catalog
  import opened RecipeNodes
  import opened NodeRates

  datatype NodeError =
    | RecipeMissing(recipeName: string)
    | NoAssembler
    | AssemblerMissing(assemblerName: string)
    | NoFuel
    | InvalidFuel
    | FuelMissing
    | BurnResultMismatch
    | AssemblerModuleMissing
    | TooManyAssemblerModules(count: int, slots: int)
    | BeaconMissing(beaconName: string)
    | BeaconModuleMissing
    | TooManyBeaconModules

  predicate AnyMissing(mods: seq<Module>)
  {
    exists i :: 0 <= i < |mods| && mods[i].isMissing
  }

  /** The burnt item does not come from the current fuel: it is set while the fuel is unset or burns into something else. */
  predicate BurnResultMismatched(n: RecipeNode)
  {
    BurntItem(n).Some? && (n.burnerItem.None? || n.burnerItem.value.burnResult != BurntItem(n))
  }

  /** `IsValid`: the criteria checked in order, returning false at the first violated one. */
  function IsValid(n: RecipeNode): (r: bool)
    ensures r <==> GetErrors(n).None?
  {
    if n.recipe.isMissing then false
    else if n.assembler.None? then false
    else if n.assembler.value.isMissing then false
    else if n.assembler.value.isBurner
            && (|| n.burnerItem.None?
                || n.burnerItem.value !in n.assembler.value.validFuels
                || n.burnerItem.value.isMissing) then false
    else if n.assembler.value.isBurner && BurnResultMismatched(n) then false
    else if AnyMissing(n.assemblerModules) || |n.assemblerModules| > n.assembler.value.moduleSlots then false
    else if n.beacon.Some?
            && (|| n.beacon.value.isMissing
                || AnyMissing(n.beaconModules)
                || |n.beaconModules| > n.beacon.value.moduleSlots) then false
    else true
  }

  /**
    The criterion behind each message of the selected assembler's checks:
    with no assembler only "no assembler" applies; with one, each message
    has its own condition, the three fuel conditions checked in turn.
   */
  predicate AssemblerViolated(n: RecipeNode, e: NodeError)
  {
    match n.assembler
    case None => e == NoAssembler
    case Some(a) =>
      match e
      case AssemblerMissing(name) => a.isMissing && name == a.name
      case NoFuel => a.isBurner && n.burnerItem.None?
      case InvalidFuel => a.isBurner && n.burnerItem.Some? && n.burnerItem.value !in a.validFuels
      case FuelMissing =>
        a.isBurner && n.burnerItem.Some? && n.burnerItem.value in a.validFuels && n.burnerItem.value.isMissing
      case BurnResultMismatch => a.isBurner && BurnResultMismatched(n)
      case AssemblerModuleMissing => AnyMissing(n.assemblerModules)
      case TooManyAssemblerModules(c, s) => c == |n.assemblerModules| && s == a.moduleSlots && c > s
      case _ => false
  }

  /** The criterion behind each message of the selected beacon's checks; none applies without a beacon. */
  predicate BeaconViolated(n: RecipeNode, e: NodeError)
  {
    match n.beacon
    case None => false
    case Some(b) =>
      match e
      case BeaconMissing(name) => b.isMissing && name == b.name
      case BeaconModuleMissing => AnyMissing(n.beaconModules)
      case TooManyBeaconModules => |n.beaconModules| > b.moduleSlots
      case _ => false
  }

  /**
    The criterion behind every message: a missing recipe is the only thing
    reported for a missing recipe; otherwise each assembler and beacon
    criterion stands on its own.
   */
  predicate Violated(n: RecipeNode, e: NodeError)
  {
    if n.recipe.isMissing then e == RecipeMissing(n.recipe.name)
    else AssemblerViolated(n, e) || BeaconViolated(n, e)
  }

  /** The fuel checks: unset, else not accepted by the assembler, else missing from the preset; at most one fires. */
  function FuelErrors(n: RecipeNode, a: Assembler): (r: seq<NodeError>)
    ensures |r| <= 1
    ensures forall e :: e in r ==> e.NoFuel? || e.InvalidFuel? || e.FuelMissing?
    ensures NoFuel in r <==> n.burnerItem.None?
    ensures InvalidFuel in r <==> n.burnerItem.Some? && n.burnerItem.value !in a.validFuels
    ensures FuelMissing in r <==> n.burnerItem.Some? && n.burnerItem.value in a.validFuels && n.burnerItem.value.isMissing
  {
    if n.burnerItem.None? then [NoFuel]
    else if n.burnerItem.value !in a.validFuels then [InvalidFuel]
    else if n.burnerItem.value.isMissing then [FuelMissing]
    else []
  }

  /** The check that the selected assembler exists in the preset. */
  function MissingAssemblerErrors(a: Assembler): (r: seq<NodeError>)
    ensures forall e :: e in r ==> e.AssemblerMissing?
    ensures AssemblerMissing(a.name) in r <==> a.isMissing
    ensures forall name :: AssemblerMissing(name) in r <==> a.isMissing && name == a.name
  {
    if a.isMissing then [AssemblerMissing(a.name)] else []
  }

  /** The fuel and burn-result checks of a fuel-burning assembler: fuel messages only, at most one of them. */
  function BurnerErrors(n: RecipeNode, a: Assembler): (r: seq<NodeError>)
    ensures forall e :: e in r ==> e.NoFuel? || e.InvalidFuel? || e.FuelMissing? || e.BurnResultMismatch?
    ensures !(NoFuel in r && InvalidFuel in r) && !(NoFuel in r && FuelMissing in r) && !(InvalidFuel in r && FuelMissing in r)
    ensures BurnResultMismatch in r ==> BurnResultMismatched(n)
    ensures !a.isBurner ==> r == []
    ensures NoFuel in r <==> a.isBurner && n.burnerItem.None?
    ensures InvalidFuel in r <==> a.isBurner && n.burnerItem.Some? && n.burnerItem.value !in a.validFuels
    ensures FuelMissing in r <==>
              a.isBurner && n.burnerItem.Some? && n.burnerItem.value in a.validFuels && n.burnerItem.value.isMissing
    ensures BurnResultMismatch in r <==> a.isBurner && BurnResultMismatched(n)
  {
    if a.isBurner then FuelErrors(n, a) + (if BurnResultMismatched(n) then [BurnResultMismatch] else []) else []
  }

  /** The module checks of an assembler: a missing module, and a count above the slots. */
  function ModuleErrors(mods: seq<Module>, slots: int): (r: seq<NodeError>)
    ensures forall e :: e in r ==> e.AssemblerModuleMissing? || e.TooManyAssemblerModules?
    ensures forall c, s :: TooManyAssemblerModules(c, s) in r <==> c == |mods| && s == slots && c > s
    ensures AssemblerModuleMissing in r <==> AnyMissing(mods)
  {
    (if AnyMissing(mods) then [AssemblerModuleMissing] else [])
    + (if |mods| > slots then [TooManyAssemblerModules(|mods|, slots)] else [])
  }

  /** The checks on the selected assembler, its fuel and its modules. */
  function AssemblerErrors(n: RecipeNode): (r: seq<NodeError>)
    ensures NoAssembler in r <==> n.assembler.None?
    ensures forall c, s :: TooManyAssemblerModules(c, s) in r <==>
              n.assembler.Some? && c == |n.assemblerModules| && s == n.assembler.value.moduleSlots && c > s
    ensures forall e :: e in r <==> AssemblerViolated(n, e)
  {
    match n.assembler
    case None => [NoAssembler]
    case Some(a) =>
      AssemblerPartsExact(n, a);
      MissingAssemblerErrors(a) + BurnerErrors(n, a) + ModuleErrors(n.assemblerModules, a.moduleSlots)
  }

  /** The three parts of a selected assembler's checks together report exactly its violated criteria. */
  lemma AssemblerPartsExact(n: RecipeNode, a: Assembler)
    requires n.assembler == Some(a)
    ensures forall e :: e in MissingAssemblerErrors(a) + BurnerErrors(n, a) + ModuleErrors(n.assemblerModules, a.moduleSlots)
                        <==> AssemblerViolated(n, e)
  {
    var m, b, d := MissingAssemblerErrors(a), BurnerErrors(n, a), ModuleErrors(n.assemblerModules, a.moduleSlots);
    forall e
      ensures e in m + b + d <==> AssemblerViolated(n, e)
    {
      assert e in m + b + d <==> e in m || e in b || e in d;
    }
  }

  /** Every message of a selected assembler's checks comes from one of its three parts. */
  lemma AssemblerErrorsParts(n: RecipeNode, e: NodeError)
    requires n.assembler.Some? && e in AssemblerErrors(n)
    ensures var a := n.assembler.value;
            e in MissingAssemblerErrors(a) || e in BurnerErrors(n, a) || e in ModuleErrors(n.assemblerModules, a.moduleSlots)
  {
  }

  /**
    The assembler checks report no beacon message, at most one of the three
    fuel messages, and a burn-result mismatch only when there is one.
   */
  lemma AssemblerErrorsFacts(n: RecipeNode)
    ensures var r := AssemblerErrors(n);
            && (forall name :: BeaconMissing(name) !in r)
            && !(NoFuel in r && InvalidFuel in r) && !(NoFuel in r && FuelMissing in r) && !(InvalidFuel in r && FuelMissing in r)
            && (BurnResultMismatch in r ==> BurnResultMismatched(n))
  {
    var r := AssemblerErrors(n);
    if n.assembler.Some? {
      forall name | BeaconMissing(name) in r
        ensures false
      {
        AssemblerErrorsParts(n, BeaconMissing(name));
      }
      if NoFuel in r { AssemblerErrorsParts(n, NoFuel); }
      if InvalidFuel in r { AssemblerErrorsParts(n, InvalidFuel); }
      if FuelMissing in r { AssemblerErrorsParts(n, FuelMissing); }
      if BurnResultMismatch in r { AssemblerErrorsParts(n, BurnResultMismatch); }
    }
  }

  /** The checks on the selected beacon and its modules. */
  function BeaconErrors(n: RecipeNode): (r: seq<NodeError>)
    ensures forall e :: e in r ==> e.BeaconMissing? || e.BeaconModuleMissing? || e.TooManyBeaconModules?
    ensures n.beacon.Some? ==> (BeaconMissing(n.beacon.value.name) in r <==> n.beacon.value.isMissing)
    ensures n.beacon.None? ==> r == []
    ensures BeaconModuleMissing in r <==> n.beacon.Some? && AnyMissing(n.beaconModules)
    ensures TooManyBeaconModules in r <==> n.beacon.Some? && |n.beaconModules| > n.beacon.value.moduleSlots
    ensures forall e :: e in r <==> BeaconViolated(n, e)
  {
    match n.beacon
    case None => []
    case Some(b) =>
      (if b.isMissing then [BeaconMissing(b.name)] else [])
      + (if AnyMissing(n.beaconModules) then [BeaconModuleMissing] else [])
      + (if |n.beaconModules| > b.moduleSlots then [TooManyBeaconModules] else [])
  }

  /**
    Every message `GetErrors` collects, in order. A missing recipe returns its
    message alone; otherwise every violated criterion contributes one message
    and none stops the walk.
   */
  function ErrorList(n: RecipeNode): (r: seq<NodeError>)
    ensures n.recipe.isMissing ==> r == [RecipeMissing(n.recipe.name)]
    ensures !n.recipe.isMissing ==> (NoAssembler in r <==> n.assembler.None?)
    ensures !n.recipe.isMissing && n.assembler.Some? ==>
              (forall s :: TooManyAssemblerModules(|n.assemblerModules|, s) in r <==>
                 s == n.assembler.value.moduleSlots && |n.assemblerModules| > s)
    ensures forall e :: e in r <==> Violated(n, e)
  {
    if n.recipe.isMissing then [RecipeMissing(n.recipe.name)]
    else
      PartsReportViolations(n);
      AssemblerErrors(n) + BeaconErrors(n)
  }

  /** With the recipe present, the assembler and beacon checks together report exactly the violated criteria. */
  lemma PartsReportViolations(n: RecipeNode)
    requires !n.recipe.isMissing
    ensures forall e :: e in AssemblerErrors(n) + BeaconErrors(n) <==> Violated(n, e)
  {
    var a, b := AssemblerErrors(n), BeaconErrors(n);
    forall e
      ensures e in a + b <==> Violated(n, e)
    {
      assert e in a + b <==> e in a || e in b;
    }
  }

  /** `GetErrors`: null (here `None`) when no criterion is violated, otherwise the collected messages. */
  function GetErrors(n: RecipeNode): (r: Option<seq<NodeError>>)
    ensures r.Some? ==> |r.value| > 0 && r.value == ErrorList(n)
    ensures r.None? ==> ErrorList(n) == []
  {
    var errors := ErrorList(n);
    if |errors| == 0 then None else Some(errors)
  }

  /**
    Further facts about the collected messages: a missing beacon is reported
    exactly when it is missing, the three fuel messages exclude each other,
    and without an import override the burn-result mismatch never fires.
   */
  lemma ErrorListFacts(n: RecipeNode)
    requires !n.recipe.isMissing
    ensures var r := ErrorList(n);
            && (n.beacon.Some? ==> (BeaconMissing(n.beacon.value.name) in r <==> n.beacon.value.isMissing))
            && !(NoFuel in r && InvalidFuel in r)
            && !(NoFuel in r && FuelMissing in r)
            && !(InvalidFuel in r && FuelMissing in r)
            && (n.burntOverride.None? ==> BurnResultMismatch !in r)
  {
    var a, b := AssemblerErrors(n), BeaconErrors(n);
    AssemblerErrorsFacts(n);
    assert ErrorList(n) == a + b;
  }

  /** A node is valid exactly when none of the criteria behind the messages is violated. */
  lemma ValidIffNoViolation(n: RecipeNode)
    ensures IsValid(n) <==> forall e :: !Violated(n, e)
  {
    var r := ErrorList(n);
    if !IsValid(n) {
      assert r[0] in r;
    }
  }

  /**
    An imported node starts without an assembler: until the importer fills
    it in, it reports "no assembler", is invalid and needs no assemblers.
   */
  lemma ImportedNodeStartsIncomplete(base: NodeBase, recipe: Recipe, defaults: Defaults, dp: nat)
    requires !recipe.isMissing
    ensures var n := NewRecipeNode(base, recipe, false, defaults);
            && NoAssembler in ErrorList(n)
            && !IsValid(n)
            && BaseNumberOfAssemblers(n, dp) == 0.0
  {
    var n := NewRecipeNode(base, recipe, false, defaults);
    assert Violated(n, NoAssembler);
  }

  /**
    An auto-populated node is valid when the selectors offer a present
    assembler with present modules that fit its slots and, for a burner, an
    accepted present fuel: the fuel's own burn result is the burnt item, so
    no mismatch arises, and a new node has no beacon.
   */
  lemma AutoPopulatedNodeValid(base: NodeBase, recipe: Recipe, defaults: Defaults)
    requires !recipe.isMissing && defaults.assembler.Some?
    requires var a := defaults.assembler.value;
             && !a.isMissing
             && !AnyMissing(defaults.modules) && |defaults.modules| <= a.moduleSlots
             && (a.isBurner ==> defaults.fuel.Some? && defaults.fuel.value in a.validFuels && !defaults.fuel.value.isMissing)
    ensures IsValid(NewRecipeNode(base, recipe, true, defaults))
  {
    var n := NewRecipeNode(base, recipe, true, defaults);
    forall e
      ensures !Violated(n, e)
    {
    }
    ValidIffNoViolation(n);
  }

  /** The module-slot boundary: a full assembler is valid on that count, one more module is an error. */
  lemma ModuleSlotBoundary(n: RecipeNode)
    requires !n.recipe.isMissing && n.assembler.Some?
    ensures |n.assemblerModules| == n.assembler.value.moduleSlots ==>
              TooManyAssemblerModules(|n.assemblerModules|, n.assembler.value.moduleSlots) !in ErrorList(n)
    ensures |n.assemblerModules| == n.assembler.value.moduleSlots + 1 ==>
              TooManyAssemblerModules(|n.assemblerModules|, n.assembler.value.moduleSlots) in ErrorList(n) && !IsValid(n)
  {
  }

  /** Errors accumulate: an over-full assembler and a missing beacon are both reported. */
  lemma ErrorsAccumulate(n: RecipeNode)
    requires !n.recipe.isMissing && n.assembler.Some? && n.beacon.Some?
    requires |n.assemblerModules| > n.assembler.value.moduleSlots
    requires n.beacon.value.isMissing
    ensures var errors := GetErrors(n);
            && errors.Some?
            && TooManyAssemblerModules(|n.assemblerModules|, n.assembler.value.moduleSlots) in errors.value
            && BeaconMissing(n.beacon.value.name) in errors.value
            && !IsValid(n)
  {
  }
}
