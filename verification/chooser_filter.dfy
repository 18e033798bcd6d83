/**
  Which items and recipes the chooser panel lists, and the background colour
  of each listed button. Catalog records are reduced to the flags these
  decisions read; the free-text filter and the key-item match are taken as
  already decided.
 */
module ChooserFilter {

  /** The four background colours of an item/recipe button. */
  datatype ButtonColor = DefaultColor | HiddenColor | NoAssemblerColor | UnavailableColor

  datatype Argb = Argb(a: int, r: int, g: int, b: int)

  /** The colour values the panel declares. */
  function ArgbOf(c: ButtonColor): (v: Argb)
    ensures v.a == 255
  {
    match c
    case DefaultColor => Argb(255, 70, 70, 70)
    case HiddenColor => Argb(255, 120, 0, 0)
    case NoAssemblerColor => Argb(255, 100, 100, 0)
    case UnavailableColor => Argb(255, 170, 10, 160)
  }

  /** The four colours are told apart by their values. */
  lemma ColorsDistinct(c: ButtonColor, d: ButtonColor)
    ensures ArgbOf(c) == ArgbOf(d) <==> c == d
  {
  }

  datatype AssemblerStatus = AssemblerStatus(enabled: bool, available: bool)

  datatype RecipeStatus = RecipeStatus(enabled: bool, available: bool, assemblers: seq<AssemblerStatus>)

  /** An item with the recipes that consume and produce it. */
  datatype ItemStatus = ItemStatus(
    available: bool,
    consumptionRecipes: seq<RecipeStatus>,
    productionRecipes: seq<RecipeStatus>)

  /** The panel's settings and check boxes. */
  datatype FilterFlags = FilterFlags(showUnavailable: bool, showHidden: bool, ignoreAssemblerStatus: bool)

  /** A recipe an item's visibility counts: enabled, and available unless unavailable ones are shown. */
  predicate UsableRecipe(r: RecipeStatus, showUnavailable: bool)
  {
    r.enabled && (showUnavailable || r.available)
  }

  predicate UsableAssembler(a: AssemblerStatus, showUnavailable: bool)
  {
    a.enabled && (showUnavailable || a.available)
  }

  predicate HasUsableAssembler(r: RecipeStatus, showUnavailable: bool)
  {
    exists i :: 0 <= i < |r.assemblers| && UsableAssembler(r.assemblers[i], showUnavailable)
  }

  predicate AnyUsable(rs: seq<RecipeStatus>, showUnavailable: bool)
  {
    exists i :: 0 <= i < |rs| && UsableRecipe(rs[i], showUnavailable)
  }

  predicate AnyUsableWithAssembler(rs: seq<RecipeStatus>, showUnavailable: bool)
  {
    exists i :: 0 <= i < |rs| && UsableRecipe(rs[i], showUnavailable) && HasUsableAssembler(rs[i], showUnavailable)
  }

  /** `visible`: the item is shown as available and some usable recipe consumes or produces it. */
  predicate ItemVisible(item: ItemStatus, showUnavailable: bool)
  {
    && (showUnavailable || item.available)
    && (AnyUsable(item.consumptionRecipes, showUnavailable) || AnyUsable(item.productionRecipes, showUnavailable))
  }

  /** `validAssembler`: some usable recipe of the item has a usable assembler. */
  predicate ItemValidAssembler(item: ItemStatus, showUnavailable: bool)
  {
    || AnyUsableWithAssembler(item.consumptionRecipes, showUnavailable)
    || AnyUsableWithAssembler(item.productionRecipes, showUnavailable)
  }

  /**
    Whether the item gets a button: it passes the availability and name
    filters and the request list, it is visible or hidden ones are shown, and
    it has a valid assembler or assembler status is ignored.
   */
  predicate ItemListed(item: ItemStatus, flags: FilterFlags, nameMatches: bool, requested: bool)
  {
    && (flags.showUnavailable || item.available) && nameMatches
    && requested
    && (ItemVisible(item, flags.showUnavailable) || flags.showHidden)
    && (ItemValidAssembler(item, flags.showUnavailable) || flags.ignoreAssemblerStatus)
  }

  /**
    An item button's colour: hidden unless the item is visible and
    available; otherwise default with a valid assembler and no-assembler
    without one. Items never take the unavailable colour.
   */
  function ItemColor(item: ItemStatus, showUnavailable: bool): (c: ButtonColor)
    ensures c == HiddenColor <==> !(ItemVisible(item, showUnavailable) && item.available)
    ensures c == DefaultColor <==> ItemVisible(item, showUnavailable) && item.available && ItemValidAssembler(item, showUnavailable)
    ensures c != UnavailableColor
  {
    if ItemVisible(item, showUnavailable) && item.available then
      if ItemValidAssembler(item, showUnavailable) then DefaultColor else NoAssemblerColor
    else HiddenColor
  }

  /** A recipe with a usable assembler is itself usable, so a valid assembler implies visibility for a shown item. */
  lemma ValidAssemblerMeansVisible(item: ItemStatus, showUnavailable: bool)
    requires showUnavailable || item.available
    ensures ItemValidAssembler(item, showUnavailable) ==> ItemVisible(item, showUnavailable)
  {
  }

  /**
    With assembler status respected, every listed item has a valid assembler
    and is therefore visible: it is default-coloured, or hidden-coloured when
    it is itself unavailable (possible only while unavailable items are
    shown), and never no-assembler-coloured.
   */
  lemma ListedItemColors(item: ItemStatus, flags: FilterFlags, nameMatches: bool, requested: bool)
    requires ItemListed(item, flags, nameMatches, requested)
    requires !flags.ignoreAssemblerStatus
    ensures ItemColor(item, flags.showUnavailable) != NoAssemblerColor
    ensures !flags.showUnavailable ==> ItemColor(item, flags.showUnavailable) == DefaultColor
  {
    ValidAssemblerMeansVisible(item, flags.showUnavailable);
  }

  predicate AnyEnabledAssembler(r: RecipeStatus)
  {
    exists i :: 0 <= i < |r.assemblers| && r.assemblers[i].enabled
  }

  predicate AnyAvailableAssembler(r: RecipeStatus)
  {
    exists i :: 0 <= i < |r.assemblers| && r.assemblers[i].available
  }

  /**
    The status part of the recipe filter: enabled or disabled ones shown,
    some enabled assembler or assembler status ignored, available or
    unavailable ones shown. The key-item match and the name filter are
    applied around it.
   */
  predicate RecipePassesStatus(r: RecipeStatus, flags: FilterFlags)
  {
    && (r.enabled || flags.showHidden)
    && (AnyEnabledAssembler(r) || flags.ignoreAssemblerStatus)
    && (r.available || flags.showUnavailable)
  }

  /**
    A recipe button's colour, by strict priority: a disabled recipe is
    hidden; else an unavailable recipe, or one with no available assembler,
    is unavailable; else one with no enabled assembler is no-assembler; else
    default.
   */
  function RecipeColor(r: RecipeStatus): (c: ButtonColor)
    ensures c == HiddenColor <==> !r.enabled
    ensures c == UnavailableColor <==> r.enabled && (!r.available || !AnyAvailableAssembler(r))
    ensures c == NoAssemblerColor <==> r.enabled && r.available && AnyAvailableAssembler(r) && !AnyEnabledAssembler(r)
    ensures c == DefaultColor <==> r.enabled && r.available && AnyAvailableAssembler(r) && AnyEnabledAssembler(r)
  {
    if !r.enabled then HiddenColor
    else if !r.available || !AnyAvailableAssembler(r) then UnavailableColor
    else if !AnyEnabledAssembler(r) then NoAssemblerColor
    else DefaultColor
  }

  /**
    With the default check boxes (disabled recipes not shown, assembler
    status respected), a listed recipe is never hidden-coloured nor
    no-assembler-coloured; if unavailable ones are not shown either, it is
    unavailable-coloured only for want of an available assembler.
   */
  lemma ListedRecipeColors(r: RecipeStatus, flags: FilterFlags)
    requires RecipePassesStatus(r, flags)
    requires !flags.showHidden && !flags.ignoreAssemblerStatus
    ensures RecipeColor(r) != HiddenColor && RecipeColor(r) != NoAssemblerColor
    ensures !flags.showUnavailable ==> (RecipeColor(r) == UnavailableColor <==> !AnyAvailableAssembler(r))
  {
  }
}
