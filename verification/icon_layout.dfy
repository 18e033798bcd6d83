/**
  The layout decisions of icon composition: the scale an `IconInfo` starts
  with, which layers `GetIcon` draws, when it gives up and returns no icon,
  the main icon size it assumes, and which layers it tints.
 */
module IconLayout {
  import opened Wrappers
  import opened IconTint
  import opened Arith

  /** Side of the square canvas every icon is composed on. */
  const IconCanvasSize := 64

  /** The icon size assumed when none is given. */
  const DefaultIconSize := 32

  /** An icon layer: image path (null as `None`), size, scale, offset and tint. */
  datatype IconInfo = IconInfo(
    iconPath: Option<string>,
    iconSize: int,
    iconScale: real,
    offsetX: int,
    offsetY: int,
    iconTint: Color)

  /**
    The starting scale: the integer quotient `32 / iconSize` for a positive
    size, so 0 for any size above 32, and 1 for a size that is not positive.
   */
  function IconScale(iconSize: int): (s: int)
    ensures iconSize > 0 ==> s * iconSize <= DefaultIconSize < (s + 1) * iconSize
    ensures iconSize > DefaultIconSize ==> s == 0
    ensures 0 < iconSize <= DefaultIconSize ==> s >= 1
    ensures iconSize <= 0 ==> s == 1
  {
    if iconSize > 0 then
      QuotientBounds(DefaultIconSize, iconSize);
      if iconSize > DefaultIconSize then DivOfRange(DefaultIconSize, iconSize, 0); DefaultIconSize / iconSize
      else DefaultIconSize / iconSize
    else 1
  }

  /** The `IconInfo` constructor: no offset, no tint, the starting scale. */
  function NewIconInfo(iconPath: Option<string>, iconSize: int): (r: IconInfo)
    ensures r.iconPath == iconPath && r.iconSize == iconSize
    ensures r.iconScale == IconScale(iconSize) as real
    ensures r.offsetX == 0 && r.offsetY == 0 && r.iconTint == NoTint
  {
    IconInfo(iconPath, iconSize, IconScale(iconSize) as real, 0, 0, NoTint)
  }

  /** A null or empty path. */
  predicate PathEmpty(p: Option<string>)
  {
    p.None? || p.value == ""
  }

  /** The layers drawn: the given list, or the main icon alone when the list is null or empty. */
  function Layers(main: IconInfo, layers: seq<IconInfo>): (r: seq<IconInfo>)
    ensures |r| >= 1
    ensures |layers| > 0 ==> r == layers
  {
    if |layers| == 0 then [main] else layers
  }

  /** The `empty` scan: true until a layer with a non-empty path is met. */
  function AllPathsEmpty(layers: seq<IconInfo>): (empty: bool)
    ensures empty <==> forall i :: 0 <= i < |layers| ==> PathEmpty(layers[i].iconPath)
  {
    if |layers| == 0 then true
    else AllPathsEmpty(layers[..|layers| - 1]) && PathEmpty(layers[|layers| - 1].iconPath)
  }

  /** The main icon size: its own when positive, otherwise the default. */
  function MainIconSize(main: IconInfo): (size: int)
    ensures size > 0
    ensures main.iconSize > 0 ==> size == main.iconSize
  {
    if main.iconSize > 0 then main.iconSize else DefaultIconSize
  }

  /** How one layer is drawn: its path, its size (the main icon's when its own is not positive) and whether it is tinted. */
  datatype LayerPlan = LayerPlan(path: Option<string>, size: int, tinted: bool, tint: Color)

  /** What `GetIcon` composes: a canvas for the main icon size and the layers in order. */
  datatype IconPlan = IconPlan(mainSize: int, layers: seq<LayerPlan>)

  function PlanLayer(main: IconInfo, layer: IconInfo): (p: LayerPlan)
    ensures p.path == layer.iconPath && p.tint == layer.iconTint
    ensures layer.iconSize > 0 ==> p.size == layer.iconSize
    ensures layer.iconSize <= 0 ==> p.size == main.iconSize
    ensures p.tinted <==> layer.iconTint != NoTint
  {
    LayerPlan(layer.iconPath, if layer.iconSize > 0 then layer.iconSize else main.iconSize, layer.iconTint != NoTint, layer.iconTint)
  }

  function PlanLayers(main: IconInfo, layers: seq<IconInfo>): (r: seq<LayerPlan>)
    ensures |r| == |layers|
    ensures forall i :: 0 <= i < |layers| ==> r[i] == PlanLayer(main, layers[i])
  {
    if |layers| == 0 then [] else PlanLayers(main, layers[..|layers| - 1]) + [PlanLayer(main, layers[|layers| - 1])]
  }

  /**
    `GetIcon`, without the image loading and drawing: no icon when every
    layer path is null or empty, otherwise one planned layer per layer drawn.
   */
  function GetIcon(main: IconInfo, layers: seq<IconInfo>): (r: Option<IconPlan>)
    ensures r.None? <==> forall i :: 0 <= i < |Layers(main, layers)| ==> PathEmpty(Layers(main, layers)[i].iconPath)
    ensures r.Some? ==> r.value.mainSize == MainIconSize(main)
    ensures r.Some? ==> |r.value.layers| == |Layers(main, layers)|
    ensures r.Some? ==> forall i :: 0 <= i < |r.value.layers| ==> r.value.layers[i] == PlanLayer(main, Layers(main, layers)[i])
  {
    var drawn := Layers(main, layers);
    if AllPathsEmpty(drawn) then None
    else Some(IconPlan(MainIconSize(main), PlanLayers(main, drawn)))
  }

  /**
    With no layers the main icon is the only layer: an icon exactly when its
    path is set, drawn at its own size and tinted only when its tint says so.
    A freshly constructed `IconInfo` is never tinted.
   */
  lemma SingleIcon(main: IconInfo)
    ensures GetIcon(main, []).None? <==> PathEmpty(main.iconPath)
    ensures GetIcon(main, []).Some? ==> GetIcon(main, []).value.layers == [PlanLayer(main, main)]
    ensures GetIcon(main, []).Some? && main.iconSize > 0 ==> GetIcon(main, []).value.layers[0].size == main.iconSize
    ensures var plain := NewIconInfo(main.iconPath, main.iconSize);
            GetIcon(plain, []).Some? ==> !GetIcon(plain, []).value.layers[0].tinted
  {
  }

  /** One layer with a path is enough for an icon; its plan keeps that path. */
  lemma AnyPathGivesIcon(main: IconInfo, layers: seq<IconInfo>, i: nat)
    requires i < |layers| && !PathEmpty(layers[i].iconPath)
    ensures GetIcon(main, layers).Some?
    ensures GetIcon(main, layers).value.layers[i].path == layers[i].iconPath
  {
  }
}
