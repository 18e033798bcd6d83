# Foreman2 recipe nodes, chooser panel and icon tinting in Dafny

Foreman2 is a planner for Factorio production chains. This project models three parts of it:

- **The recipe node.** This is the graph node that runs one recipe in a selected assembler, optionally boosted by modules and beacons and powered by a burner fuel.
- **The pure decision logic of the item/recipe chooser panel.** It decides which items and recipes are listed and in which colour, how the filtered lists are packed into rows of buttons, how the scrollbar and mouse wheel move the visible window, and which group is selected.
- **The layout and per-pixel tint of icon composition.**

Everything is immutable data and pure functions, except for three algorithms written as `while` loops, as in the source: the tint loop over byte lines, and the two versions of the working-group scan (`FallbackGroup` as written and `NearestFallbackGroup` as corrected). Even these methods take and return values and modify nothing.

Modules, following the program's structure:

- `Catalog` (catalog.dfy): items, recipes, assemblers, modules and beacons, reduced to the fields the node reads.
- `RecipeNodes` (recipe_node.dfy): the node state, its constructor, `BurntItem`, `Inputs` and `Outputs`.
- `NodeRates` (node_rates.dfy): the speed, productivity, consumption and pollution multipliers, the burner rate, per-item rates, consume/supply rates and the assembler count.
- `Rounding` (rounding.dfy): `Math.Round(x, digits)` with ties to even, on exact reals.
- `NodeValidity` (node_validity.dfy): `IsValid` and `GetErrors`.
- `NodeFuel` (node_fuel.dfy): the `BurnerItem` setter and the links it deletes.
- `NodePersist` (node_persist.dfy): the fields `GetObjectData` writes.
- `ChooserFilter` (chooser_filter.dfy): item/recipe listing and button colours.
- `ChooserRows` (chooser_rows.dfy): row packing, the visible window, the scrollbar and the mouse wheel.
- `ChooserGroups` (chooser_groups.dfy): `SetSelectedGroup` and the working-group fallback.
- `IconLayout` (icon_layout.dfy): `IconInfo` and the decisions of `GetIcon`.
- `IconTint` (icon_tint.dfy): the tint arithmetic and the pixel loop.
- `Wrappers`, `Sequences` and `Arith`: the option type, distinctness of sequences, and small non-linear arithmetic facts.

## Model

| member | source | states |
|---|---|---|
| RecipeNodes.NewRecipeNode | Foreman/Models/Nodes/RecipeNode.cs:69-93 | A new node has no beacon, no beacon modules, no override and no links. An auto-populated node takes the selectors' assembler and modules, and it has a fuel exactly when that assembler burns fuel and a fuel is offered. An imported node starts with no assembler, no modules and no fuel. |
| RecipeNodes.BurntItem | Foreman/Models/Nodes/RecipeNode.cs:41 | The import override wins. Otherwise it is the fuel's burn result, and with no fuel it is none. |
| RecipeNodes.Inputs | Foreman/Models/Nodes/RecipeNode.cs:166-175 | The ingredient list is a prefix of the inputs. The fuel is appended as the one extra entry exactly when it is set and not already an ingredient. |
| RecipeNodes.Outputs | Foreman/Models/Nodes/RecipeNode.cs:176-185 | The product list is a prefix of the outputs. The burnt item is appended as the one extra entry exactly when it exists and is not already a product. |
| RecipeNodes.InputsListEachItemOnce | Foreman/Models/Nodes/RecipeNode.cs:170-173 | For a well-formed recipe the inputs have no duplicates and are exactly the ingredient set plus the fuel. The fuel occurs once, even when it is also an ingredient. |
| RecipeNodes.OutputsListEachItemOnce | Foreman/Models/Nodes/RecipeNode.cs:180-183 | For a well-formed recipe the outputs have no duplicates and are exactly the product set plus the burnt item, which occurs once. |
| NodeRates.StackedMultiplier | Foreman/Models/Nodes/RecipeNode.cs:223-231 | The multiplier is the start value, plus the sum of the assembler modules' bonuses, plus effectivity × beacon count × the sum of the beacon modules' bonuses. Scaling each beacon module as it is added equals scaling their total once. |
| NodeRates.BeaconSumFactors | Foreman/Models/Nodes/RecipeNode.cs:228-229 | Adding each beacon bonus times effectivity times count equals effectivity × count × the plain bonus sum. This is proved by induction over the module list. |
| NodeRates.SpeedMultiplier | Foreman/Models/Nodes/RecipeNode.cs:223-231 | 1 plus the stacked speed bonuses. |
| NodeRates.ProductivityMultiplier | Foreman/Models/Nodes/RecipeNode.cs:233-241 | 1 plus the assembler's base productivity (0 with no assembler) plus the stacked productivity bonuses. |
| NodeRates.ConsumptionMultiplier | Foreman/Models/Nodes/RecipeNode.cs:243-251 | Never below 0.2. It equals the stacked sum when that sum exceeds 0.2, and is exactly 0.2 otherwise. |
| NodeRates.PollutionMultiplier | Foreman/Models/Nodes/RecipeNode.cs:253-261 | 1 plus the stacked pollution bonuses. |
| NodeRates.AddAssemblerModule | Foreman/Models/Nodes/RecipeNode.cs:226-227 | Appending an assembler module raises the unfloored multiplier by exactly that module's bonus. |
| NodeRates.AddBeaconModule | Foreman/Models/Nodes/RecipeNode.cs:228-229 | Appending a beacon module raises the unfloored multiplier by its bonus × effectivity × beacon count. |
| NodeRates.InputRateFor | Foreman/Models/Nodes/RecipeNode.cs:190-204 | A non-fuel item gets its ingredient rate unrounded. The fuel gets its ingredient rate (0 if it is not one) plus the burner rate, within half a unit of the last kept decimal. |
| NodeRates.OutputRateFor | Foreman/Models/Nodes/RecipeNode.cs:205-221 | A non-burnt item gets its product rate. The burnt item gets its product rate (0 if none) plus the burner rate computed from the fuel's value, rounded. |
| NodeRates.ConsumeRate | Foreman/Models/Nodes/RecipeNode.cs:187 | Within half a unit of the input rate times the node's actual rate. |
| NodeRates.SupplyRate | Foreman/Models/Nodes/RecipeNode.cs:188 | Within half a unit of the output rate times the node's actual rate. |
| NodeRates.BaseNumberOfAssemblers | Foreman/Models/Nodes/RecipeNode.cs:263-268 | 0 with no assembler, whatever the beacon state. Otherwise it is within half a unit of actual rate × recipe time ÷ (assembler speed × speed multiplier). |
| NodeRates.BurnerRate | Foreman/Models/Nodes/RecipeNode.cs:201 | Fuel burnt per craft: craft time × (energy draw × consumption multiplier ÷ effectivity) ÷ fuel value. It is positive when time, divisor, draw, effectivity and fuel value are. |
| NodeRates.SpeedModuleLowersCount | Foreman/Models/Nodes/RecipeNode.cs:263-268 | Adding a speed module with a positive bonus keeps the divisor non-zero and lowers the unrounded assembler count for the same actual rate. |
| NodeRates.EveryInputHasRate | Foreman/Models/Nodes/RecipeNode.cs:190-199 | Every listed input has a defined input rate, with no missing-key lookup, once the fuel rate is computable. |
| NodeRates.EveryOutputHasRate | Foreman/Models/Nodes/RecipeNode.cs:205-214 | Every listed output has a defined output rate, once the fuel rate is computable. |
| NodeRates.FuelInputRate | Foreman/Models/Nodes/RecipeNode.cs:199-202 | The fuel's rate is its ingredient rate plus the burner rate when it is an ingredient, and the burner rate alone otherwise. It is never counted twice. |
| NodeRates.BurntLeavesAtFuelRate | Foreman/Models/Nodes/RecipeNode.cs:214-219 | When neither fuel nor burnt item is part of the recipe, the burnt item leaves at exactly the rate the fuel enters. |
| NodeRates.BurnerRateExample | Foreman/Models/Nodes/RecipeNode.cs:201 | With a 2 s recipe, speed 1, 60 kW, effectivity 1, fuel value 8000 and no modules, 0.015 fuel is burnt per craft. |
| Rounding.RoundHalfEven | Foreman/Models/Nodes/RecipeNode.cs:202 | The result is an integer within 0.5 of the input, and an exact tie goes to the even integer. |
| Rounding.Round | Foreman/Models/Nodes/RecipeNode.cs:187 | The result is within half a unit of the last kept decimal of x: r − x lies between −0.5 · 10^-dp and 0.5 · 10^-dp. |
| NodeValidity.IsValid | Foreman/Models/Nodes/RecipeNode.cs:95-116 | The early-return checks agree with the error report: valid exactly when `GetErrors` reports nothing. |
| NodeValidity.FuelErrors | Foreman/Models/Nodes/RecipeNode.cs:133-138 | At most one fuel message. "No fuel" exactly when no fuel is set. "Invalid fuel" exactly when a fuel is set that the assembler does not accept. "Fuel missing" exactly when an accepted fuel is missing from the preset. |
| NodeValidity.MissingAssemblerErrors | Foreman/Models/Nodes/RecipeNode.cs:128-129 | Only the missing-assembler message, reported exactly when the selected assembler is missing from the preset. |
| NodeValidity.BurnerErrors | Foreman/Models/Nodes/RecipeNode.cs:131-142 | Nothing for an assembler that does not burn fuel. For a burner, each fuel message appears exactly under its condition, as in `FuelErrors`, and the burn-result mismatch appears exactly when the burnt item is set and the fuel is unset or burns into something else. |
| NodeValidity.ModuleErrors | Foreman/Models/Nodes/RecipeNode.cs:144-148 | Only assembler-module messages. "Some module missing" appears exactly when some module is missing from the preset. "Too many modules (count/slots)" appears exactly when the module count exceeds the slots, with those two numbers. |
| NodeValidity.AssemblerErrors | Foreman/Models/Nodes/RecipeNode.cs:124-149 | A message is reported exactly when its criterion in `AssemblerViolated` holds. With no assembler only "no assembler" applies. With one, each of the missing-assembler, three fuel, burn-result, missing-module and too-many-modules messages has its own condition. |
| NodeValidity.AssemblerErrorsFacts | Foreman/Models/Nodes/RecipeNode.cs:124-149 | The assembler checks never report a beacon message. Their fuel messages exclude each other, and a burn-result mismatch is reported only when it holds. |
| NodeValidity.BeaconErrors | Foreman/Models/Nodes/RecipeNode.cs:151-161 | Nothing without a beacon. With one, "beacon missing", "some beacon module missing" and "too many beacon modules" each appear exactly when their condition holds. A message is reported exactly when its criterion in `BeaconViolated` holds. |
| NodeValidity.ErrorList | Foreman/Models/Nodes/RecipeNode.cs:117-161 | Every message is reported exactly when its criterion in `Violated` holds. A missing recipe is reported alone. Otherwise each of the eleven assembler and beacon criteria contributes its message independently of the others. |
| NodeValidity.AssemblerPartsExact | Foreman/Models/Nodes/RecipeNode.cs:126-148 | The missing-assembler, burner and module checks together report exactly the assembler criteria that are violated. |
| NodeValidity.PartsReportViolations | Foreman/Models/Nodes/RecipeNode.cs:122-161 | With the recipe present, the assembler and beacon checks together report exactly the violated criteria. |
| NodeValidity.GetErrors | Foreman/Models/Nodes/RecipeNode.cs:163 | Null when no message was collected, otherwise the non-empty collected list. |
| NodeValidity.ErrorListFacts | Foreman/Models/Nodes/RecipeNode.cs:131-161 | A missing beacon is reported exactly when it is missing. The three fuel messages are mutually exclusive. Without an import override the burn-result mismatch never fires. |
| NodeValidity.ValidIffNoViolation | Foreman/Models/Nodes/RecipeNode.cs:95-116 | The early-return `IsValid` holds exactly when none of the criteria behind `GetErrors`' messages is violated. |
| NodeValidity.ImportedNodeStartsIncomplete | Foreman/Models/Nodes/RecipeNode.cs:69-93 | A node built for import (no auto-populate) with a present recipe reports "no assembler", is invalid, and needs 0 assemblers until the importer fills it in. |
| NodeValidity.AutoPopulatedNodeValid | Foreman/Models/Nodes/RecipeNode.cs:69-116 | An auto-populated node is valid when the selectors offer a present assembler with present modules that fit, plus an accepted present fuel for a burner. The fuel's own burn result then becomes the burnt item, so no mismatch arises. |
| NodeValidity.ModuleSlotBoundary | Foreman/Models/Nodes/RecipeNode.cs:147-148 | Exactly full slots are fine. One module more is reported and makes the node invalid. |
| NodeValidity.ErrorsAccumulate | Foreman/Models/Nodes/RecipeNode.cs:117-163 | Checks do not stop at the first failure: an over-full assembler and a missing beacon are both reported. |
| NodeFuel.WithoutItem | Foreman/Models/Nodes/RecipeNode.cs:54-58 | Exactly the links not carrying the item survive, each as often as before, and the links carrying it are all gone. With no link on the item, the list is unchanged. |
| NodeFuel.SetBurnerItem | Foreman/Models/Nodes/RecipeNode.cs:48-64 | Setting the current fuel is a no-op. Otherwise it stores the new fuel and clears the override. It deletes exactly the input links on the old fuel when that fuel is not an ingredient, and exactly the output links on the old burnt item when it is not a product. Nothing else changes. |
| NodeFuel.NewFuelSetsBurntItem | Foreman/Models/Nodes/RecipeNode.cs:60-62 | After a fuel change the burnt item is the new fuel's burn result. |
| NodeFuel.SetBurnerItemKeepsLinksConsistent | Foreman/Models/Nodes/RecipeNode.cs:52-58 | If every link carries an item the node lists on its side, that still holds after the setter. |
| NodePersist.ModuleNames | Foreman/Models/Nodes/RecipeNode.cs:284 | The module names, one per module, in order. |
| NodePersist.RateFields | Foreman/Models/Nodes/RecipeNode.cs:272-279 | The node block: distinct keys, with the desired rate only for a manual rate. It records the recipe id and the actual rate. |
| NodePersist.AssemblerFields | Foreman/Models/Nodes/RecipeNode.cs:281-289 | Assembler, modules, fuel and burnt item are written only with an assembler, and fuel and burnt item only when set. The keys are distinct and the fuel and burnt names are recorded. |
| NodePersist.BeaconFields | Foreman/Models/Nodes/RecipeNode.cs:290-295 | Beacon, count and modules are written exactly when a beacon is selected. |
| NodePersist.ObjectData | Foreman/Models/Nodes/RecipeNode.cs:270-296 | The fields written, in order: the node block, then the assembler block, then the beacon block. |
| NodePersist.ObjectDataExact | Foreman/Models/Nodes/RecipeNode.cs:270-296 | The saved fields are exactly one per written key, each carrying the value `ValueOf` gives that key. This covers the node id, location, rate type, desired rate, the assembler name and module names (via `ModuleNames`), and the beacon name, count and module names. |
| NodePersist.ObjectDataKeys | Foreman/Models/Nodes/RecipeNode.cs:270-296 | No key is written twice, and a key is written exactly when its condition holds. |
| NodePersist.ObjectDataValues | Foreman/Models/Nodes/RecipeNode.cs:275-288 | The saved data carries the recipe id, the actual rate, and the fuel and burnt names when present. |
| ChooserFilter.ArgbOf | Foreman/Controls/IRChooserPanel.cs:27-30 | Every button colour is fully opaque. |
| ChooserFilter.ColorsDistinct | Foreman/Controls/IRChooserPanel.cs:27-30 | The four colour values are pairwise different, so a colour identifies its meaning. |
| ChooserFilter.ItemColor | Foreman/Controls/IRChooserPanel.cs:505 | Hidden exactly when the item is not both visible and available. Default exactly when it is also backed by a valid assembler. Never the unavailable colour. |
| ChooserFilter.ItemListed | Foreman/Controls/IRChooserPanel.cs:491-507 | The item filter: available or unavailable items shown, name matched, requested, visible or hidden items shown, and a valid assembler or assembler status ignored. |
| ChooserFilter.ValidAssemblerMeansVisible | Foreman/Controls/IRChooserPanel.cs:496-502 | For a shown item, having a valid assembler implies being visible. |
| ChooserFilter.ListedItemColors | Foreman/Controls/IRChooserPanel.cs:491-510 | With assembler status respected, a listed item is never no-assembler coloured, and it is default coloured when unavailable items are not shown. |
| ChooserFilter.RecipeColor | Foreman/Controls/IRChooserPanel.cs:723-725 | Priority order: hidden exactly when disabled; unavailable exactly when enabled but unavailable or without an available assembler; no-assembler exactly when otherwise no assembler is enabled; default in the remaining case. |
| ChooserFilter.RecipePassesStatus | Foreman/Controls/IRChooserPanel.cs:714 | The recipe status filter: enabled or hidden shown, some enabled assembler or assembler status ignored, and available or unavailable shown. |
| ChooserFilter.ListedRecipeColors | Foreman/Controls/IRChooserPanel.cs:714-725 | Under the default check boxes, a recipe passing the status filter is neither hidden nor no-assembler coloured. If unavailable recipes are hidden too, it is unavailable coloured exactly when no assembler is available. |
| ChooserRows.RowOf | Foreman/Controls/IRChooserPanel.cs:191 | A row array has ten slots: the entries first, then empty slots. |
| ChooserRows.PackRows | Foreman/Controls/IRChooserPanel.cs:185-205 | Every packed row is a ten-slot array. |
| ChooserRows.SubgroupRows | Foreman/Controls/IRChooserPanel.cs:191-202 | One subgroup's rows: a new ten-slot row every `cols` entries. Every row has ten slots. |
| ChooserRows.SubgroupRowsReadBack | Foreman/Controls/IRChooserPanel.cs:193-203 | Reading a subgroup's rows back, slot by slot, gives the subgroup unchanged. |
| ChooserRows.SubgroupRowCount | Foreman/Controls/IRChooserPanel.cs:195-200 | A non-empty subgroup of n entries takes exactly ⌈n / cols⌉ rows. |
| ChooserRows.PackRowsReadBack | Foreman/Controls/IRChooserPanel.cs:189-205 | Round trip: reading all packed rows back gives every subgroup's entries in order. Nothing is lost, duplicated or reordered. |
| ChooserRows.PackRowsDense | Foreman/Controls/IRChooserPanel.cs:191-202 | Every packed row holds between 1 and `cols` entries in its leading slots and nothing after them. |
| ChooserRows.PackRowsAppend | Foreman/Controls/IRChooserPanel.cs:189 | Packing is compositional over subgroup lists, and an empty subgroup contributes no row. |
| ChooserRows.SlotAt | Foreman/Controls/IRChooserPanel.cs:241-260 | A slot shows an entry only from an existing row in the window, and a slot below the last row is blank. |
| ChooserRows.DenseSlots | Foreman/Controls/IRChooserPanel.cs:197-202 | In a packed row, slot c holds the row's c-th entry for every c below the number of entries. |
| ChooserRows.RowInReadRows | Foreman/Controls/IRChooserPanel.cs:189-205 | Every entry of any one row appears in the read-back of all rows. |
| ChooserRows.VisibleWindow | Foreman/Controls/IRChooserPanel.cs:241-259 | In a visible row, exactly the first k slots show entries (1 ≤ k ≤ cols), namely the row's entries in order, and every shown entry comes from the subgroups. |
| ChooserRows.ScrollMaximum | Foreman/Controls/IRChooserPanel.cs:216 | The maximum is the last row index, or 0 with no rows. |
| ChooserRows.ScrollEnabled | Foreman/Controls/IRChooserPanel.cs:216-217 | The scrollbar is enabled when its maximum reaches its large change. |
| ChooserRows.ScrollEnabledIffOverflow | Foreman/Controls/IRChooserPanel.cs:216-217 | With a positive page size, the scrollbar is enabled exactly when there are more rows than the page shows. |
| ChooserRows.Wheel | Foreman/Controls/IRChooserPanel.cs:333-342 | Wheel down advances one row while the value is at most maximum − large change. Wheel up goes back one row while the value is positive. When neither guard holds the value is unchanged. |
| ChooserRows.WheelStaysInRange | Foreman/Controls/IRChooserPanel.cs:333-342 | The wheel keeps the value within 0 .. maximum − large change + 1. |
| ChooserRows.LastRowReachable | Foreman/Controls/IRChooserPanel.cs:333-335 | With an enabled scrollbar the wheel reaches, and stops at, the position whose bottom visible row is the last packed row. |
| ChooserGroups.SetSelectedGroup | Foreman/Controls/IRChooserPanel.cs:273-294 | The selection is always a listed group, and a listed request selects it. A null or unlisted request selects the starting group if listed, else the first group, and remembers it. A listed request equal to the current selection changes nothing, the starting group included, and rebuilds nothing. Buttons are rebuilt exactly on the fallback path or on a real change with `causeUpdate`. A changed selection becomes the starting group. |
| ChooserGroups.SetSelectedGroupIdempotent | Foreman/Controls/IRChooserPanel.cs:286-292 | Re-selecting the current selection changes nothing and rebuilds nothing. |
| ChooserGroups.StartingGroupCarriesOver | Foreman/Controls/IRChooserPanel.cs:275-289 | A group chosen in one panel is selected again by a later panel that lists it and opens with no request. |
| ChooserGroups.FirstNonEmpty | Foreman/Controls/IRChooserPanel.cs:528-530 | The lowest non-empty index in the range, or none when the whole range is empty. |
| ChooserGroups.LastNonEmpty | Foreman/Controls/IRChooserPanel.cs:532-534 | The highest non-empty index in the range, or none when the whole range is empty. |
| ChooserGroups.FallbackIndex | Foreman/Controls/IRChooserPanel.cs:520-537 | The selected group when non-empty. Otherwise the lowest non-empty index at or left of it, else the highest at or right of it, else itself. Whenever any group is non-empty, the chosen one is. |
| ChooserGroups.FallbackGroup | Foreman/Controls/IRChooserPanel.cs:521-538 | The three loops (find the index, scan left, scan right) choose exactly the group at `FallbackIndex`, and that group is listed. |
| ChooserGroups.WorkingGroupIsSelected | Foreman/Controls/IRChooserPanel.cs:538 | The working group (as corrected) becomes the selection without a button rebuild. The selected group then shows entries whenever any group does, and stays the selected group whenever it shows entries itself. |
| ChooserGroups.FallbackSkipsNearest | Foreman/Controls/IRChooserPanel.cs:746-752 | Counterexamples. With counts [1, 1, 0] and the third group selected, the scans choose the first group, while the nearest non-empty group is the second. With counts [0, 1, 1] and the first group selected, the right scan chooses the third group, while the first non-empty group to the right is the second. |
| ChooserGroups.NearestFallbackIndex | Foreman/Controls/IRChooserPanel.cs:738 | The corrected choice: the selected group when non-empty, otherwise the nearest non-empty group on the left, else on the right, else the selected group itself when every group is empty. No non-empty group lies strictly between it and the selected group. |
| ChooserGroups.NearestFallbackGroup | Foreman/Controls/IRChooserPanel.cs:520-538 | The corrected step 2: the scans stop at the first non-empty group they meet, so the loops choose exactly the group at `NearestFallbackIndex`, and that group is listed. |
| IconLayout.IconScale | Foreman/IconProcessor.cs:24 | For a positive size s the scale is the integer quotient of 32 by s (scale·s ≤ 32 < (scale+1)·s). This makes it 0 above 32 and 1 for a non-positive size. |
| IconLayout.NewIconInfo | Foreman/IconProcessor.cs:20-27 | A new IconInfo keeps path and size, starts at that scale with no offset and no tint. |
| IconLayout.Layers | Foreman/IconProcessor.cs:65-72 | Never empty: the given layers, or the main icon alone when none are given. |
| IconLayout.AllPathsEmpty | Foreman/IconProcessor.cs:75-80 | True exactly when every layer's path is null or empty. |
| IconLayout.MainIconSize | Foreman/IconProcessor.cs:67 | Always positive: the main icon's own size when positive, else 32. |
| IconLayout.PlanLayer | Foreman/IconProcessor.cs:89-97 | A layer is drawn at its own size when positive, else at the main icon's size. It is tinted exactly when its tint differs from the no-tint colour. |
| IconLayout.PlanLayers | Foreman/IconProcessor.cs:86-97 | One plan per layer, in order. |
| IconLayout.GetIcon | Foreman/IconProcessor.cs:63-97 | No icon exactly when every drawn layer's path is empty. Otherwise the plan has the main size and one planned layer per drawn layer. |
| IconLayout.SingleIcon | Foreman/IconProcessor.cs:71-82 | With no layers there is an icon exactly when the main path is set. The main icon is drawn alone, and a freshly constructed IconInfo is never tinted. |
| IconLayout.AnyPathGivesIcon | Foreman/IconProcessor.cs:75-82 | One layer with a path is enough for an icon, and its plan keeps that path. |
| IconTint.Added | Foreman/IconProcessor.cs:117 | The kept part of the original byte is between 0 and the original. It is 0 under an opaque tint, and it is the whole original for an opaque pixel under a fully transparent tint. |
| IconTint.TintChannel | Foreman/IconProcessor.cs:117-119 | A tinted byte is at least the tint channel and at most tint + original. It is exactly the tint channel for an opaque tint or a zero original. For an opaque pixel under a transparent tint it is the sum capped at 255. |
| IconTint.TintLine | Foreman/IconProcessor.cs:111-121 | After the pixel loop over one line, every byte has its expected value. Colour bytes of visible pixels within the width are tinted from their original values. Alpha bytes, transparent pixels and the padding are untouched. |
| IconTint.TintPixel | Foreman/IconProcessor.cs:113-120 | One pixel step: with a positive alpha byte the blue, green and red bytes are tinted from their values; with a zero alpha nothing changes; bytes outside the three colour bytes never change. |
| IconTint.LineStep | Foreman/IconProcessor.cs:111-121 | One turn of the pixel loop extends the finished prefix of the line by one whole pixel and leaves the rest of the line as it was. |
| IconTint.LineFinished | Foreman/IconProcessor.cs:106-111 | When every pixel within the width is done and the rest is untouched, every byte of the line, padding included, has its expected value. |
| IconTint.TintPixels | Foreman/IconProcessor.cs:108-122 | Every line is processed this way and keeps its length. |
| IconTint.ApplyTint | Foreman/IconProcessor.cs:97-126 | A no-tint layer is returned unchanged. Any other layer is tinted as above. |
| IconTint.TintFrame | Foreman/IconProcessor.cs:111-120 | The tint never touches alpha bytes, padding or transparent pixels. A tinted byte is at least its tint channel, and exactly that channel under an opaque tint. |
| IconTint.NoTintWouldBlacken | Foreman/IconProcessor.cs:97 | Why the guard exists: tinting with the no-tint colour would set every colour byte of every visible pixel to 0. |

## Left out

- Floating point: rates, bonuses and multipliers are exact reals. `float` rounding, the casts between `float` and `double`, and IEEE infinities are not modelled.
- Rounding.Round: rounding is exact decimal ties-to-even on reals. It does not reproduce `Math.Round` on the nearest binary double.
- Rounding.Round: the contract states only the half-unit error bound. That the result is the ties-to-even neighbour on the 10^-dp grid is stated on `RoundHalfEven`, which `Round` scales back from.
- The rounding precision `RoundingDP` belongs to the base node, which is not part of this model. It is a parameter `dp`.
- NodeRates.InputRateFor: an item that is neither the fuel nor an ingredient makes the source's ingredient lookup throw `KeyNotFoundException`. The model requires the item to be listed (`InputRateDefined`) instead of modelling the exception.
- NodeRates.OutputRateFor: an item that is neither the burnt item nor a product makes the product lookup throw `KeyNotFoundException`. The model requires the item to be listed (`OutputRateDefined`) instead.
- Division by zero (zero speed × speed multiplier, zero effectivity, zero fuel value) becomes a precondition. The source would produce an infinity or NaN.
- A `Trace.Fail` reached by asking the fuel rate of a non-burner node becomes a precondition.
- Reading the beacon's effectivity with beacon modules but no beacon (a null dereference) becomes a precondition.
- `outputRateFor` on a burnt item that comes from an import override while no fuel is set dereferences a null fuel. It is a precondition here.
- The assembler, module and fuel selectors of the graph are outside the model. Their choices enter `NewRecipeNode` as a `Defaults` value.
- `FuelSelector.UseFuel`, the setter's side effect on the graph-wide fuel preference, is not modelled.
- `Link.Delete` also detaches the link from the node at its other end. Only this node's link lists are modelled.
- Error and tooltip messages are structured values carrying the names and counts the text shows. The formatted text is not modelled.
- `SerializationInfo` is modelled as an ordered list of key/value fields. Reading a saved node back is not part of this model.
- Catalog objects are compared structurally, where the source compares references.
- The chooser's free-text name filter and the recipe key-item/temperature match enter as booleans already decided. The item list of `requestedItemList` enters as a boolean `requested` the same way.
- `GetSortedGroups`, the group buttons and their colours, tooltips, WinForms layout, threading, and the `updateID` cancellation of stale updates are not modelled.
- The scroll bar event handler and `IRScrollBar.Value` clamping by WinForms are not modelled. The wheel is modelled with the bounds the handler itself checks.
- `LoadImage`, `DrawImage`, `SetIconTint`, the draw-size computation in doubles (`iconDrawSize`, `IconCanvasScale`) and `GetUnknownIcon` are not modelled.
- `GetIcon` appends the main icon to the caller's list when the list is empty. The model returns the layer list instead of mutating the argument.
- An empty-path layer in a non-empty icon makes `LoadImage` return null, so the source would fail on that layer. The model plans the layer as it is.
- IconTint.TintPixels: the bitmap bytes are modelled as lines of `stride` bytes (line y is bytes y·stride onwards of the flat copy), not as one flat array. The pixel size is fixed at 4 bytes, as for the 32-bit ARGB images the tint is applied to.
- Colours compare as ARGB values. The named-colour identity that `System.Drawing.Color` equality also compares is not modelled.
- `ItemTabElement.cs` and `LinkElement.cs` (graph drawing) are not part of this model.

## Findings

| source | as written | input that shows it | evidently intended | confidence | as-written member | corrected member |
|---|---|---|---|---|---|---|
| Foreman/Controls/IRChooserPanel.cs:528-534 | The left scan and the right scan have no `break`, so every later match overwrites the earlier one. The left scan (moving down from the selected index) ends with the lowest non-empty group, and the right scan with the highest. The same code appears at lines 746-752. | Groups with filtered counts [1, 1, 0] and the third group selected: the first group is chosen. With counts [0, 1, 1] and the first group selected, the right scan chooses the third group instead of the second. | Per the comment at line 520 ("the first group with >0 items to the left, then the first group with >0 items to the right"): the nearest non-empty group to the left, else the nearest to the right, so the second group. | not executed | ChooserGroups.FallbackSkipsNearest | ChooserGroups.NearestFallbackIndex |
