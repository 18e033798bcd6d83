/**
  The fields `GetObjectData` writes for a recipe node: identity, placement,
  rate settings, and the assembler, fuel and beacon selections by name.
 */
module NodePersist {
  import opened Wrappers
  import opened Catalog
  import opened RecipeNodes

  datatype SavedValue =
    | RecipeNodeType
    | IntValue(i: int)
    | RealValue(x: real)
    | PointValue(p: Point)
    | RateTypeValue(t: RateType)
    | Name(s: string)
    | Names(ns: seq<string>)

  /** The keys `GetObjectData` writes; `KeyName` gives the text of each. */
  datatype FieldKey =
    | NodeTypeKey | NodeIdKey | LocationKey | RecipeIdKey | RateTypeKey | ActualRateKey | DesiredRateKey
    | AssemblerKey | AssemblerModulesKey | FuelKey | BurntKey
    | BeaconKey | BeaconCountKey | BeaconModulesKey

  function KeyName(k: FieldKey): string
  {
    match k
    case NodeTypeKey => "NodeType"
    case NodeIdKey => "NodeID"
    case LocationKey => "Location"
    case RecipeIdKey => "RecipeID"
    case RateTypeKey => "RateType"
    case ActualRateKey => "ActualRate"
    case DesiredRateKey => "DesiredRate"
    case AssemblerKey => "Assembler"
    case AssemblerModulesKey => "AssemblerModules"
    case FuelKey => "Fuel"
    case BurntKey => "Burnt"
    case BeaconKey => "Beacon"
    case BeaconCountKey => "BeaconCount"
    case BeaconModulesKey => "BeaconModules"
  }

  datatype SavedField = SavedField(key: FieldKey, value: SavedValue)

  function ModuleNames(mods: seq<Module>): (r: seq<string>)
    ensures |r| == |mods|
    ensures forall i :: 0 <= i < |mods| ==> r[i] == mods[i].name
  {
    if |mods| == 0 then [] else [mods[0].name] + ModuleNames(mods[1..])
  }

  /** The three blocks `GetObjectData` writes: node fields, assembler, beacon. */
  datatype FieldBlock = NodeBlock | AssemblerBlock | BeaconBlock

  function BlockOf(k: FieldKey): FieldBlock
  {
    match k
    case AssemblerKey | AssemblerModulesKey | FuelKey | BurntKey => AssemblerBlock
    case BeaconKey | BeaconCountKey | BeaconModulesKey => BeaconBlock
    case _ => NodeBlock
  }

  /** Whether `GetObjectData` writes `key` for node `n`. */
  predicate Written(n: RecipeNode, key: FieldKey)
  {
    match key
    case DesiredRateKey => n.base.rateType == Manual
    case AssemblerKey | AssemblerModulesKey => n.assembler.Some?
    case FuelKey => n.assembler.Some? && n.burnerItem.Some?
    case BurntKey => n.assembler.Some? && BurntItem(n).Some?
    case BeaconKey | BeaconCountKey | BeaconModulesKey => n.beacon.Some?
    case _ => true
  }

  /** The value `GetObjectData` stores under a key it writes. */
  function ValueOf(n: RecipeNode, key: FieldKey): SavedValue
    requires Written(n, key)
  {
    match key
    case NodeTypeKey => RecipeNodeType
    case NodeIdKey => IntValue(n.base.nodeId)
    case LocationKey => PointValue(n.base.location)
    case RecipeIdKey => IntValue(n.recipe.recipeId)
    case RateTypeKey => RateTypeValue(n.base.rateType)
    case ActualRateKey => RealValue(n.base.actualRate)
    case DesiredRateKey => RealValue(n.base.desiredRate)
    case AssemblerKey => Name(n.assembler.value.name)
    case AssemblerModulesKey => Names(ModuleNames(n.assemblerModules))
    case FuelKey => Name(n.burnerItem.value.name)
    case BurntKey => Name(BurntItem(n).value.name)
    case BeaconKey => Name(n.beacon.value.name)
    case BeaconCountKey => RealValue(n.beaconCount)
    case BeaconModulesKey => Names(ModuleNames(n.beaconModules))
  }

  /** Field `f` is one `GetObjectData` writes for node `n`: its key is written, with that key's value. */
  predicate Saves(n: RecipeNode, f: SavedField)
  {
    Written(n, f.key) && f.value == ValueOf(n, f.key)
  }

  function RateFields(n: RecipeNode): (r: seq<SavedField>)
    ensures DistinctKeys(r)
    ensures forall k :: k in KeysOf(r) <==> BlockOf(k) == NodeBlock && Written(n, k)
    ensures SavedField(RecipeIdKey, IntValue(n.recipe.recipeId)) in r
    ensures SavedField(ActualRateKey, RealValue(n.base.actualRate)) in r
  {
    [ SavedField(NodeTypeKey, RecipeNodeType),
      SavedField(NodeIdKey, IntValue(n.base.nodeId)),
      SavedField(LocationKey, PointValue(n.base.location)),
      SavedField(RecipeIdKey, IntValue(n.recipe.recipeId)),
      SavedField(RateTypeKey, RateTypeValue(n.base.rateType)),
      SavedField(ActualRateKey, RealValue(n.base.actualRate)) ]
    + (if n.base.rateType == Manual then [SavedField(DesiredRateKey, RealValue(n.base.desiredRate))] else [])
  }

  function AssemblerFields(n: RecipeNode): (r: seq<SavedField>)
    ensures DistinctKeys(r)
    ensures forall k :: k in KeysOf(r) <==> BlockOf(k) == AssemblerBlock && Written(n, k)
    ensures n.assembler.Some? && n.burnerItem.Some? ==> SavedField(FuelKey, Name(n.burnerItem.value.name)) in r
    ensures n.assembler.Some? && BurntItem(n).Some? ==> SavedField(BurntKey, Name(BurntItem(n).value.name)) in r
  {
    match n.assembler
    case None => []
    case Some(a) =>
      [ SavedField(AssemblerKey, Name(a.name)),
        SavedField(AssemblerModulesKey, Names(ModuleNames(n.assemblerModules))) ]
      + (if n.burnerItem.Some? then [SavedField(FuelKey, Name(n.burnerItem.value.name))] else [])
      + (if BurntItem(n).Some? then [SavedField(BurntKey, Name(BurntItem(n).value.name))] else [])
  }

  function BeaconFields(n: RecipeNode): (r: seq<SavedField>)
    ensures DistinctKeys(r)
    ensures forall k :: k in KeysOf(r) <==> BlockOf(k) == BeaconBlock && Written(n, k)
  {
    match n.beacon
    case None => []
    case Some(b) =>
      [ SavedField(BeaconKey, Name(b.name)),
        SavedField(BeaconCountKey, RealValue(n.beaconCount)),
        SavedField(BeaconModulesKey, Names(ModuleNames(n.beaconModules))) ]
  }

  /** The fields written, in order. */
  function ObjectData(n: RecipeNode): seq<SavedField>
  {
    RateFields(n) + AssemblerFields(n) + BeaconFields(n)
  }

  /** The keys present in a list of saved fields. */
  function KeysOf(fields: seq<SavedField>): set<FieldKey>
  {
    set f | f in fields :: f.key
  }

  predicate DistinctKeys(fields: seq<SavedField>)
  {
    forall i, j :: 0 <= i < j < |fields| ==> fields[i].key != fields[j].key
  }

  lemma DistinctKeysAppend(a: seq<SavedField>, b: seq<SavedField>)
    requires DistinctKeys(a) && DistinctKeys(b) && KeysOf(a) !! KeysOf(b)
    ensures DistinctKeys(a + b) && KeysOf(a + b) == KeysOf(a) + KeysOf(b)
  {
    var c := a + b;
    forall i, j | 0 <= i < j < |c|
      ensures c[i].key != c[j].key
    {
      if j < |a| {
        assert c[i] == a[i] && c[j] == a[j];
      } else if i >= |a| {
        assert c[i] == b[i - |a|] && c[j] == b[j - |a|];
      } else {
        assert c[i] == a[i] && c[j] == b[j - |a|];
        assert c[i].key in KeysOf(a) && c[j].key in KeysOf(b);
      }
    }
  }

  /**
    The keys a loader finds: none twice, and exactly those `Written` names:
    the node fields always, the desired rate only for a manual node, the
    assembler block only with an assembler (with the fuel and burnt item
    when those are set), the beacon block only with a beacon.
   */
  lemma ObjectDataKeys(n: RecipeNode)
    ensures DistinctKeys(ObjectData(n))
    ensures forall k :: k in KeysOf(ObjectData(n)) <==> Written(n, k)
  {
    var r, a, b := RateFields(n), AssemblerFields(n), BeaconFields(n);
    assert ObjectData(n) == (r + a) + b;
    DistinctKeysAppend(r, a);
    DistinctKeysAppend(r + a, b);
  }

  /**
    A block whose every field is a saved one and whose keys are exactly the
    written keys of the block holds exactly the block's saved fields.
   */
  lemma BlockExact(n: RecipeNode, fields: seq<SavedField>, block: FieldBlock)
    requires forall g :: g in fields ==> Saves(n, g)
    requires forall k :: k in KeysOf(fields) <==> BlockOf(k) == block && Written(n, k)
    ensures forall f :: f in fields <==> BlockOf(f.key) == block && Saves(n, f)
  {
    forall f: SavedField | BlockOf(f.key) == block && Saves(n, f)
      ensures f in fields
    {
      assert f.key in KeysOf(fields);
      var g :| g in fields && g.key == f.key;
      assert g == f;
    }
    forall f: SavedField | f in fields
      ensures BlockOf(f.key) == block
    {
      assert f.key in KeysOf(fields);
    }
  }

  lemma RateFieldsExact(n: RecipeNode)
    ensures forall f :: f in RateFields(n) <==> BlockOf(f.key) == NodeBlock && Saves(n, f)
  {
    BlockExact(n, RateFields(n), NodeBlock);
  }

  lemma AssemblerFieldsExact(n: RecipeNode)
    ensures forall f :: f in AssemblerFields(n) <==> BlockOf(f.key) == AssemblerBlock && Saves(n, f)
  {
    BlockExact(n, AssemblerFields(n), AssemblerBlock);
  }

  lemma BeaconFieldsExact(n: RecipeNode)
    ensures forall f :: f in BeaconFields(n) <==> BlockOf(f.key) == BeaconBlock && Saves(n, f)
  {
    BlockExact(n, BeaconFields(n), BeaconBlock);
  }

  /**
    The values stored: the saved data holds exactly one field per written
    key, carrying that key's value. In particular the recipe id, the actual
    rate, and the fuel and burnt item names when present.
   */
  lemma ObjectDataExact(n: RecipeNode)
    ensures forall f :: f in ObjectData(n) <==> Saves(n, f)
    ensures forall k :: Written(n, k) ==> SavedField(k, ValueOf(n, k)) in ObjectData(n)
  {
    var r, a, b := RateFields(n), AssemblerFields(n), BeaconFields(n);
    RateFieldsExact(n);
    AssemblerFieldsExact(n);
    BeaconFieldsExact(n);
    forall f
      ensures f in ObjectData(n) <==> Saves(n, f)
    {
      assert f in r + a + b <==> f in r || f in a || f in b;
    }
    forall k | Written(n, k)
      ensures SavedField(k, ValueOf(n, k)) in ObjectData(n)
    {
      assert Saves(n, SavedField(k, ValueOf(n, k)));
    }
  }

  /** The values stored under the recipe, rate, fuel and burnt-item keys. */
  lemma ObjectDataValues(n: RecipeNode)
    ensures SavedField(RecipeIdKey, IntValue(n.recipe.recipeId)) in ObjectData(n)
    ensures SavedField(ActualRateKey, RealValue(n.base.actualRate)) in ObjectData(n)
    ensures n.assembler.Some? && n.burnerItem.Some? ==>
              SavedField(FuelKey, Name(n.burnerItem.value.name)) in ObjectData(n)
    ensures n.assembler.Some? && BurntItem(n).Some? ==>
              SavedField(BurntKey, Name(BurntItem(n).value.name)) in ObjectData(n)
  {
  }
}
