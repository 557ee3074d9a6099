/**
 * Attribute values, field definitions and the five output fields the
 * resolver adds to the self-intersection layer.
 */
module Fields {
  import opened Wrappers
  import opened Tiers

  /** The field types the output schema uses; fields of other types are `OtherType`. */
  datatype FieldType = IntType | StringType | DoubleType | OtherType

  /** A field of a layer's schema. */
  datatype Field = Field(name: string, ftype: FieldType)

  /** An attribute value; `Null` is an unset attribute. */
  datatype Value = Null | IntV(i: int) | StrV(s: string) | RealV(r: real)

  /** The keys of a `tier_specs` entry that are copied to the output fields. */
  datatype SpecKey = TierNumKey | TierNameKey | OrderMinimumKey | TravelCostMiKey | TravelCostMKey

  /** One entry of `output_tablefields`: which entry key goes to which field, of which type. */
  datatype OutputField = OutputField(key: SpecKey, fname: string, ftype: FieldType)

  /** `output_tablefields`, in declaration order. */
  const OutputTableFields: seq<OutputField> := [
    OutputField(TierNumKey, "TIERNUM", IntType),
    OutputField(TierNameKey, "TIERNAME", StringType),
    OutputField(OrderMinimumKey, "ORDERMIN", StringType),
    OutputField(TravelCostMiKey, "1WAYMILES", DoubleType),
    OutputField(TravelCostMKey, "1WAYMETERS", DoubleType)
  ]

  /** The names of a sequence of output fields, in order. */
  function OutputNames(table: seq<OutputField>): (names: seq<string>)
    ensures |names| == |table|
    ensures forall k :: 0 <= k < |table| ==> names[k] == table[k].fname
  {
    if table == [] then [] else [table[0].fname] + OutputNames(table[1..])
  }

  /** No output field name occurs twice. */
  predicate DistinctNames(table: seq<OutputField>)
  {
    forall j, k :: 0 <= j < k < |table| ==> table[j].fname != table[k].fname
  }

  /** The five output fields have distinct names, in the order TIERNUM, TIERNAME, ORDERMIN, 1WAYMILES, 1WAYMETERS. */
  lemma OutputTableFieldsShape()
    ensures DistinctNames(OutputTableFields)
    ensures OutputNames(OutputTableFields) == ["TIERNUM", "TIERNAME", "ORDERMIN", "1WAYMILES", "1WAYMETERS"]
  {
    assert OutputNames(OutputTableFields)[4] == "1WAYMETERS";
  }

  /** The field object `QgsField(fname, ftype)` of an output field. */
  function FieldObject(entry: OutputField): Field
  {
    Field(entry.fname, entry.ftype)
  }

  /** The field objects of an output table, in order (`newfields_objs`). */
  function FieldObjectsOf(table: seq<OutputField>): (objs: seq<Field>)
    ensures |objs| == |table|
    ensures forall k :: 0 <= k < |table| ==> objs[k] == FieldObject(table[k])
  {
    if table == [] then [] else [FieldObject(table[0])] + FieldObjectsOf(table[1..])
  }

  /**
   * The loop attaching a field object to every entry of `output_tablefields`,
   * followed by the comprehension collecting them: one object per entry, in
   * the table's order, carrying the entry's name and type.
   */
  method CollectFieldObjects(table: seq<OutputField>) returns (objs: seq<Field>)
    ensures |objs| == |table|
    ensures forall k :: 0 <= k < |table| ==> objs[k].name == table[k].fname && objs[k].ftype == table[k].ftype
    ensures objs == FieldObjectsOf(table)
  {
    objs := [];
    for k := 0 to |table|
      invariant |objs| == k
      invariant forall j :: 0 <= j < k ==> objs[j] == FieldObject(table[j])
    {
      objs := objs + [FieldObject(table[k])];
    }
  }

  /** The attribute value of an optional string: NULL for `None`. */
  function OptionalString(o: Option<string>): (v: Value)
    ensures v.Null? <==> o.None?
    ensures o.Some? ==> v == StrV(o.value)
  {
    match o
    case Some(s) => StrV(s)
    case None => Null
  }

  /**
   * The value `tier_specs[idx][key]` that is written to the field of `key`:
   * each key selects its own component of the entry, and the value is NULL
   * exactly for a tier without an order minimum.
   */
  function SpecValue(spec: TierSpec, key: SpecKey): (v: Value)
    ensures v.Null? <==> key == OrderMinimumKey && spec.orderMinimum.None?
    ensures key == TierNumKey ==> v == IntV(spec.tierNum)
    ensures key == TierNameKey ==> v == StrV(spec.tierName)
    ensures key == OrderMinimumKey ==> v == OptionalString(spec.orderMinimum)
    ensures key == TravelCostMiKey ==> v == RealV(spec.travelCostMi)
    ensures key == TravelCostMKey ==> v == RealV(spec.travelCostM)
  {
    match key
    case TierNumKey => IntV(spec.tierNum)
    case TierNameKey => StrV(spec.tierName)
    case OrderMinimumKey => OptionalString(spec.orderMinimum)
    case TravelCostMiKey => RealV(spec.travelCostMi)
    case TravelCostMKey => RealV(spec.travelCostM)
  }

  /** A value fits a field type when it is unset or of that type. */
  predicate HasType(v: Value, t: FieldType)
  {
    v.Null? || (t == IntType && v.IntV?) || (t == StringType && v.StrV?) || (t == DoubleType && v.RealV?)
  }

  /** Every value copied from a tier entry fits the declared type of its output field. */
  lemma SpecValuesFitFieldTypes(spec: TierSpec)
    ensures forall k :: 0 <= k < |OutputTableFields| ==>
      HasType(SpecValue(spec, OutputTableFields[k].key), OutputTableFields[k].ftype)
  {
  }
}
