/**
 * Tier resolution of the self-intersection regions: each region's
 * composite id is reduced to its smallest cost-level id, which is used
 * directly as a key into the 0-based tier table.
 */
module Resolver {
  import opened Wrappers
  import opened Tiers
  import opened Fields
  import opened CostLevels

  /** A vertex of a region's outline; geometry is carried through unexamined. */
  datatype Point = Point(x: real, y: real)

  /** A feature: its polygon rings and its attributes by field name. */
  datatype Feature = Feature(rings: seq<seq<Point>>, attrs: map<string, Value>)

  /** What the resolution loop can raise. */
  datatype Error =
    | MissingField(name: string)   // `f[name]` on a field the feature lacks: KeyError
    | NotAString(v: Value)         // `.split` on a non-string id: AttributeError
    | NotAnInteger(piece: string)  // `int(piece)` rejects the piece: ValueError

  /** The field carrying the composite id written by the self-intersection. */
  const IdField: string := "ID"

  /** Python truthiness of an attribute value: only NULL and the zero of each type are false. */
  predicate Truthy(v: Value)
    ensures Truthy(v) <==> v != Null && v != IntV(0) && v != StrV("") && v != RealV(0.0)
  {
    match v
    case Null => false
    case IntV(i) => i != 0
    case StrV(s) => s != ""
    case RealV(r) => r != 0.0
  }

  /**
   * `for k in newfields_keys: f[fname] = tier_specs[idx][k]`: each field
   * written in order; a field the feature lacks raises.
   */
  function WriteFields(attrs: map<string, Value>, spec: TierSpec, table: seq<OutputField>): (r: Result<map<string, Value>, Error>)
    ensures r.Ok? <==> forall k :: 0 <= k < |table| ==> table[k].fname in attrs
    ensures r.Ok? ==> r.value.Keys == attrs.Keys
    ensures r.Err? ==> exists k :: 0 <= k < |table| && r.error == MissingField(table[k].fname) && table[k].fname !in attrs
  {
    if table == [] then Ok(attrs)
    else if table[0].fname !in attrs then Err(MissingField(table[0].fname))
    else
      var rest := WriteFields(attrs[table[0].fname := SpecValue(spec, table[0].key)], spec, table[1..]);
      assert forall k :: 1 <= k < |table| ==> table[k] == table[1..][k - 1];
      rest
  }

  /**
   * What the written fields hold: a name outside the table keeps its value,
   * and with distinct names each table field holds its entry's value.
   */
  lemma {:induction false} WriteFieldsValues(attrs: map<string, Value>, spec: TierSpec, table: seq<OutputField>)
    requires WriteFields(attrs, spec, table).Ok?
    ensures forall n :: n in attrs && n !in OutputNames(table) ==> WriteFields(attrs, spec, table).value[n] == attrs[n]
    ensures DistinctNames(table) ==> forall k :: 0 <= k < |table| ==>
      WriteFields(attrs, spec, table).value[table[k].fname] == SpecValue(spec, table[k].key)
  {
    if table != [] {
      var head, tail := table[0], table[1..];
      var written := attrs[head.fname := SpecValue(spec, head.key)];
      WriteFieldsValues(written, spec, tail);
      var out := WriteFields(attrs, spec, table).value;
      assert out == WriteFields(written, spec, tail).value;
      assert OutputNames(table) == [head.fname] + OutputNames(tail);
      if DistinctNames(table) {
        assert DistinctNames(tail) by {
          forall j, k | 0 <= j < k < |tail| ensures tail[j].fname != tail[k].fname {
            assert tail[j] == table[j + 1] && tail[k] == table[k + 1];
          }
        }
        assert head.fname !in OutputNames(tail) by {
          forall k | 0 <= k < |tail| ensures OutputNames(tail)[k] != head.fname {
            assert tail[k] == table[k + 1];
          }
        }
        forall k | 0 <= k < |table| ensures out[table[k].fname] == SpecValue(spec, table[k].key) {
          if k > 0 {
            assert table[k] == tail[k - 1];
          }
        }
      }
    }
  }

  /**
   * The body of the resolution loop for one feature: the feature as
   * `updateFeature` writes it back, or the error the body raises.
   */
  function ResolveFeature(f: Feature, specs: map<int, TierSpec>): (r: Result<Feature, Error>)
    ensures r.Ok? ==> r.value.rings == f.rings && r.value.attrs.Keys == f.attrs.Keys
    ensures r.Ok? ==> forall n :: n in f.attrs && n !in OutputNames(OutputTableFields) ==> r.value.attrs[n] == f.attrs[n]
  {
    if IdField !in f.attrs then Err(MissingField(IdField))
    else
      var id := f.attrs[IdField];
      if !Truthy(id) then Ok(f)
      else if !id.StrV? then Err(NotAString(id))
      else
        match TierKey(id.s)
        case Err(piece) => Err(NotAnInteger(piece))
        case Ok(key) =>
          if key in specs then
            match WriteFields(f.attrs, specs[key], OutputTableFields)
            case Err(e) => Err(e)
            case Ok(attrs) =>
              WriteFieldsValues(f.attrs, specs[key], OutputTableFields);
              Ok(f.(attrs := attrs))
          else Ok(f)
  }

  /** A feature whose id is unset or empty is written back as it was. */
  lemma UnsetIdLeavesFeature(f: Feature, specs: map<int, TierSpec>)
    requires IdField in f.attrs && !Truthy(f.attrs[IdField])
    ensures ResolveFeature(f, specs) == Ok(f)
  {
  }

  /**
   * For a feature with a non-empty, well-formed id whose smallest cost level
   * is `key`: the five output fields take the values of `specs[key]` when
   * `key` is in the table, and otherwise the feature is left as it was.
   */
  lemma ResolveLabelsIffKnownKey(f: Feature, specs: map<int, TierSpec>, key: int)
    requires IdField in f.attrs && f.attrs[IdField].StrV? && f.attrs[IdField].s != ""
    requires TierKey(f.attrs[IdField].s) == Ok(key)
    requires forall k :: 0 <= k < |OutputTableFields| ==> OutputTableFields[k].fname in f.attrs
    ensures ResolveFeature(f, specs).Ok?
    ensures key in specs ==> forall k :: 0 <= k < |OutputTableFields| ==>
      ResolveFeature(f, specs).value.attrs[OutputTableFields[k].fname] == SpecValue(specs[key], OutputTableFields[k].key)
    ensures key !in specs ==> ResolveFeature(f, specs) == Ok(f)
  {
    assert Truthy(f.attrs[IdField]);
    if key in specs {
      var spec := specs[key];
      var w := WriteFields(f.attrs, spec, OutputTableFields);
      assert w.Ok?;
      OutputTableFieldsShape();
      WriteFieldsValues(f.attrs, spec, OutputTableFields);
      assert ResolveFeature(f, specs) == Ok(f.(attrs := w.value));
    } else {
      assert ResolveFeature(f, specs) == Ok(f);
    }
  }

  /**
   * When the body raises: the id field is missing, the id is a non-empty
   * non-string, a piece of the id is not an integer, or the key is known and
   * an output field is missing.
   */
  lemma ResolveErrorCases(f: Feature, specs: map<int, TierSpec>)
    ensures ResolveFeature(f, specs).Err? <==>
      || IdField !in f.attrs
      || (Truthy(f.attrs[IdField]) && !f.attrs[IdField].StrV?)
      || (f.attrs[IdField].StrV? && f.attrs[IdField].s != "" && TierKey(f.attrs[IdField].s).Err?)
      || (f.attrs[IdField].StrV? && f.attrs[IdField].s != "" && TierKey(f.attrs[IdField].s).Ok? &&
          TierKey(f.attrs[IdField].s).value in specs &&
          exists k :: 0 <= k < |OutputTableFields| && OutputTableFields[k].fname !in f.attrs)
  {
    if IdField in f.attrs {
      var id := f.attrs[IdField];
      if id.StrV? && id.s != "" {
        assert Truthy(id);
        match TierKey(id.s)
        case Err(_) =>
        case Ok(key) =>
          if key in specs {
            var w := WriteFields(f.attrs, specs[key], OutputTableFields);
            assert ResolveFeature(f, specs).Err? <==> w.Err?;
          } else {
            assert ResolveFeature(f, specs) == Ok(f);
          }
      } else if id.StrV? {
        assert ResolveFeature(f, specs) == Ok(f);
      }
    }
  }

  /**
   * A feature whose smallest cost level `key` is a table index carries the
   * attributes of tier index `key`: tier number `key + 1`, its name, the
   * `key`-th order minimum (NULL past the list), and `key + 1` tiers' worth
   * of distance in miles and in meters.
   */
  lemma KnownKeyLabels(
    f: Feature, specs: map<int, TierSpec>, tierCount: int, milesPerTier: real, tierMins: seq<string>, key: int)
    requires IsTierTable(specs, tierCount, milesPerTier, tierMins)
    requires IdField in f.attrs && f.attrs[IdField].StrV? && f.attrs[IdField].s != ""
    requires TierKey(f.attrs[IdField].s) == Ok(key)
    requires forall k :: 0 <= k < |OutputTableFields| ==> OutputTableFields[k].fname in f.attrs
    requires 0 <= key < tierCount
    ensures ResolveFeature(f, specs).Ok?
    ensures HasTierAttributes(ResolveFeature(f, specs).value.attrs, key, milesPerTier, tierMins)
  {
    assert key in specs;
    var e := specs[key];
    assert IsTierEntry(e, key, milesPerTier, tierMins);
    ResolveLabelsIffKnownKey(f, specs, key);
    IndexFieldsFromEntry(ResolveFeature(f, specs).value.attrs, e, key, milesPerTier, tierMins);
  }

  /**
   * The five output fields hold the attributes of tier index `i`: tier
   * number `i + 1`, its name, the `i`-th order minimum (NULL past the list),
   * and `i + 1` tiers' worth of one-way distance in miles and in meters.
   */
  predicate HasTierAttributes(attrs: map<string, Value>, i: int, milesPerTier: real, tierMins: seq<string>)
  {
    && "TIERNUM" in attrs && attrs["TIERNUM"] == IntV(i + 1)
    && "TIERNAME" in attrs && attrs["TIERNAME"] == StrV(TierName(i + 1))
    && "ORDERMIN" in attrs && attrs["ORDERMIN"] == OptionalString(ListItemWithDefault(tierMins, i, None))
    && "1WAYMILES" in attrs && attrs["1WAYMILES"] == RealV((i + 1) as real * milesPerTier)
    && "1WAYMETERS" in attrs && attrs["1WAYMETERS"] == RealV(MilesToMeters((i + 1) as real * milesPerTier))
  }

  /** Attributes holding the output values of the entry for index `i` carry that index's tier attributes. */
  lemma IndexFieldsFromEntry(attrs: map<string, Value>, e: TierSpec, i: int, milesPerTier: real, tierMins: seq<string>)
    requires IsTierEntry(e, i, milesPerTier, tierMins)
    requires forall k :: 0 <= k < |OutputTableFields| ==>
      OutputTableFields[k].fname in attrs && attrs[OutputTableFields[k].fname] == SpecValue(e, OutputTableFields[k].key)
    ensures HasTierAttributes(attrs, i, milesPerTier, tierMins)
  {
    TierFieldsFromEntry(attrs, e);
  }

  /** Attributes holding an entry's output values carry each of its five components in its own field. */
  lemma TierFieldsFromEntry(attrs: map<string, Value>, e: TierSpec)
    requires forall k :: 0 <= k < |OutputTableFields| ==>
      OutputTableFields[k].fname in attrs && attrs[OutputTableFields[k].fname] == SpecValue(e, OutputTableFields[k].key)
    ensures "TIERNUM" in attrs && attrs["TIERNUM"] == IntV(e.tierNum)
    ensures "TIERNAME" in attrs && attrs["TIERNAME"] == StrV(e.tierName)
    ensures "ORDERMIN" in attrs && attrs["ORDERMIN"] == OptionalString(e.orderMinimum)
    ensures "1WAYMILES" in attrs && attrs["1WAYMILES"] == RealV(e.travelCostMi)
    ensures "1WAYMETERS" in attrs && attrs["1WAYMETERS"] == RealV(e.travelCostM)
  {
    assert OutputTableFields[0].fname == "TIERNUM" && OutputTableFields[0].key == TierNumKey;
    assert OutputTableFields[1].fname == "TIERNAME" && OutputTableFields[1].key == TierNameKey;
    assert OutputTableFields[2].fname == "ORDERMIN" && OutputTableFields[2].key == OrderMinimumKey;
    assert OutputTableFields[3].fname == "1WAYMILES" && OutputTableFields[3].key == TravelCostMiKey;
    assert OutputTableFields[4].fname == "1WAYMETERS" && OutputTableFields[4].key == TravelCostMKey;
  }

  /**
   * Against the table `BuildTierSpecs` produces, the smallest cost-level id
   * `key` of a region is used as the 0-based tier index: the region is
   * labelled exactly when `0 <= key < tierCount`, and then gets the
   * attributes of tier index `key`, whose tier number is `key + 1`.  A
   * region reached only at cost level `tierCount` stays unlabelled.
   */
  lemma CostLevelUsedAsTierIndex(
    f: Feature, specs: map<int, TierSpec>, tierCount: int, milesPerTier: real, tierMins: seq<string>, key: int)
    requires IsTierTable(specs, tierCount, milesPerTier, tierMins)
    requires IdField in f.attrs && f.attrs[IdField].StrV? && f.attrs[IdField].s != ""
    requires TierKey(f.attrs[IdField].s) == Ok(key)
    requires forall k :: 0 <= k < |OutputTableFields| ==> OutputTableFields[k].fname in f.attrs
    ensures ResolveFeature(f, specs).Ok?
    ensures 0 <= key < tierCount ==> HasTierAttributes(ResolveFeature(f, specs).value.attrs, key, milesPerTier, tierMins)
    ensures !(0 <= key < tierCount) ==> ResolveFeature(f, specs) == Ok(f)
  {
    if 0 <= key < tierCount {
      KnownKeyLabels(f, specs, tierCount, milesPerTier, tierMins, key);
    } else {
      assert key !in specs;
      ResolveLabelsIffKnownKey(f, specs, key);
    }
  }

  /**
   * The whole resolution loop: every feature resolved in order, or the
   * error of the first feature whose body raises.
   */
  function ResolveAll(fs: seq<Feature>, specs: map<int, TierSpec>): (r: Result<seq<Feature>, Error>)
    ensures r.Ok? <==> forall k :: 0 <= k < |fs| ==> ResolveFeature(fs[k], specs).Ok?
    ensures r.Ok? ==> |r.value| == |fs|
    ensures r.Ok? ==> forall k :: 0 <= k < |fs| ==> ResolveFeature(fs[k], specs) == Ok(r.value[k])
    ensures r.Err? ==> exists k :: FirstFailing(fs, specs, k) && ResolveFeature(fs[k], specs) == Err(r.error)
  {
    if fs == [] then Ok([])
    else
      var init := fs[..|fs| - 1];
      var prefix := ResolveAll(init, specs);
      assert forall k :: 0 <= k < |init| ==> init[k] == fs[k];
      if prefix.Err? then
        ghost var k :| FirstFailing(init, specs, k) && ResolveFeature(init[k], specs) == Err(prefix.error);
        assert FirstFailing(fs, specs, k);
        Err(prefix.error)
      else
        match ResolveFeature(fs[|fs| - 1], specs)
        case Err(e) =>
          assert FirstFailing(fs, specs, |fs| - 1);
          Err(e)
        case Ok(g) =>
          var out := prefix.value + [g];
          assert forall k :: 0 <= k < |fs| ==> ResolveFeature(fs[k], specs) == Ok(out[k]) by {
            forall k | 0 <= k < |fs| ensures ResolveFeature(fs[k], specs) == Ok(out[k]) {
              if k < |init| {
                assert init[k] == fs[k] && out[k] == prefix.value[k];
              }
            }
          }
          Ok(out)
  }

  /** Feature `k` is the first whose resolution raises. */
  ghost predicate FirstFailing(fs: seq<Feature>, specs: map<int, TierSpec>, k: int)
  {
    && 0 <= k < |fs|
    && ResolveFeature(fs[k], specs).Err?
    && forall j :: 0 <= j < k ==> ResolveFeature(fs[j], specs).Ok?
  }
}
