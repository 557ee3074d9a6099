# Service-area tier labelling, modelled in Dafny

`FCGenerateServiceAreas_v3.0.py` is a QGIS processing script. It builds
driving-distance service areas around a route sketch. It draws one isochrone
per tier, intersects the isochrones with themselves, and labels each
resulting region with the nearest tier that reaches it. Nearly all of the
script chains external geoprocessing algorithms. This project models the
logic the script itself owns:

- **Tier table** (module `Tiers`). The parameters `NumTiers`, `MilesPerTier`
  and `TierMinimums` (a `|`-separated string) give a map from tier index
  `0 .. NumTiers-1` to an entry:
  - the tier number and the tier's name ("Main Route" or "Tier k");
  - the one-way travel cost in miles and in meters;
  - the order minimum, or none.

  The same parameters give the per-tier interval, the maximum tier distance
  and the buffer distance. The helpers `convertMilesToMeters` and
  `getListItemWithDefault` are modelled here too.
- **Python string semantics** (module `PyStr`):
  - `str.split` on one character, and its inverse, joining;
  - `int()` on a piece of text: surrounding whitespace (tab to carriage
    return, and space), an optional sign, digits with single underscores between them;
  - `'%d' % n`.
- **Output table** (module `Fields`). The five output fields TIERNUM,
  TIERNAME, ORDERMIN, 1WAYMILES and 1WAYMETERS, their types, and the loop
  that attaches a field object to each of them.
- **Composite ids** (module `CostLevels`). A self-intersection region
  carries an `ID` such as `"3|1|2"`, listing the cost levels of the
  isochrones that cover it. The region's key is the smallest of them.
- **Per-feature resolution** (module `Resolver`). One feature's pass
  through the labelling loop, and the whole loop, with Python's exceptions
  as error outcomes:
  - `KeyError` for a missing field;
  - `AttributeError` for a non-string id;
  - `ValueError` for a piece that is not an integer.
- **Schema migration** (module `Layers`). The class `Layer` holds a field
  list and an array of features. Its methods are the three edit sessions:
  - appending the output fields;
  - filling them feature by feature, rolled back if the loop raises;
  - deleting every original field by the index its name maps to.

The script uses the smallest cost-level id `k` directly as an index into
the 0-based tier table. So a region first reached by cost level `k` gets
tier number `k + 1`, and a region whose smallest id equals `NumTiers`
stays unlabelled. The model keeps this mapping exactly, and
`Resolver.CostLevelUsedAsTierIndex` states it.

Distances are exact `real`s. The attributes of a feature are a map from
field name to a value (`Null`, integer, string or real).

## Model

| member | source | states |
|---|---|---|
| Tiers.MilesToMeters | FCGenerateServiceAreas_v3.0.py:403-406 | dividing the meters by 1609.344 gives back the miles; the meters are positive exactly when the miles are, and zero exactly when they are |
| Tiers.MilesToMetersIncreasing | FCGenerateServiceAreas_v3.0.py:403-406 | the conversion is strictly increasing |
| Tiers.MilesToMetersScales | FCGenerateServiceAreas_v3.0.py:403-406 | converting `k * miles` gives `k` times the conversion of `miles` |
| Tiers.PyIndex | FCGenerateServiceAreas_v3.0.py:414 | `l[i]` is defined exactly for `-len(l) <= i < len(l)`, and is then the element at `i` modulo `len(l)`; outside that range it raises `IndexError` |
| Tiers.ListItemWithDefault | FCGenerateServiceAreas_v3.0.py:409-417 | `l[i]` for `0 <= i < len(l)`; `l[len(l)+i]` for a negative index in range; the default otherwise, so it never raises |
| Tiers.TierName | FCGenerateServiceAreas_v3.0.py:80 | the name is "Main Route" exactly when the tier number is at most 1; for any later tier it starts with "Tier " |
| Tiers.TierNameCases | FCGenerateServiceAreas_v3.0.py:80 | the name is "Main Route" exactly for tier 1; otherwise it is "Tier " followed by the canonical decimal of the tier number: digits only, no leading zero, and `int` reads it back as the number |
| Tiers.BuildTierSpecs | FCGenerateServiceAreas_v3.0.py:76-84 | the map's keys are exactly `0 .. tier_count-1`; entry `i` has tier number `i+1`, its name, `(i+1) * MilesPerTier` miles and their conversion to meters, and `getListItemWithDefault(tier_mins, i)` |
| Tiers.TierTableIncreasing | FCGenerateServiceAreas_v3.0.py:81-82 | with `MilesPerTier > 0`, travel cost strictly increases with the tier index, in miles and in meters |
| Tiers.LaterEntryFarther | FCGenerateServiceAreas_v3.0.py:81-82 | of two table entries, the one with the larger index is farther, in both units |
| Tiers.OrderMinimumDefaults | FCGenerateServiceAreas_v3.0.py:72-83 | tier `i` gets the `i`-th supplied minimum while one exists, and `None` beyond the list |
| Tiers.EmptyMinimumsString | FCGenerateServiceAreas_v3.0.py:72-83 | an empty `TierMinimums` gives tier index 0 the minimum `""`, not `None`; later tiers get `None` |
| Tiers.DeriveDistances | FCGenerateServiceAreas_v3.0.py:65-70 | the interval is `MilesPerTier` and its conversion; the maximum tier distance is `tier_count` intervals and the buffer `tier_count + 2` intervals, in miles and in meters |
| Tiers.DistancesOrdered | FCGenerateServiceAreas_v3.0.py:65-70 | with a positive interval and at least one tier, `0 < interval <= maximum < buffer` in meters |
| Tiers.ScaleMonotone | FCGenerateServiceAreas_v3.0.py:67-69 | scaling a positive distance by a larger factor gives a larger distance |
| Tiers.MaxTierIsLastTier | FCGenerateServiceAreas_v3.0.py:67-68 | the maximum tier distance equals the last tier's travel cost, in miles and in meters |
| PyStr.Split | FCGenerateServiceAreas_v3.0.py:72 | `str.split(sep)` never returns an empty list |
| PyStr.SplitPiecesAreSeparatorFree | FCGenerateServiceAreas_v3.0.py:72 | no piece of a split contains the separator |
| PyStr.SplitCount | FCGenerateServiceAreas_v3.0.py:72 | a split has one more piece than the string has separators |
| PyStr.JoinSplit | FCGenerateServiceAreas_v3.0.py:365 | joining the pieces with the separator gives back the original string |
| PyStr.SplitJoin | FCGenerateServiceAreas_v3.0.py:365 | splitting a join of separator-free pieces gives back the pieces |
| PyStr.SplitCons | FCGenerateServiceAreas_v3.0.py:365 | a leading character other than the separator becomes the first character of the first piece |
| PyStr.SplitPrefix | FCGenerateServiceAreas_v3.0.py:365 | a separator-free prefix becomes part of the first piece of the split |
| PyStr.LStrip | FCGenerateServiceAreas_v3.0.py:365 | the whitespace `int` skips (tab to carriage return, and space; not 0x1C to 0x1F): the result is a suffix of the text that does not start with whitespace |
| PyStr.LStripDropsOnlySpace | FCGenerateServiceAreas_v3.0.py:365 | every character `LStrip` drops is whitespace |
| PyStr.RStrip | FCGenerateServiceAreas_v3.0.py:365 | the whitespace `int` skips (tab to carriage return, and space; not 0x1C to 0x1F): the result is a prefix of the text that does not end with whitespace |
| PyStr.RStripDropsOnlySpace | FCGenerateServiceAreas_v3.0.py:365 | every character `RStrip` drops is whitespace |
| PyStr.ParseInt | FCGenerateServiceAreas_v3.0.py:365 | `int(s)` accepts a string only if it holds a decimal digit, so the empty string and text without digits raise |
| PyStr.ParseIntPadded | FCGenerateServiceAreas_v3.0.py:365 | whitespace on either side of an integer's decimal is skipped: `int(pre + '%d' % i + post) == i` for whitespace `pre` and `post`, as for the pieces of `"1 \| 2"` |
| PyStr.LStripPadded | FCGenerateServiceAreas_v3.0.py:365 | stripping leading whitespace before text that does not start with whitespace leaves exactly that text |
| PyStr.RStripPadded | FCGenerateServiceAreas_v3.0.py:365 | stripping trailing whitespace after text that does not end with whitespace leaves exactly that text |
| PyStr.NatToString | FCGenerateServiceAreas_v3.0.py:80 | `'%d' % n` for `n >= 0`: a non-empty run of digits with no leading zero |
| PyStr.IntToString | FCGenerateServiceAreas_v3.0.py:80 | `'%d' % i`: digits, with a leading minus sign exactly when `i < 0` |
| PyStr.DigitsValueOfNatToString | FCGenerateServiceAreas_v3.0.py:80 | the digits of `n` denote `n` |
| PyStr.ParseUnsignedOfNatToString | FCGenerateServiceAreas_v3.0.py:365 | the digits of `n` parse back to `n` |
| PyStr.ParseSignedOfIntToString | FCGenerateServiceAreas_v3.0.py:365 | the decimal of any integer, sign included, parses back to it |
| PyStr.ParseIntOfIntToString | FCGenerateServiceAreas_v3.0.py:365 | `int('%d' % i) == i` for every integer (no digit limit; see "## Left out") |
| PyStr.NoDigitAnywhere | FCGenerateServiceAreas_v3.0.py:365 | a string without a digit has no digit at any index |
| PyStr.StrippedNeedsDigit | FCGenerateServiceAreas_v3.0.py:365 | text without a decimal digit, the empty string included, is no number once stripped |
| PyStr.ParseSignedNeedsDigit | FCGenerateServiceAreas_v3.0.py:365 | text without a digit is not an optionally signed digit group |
| Fields.OutputTableFieldsShape | FCGenerateServiceAreas_v3.0.py:87-93 | the constant `Fields.OutputTableFields`, which is `output_tablefields` in declaration order, has five distinct names in the order TIERNUM, TIERNAME, ORDERMIN, 1WAYMILES, 1WAYMETERS |
| Fields.FieldObjectsOf | FCGenerateServiceAreas_v3.0.py:351 | one field object per output entry, in table order, with that entry's name and type |
| Fields.CollectFieldObjects | FCGenerateServiceAreas_v3.0.py:104-105 | one field object per output entry, in table order, with the entry's name and type |
| Fields.SpecValue | FCGenerateServiceAreas_v3.0.py:370 | the value `tier_specs[idx][k]` written to the field of `k`: each key selects its own component of the entry (tier number, name, order minimum, miles, meters), and the value is NULL exactly for the order minimum of a tier that has none |
| Fields.OptionalString | FCGenerateServiceAreas_v3.0.py:83 | an order minimum of `None` is written as NULL, and a string minimum as that string |
| Fields.SpecValuesFitFieldTypes | FCGenerateServiceAreas_v3.0.py:87-93 | each value written from a tier entry has its output field's type, or is NULL |
| CostLevels.ParseAll | FCGenerateServiceAreas_v3.0.py:365 | the list succeeds exactly when every piece parses, and then holds the pieces' values in order |
| CostLevels.ParseAllFirstError | FCGenerateServiceAreas_v3.0.py:365 | when the list raises, the error is the first piece `int` rejects |
| CostLevels.FirstUnparsableShift | FCGenerateServiceAreas_v3.0.py:365 | behind a piece that parses, the first rejected piece of the rest is the first rejected piece of the whole |
| CostLevels.MinOf | FCGenerateServiceAreas_v3.0.py:366 | `min` returns an element of the list that no element is below |
| CostLevels.ParseCostLevels | FCGenerateServiceAreas_v3.0.py:365 | the parsed id holds one cost level per `|`-separated piece, so never none |
| CostLevels.TierKey | FCGenerateServiceAreas_v3.0.py:365-366 | the key exists exactly when every piece of the id parses, and it is then the smallest parsed value; otherwise the error is the first rejected piece |
| CostLevels.ParseFormatCostLevels | FCGenerateServiceAreas_v3.0.py:365 | parsing a `|`-joined list of decimals gives back the cost levels |
| CostLevels.TierKeyOfFormatted | FCGenerateServiceAreas_v3.0.py:365-366 | a region covered by the levels `levels` gets the key `min(levels)` |
| CostLevels.OverlapTakesNearestLevel | FCGenerateServiceAreas_v3.0.py:365-366 | the id "2\|4" gets the key 2 |
| CostLevels.EmptyIdRejected | FCGenerateServiceAreas_v3.0.py:365 | an empty id would split into one empty piece that `int` rejects |
| Resolver.Truthy | FCGenerateServiceAreas_v3.0.py:364 | `if intersect_idfieldval:` is false exactly for NULL, `0`, `""` and `0.0` |
| Resolver.WriteFields | FCGenerateServiceAreas_v3.0.py:369-370 | the writes succeed exactly when the feature has every output field, and keep its field set; otherwise the error names a missing output field |
| Resolver.WriteFieldsValues | FCGenerateServiceAreas_v3.0.py:369-370 | fields outside the table keep their values; with distinct names, each output field holds its tier-entry value |
| Resolver.ResolveFeature | FCGenerateServiceAreas_v3.0.py:360-372 | a feature written back keeps its geometry, its field set and every non-output field's value |
| Resolver.UnsetIdLeavesFeature | FCGenerateServiceAreas_v3.0.py:362-364 | a NULL or empty id leaves the feature as it was, with none of the five fields written |
| Resolver.ResolveLabelsIffKnownKey | FCGenerateServiceAreas_v3.0.py:364-370 | for a well-formed id with key `key`: when `key` is in the table the five output fields take that entry's values, and otherwise the feature is unchanged |
| Resolver.KnownKeyLabels | FCGenerateServiceAreas_v3.0.py:366-370 | a key that is a table index gives all five attributes of tier index `key`: TIERNUM `key+1`, that tier's name, the `key`-th order minimum (NULL past the list), 1WAYMILES `(key+1) * MilesPerTier` and 1WAYMETERS its conversion to meters |
| Resolver.IndexFieldsFromEntry | FCGenerateServiceAreas_v3.0.py:76-84 | attributes holding the output values of the table entry for index `i` carry those five attributes of tier index `i` |
| Resolver.TierFieldsFromEntry | FCGenerateServiceAreas_v3.0.py:369-370 | attributes holding a tier entry's output values carry its tier number in TIERNUM, its name in TIERNAME, its order minimum (or NULL) in ORDERMIN, its miles in 1WAYMILES and its meters in 1WAYMETERS |
| Resolver.CostLevelUsedAsTierIndex | FCGenerateServiceAreas_v3.0.py:366-370 | against the table `BuildTierSpecs` builds, the region is labelled exactly when `0 <= key < tier_count`, and then gets all five attributes of tier index `key` (TIERNUM `key+1`, its name, order minimum, miles and meters); a key equal to `tier_count` leaves it unlabelled |
| Resolver.ResolveErrorCases | FCGenerateServiceAreas_v3.0.py:362-370 | the body raises exactly when the id field is missing, the id is a non-empty non-string, some piece is not an integer, or the key is known and an output field is missing |
| Resolver.ResolveAll | FCGenerateServiceAreas_v3.0.py:360-372 | the loop succeeds exactly when every feature resolves, with one resolved feature per input, in order; otherwise the error is that of the first feature that raises |
| Layers.Names | FCGenerateServiceAreas_v3.0.py:350 | the names of a field list, one per field, in order |
| Layers.NameSetConcat | FCGenerateServiceAreas_v3.0.py:354-356 | the names of a concatenation are the names of its parts |
| Layers.IndicesBelow | FCGenerateServiceAreas_v3.0.py:378 | exactly the indices `0 .. n-1` |
| Layers.NameIndexMap | FCGenerateServiceAreas_v3.0.py:350-377 | `fieldNameMap()` has exactly the fields' names as keys |
| Layers.NameIndexMapPositions | FCGenerateServiceAreas_v3.0.py:377-378 | with unique names, `fieldNameMap()` sends each name to its field's index |
| Layers.Appended | FCGenerateServiceAreas_v3.0.py:355 | appending keeps names unique; every appended field is a new field whose name the layer lacked |
| Layers.Without | FCGenerateServiceAreas_v3.0.py:355 | exactly the names of the list that are not dropped |
| Layers.AppendedNames | FCGenerateServiceAreas_v3.0.py:355 | the appended names are the new names the layer lacked, in order |
| Layers.WithoutIgnoresAbsent | FCGenerateServiceAreas_v3.0.py:355 | dropping a name that does not occur changes nothing |
| Layers.AppendedAllWhenDisjoint | FCGenerateServiceAreas_v3.0.py:355 | with no clash of names, every new field is appended, in order |
| Layers.DeleteAt | FCGenerateServiceAreas_v3.0.py:380 | deleting never lengthens the field list |
| Layers.DeleteAtNames | FCGenerateServiceAreas_v3.0.py:380 | with unique names, deleting by index keeps names unique, keeps only existing fields, and removes exactly the names at those indices |
| Layers.DeletedNamesWithin | FCGenerateServiceAreas_v3.0.py:378-380 | the names at the deleted indices are names of the list |
| Layers.UniqueSplitLast | FCGenerateServiceAreas_v3.0.py:380 | in a list with unique names, the last name is new to the earlier ones, and they are unique |
| Layers.UniqueSnoc | FCGenerateServiceAreas_v3.0.py:380 | appending a field with a new name keeps names unique |
| Layers.DeletedNamesSnoc | FCGenerateServiceAreas_v3.0.py:378-380 | the names at the deleted indices of a list with one more field |
| Layers.DeleteLeading | FCGenerateServiceAreas_v3.0.py:378-380 | deleting every leading index of `a + b` leaves exactly `b` |
| Layers.DeleteAll | FCGenerateServiceAreas_v3.0.py:380 | deleting every index leaves no field |
| Layers.WithNulls | FCGenerateServiceAreas_v3.0.py:354-356 | after the addition a feature has the new fields, each NULL, and keeps its geometry and old values |
| Layers.StageAll | FCGenerateServiceAreas_v3.0.py:354-356 | every feature, with the new fields added as NULL |
| Layers.Drop | FCGenerateServiceAreas_v3.0.py:380-381 | a feature loses exactly the deleted fields, keeps its geometry, and every remaining field keeps its value |
| Layers.DropAll | FCGenerateServiceAreas_v3.0.py:380-381 | every feature, with the deleted fields removed |
| Layers.Layer.FieldNameMap | FCGenerateServiceAreas_v3.0.py:377 | `prov.fieldNameMap()` has exactly the schema's names as keys and, with unique names, sends each to its field's index |
| Layers.Layer.AddAttributes | FCGenerateServiceAreas_v3.0.py:354-356 | the schema gains the appended fields at the end; every feature gains them as NULL; the layer stays consistent |
| Layers.Layer.PopulateTiers | FCGenerateServiceAreas_v3.0.py:358-373 | when every feature resolves, the array holds the resolved features; when one raises, the session rolls back and returns the first error |
| Layers.Layer.Restore | FCGenerateServiceAreas_v3.0.py:358-373 | the rollback puts every saved feature back |
| Layers.Layer.DeleteAttributes | FCGenerateServiceAreas_v3.0.py:380-381 | the schema loses the fields at the indices; every feature loses those names |
| Layers.Layer.MigrateSchema | FCGenerateServiceAreas_v3.0.py:350-381 | on success the schema is exactly the appended output fields and each feature is its resolved self without the original fields; if resolution raises, the added fields stay and the features are as after the addition |
| Layers.Layer.DeleteOriginalFields | FCGenerateServiceAreas_v3.0.py:375-381 | with the original fields leading the schema, looking their names up in `fieldNameMap()` and deleting those indices leaves exactly the rest of the schema, and removes the original names from every feature |
| Layers.LeadingFieldIndices | FCGenerateServiceAreas_v3.0.py:377-378 | after appending, the original names map exactly to the leading indices, and those indices hold exactly the original names |
| Layers.OriginalNamesMapToLeading | FCGenerateServiceAreas_v3.0.py:377-378 | the indices looked up for the original names are exactly `0 .. len(orig)-1` |
| Layers.LeadingIndicesHoldOriginalNames | FCGenerateServiceAreas_v3.0.py:378-380 | the leading indices of `orig + added` hold exactly the names of `orig` |
| Layers.ResolveAllKeepsKeys | FCGenerateServiceAreas_v3.0.py:360-372 | resolution keeps every feature's field set |
| Layers.ResolvedUpToExtend | FCGenerateServiceAreas_v3.0.py:360-372 | writing back one more resolved feature extends the resolved prefix |
| Layers.ResolveAllSucceeds | FCGenerateServiceAreas_v3.0.py:360-372 | when every feature resolves, the loop's result is the features as resolved |
| Layers.ResolveAllFailsAt | FCGenerateServiceAreas_v3.0.py:360-372 | the first feature that raises decides the loop's error |
| Layers.OutputObjectsShape | FCGenerateServiceAreas_v3.0.py:351 | the output field objects have unique names in declaration order |
| Layers.MigratedSchemaIsOutputFields | FCGenerateServiceAreas_v3.0.py:350-381 | when the original names avoid the output names, the final schema is exactly TIERNUM, TIERNAME, ORDERMIN, 1WAYMILES, 1WAYMETERS |
| Layers.MigratedSchemaNames | FCGenerateServiceAreas_v3.0.py:350-381 | in general the final schema holds the output names that did not clash, in order, and none of the original names |

## Left out

- Every external processing algorithm the script calls, because their
  geometric semantics cannot be seen:
  - buffer and clip;
  - line merges and intersections;
  - centroids and extractions;
  - the auto-incremental ids;
  - the QNEAT3 isochrones and the SAGA self-intersection;
  - the final dissolve.

  The self-intersection output is taken as an array of features, each
  carrying an `ID` value.
- The QGIS project, the "Results" layer-tree group, and the feedback and
  logging calls. `printAllFeatures`, `getLayerFeatureCount` and
  `getLayerAttrNames` are left out too. All of these are host I/O.
- Parameter declaration and the algorithm's metadata methods. They are UI
  registration.
- The optional debug-output parameter checks. They only choose where
  intermediate layers go.
- Tiers.MilesToMeters: exact real arithmetic, not IEEE-754 doubles, because
  floating-point rounding is out of scope. The same holds for every distance
  in `Tiers.DeriveDistances` and `Tiers.BuildTierSpecs`.
- Resolver.ResolveFeature: a feature's fields are looked up by their exact
  names, for the `ID` read and for the five writes of `Resolver.WriteFields`.
  QGIS also finds a field whose name matches up to letter case, or whose
  alias matches. So a layer with an `id` field but no `ID` field is labelled
  by QGIS, while the model raises `MissingField`. That fallback is not
  modelled.
- PyStr.ParseInt: only ASCII digits and ASCII whitespace. Python also
  accepts other Unicode decimal digits and spaces; that table is not
  modelled.
- PyStr.ParseInt: no limit on the number of digits. Python 3.11 and later,
  and the 3.7.14, 3.8.14, 3.9.14 and 3.10.7 security releases, refuse by
  default to convert between `int` and decimal text of more than 4300
  digits. On those interpreters `int(s)` raises `ValueError` for a longer
  digit group, where the model returns a value. The limit depends on the
  interpreter version and its settings, and it is never reached by the small
  cost-level ids the self-intersection writes.
- PyStr.ParseIntOfIntToString: holds for every integer only without that
  digit limit; on the interpreters above, both `'%d' % i` and `int()` raise
  once `i` has more than 4300 digits.
- Layers.Appended: a field whose name the layer already has is skipped, the
  way a QGIS field collection refuses a duplicate name. What a particular
  data provider does beyond that is not modelled.
- Layers.Layer.MigrateSchema: `list(prov.fieldNameMap())` is taken as the
  set of original names. Its order does not matter, because the deletion only
  uses the indices.
- `edit()` and the data-provider calls are kept only for their effect on
  the field list and the feature values. Commit failures, undo stacks and
  `updateFields()` are not modelled. An exception in the filling session
  restores every feature. The addition session has committed by then.
- Geometry is carried through unexamined as rings of points.
