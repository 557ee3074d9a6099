/**
 * The tier table and the distances derived from the tool's parameters
 * `NumTiers`, `MilesPerTier` and `TierMinimums`.
 */
module Tiers {
  import opened Wrappers
  import opened PyStr

  /** Meters in one statute mile. */
  const MetersPerMile: real := 1609.344

  /** The separator of the `TierMinimums` parameter (and of composite ids). */
  const Delimiter: char := '|'

  /** `convertMilesToMeters`: the result converts back to the input and keeps its sign. */
  function MilesToMeters(miles: real): (meters: real)
    ensures meters / MetersPerMile == miles
    ensures (meters > 0.0 <==> miles > 0.0) && (meters == 0.0 <==> miles == 0.0)
  {
    miles * MetersPerMile
  }

  /** The conversion is strictly increasing. */
  lemma MilesToMetersIncreasing(a: real, b: real)
    requires a < b
    ensures MilesToMeters(a) < MilesToMeters(b)
  {
  }

  /** The conversion commutes with scaling. */
  lemma MilesToMetersScales(k: real, miles: real)
    ensures MilesToMeters(k * miles) == k * MilesToMeters(miles)
  {
  }

  /**
   * Python's `l[i]`: defined exactly for `-len(l) <= i < len(l)`, where it
   * is the element at `i` modulo the length; `None` stands for `IndexError`.
   */
  function PyIndex<T>(l: seq<T>, i: int): (r: Option<T>)
    ensures r.Some? <==> -|l| <= i < |l|
    ensures r.Some? ==> r.value == l[i % |l|]
  {
    if 0 <= i < |l| then Some(l[i])
    else if -|l| <= i < 0 then Some(l[|l| + i])
    else None
  }

  /** `getListItemWithDefault(l, i, d)`: `l[i]`, or `d` where indexing raises `IndexError`. */
  function ListItemWithDefault<T>(l: seq<T>, i: int, d: Option<T>): (r: Option<T>)
    ensures 0 <= i < |l| ==> r == Some(l[i])
    ensures -|l| <= i < 0 ==> r == Some(l[|l| + i])
    ensures (i >= |l| || i < -|l|) ==> r == d
  {
    match PyIndex(l, i)
    case Some(v) => Some(v)
    case None => d
  }

  /** One entry of `tier_specs`. */
  datatype TierSpec = TierSpec(
    tierNum: int,
    tierName: string,
    travelCostMi: real,
    travelCostM: real,
    orderMinimum: Option<string>)

  /** The name of a tier: the first tier is the main route, every later one "Tier " and its number. */
  function TierName(tierNum: int): (name: string)
    ensures name == "Main Route" <==> tierNum <= 1
    ensures tierNum > 1 ==> |name| > 5 && name[..5] == "Tier "
  {
    if tierNum > 1 then
      var name := "Tier " + IntToString(tierNum);
      assert name[0] != "Main Route"[0];
      name
    else "Main Route"
  }

  /**
   * For a tier number: the name is "Main Route" exactly for tier 1, and
   * otherwise "Tier " followed by the canonical decimal of the number: digits
   * only, no leading zero, reading back as the number.
   */
  lemma TierNameCases(tierNum: int)
    requires tierNum >= 1
    ensures TierName(tierNum) == "Main Route" <==> tierNum == 1
    ensures tierNum > 1 ==>
      && TierName(tierNum)[..5] == "Tier "
      && (forall k :: 5 <= k < |TierName(tierNum)| ==> IsDigit(TierName(tierNum)[k]))
      && TierName(tierNum)[5] != '0'
      && ParseInt(TierName(tierNum)[5..]) == Some(tierNum)
  {
    if tierNum > 1 {
      var name := TierName(tierNum);
      assert name[0] == 'T';
      assert name[5..] == IntToString(tierNum);
      ParseIntOfIntToString(tierNum);
    }
  }

  /**
   * `entry` is the table entry for index `i`: tier number `i+1`, its name,
   * its one-way distance in miles and meters, and the `i`-th minimum if any.
   */
  predicate IsTierEntry(entry: TierSpec, i: int, milesPerTier: real, tierMins: seq<string>)
  {
    && entry.tierNum == i + 1
    && entry.tierName == TierName(i + 1)
    && entry.travelCostMi == (i + 1) as real * milesPerTier
    && entry.travelCostM == MilesToMeters(entry.travelCostMi)
    && entry.orderMinimum == ListItemWithDefault(tierMins, i, None)
  }

  /** `specs` is the table `processAlgorithm` builds: keys exactly `0 .. tierCount-1`, each with its entry. */
  ghost predicate IsTierTable(specs: map<int, TierSpec>, tierCount: int, milesPerTier: real, tierMins: seq<string>)
  {
    && (forall i :: i in specs <==> 0 <= i < tierCount)
    && forall i :: i in specs ==> IsTierEntry(specs[i], i, milesPerTier, tierMins)
  }

  /** The `for tier_idx in range(tier_count)` loop filling `tier_specs`. */
  method BuildTierSpecs(tierCount: int, milesPerTier: real, tierMins: seq<string>)
    returns (specs: map<int, TierSpec>)
    ensures IsTierTable(specs, tierCount, milesPerTier, tierMins)
  {
    specs := map[];
    var tierIdx := 0;
    while tierIdx < tierCount
      invariant 0 <= tierIdx <= if tierCount < 0 then 0 else tierCount
      invariant IsTierTable(specs, tierIdx, milesPerTier, tierMins)
    {
      var tierNum := tierIdx + 1;
      var travelCostMi := tierNum as real * milesPerTier;
      var entry := TierSpec(
        tierNum,
        TierName(tierNum),
        travelCostMi,
        MilesToMeters(travelCostMi),
        ListItemWithDefault(tierMins, tierIdx, None));
      assert IsTierEntry(entry, tierIdx, milesPerTier, tierMins);
      specs := specs[tierIdx := entry];
      tierIdx := tierIdx + 1;
    }
    assert forall i :: i in specs <==> 0 <= i < tierCount;
  }

  /** With a positive distance per tier, travel cost strictly increases with the tier index, in both units. */
  lemma TierTableIncreasing(specs: map<int, TierSpec>, tierCount: int, milesPerTier: real, tierMins: seq<string>)
    requires IsTierTable(specs, tierCount, milesPerTier, tierMins)
    requires milesPerTier > 0.0
    ensures forall i, j :: i in specs && j in specs && i < j ==>
      specs[i].travelCostMi < specs[j].travelCostMi && specs[i].travelCostM < specs[j].travelCostM
  {
    forall i, j | i in specs && j in specs && i < j
      ensures specs[i].travelCostMi < specs[j].travelCostMi && specs[i].travelCostM < specs[j].travelCostM
    {
      assert IsTierEntry(specs[i], i, milesPerTier, tierMins);
      assert IsTierEntry(specs[j], j, milesPerTier, tierMins);
      LaterEntryFarther(specs[i], i, specs[j], j, milesPerTier, tierMins);
    }
  }

  /** Of two entries, the one with the larger index is farther, in both units. */
  lemma LaterEntryFarther(near: TierSpec, i: int, far: TierSpec, j: int, milesPerTier: real, tierMins: seq<string>)
    requires IsTierEntry(near, i, milesPerTier, tierMins) && IsTierEntry(far, j, milesPerTier, tierMins)
    requires i < j && milesPerTier > 0.0
    ensures near.travelCostMi < far.travelCostMi && near.travelCostM < far.travelCostM
  {
    ScaleMonotone((i + 1) as real, (j + 1) as real, milesPerTier, near.travelCostMi, far.travelCostMi);
    MilesToMetersIncreasing(near.travelCostMi, far.travelCostMi);
  }

  /**
   * Tiers with a supplied minimum get it; tiers beyond the supplied list get none.
   */
  lemma OrderMinimumDefaults(specs: map<int, TierSpec>, tierCount: int, milesPerTier: real, tierMins: seq<string>)
    requires IsTierTable(specs, tierCount, milesPerTier, tierMins)
    ensures forall i :: i in specs && i < |tierMins| ==> specs[i].orderMinimum == Some(tierMins[i])
    ensures forall i :: i in specs && i >= |tierMins| ==> specs[i].orderMinimum == None
  {
  }

  /**
   * An empty `TierMinimums` string splits into one empty piece: the first
   * tier's minimum is the empty string, not `None`, and later tiers get `None`.
   */
  lemma EmptyMinimumsString(specs: map<int, TierSpec>, tierCount: int, milesPerTier: real)
    requires IsTierTable(specs, tierCount, milesPerTier, Split("", Delimiter))
    requires tierCount >= 1
    ensures specs[0].orderMinimum == Some("")
    ensures forall i :: i in specs && i >= 1 ==> specs[i].orderMinimum == None
  {
    assert Split("", Delimiter) == [""];
    assert IsTierEntry(specs[0], 0, milesPerTier, [""]);
  }

  /** The distances derived from the parameters before the table is built. */
  datatype Distances = Distances(
    perTierMi: real,
    perTierM: real,
    maxTierMi: real,
    maxTierM: real,
    bufferMi: real,
    bufferM: real)

  /**
   * The per-tier interval, the maximum tier distance and the buffer
   * distance: the maximum is `tierCount` intervals in both units, and the
   * buffer reaches two tiers beyond it.
   */
  function DeriveDistances(tierCount: int, milesPerTier: real): (d: Distances)
    ensures d.perTierMi == milesPerTier && d.perTierM == MilesToMeters(milesPerTier)
    ensures d.maxTierMi == tierCount as real * d.perTierMi
    ensures d.maxTierM == tierCount as real * d.perTierM
    ensures d.bufferMi == (tierCount + 2) as real * milesPerTier
    ensures d.bufferM == (tierCount + 2) as real * d.perTierM
  {
    var perTierMi := milesPerTier;
    var perTierM := MilesToMeters(perTierMi);
    var maxTierMi := tierCount as real * perTierMi;
    var maxTierM := MilesToMeters(maxTierMi);
    var bufferMi := maxTierMi + perTierMi * 2.0;
    var bufferM := MilesToMeters(bufferMi);
    MilesToMetersScales(tierCount as real, perTierMi);
    MilesToMetersScales((tierCount + 2) as real, perTierMi);
    assert bufferMi == (tierCount + 2) as real * perTierMi;
    Distances(perTierMi, perTierM, maxTierMi, maxTierM, bufferMi, bufferM)
  }

  /** With a positive interval and at least one tier: `0 < interval <= maximum < buffer`, in meters. */
  lemma DistancesOrdered(tierCount: int, milesPerTier: real)
    requires milesPerTier > 0.0 && tierCount >= 1
    ensures var d := DeriveDistances(tierCount, milesPerTier); 0.0 < d.perTierM <= d.maxTierM < d.bufferM
  {
    var d := DeriveDistances(tierCount, milesPerTier);
    ScaleMonotone(1.0, tierCount as real, d.perTierM, d.perTierM, d.maxTierM);
    ScaleMonotone(tierCount as real, (tierCount + 2) as real, d.perTierM, d.maxTierM, d.bufferM);
  }

  /** Scaling a positive quantity preserves the order of the factors. */
  lemma ScaleMonotone(a: real, b: real, x: real, ax: real, bx: real)
    requires a <= b && x > 0.0
    requires ax == a * x && bx == b * x
    ensures ax <= bx
    ensures a < b ==> ax < bx
  {
    assert bx - ax == (b - a) * x;
  }

  /** The maximum tier distance is the last tier's one-way distance, in both units. */
  lemma MaxTierIsLastTier(specs: map<int, TierSpec>, tierCount: int, milesPerTier: real, tierMins: seq<string>)
    requires IsTierTable(specs, tierCount, milesPerTier, tierMins)
    requires tierCount >= 1
    ensures specs[tierCount - 1].travelCostMi == DeriveDistances(tierCount, milesPerTier).maxTierMi
    ensures specs[tierCount - 1].travelCostM == DeriveDistances(tierCount, milesPerTier).maxTierM
  {
    assert IsTierEntry(specs[tierCount - 1], tierCount - 1, milesPerTier, tierMins);
  }
}
