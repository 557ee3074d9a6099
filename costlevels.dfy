/**
 * Composite coverage identifiers of the self-intersection regions: the
 * cost-level ids of every isochrone covering a region, joined by `|`.
 */
module CostLevels {
  import opened Wrappers
  import opened PyStr
  import opened Tiers

  /**
   * `[int(s) for s in pieces]`: all pieces parsed, or the first piece that
   * `int` rejects.
   */
  function ParseAll(pieces: seq<string>): (r: Result<seq<int>, string>)
    ensures r.Ok? <==> forall k :: 0 <= k < |pieces| ==> ParseInt(pieces[k]).Some?
    ensures r.Ok? ==> |r.value| == |pieces|
    ensures r.Ok? ==> forall k :: 0 <= k < |pieces| ==> ParseInt(pieces[k]) == Some(r.value[k])
  {
    if pieces == [] then Ok([])
    else
      var tail := pieces[1..];
      assert forall k :: 1 <= k < |pieces| ==> pieces[k] == tail[k - 1];
      match ParseInt(pieces[0])
      case None => Err(pieces[0])
      case Some(v) =>
        match ParseAll(tail)
        case Err(p) => Err(p)
        case Ok(vs) => Ok([v] + vs)
  }

  /** Piece `k` is the first one `int` rejects. */
  ghost predicate FirstUnparsable(pieces: seq<string>, k: int)
  {
    && 0 <= k < |pieces|
    && ParseInt(pieces[k]).None?
    && forall j :: 0 <= j < k ==> ParseInt(pieces[j]).Some?
  }

  /** When the list comprehension raises, it does so on the first piece `int` rejects. */
  lemma {:induction false} ParseAllFirstError(pieces: seq<string>)
    requires ParseAll(pieces).Err?
    ensures exists k :: FirstUnparsable(pieces, k) && ParseAll(pieces).error == pieces[k]
  {
    if ParseInt(pieces[0]).None? {
      assert FirstUnparsable(pieces, 0);
    } else {
      ParseAllFirstError(pieces[1..]);
      var k :| FirstUnparsable(pieces[1..], k) && ParseAll(pieces[1..]).error == pieces[1..][k];
      FirstUnparsableShift(pieces, k);
    }
  }

  /** Behind a piece that parses, the first rejected piece of the rest is the first of the whole. */
  lemma FirstUnparsableShift(pieces: seq<string>, k: int)
    requires |pieces| >= 1 && ParseInt(pieces[0]).Some?
    requires FirstUnparsable(pieces[1..], k)
    ensures FirstUnparsable(pieces, k + 1) && pieces[k + 1] == pieces[1..][k]
  {
    forall j | 0 <= j < k + 1 ensures ParseInt(pieces[j]).Some? {
      if j > 0 {
        assert pieces[j] == pieces[1..][j - 1];
      }
    }
  }

  /** `min(xs)`: an element of `xs` that no element is below. */
  function MinOf(xs: seq<int>): (m: int)
    requires |xs| >= 1
    ensures m in xs
    ensures forall k :: 0 <= k < |xs| ==> m <= xs[k]
  {
    if |xs| == 1 then xs[0]
    else
      var r := MinOf(xs[1..]);
      if xs[0] <= r then xs[0] else r
  }

  /**
   * The cost-level ids encoded in a composite identifier: one per
   * `|`-separated piece, so never none, or the first piece `int` rejects.
   */
  function ParseCostLevels(id: string): (r: Result<seq<int>, string>)
    ensures r.Ok? ==> |r.value| == |Split(id, Delimiter)| >= 1
  {
    ParseAll(Split(id, Delimiter))
  }

  /**
   * `min([int(s) for s in id.split('|')])`: the smallest cost-level id
   * covering the region, or the first piece `int` rejects.
   */
  function TierKey(id: string): (r: Result<int, string>)
    ensures r.Ok? <==> ParseCostLevels(id).Ok?
    ensures r.Ok? ==> r.value in ParseCostLevels(id).value
    ensures r.Ok? ==> forall k :: 0 <= k < |ParseCostLevels(id).value| ==> r.value <= ParseCostLevels(id).value[k]
    ensures r.Err? ==> r == Err(ParseCostLevels(id).error)
  {
    match ParseCostLevels(id)
    case Err(p) => Err(p)
    case Ok(levels) => Ok(MinOf(levels))
  }

  /** The composite identifier of a list of cost-level ids: their decimals joined by `|`. */
  function FormatCostLevels(levels: seq<int>): string
  {
    Join(seq(|levels|, k requires 0 <= k < |levels| => IntToString(levels[k])), Delimiter)
  }

  /** Parsing a formatted composite identifier gives back its cost-level ids. */
  lemma ParseFormatCostLevels(levels: seq<int>)
    requires |levels| >= 1
    ensures ParseCostLevels(FormatCostLevels(levels)) == Ok(levels)
  {
    var pieces := seq(|levels|, k requires 0 <= k < |levels| => IntToString(levels[k]));
    forall k | 0 <= k < |pieces| ensures Delimiter !in pieces[k] && ParseInt(pieces[k]) == Some(levels[k]) {
      ParseIntOfIntToString(levels[k]);
    }
    SplitJoin(pieces, Delimiter);
    var r := ParseAll(pieces);
    assert r.Ok?;
    assert r.value == levels;
  }

  /** A region covered by cost levels `levels` gets the key `min(levels)`. */
  lemma TierKeyOfFormatted(levels: seq<int>)
    requires |levels| >= 1
    ensures TierKey(FormatCostLevels(levels)) == Ok(MinOf(levels))
  {
    ParseFormatCostLevels(levels);
  }

  /** Two overlapping isochrones of cost levels 2 and 4: the region's key is 2. */
  lemma OverlapTakesNearestLevel()
    ensures TierKey("2|4") == Ok(2)
  {
    assert FormatCostLevels([2, 4]) == "2|4" by {
      var pieces := seq(2, k requires 0 <= k < 2 => IntToString([2, 4][k]));
      assert NatToString(2) == "2" && NatToString(4) == "4";
      assert pieces == ["2", "4"];
      assert Join(["2", "4"], Delimiter) == "2" + "|" + Join(["4"], Delimiter);
    }
    TierKeyOfFormatted([2, 4]);
  }

  /** The empty identifier is one empty piece, which `int` rejects. */
  lemma EmptyIdRejected()
    ensures TierKey("") == Err("")
  {
    assert Split("", Delimiter) == [""];
  }
}
