/**
 * The self-intersection layer and the schema migration done on it in
 * three edit sessions: add the five output fields, fill them feature by
 * feature, delete every field the layer had before.
 */
module Layers {
  import opened Wrappers
  import opened Tiers
  import opened Fields
  import opened Resolver

  /**
   * The names of a field list, in order.  `Fields.OutputNames` is the same
   * notion over the rows of `output_tablefields`, before they become field
   * objects; `OutputObjectsShape` proves the two agree on the output table.
   */
  function Names(fs: seq<Field>): (names: seq<string>)
    ensures |names| == |fs|
    ensures forall k :: 0 <= k < |fs| ==> names[k] == fs[k].name
  {
    if fs == [] then [] else [fs[0].name] + Names(fs[1..])
  }

  /** The set of names of a field list. */
  function NameSet(fs: seq<Field>): set<string>
  {
    set f | f in fs :: f.name
  }

  /** The names of a concatenation are the names of its parts. */
  lemma NameSetConcat(a: seq<Field>, b: seq<Field>)
    ensures NameSet(a + b) == NameSet(a) + NameSet(b)
  {
    assert forall f :: f in a + b <==> f in a || f in b;
  }

  /** The indices `0 .. n-1`. */
  function IndicesBelow(n: nat): (ids: set<int>)
    ensures forall j :: j in ids <==> 0 <= j < n
  {
    if n == 0 then {} else IndicesBelow(n - 1) + {n - 1}
  }

  /**
   * No two fields share a name: `Fields.DistinctNames` over field objects,
   * which `OutputObjectsShape` shows for the output table's objects.
   */
  predicate UniqueNames(fs: seq<Field>)
  {
    forall j, k :: 0 <= j < k < |fs| ==> fs[j].name != fs[k].name
  }

  /**
   * `fieldNameMap()`: each name to the index of its field; were a name to
   * occur twice, the later field would win.
   */
  function NameIndexMap(fs: seq<Field>): (m: map<string, int>)
    ensures m.Keys == NameSet(fs)
  {
    if fs == [] then map[]
    else
      var init, last := fs[..|fs| - 1], fs[|fs| - 1];
      assert init + [last] == fs;
      NameSetConcat(init, [last]);
      NameIndexMap(init)[last.name := |fs| - 1]
  }

  /** With unique names, the name map sends each field's name to its index. */
  lemma {:induction false} NameIndexMapPositions(fs: seq<Field>)
    requires UniqueNames(fs)
    ensures forall k :: 0 <= k < |fs| ==> NameIndexMap(fs)[fs[k].name] == k
  {
    if fs != [] {
      var init, last := fs[..|fs| - 1], fs[|fs| - 1];
      assert init + [last] == fs;
      UniqueSplitLast(init, last);
      NameIndexMapPositions(init);
      forall k | 0 <= k < |fs| ensures NameIndexMap(fs)[fs[k].name] == k {
        if k < |init| {
          assert fs[k] == init[k] && init[k] in init;
        }
      }
    }
  }

  /**
   * The fields `addAttributes(incoming)` appends: each new field in order,
   * except one whose name the layer already has (a field collection
   * refuses a duplicate name).
   */
  function Appended(existing: seq<Field>, incoming: seq<Field>): (added: seq<Field>)
    ensures UniqueNames(existing) ==> UniqueNames(existing + added)
    ensures forall f :: f in added ==> f in incoming && f.name !in NameSet(existing)
    decreases |incoming|
  {
    if incoming == [] then []
    else if incoming[0].name in NameSet(existing) then
      var rest := Appended(existing, incoming[1..]);
      assert forall f :: f in rest ==> f in incoming;
      rest
    else
      var ext := existing + [incoming[0]];
      var rest := Appended(ext, incoming[1..]);
      NameSetConcat(existing, [incoming[0]]);
      assert existing + ([incoming[0]] + rest) == ext + rest;
      assert forall f :: f in rest ==> f in incoming;
      [incoming[0]] + rest
  }

  /** The names of `names` that are not in `drop`, in order. */
  function Without(names: seq<string>, drop: set<string>): (r: seq<string>)
    ensures forall n :: n in r <==> n in names && n !in drop
  {
    if names == [] then []
    else (if names[0] in drop then [] else [names[0]]) + Without(names[1..], drop)
  }

  /** The names appended are exactly the new names the layer did not have, in order. */
  lemma {:induction false} AppendedNames(existing: seq<Field>, incoming: seq<Field>)
    requires UniqueNames(incoming)
    ensures Names(Appended(existing, incoming)) == Without(Names(incoming), NameSet(existing))
    decreases |incoming|
  {
    if incoming != [] {
      var head, tail := incoming[0], incoming[1..];
      var drop := NameSet(existing);
      assert Names(incoming) == [head.name] + Names(tail);
      assert UniqueNames(tail) by {
        forall j, k | 0 <= j < k < |tail| ensures tail[j].name != tail[k].name {
          assert tail[j] == incoming[j + 1] && tail[k] == incoming[k + 1];
        }
      }
      assert Without(Names(incoming), drop) ==
        (if head.name in drop then [] else [head.name]) + Without(Names(tail), drop);
      if head.name in drop {
        AppendedNames(existing, tail);
      } else {
        var ext := existing + [head];
        AppendedNames(ext, tail);
        NameSetConcat(existing, [head]);
        assert NameSet([head]) == {head.name};
        assert head.name !in Names(tail) by {
          forall k | 0 <= k < |tail| ensures Names(tail)[k] != head.name {
            assert tail[k] == incoming[k + 1];
          }
        }
        WithoutIgnoresAbsent(Names(tail), drop, head.name);
        assert Appended(existing, incoming) == [head] + Appended(ext, tail);
        assert Names([head] + Appended(ext, tail)) == [head.name] + Names(Appended(ext, tail));
      }
    }
  }

  /** Dropping a name that does not occur changes nothing. */
  lemma {:induction false} WithoutIgnoresAbsent(names: seq<string>, drop: set<string>, n: string)
    requires n !in names
    ensures Without(names, drop + {n}) == Without(names, drop)
  {
    if names != [] {
      WithoutIgnoresAbsent(names[1..], drop, n);
    }
  }

  /** When none of the new names is on the layer, every new field is appended. */
  lemma {:induction false} AppendedAllWhenDisjoint(existing: seq<Field>, incoming: seq<Field>)
    requires UniqueNames(incoming)
    requires NameSet(existing) !! NameSet(incoming)
    ensures Appended(existing, incoming) == incoming
    decreases |incoming|
  {
    if incoming != [] {
      var ext := existing + [incoming[0]];
      assert incoming == [incoming[0]] + incoming[1..];
      NameSetConcat([incoming[0]], incoming[1..]);
      NameSetConcat(existing, [incoming[0]]);
      forall n | n in NameSet(incoming[1..]) ensures n != incoming[0].name {
        var f :| f in incoming[1..] && f.name == n;
        var k :| 0 <= k < |incoming[1..]| && incoming[1..][k] == f;
        assert incoming[k + 1] == f;
      }
      AppendedAllWhenDisjoint(ext, incoming[1..]);
    }
  }

  /** `deleteAttributes(ids)`: the fields whose index is not in `ids`, in order. */
  function DeleteAt(fs: seq<Field>, ids: set<int>): (r: seq<Field>)
    ensures |r| <= |fs|
  {
    if fs == [] then []
    else DeleteAt(fs[..|fs| - 1], ids) + (if |fs| - 1 in ids then [] else [fs[|fs| - 1]])
  }

  /** The names of the fields at the indices `ids`. */
  function DeletedNames(fs: seq<Field>, ids: set<int>): set<string>
  {
    set j | j in ids && 0 <= j < |fs| :: fs[j].name
  }

  /** With unique names, deleting by index removes exactly the names at those indices. */
  lemma {:induction false} DeleteAtNames(fs: seq<Field>, ids: set<int>)
    requires UniqueNames(fs)
    ensures UniqueNames(DeleteAt(fs, ids))
    ensures forall f :: f in DeleteAt(fs, ids) ==> f in fs
    ensures NameSet(DeleteAt(fs, ids)) == NameSet(fs) - DeletedNames(fs, ids)
  {
    if fs != [] {
      var init := fs[..|fs| - 1];
      var last := fs[|fs| - 1];
      assert init + [last] == fs;
      UniqueSplitLast(init, last);
      DeleteAtNames(init, ids);
      var kept := DeleteAt(init, ids);
      NameSetConcat(init, [last]);
      DeletedNamesSnoc(init, last, ids);
      DeletedNamesWithin(init, ids);
      assert NameSet([last]) == {last.name};
      assert last.name !in DeletedNames(init, ids);
      if |fs| - 1 !in ids {
        assert DeleteAt(fs, ids) == kept + [last];
        NameSetConcat(kept, [last]);
        UniqueSnoc(kept, last);
        assert NameSet(DeleteAt(fs, ids)) == NameSet(kept) + {last.name};
      } else {
        assert DeleteAt(fs, ids) == kept;
        assert DeletedNames(fs, ids) == DeletedNames(init, ids) + {last.name};
      }
    }
  }

  /** The names at some indices are names of the list. */
  lemma DeletedNamesWithin(fs: seq<Field>, ids: set<int>)
    ensures DeletedNames(fs, ids) <= NameSet(fs)
  {
    forall n | n in DeletedNames(fs, ids) ensures n in NameSet(fs) {
      var j :| j in ids && 0 <= j < |fs| && fs[j].name == n;
      assert fs[j] in fs;
    }
  }

  /** In a list with unique names, the last name is not among the earlier ones, which are unique too. */
  lemma UniqueSplitLast(init: seq<Field>, last: Field)
    requires UniqueNames(init + [last])
    ensures UniqueNames(init)
    ensures last.name !in NameSet(init)
  {
    var fs := init + [last];
    assert forall k :: 0 <= k < |init| ==> fs[k] == init[k];
    forall f | f in init ensures f.name != last.name {
      var k :| 0 <= k < |init| && init[k] == f;
      assert fs[|init|] == last;
    }
  }

  /** Appending a field with a new name keeps names unique. */
  lemma UniqueSnoc(kept: seq<Field>, last: Field)
    requires UniqueNames(kept) && last.name !in NameSet(kept)
    ensures UniqueNames(kept + [last])
  {
    var r := kept + [last];
    forall j, k | 0 <= j < k < |r| ensures r[j].name != r[k].name {
      if k == |r| - 1 {
        assert r[j] == kept[j] && kept[j] in kept;
      } else {
        assert r[j] == kept[j] && r[k] == kept[k];
      }
    }
  }

  /** The names at the indices `ids` of a list with one more field. */
  lemma DeletedNamesSnoc(init: seq<Field>, last: Field, ids: set<int>)
    ensures DeletedNames(init + [last], ids) ==
      DeletedNames(init, ids) + (if |init| in ids then {last.name} else {})
  {
    var fs := init + [last];
    forall n | n in DeletedNames(fs, ids) && n != last.name ensures n in DeletedNames(init, ids) {
      var j :| j in ids && 0 <= j < |fs| && fs[j].name == n;
      assert j < |init| && init[j] == fs[j];
    }
    forall n | n in DeletedNames(init, ids) ensures n in DeletedNames(fs, ids) {
      var j :| j in ids && 0 <= j < |init| && init[j].name == n;
      assert fs[j] == init[j];
    }
    if |init| in ids {
      assert fs[|init|] == last;
    }
    forall n | n in DeletedNames(fs, ids) && n == last.name && |init| !in ids ensures n in DeletedNames(init, ids) {
      var j :| j in ids && 0 <= j < |fs| && fs[j].name == n;
      assert j < |init| && init[j] == fs[j];
    }
  }

  /** Deleting every leading index of `a + b` leaves `b`. */
  lemma {:induction false} DeleteLeading(a: seq<Field>, b: seq<Field>)
    ensures DeleteAt(a + b, IndicesBelow(|a|)) == b
    decreases |b|
  {
    var ids := IndicesBelow(|a|);
    if b == [] {
      assert a + b == a;
      DeleteAll(a, ids);
    } else {
      var b' := b[..|b| - 1];
      assert (a + b)[..|a + b| - 1] == a + b';
      DeleteLeading(a, b');
      assert b' + [b[|b| - 1]] == b;
    }
  }

  /** Deleting every index leaves nothing. */
  lemma {:induction false} DeleteAll(fs: seq<Field>, ids: set<int>)
    requires forall j :: 0 <= j < |fs| ==> j in ids
    ensures DeleteAt(fs, ids) == []
  {
    if fs != [] {
      DeleteAll(fs[..|fs| - 1], ids);
    }
  }

  /** A feature after `addAttributes`: the added fields are present and unset. */
  function WithNulls(f: Feature, added: seq<Field>): (g: Feature)
    ensures g.rings == f.rings && g.attrs.Keys == f.attrs.Keys + NameSet(added)
    ensures forall n :: n in f.attrs && n !in NameSet(added) ==> g.attrs[n] == f.attrs[n]
    ensures forall n :: n in NameSet(added) ==> g.attrs[n] == Null
  {
    f.(attrs := f.attrs + map n | n in NameSet(added) :: Null)
  }

  /** Every feature after `addAttributes`. */
  function StageAll(fs: seq<Feature>, added: seq<Field>): (r: seq<Feature>)
    ensures |r| == |fs| && forall i :: 0 <= i < |fs| ==> r[i] == WithNulls(fs[i], added)
  {
    seq(|fs|, i requires 0 <= i < |fs| => WithNulls(fs[i], added))
  }

  /** A feature after its fields `drop` are deleted. */
  function Drop(f: Feature, drop: set<string>): (g: Feature)
    ensures g.rings == f.rings && g.attrs.Keys == f.attrs.Keys - drop
    ensures forall n :: n in g.attrs ==> g.attrs[n] == f.attrs[n]
  {
    f.(attrs := f.attrs - drop)
  }

  /** Every feature after the fields `drop` are deleted. */
  function DropAll(fs: seq<Feature>, drop: set<string>): (r: seq<Feature>)
    ensures |r| == |fs| && forall i :: 0 <= i < |fs| ==> r[i] == Drop(fs[i], drop)
  {
    seq(|fs|, i requires 0 <= i < |fs| => Drop(fs[i], drop))
  }

  /** A vector layer: its schema and its features, which hold exactly the schema's fields. */
  class Layer {
    var fields: seq<Field>
    const features: array<Feature>

    ghost predicate Valid()
      reads this, features
    {
      && UniqueNames(fields)
      && forall i :: 0 <= i < features.Length ==> features[i].attrs.Keys == NameSet(fields)
    }

    constructor (schema: seq<Field>, contents: seq<Feature>)
      requires UniqueNames(schema)
      requires forall i :: 0 <= i < |contents| ==> contents[i].attrs.Keys == NameSet(schema)
      ensures Valid() && fields == schema && features[..] == contents && fresh(features)
    {
      fields := schema;
      features := new Feature[|contents|](i requires 0 <= i < |contents| => contents[i]);
    }

    /**
     * `prov.fieldNameMap()`: every field name of the schema, each mapped to
     * the index of its field when the names are unique.
     */
    function FieldNameMap(): (m: map<string, int>)
      reads this
      ensures m.Keys == NameSet(fields)
      ensures UniqueNames(fields) ==> forall k :: 0 <= k < |fields| ==> m[fields[k].name] == k
    {
      assert UniqueNames(fields) ==> forall k :: 0 <= k < |fields| ==> NameIndexMap(fields)[fields[k].name] == k by {
        if UniqueNames(fields) {
          NameIndexMapPositions(fields);
        }
      }
      NameIndexMap(fields)
    }

    /** `prov.addAttributes(incoming)` then `updateFields()`: fields appended, unset on every feature. */
    method AddAttributes(incoming: seq<Field>)
      requires Valid()
      modifies this, features
      ensures Valid()
      ensures fields == old(fields) + Appended(old(fields), incoming)
      ensures features[..] == StageAll(old(features[..]), Appended(old(fields), incoming))
    {
      var added := Appended(fields, incoming);
      ghost var before := features[..];
      for i := 0 to features.Length
        modifies features
        invariant forall j :: 0 <= j < i ==> features[j] == WithNulls(before[j], added)
        invariant forall j :: i <= j < features.Length ==> features[j] == before[j]
      {
        features[i] := WithNulls(features[i], added);
      }
      NameSetConcat(fields, added);
      fields := fields + added;
    }

    /**
     * The edit session filling the output fields: every feature resolved
     * and written back in order.  If the body raises, the session is rolled
     * back and every feature is as before.
     */
    method PopulateTiers(specs: map<int, TierSpec>) returns (res: Outcome<Error>)
      requires Valid()
      modifies features
      ensures Valid()
      ensures match ResolveAll(old(features[..]), specs)
        case Ok(resolved) => res == Pass && features[..] == resolved
        case Err(e) => res == Fail(e) && features[..] == old(features[..])
    {
      var saved := features[..];
      var i := 0;
      while i < features.Length
        modifies features
        invariant 0 <= i <= features.Length
        invariant |saved| == features.Length
        invariant ResolvedUpTo(saved, features[..], specs, i)
        invariant forall j :: i <= j < features.Length ==> features[j] == saved[j]
      {
        var r := ResolveFeature(saved[i], specs);
        if r.Err? {
          // An exception leaves the `with edit(layer)` block: the layer rolls back.
          ResolveAllFailsAt(saved, specs, i, r.error);
          Restore(saved);
          return Fail(r.error);
        }
        ResolvedUpToExtend(saved, features[..], specs, i, r.value);
        features[i] := r.value;
        i := i + 1;
      }
      ResolveAllSucceeds(saved, specs, features[..]);
      ResolveAllKeepsKeys(saved, specs, NameSet(fields));
      res := Pass;
    }

    /** Rolling back an edit session: every feature gets its saved value. */
    method Restore(saved: seq<Feature>)
      requires |saved| == features.Length
      modifies features
      ensures features[..] == saved
    {
      for j := 0 to features.Length
        invariant forall k :: 0 <= k < j ==> features[k] == saved[k]
      {
        features[j] := saved[j];
      }
    }

    /**
     * `prov.deleteAttributes(ids)` then `updateFields()`: the fields at
     * those indices leave the schema and every feature.
     */
    method DeleteAttributes(ids: set<int>)
      requires Valid()
      modifies this, features
      ensures Valid()
      ensures fields == DeleteAt(old(fields), ids)
      ensures features[..] == DropAll(old(features[..]), DeletedNames(old(fields), ids))
    {
      var gone := DeletedNames(fields, ids);
      ghost var before := features[..];
      for i := 0 to features.Length
        modifies features
        invariant forall j :: 0 <= j < i ==> features[j] == Drop(before[j], gone)
        invariant forall j :: i <= j < features.Length ==> features[j] == before[j]
      {
        features[i] := Drop(features[i], gone);
      }
      DeleteAtNames(fields, ids);
      fields := DeleteAt(fields, ids);
    }

    /**
     * The schema migration: remember the original field names, add
     * the five output fields, fill them, then delete the original fields by
     * name.  If filling raises, the added fields stay (their session was
     * committed) and the features are as after the addition.
     */
    method MigrateSchema(specs: map<int, TierSpec>) returns (res: Outcome<Error>)
      requires Valid()
      modifies this, features
      ensures Valid()
      ensures
        var added := Appended(old(fields), FieldObjectsOf(OutputTableFields));
        var staged := StageAll(old(features[..]), added);
        match ResolveAll(staged, specs)
        case Ok(resolved) =>
          res == Pass && fields == added && features[..] == DropAll(resolved, NameSet(old(fields)))
        case Err(e) =>
          res == Fail(e) && fields == old(fields) + added && features[..] == staged
    {
      var orig := fields;
      var origNames := FieldNameMap().Keys;
      var newFields := CollectFieldObjects(OutputTableFields);
      ghost var added := Appended(orig, newFields);
      ghost var staged := StageAll(features[..], added);
      AddAttributes(newFields);
      assert fields == orig + added && features[..] == staged;
      res := PopulateTiers(specs);
      if res.Fail? {
        return;
      }
      assert ResolveAll(staged, specs) == Ok(features[..]);
      DeleteOriginalFields(origNames, orig);
    }

    /**
     * The third edit session: the fields `orig` lead the schema, and each
     * of their names is looked up in `fieldNameMap()` and its index deleted.
     * What remains is the rest of the schema, on every feature.
     */
    method DeleteOriginalFields(origNames: set<string>, ghost orig: seq<Field>)
      requires Valid()
      requires |orig| <= |fields| && fields[..|orig|] == orig && origNames == NameSet(orig)
      modifies this, features
      ensures Valid()
      ensures fields == old(fields)[|orig|..]
      ensures features[..] == DropAll(old(features[..]), NameSet(orig))
    {
      ghost var added := fields[|orig|..];
      assert fields == orig + added;
      LeadingFieldIndices(orig, added);
      DeleteLeading(orig, added);
      var nameMap := FieldNameMap();
      var ids := set n | n in origNames :: nameMap[n];
      assert ids == IndicesBelow(|orig|);
      DeleteAttributes(ids);
    }
  }

  /**
   * After fields are appended to `orig`, the name map sends the original
   * names exactly to the leading indices, and those indices hold exactly
   * the original names.
   */
  lemma LeadingFieldIndices(orig: seq<Field>, added: seq<Field>)
    requires UniqueNames(orig + added)
    ensures NameSet(orig) <= NameIndexMap(orig + added).Keys
    ensures (set n | n in NameSet(orig) :: NameIndexMap(orig + added)[n]) == IndicesBelow(|orig|)
    ensures DeletedNames(orig + added, IndicesBelow(|orig|)) == NameSet(orig)
  {
    NameSetConcat(orig, added);
    OriginalNamesMapToLeading(orig, added);
    LeadingIndicesHoldOriginalNames(orig, added);
  }

  /** The original names are sent to the leading indices, and every leading index is reached. */
  lemma OriginalNamesMapToLeading(orig: seq<Field>, added: seq<Field>)
    requires UniqueNames(orig + added)
    requires NameSet(orig) <= NameIndexMap(orig + added).Keys
    ensures (set n | n in NameSet(orig) :: NameIndexMap(orig + added)[n]) == IndicesBelow(|orig|)
  {
    var all := orig + added;
    var m := NameIndexMap(all);
    var ids := set n | n in NameSet(orig) :: m[n];
    NameIndexMapPositions(all);
    forall j | 0 <= j < |orig| ensures j in ids {
      assert all[j] == orig[j] && orig[j] in orig;
      assert m[all[j].name] == j;
    }
    forall n | n in NameSet(orig) ensures m[n] in IndicesBelow(|orig|) {
      var f :| f in orig && f.name == n;
      var k :| 0 <= k < |orig| && orig[k] == f;
      assert all[k] == orig[k];
      assert m[all[k].name] == k;
    }
  }

  /** The leading indices of `orig + added` hold exactly the names of `orig`. */
  lemma LeadingIndicesHoldOriginalNames(orig: seq<Field>, added: seq<Field>)
    ensures DeletedNames(orig + added, IndicesBelow(|orig|)) == NameSet(orig)
  {
    var all := orig + added;
    var lead := IndicesBelow(|orig|);
    forall n | n in NameSet(orig) ensures n in DeletedNames(all, lead) {
      var f :| f in orig && f.name == n;
      var k :| 0 <= k < |orig| && orig[k] == f;
      assert all[k] == orig[k];
    }
    forall n | n in DeletedNames(all, lead) ensures n in NameSet(orig) {
      var j :| j in lead && 0 <= j < |all| && all[j].name == n;
      assert all[j] == orig[j] && orig[j] in orig;
    }
  }

  /** Resolution keeps every feature's set of fields. */
  lemma ResolveAllKeepsKeys(fs: seq<Feature>, specs: map<int, TierSpec>, names: set<string>)
    requires forall k :: 0 <= k < |fs| ==> fs[k].attrs.Keys == names
    requires ResolveAll(fs, specs).Ok?
    ensures forall k :: 0 <= k < |fs| ==> ResolveAll(fs, specs).value[k].attrs.Keys == names
  {
    var r := ResolveAll(fs, specs).value;
    forall k | 0 <= k < |fs| ensures r[k].attrs.Keys == names {
      assert ResolveFeature(fs[k], specs) == Ok(r[k]);
    }
  }

  /** The first `i` features of `out` are the first `i` of `fs`, resolved. */
  ghost predicate ResolvedUpTo(fs: seq<Feature>, out: seq<Feature>, specs: map<int, TierSpec>, i: int)
  {
    && 0 <= i <= |fs| == |out|
    && forall j :: 0 <= j < i ==> ResolveFeature(fs[j], specs) == Ok(out[j])
  }

  /** Writing back feature `i` as resolved extends the resolved prefix. */
  lemma ResolvedUpToExtend(fs: seq<Feature>, out: seq<Feature>, specs: map<int, TierSpec>, i: int, g: Feature)
    requires ResolvedUpTo(fs, out, specs, i) && i < |fs|
    requires ResolveFeature(fs[i], specs) == Ok(g)
    ensures ResolvedUpTo(fs, out[i := g], specs, i + 1)
  {
  }

  /** When every feature resolves, the loop's result is the features as resolved. */
  lemma ResolveAllSucceeds(fs: seq<Feature>, specs: map<int, TierSpec>, out: seq<Feature>)
    requires ResolvedUpTo(fs, out, specs, |fs|)
    ensures ResolveAll(fs, specs) == Ok(out)
  {
    var r := ResolveAll(fs, specs);
    assert r.Ok?;
    var v := r.value;
    assert |v| == |out|;
    forall j | 0 <= j < |v| ensures v[j] == out[j] {
      assert ResolveFeature(fs[j], specs) == Ok(v[j]);
    }
    assert v == out;
  }

  /** The first feature whose body raises decides the outcome of the whole loop. */
  lemma ResolveAllFailsAt(fs: seq<Feature>, specs: map<int, TierSpec>, i: nat, e: Error)
    requires i < |fs|
    requires forall j :: 0 <= j < i ==> ResolveFeature(fs[j], specs).Ok?
    requires ResolveFeature(fs[i], specs) == Err(e)
    ensures ResolveAll(fs, specs) == Err(e)
  {
    var whole := ResolveAll(fs, specs);
    assert whole.Err?;
    ghost var k :| FirstFailing(fs, specs, k) && ResolveFeature(fs[k], specs) == Err(whole.error);
    assert k == i;
  }

  /** The output field objects have unique names, listed in declaration order. */
  lemma OutputObjectsShape()
    ensures UniqueNames(FieldObjectsOf(OutputTableFields))
    ensures Names(FieldObjectsOf(OutputTableFields)) == OutputNames(OutputTableFields)
    ensures OutputNames(OutputTableFields) == ["TIERNUM", "TIERNAME", "ORDERMIN", "1WAYMILES", "1WAYMETERS"]
  {
    OutputTableFieldsShape();
    var objs := FieldObjectsOf(OutputTableFields);
    assert forall k :: 0 <= k < |objs| ==> objs[k].name == OutputTableFields[k].fname;
  }

  /**
   * When the original fields and the output fields share no name, the
   * migrated layer has exactly the output fields, in declaration order:
   * TIERNUM, TIERNAME, ORDERMIN, 1WAYMILES, 1WAYMETERS.
   */
  lemma MigratedSchemaIsOutputFields(orig: seq<Field>)
    requires forall n :: n in NameSet(orig) ==> n !in OutputNames(OutputTableFields)
    ensures Appended(orig, FieldObjectsOf(OutputTableFields)) == FieldObjectsOf(OutputTableFields)
    ensures Names(Appended(orig, FieldObjectsOf(OutputTableFields))) ==
      ["TIERNUM", "TIERNAME", "ORDERMIN", "1WAYMILES", "1WAYMETERS"]
  {
    var objs := FieldObjectsOf(OutputTableFields);
    OutputObjectsShape();
    forall n | n in NameSet(objs) ensures n !in NameSet(orig) {
      var f :| f in objs && f.name == n;
      var k :| 0 <= k < |objs| && objs[k] == f;
    }
    AppendedAllWhenDisjoint(orig, objs);
  }

  /**
   * In general the migrated schema holds the output fields that did not
   * clash with an original name, in declaration order, and none of the
   * original names.
   */
  lemma MigratedSchemaNames(orig: seq<Field>)
    ensures Names(Appended(orig, FieldObjectsOf(OutputTableFields))) ==
      Without(OutputNames(OutputTableFields), NameSet(orig))
    ensures NameSet(Appended(orig, FieldObjectsOf(OutputTableFields))) !! NameSet(orig)
  {
    var objs := FieldObjectsOf(OutputTableFields);
    OutputObjectsShape();
    AppendedNames(orig, objs);
    forall n | n in NameSet(Appended(orig, objs)) ensures n !in NameSet(orig) {
      var f :| f in Appended(orig, objs) && f.name == n;
    }
  }
}
