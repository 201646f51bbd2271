/** The referential integrity check `verify_integrity`: one pass over the
    menu items, remembering for every dish id met the name the dish table
    gives it, and counting the repeat occurrences whose remembered name
    compares unequal (Python `!=`) to the name looked up again. */
module Integrity {
  import opened Frames
  import opened Records
  import opened Dedup

  /** Dish `i` is the last row of the dish table carrying its id. */
  ghost predicate IsLastWithId(d: seq<Dish>, i: int) {
    0 <= i < |d| && forall j :: i < j < |d| ==> d[j].id != d[i].id
  }

  /** `dish_df.set_index('id')['name'].to_dict()`: the ids of the dish table,
      each with the name of the last row carrying it. */
  function IdToName(d: seq<Dish>): (names: map<int, Cell>)
    ensures forall k :: k in names <==> exists i :: 0 <= i < |d| && d[i].id == k
  {
    if |d| == 0 then map[]
    else
      var init := d[..|d| - 1];
      assert forall i :: 0 <= i < |init| ==> init[i] == d[i];
      IdToName(init)[d[|d| - 1].id := d[|d| - 1].name]
  }

  /** The name an id looks up is that of the last dish carrying the id. */
  lemma {:induction false} IdToNameLast(d: seq<Dish>, i: int)
    requires IsLastWithId(d, i)
    ensures d[i].id in IdToName(d) && IdToName(d)[d[i].id] == d[i].name
  {
    if i < |d| - 1 {
      var init := d[..|d| - 1];
      assert IsLastWithId(init, i);
      IdToNameLast(init, i);
    }
  }

  /** With unique ids, every dish's id looks up its own name. */
  lemma IdToNameUnique(d: seq<Dish>, i: nat)
    requires UniqueIds(d) && i < |d|
    ensures d[i].id in IdToName(d) && IdToName(d)[d[i].id] == d[i].name
  {
    IdToNameLast(d, i);
  }

  /** What `id_to_name.get(dish_id, None)` returns: `None` for an id that is
      not in the dish table, NaN for a dish whose name is missing, else the
      name. */
  datatype NameLookup = NotFound | Missing | Name(s: string)

  function LookupName(names: map<int, Cell>, id: int): (r: NameLookup)
    ensures r.NotFound? <==> id !in names
    ensures r.Missing? <==> id in names && names[id].None?
    ensures r.Name? ==> id in names && names[id] == Some(r.s)
  {
    if id !in names then NotFound
    else match names[id]
      case None => Missing
      case Some(s) => Name(s)
  }

  /** Python `!=` between two looked-up names: NaN differs from everything,
      itself included; `None` equals only `None`; strings compare by value. */
  predicate PyNeName(a: NameLookup, b: NameLookup) {
    a.Missing? || b.Missing? || a != b
  }

  /** A looked-up name differs from itself exactly when it is NaN. */
  lemma PyNeNameSelf(a: NameLookup)
    ensures PyNeName(a, a) <==> a.Missing?
  {
  }

  /** Position `k` of the `dish_id` column holds an id met earlier, whose
      dish name is NaN: the one shape a reported violation can take. */
  ghost predicate BadAt(ids: seq<Option<int>>, names: map<int, Cell>, k: int) {
    0 <= k < |ids| && ids[k].Some? && ids[k] in ids[..k] && LookupName(names, ids[k].value).Missing?
  }

  /** The number of positions of `ids` that are bad. */
  ghost function BadMappings(ids: seq<Option<int>>, names: map<int, Cell>): nat
  {
    if |ids| == 0 then 0
    else BadMappings(ids[..|ids| - 1], names) + (if BadAt(ids, names, |ids| - 1) then 1 else 0)
  }

  /** `verify_integrity(df_cleaned, dish_df, id_mapping)`. It skips missing
      ids, compares each repeat occurrence's remembered name with the name
      looked up again, and so counts exactly the repeat occurrences of ids
      whose dish name is NaN. It does not read `id_mapping`. */
  method VerifyIntegrity(items: Table<ItemRow>, dishes: seq<Dish>, idMapping: map<int, int>) returns (violations: nat)
    ensures violations == BadMappings(Column(items, DishIdOf), IdToName(dishes))
  {
    var ids := Column(items, DishIdOf);
    var idToName := IdToName(dishes);
    var seen: map<int, NameLookup> := map[];
    violations := 0;
    var r := 0;
    while r < |items|
      invariant 0 <= r <= |items|
      invariant forall v :: v in seen <==> Some(v) in ids[..r]
      invariant forall v :: v in seen ==> seen[v] == LookupName(idToName, v)
      invariant violations == BadMappings(ids[..r], idToName)
    {
      var dishId := items[r].row.dishId;
      PrefixStep(ids, r, idToName);
      if dishId.Some? {
        var v := dishId.value;
        if v in seen {
          PyNeNameSelf(seen[v]);
          if PyNeName(seen[v], LookupName(idToName, v)) {
            violations := violations + 1;
          }
        } else {
          seen := seen[v := LookupName(idToName, v)];
        }
      }
      r := r + 1;
    }
    assert ids[..r] == ids;
  }

  /** One more position of the column: the ids met so far gain its id, and
      the count gains one if it is bad. */
  lemma PrefixStep(ids: seq<Option<int>>, r: nat, names: map<int, Cell>)
    requires r < |ids|
    ensures forall v :: Some(v) in ids[..r + 1] <==> Some(v) in ids[..r] || ids[r] == Some(v)
    ensures BadMappings(ids[..r + 1], names) == BadMappings(ids[..r], names) +
      (if ids[r].Some? && ids[r] in ids[..r] && LookupName(names, ids[r].value).Missing? then 1 else 0)
  {
    assert ids[..r + 1][..r] == ids[..r];
    assert ids[..r + 1] == ids[..r] + [ids[r]];
  }

  // ---------------------------------------------------------------------------
  // properties of the count

  /** The ids of the column that are present, as a set. */
  ghost function PresentIds(ids: seq<Option<int>>): set<int> {
    set k | 0 <= k < |ids| && ids[k].Some? :: ids[k].value
  }

  predicate IsPresent(id: Option<int>) { id.Some? }

  /** A violation is a repeat occurrence of a present id: the count never
      exceeds the present ids minus the distinct ones. */
  lemma {:induction false} BadMappingsBound(ids: seq<Option<int>>, names: map<int, Cell>)
    ensures BadMappings(ids, names) + |PresentIds(ids)| <= CountWhere(ids, IsPresent)
  {
    if |ids| > 0 {
      var init := ids[..|ids| - 1];
      var last := ids[|ids| - 1];
      BadMappingsBound(init, names);
      assert ids == init + [last];
      CountWhereAppend(init, [last], IsPresent);
      assert [last][1..] == [];
      PresentIdsSnoc(init, last);
    }
  }

  /** Adding a position adds its id, if present, to the present ids; it is a
      new one exactly when it did not occur before. */
  lemma PresentIdsSnoc(init: seq<Option<int>>, last: Option<int>)
    ensures last.None? ==> PresentIds(init + [last]) == PresentIds(init)
    ensures last.Some? ==> PresentIds(init + [last]) == PresentIds(init) + {last.value}
    ensures last.Some? ==> (last.value in PresentIds(init) <==> last in init)
  {
    var ids := init + [last];
    assert forall k :: 0 <= k < |init| ==> ids[k] == init[k];
    if last.Some? && last in init {
      var j :| 0 <= j < |init| && init[j] == last;
      assert last.value in PresentIds(init);
    }
    if last.Some? && last.value in PresentIds(init) {
      var k :| 0 <= k < |init| && init[k].Some? && init[k].value == last.value;
      assert init[k] == last;
    }
    assert last.Some? ==> ids[|init|].value == last.value;
  }

  /** When no referenced dish has a missing name, nothing is reported. */
  lemma {:induction false} BadMappingsZero(ids: seq<Option<int>>, names: map<int, Cell>)
    requires forall k :: 0 <= k < |ids| && ids[k].Some? && ids[k].value in names ==> names[ids[k].value].Some?
    ensures BadMappings(ids, names) == 0
  {
    if |ids| > 0 {
      var init := ids[..|ids| - 1];
      assert forall k :: 0 <= k < |init| ==> init[k] == ids[k];
      BadMappingsZero(init, names);
    }
  }

  /** Two columns that hold an id with a NaN name at exactly the same
      positions have the same count, whatever else differs. */
  lemma {:induction false} BadMappingsSameMissing(a: seq<Option<int>>, b: seq<Option<int>>, names: map<int, Cell>)
    requires |a| == |b|
    requires forall k, v :: 0 <= k < |a| && LookupName(names, v).Missing? ==> (a[k] == Some(v) <==> b[k] == Some(v))
    ensures BadMappings(a, names) == BadMappings(b, names)
  {
    if |a| > 0 {
      var n := |a| - 1;
      BadMappingsSameMissing(a[..n], b[..n], names);
      if a[n].Some? && LookupName(names, a[n].value).Missing? {
        var v := a[n].value;
        assert b[n] == Some(v);
        assert (Some(v) in a[..n]) == (Some(v) in b[..n]) by {
          forall k | 0 <= k < n ensures a[..n][k] == Some(v) <==> b[..n][k] == Some(v) { }
        }
      }
    }
  }

  /** Dropping items never adds a violation: every repeat occurrence that
      survives still repeats an id met earlier in the full column. */
  lemma {:induction false} BadMappingsFilter(t: Table<ItemRow>, keep: ItemRow -> bool, names: map<int, Cell>)
    ensures BadMappings(Column(Filter(t, keep), DishIdOf), names) <= BadMappings(Column(t, DishIdOf), names)
  {
    if |t| > 0 {
      var init := t[..|t| - 1];
      var x := t[|t| - 1];
      assert t == init + [x];
      BadMappingsFilter(init, keep, names);
      FilterAppend(init, [x], keep);
      ColumnAppend(Filter(init, keep), Filter([x], keep), DishIdOf);
      ColumnAppend(init, [x], DishIdOf);
      var a := Column(Filter(init, keep), DishIdOf);
      var b := Column(init, DishIdOf);
      var v := x.row.dishId;
      assert Column([x], DishIdOf) == [v];
      SnocBad(b, v, names);
      assert Filter([x], keep) == if keep(x.row) then [x] else [] by {
        assert [x][1..] == [];
      }
      if keep(x.row) {
        SnocBad(a, v, names);
        ColumnFilterSubset(init, keep, v);
      } else {
        assert Column(Filter(t, keep), DishIdOf) == a;
      }
    }
  }

  /** The count of a column with one more position. */
  lemma SnocBad(ids: seq<Option<int>>, v: Option<int>, names: map<int, Cell>)
    ensures BadMappings(ids + [v], names) ==
      BadMappings(ids, names) + (if v.Some? && v in ids && LookupName(names, v.value).Missing? then 1 else 0)
  {
    assert (ids + [v])[..|ids|] == ids;
  }

  /** An id in a filtered column is in the full column. */
  lemma ColumnFilterSubset(t: Table<ItemRow>, keep: ItemRow -> bool, v: Option<int>)
    ensures v in Column(Filter(t, keep), DishIdOf) ==> v in Column(t, DishIdOf)
  {
    var a := Column(Filter(t, keep), DishIdOf);
    if v in a {
      var k :| 0 <= k < |a| && a[k] == v;
      var f := Filter(t, keep);
      assert f[k] in f;
      var j :| 0 <= j < |t| && t[j] == f[k];
      assert Column(t, DishIdOf)[j] == v;
    }
  }

  /** With unique dish ids the dedup remap never touches an id whose name is
      NaN and never produces one, so the check reports the same count on the
      remapped items as on the items before the remap. */
  lemma RemapKeepsBadMappings(items: Table<ItemRow>, d: seq<Dish>)
    requires UniqueIds(d)
    ensures BadMappings(Column(Remap(items, IdMappingOf(d)), DishIdOf), IdToName(d))
         == BadMappings(Column(items, DishIdOf), IdToName(d))
  {
    var m := IdMappingOf(d);
    var names := IdToName(d);
    var before := Column(items, DishIdOf);
    var after := Column(Remap(items, m), DishIdOf);
    forall k, v | 0 <= k < |before| && LookupName(names, v).Missing?
      ensures after[k] == Some(v) <==> before[k] == Some(v)
    {
      var i :| 0 <= i < |d| && d[i].id == v;
      IdToNameUnique(d, i);
      assert d[i].name.None?;
      KeyIsLaterDuplicate(d, i);
      if before[k].Some? && before[k].value in m {
        var w := before[k].value;
        var j :| IsLaterDuplicate(d, j) && d[j].id == w;
        IdMappingTarget(d, j);
        var f := FirstNamed(d, d[j].name.value);
        IdToNameUnique(d, f);
        assert m[w] != v;
      }
    }
    BadMappingsSameMissing(after, before, names);
  }
}
