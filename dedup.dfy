/** The dedup resolver: dishes sharing a (standardised, present) name are
    grouped, the first id of each group in table order is kept, every other id
    of the group is mapped to it, and the mapping is applied to the menu
    items' `dish_id` column with `Series.replace`. */
module Dedup {
  import opened Frames
  import opened Records

  // ---------------------------------------------------------------------------
  // Python's order on `str`, which `groupby` sorts its keys by

  /** `a < b` on Python strings: code-point lexicographic order. */
  predicate StrLess(a: string, b: string)
    decreases |a|
  {
    if |a| == 0 then |b| > 0
    else if |b| == 0 then false
    else if a[0] != b[0] then a[0] < b[0]
    else StrLess(a[1..], b[1..])
  }

  lemma {:induction false} StrLessIrreflexive(a: string)
    ensures !StrLess(a, a)
    decreases |a|
  {
    if |a| > 0 {
      StrLessIrreflexive(a[1..]);
    }
  }

  lemma {:induction false} StrLessTotal(a: string, b: string)
    ensures a == b || StrLess(a, b) || StrLess(b, a)
    decreases |a|
  {
    if |a| > 0 && |b| > 0 && a[0] == b[0] {
      StrLessTotal(a[1..], b[1..]);
      if a[1..] == b[1..] {
        assert a == [a[0]] + a[1..] && b == [b[0]] + b[1..];
      }
    }
  }

  lemma {:induction false} StrLessTransitive(a: string, b: string, c: string)
    requires StrLess(a, b) && StrLess(b, c)
    ensures StrLess(a, c)
    decreases |a|
  {
    if |a| > 0 && a[0] == b[0] && b[0] == c[0] {
      StrLessTransitive(a[1..], b[1..], c[1..]);
    }
  }

  predicate StrictlySorted(ns: seq<string>) {
    forall i, j :: 0 <= i < j < |ns| ==> StrLess(ns[i], ns[j])
  }

  lemma SortedDistinct(ns: seq<string>)
    requires StrictlySorted(ns)
    ensures forall i, j :: 0 <= i < j < |ns| ==> ns[i] != ns[j]
  {
    forall i, j | 0 <= i < j < |ns| ensures ns[i] != ns[j] {
      StrLessIrreflexive(ns[i]);
    }
  }

  /** `n` added to a strictly sorted list, keeping it strictly sorted. */
  function Insert(ns: seq<string>, n: string): (r: seq<string>)
    requires StrictlySorted(ns)
    ensures StrictlySorted(r)
    ensures forall x :: x in r <==> x in ns || x == n
  {
    if |ns| == 0 then [n]
    else if ns[0] == n then ns
    else if StrLess(n, ns[0]) then
      InsertFront(ns, n);
      [n] + ns
    else
      var rest := Insert(ns[1..], n);
      StrLessTotal(n, ns[0]);
      assert forall x :: x in rest ==> StrLess(ns[0], x);
      [ns[0]] + rest
  }

  lemma InsertFront(ns: seq<string>, n: string)
    requires StrictlySorted(ns) && |ns| > 0 && StrLess(n, ns[0])
    ensures StrictlySorted([n] + ns)
  {
    forall j | 0 <= j < |ns| ensures StrLess(n, ns[j]) {
      if j > 0 {
        StrLessTransitive(n, ns[0], ns[j]);
      }
    }
    assert forall j :: 1 <= j < |ns| + 1 ==> ([n] + ns)[j] == ns[j - 1];
  }

  // ---------------------------------------------------------------------------
  // duplicate groups

  /** The ids of the dishes named `n`, in table order. */
  function IdsNamed(d: seq<Dish>, n: string): (ids: seq<int>)
    ensures |ids| <= |d|
    ensures forall x :: x in ids <==> exists i :: 0 <= i < |d| && d[i].name == Some(n) && d[i].id == x
  {
    if |d| == 0 then []
    else
      var rest := IdsNamed(d[1..], n);
      assert forall i :: 1 <= i < |d| ==> d[i] == d[1..][i - 1];
      (if d[0].name == Some(n) then [d[0].id] else []) + rest
  }

  /** A name `duplicated(subset='name', keep=False)` marks and `groupby('name')`
      keeps as a group key: present, and carried by at least two dishes. */
  predicate IsDuplicateName(d: seq<Dish>, n: string) {
    |IdsNamed(d, n)| >= 2
  }

  /** The duplicate names among the dishes of `part`, sorted. */
  function CollectNames(d: seq<Dish>, part: seq<Dish>): (ns: seq<string>)
    ensures StrictlySorted(ns)
    ensures forall n :: n in ns <==> IsDuplicateName(d, n) && exists i :: 0 <= i < |part| && part[i].name == Some(n)
  {
    if |part| == 0 then []
    else
      var rest := CollectNames(d, part[1..]);
      assert forall i :: 1 <= i < |part| ==> part[i] == part[1..][i - 1];
      match part[0].name
      case Some(n) => if IsDuplicateName(d, n) then Insert(rest, n) else rest
      case None => rest
  }

  /** `duplicates.groupby('name')` keys: every duplicate name once, in
      ascending order. */
  function DuplicateNames(d: seq<Dish>): (ns: seq<string>)
    ensures StrictlySorted(ns)
    ensures forall n :: n in ns <==> IsDuplicateName(d, n)
  {
    var ns := CollectNames(d, d);
    forall n | IsDuplicateName(d, n) ensures exists i :: 0 <= i < |d| && d[i].name == Some(n) {
      assert IdsNamed(d, n)[0] in IdsNamed(d, n);
    }
    ns
  }

  /** One row of `duplicate_groups`: a shared name and the list of its ids. */
  datatype Group = Group(name: string, ids: seq<int>)

  /** `duplicates.groupby('name')['id'].apply(list)`: one group per duplicate
      name, in ascending name order, each listing the ids carrying that name
      in table order, at least two of them. */
  function DuplicateGroups(d: seq<Dish>): (gs: seq<Group>)
    ensures forall g :: 0 <= g < |gs| ==> IsDuplicateName(d, gs[g].name) && gs[g].ids == IdsNamed(d, gs[g].name)
    ensures forall n :: IsDuplicateName(d, n) ==> exists g :: 0 <= g < |gs| && gs[g].name == n
    ensures forall g, h :: 0 <= g < h < |gs| ==> StrLess(gs[g].name, gs[h].name)
  {
    var ns := DuplicateNames(d);
    var gs := seq(|ns|, g requires 0 <= g < |ns| => Group(ns[g], IdsNamed(d, ns[g])));
    assert forall n :: n in ns ==> exists g :: 0 <= g < |ns| && ns[g] == n && gs[g].name == n;
    gs
  }

  // ---------------------------------------------------------------------------
  // the id mapping

  predicate NonEmptyGroups(gs: seq<Group>) {
    forall g :: 0 <= g < |gs| ==> |gs[g].ids| > 0
  }

  /** What the inner loop adds for one group: each id after the first maps to
      the first. */
  function GroupMapping(g: Group): (m: map<int, int>)
    requires |g.ids| > 0
    ensures forall k :: k in m <==> k in g.ids[1..]
    ensures forall k :: k in m ==> m[k] == g.ids[0]
  {
    MapAllTo(g.ids[1..], g.ids[0])
  }

  /** Every id of `ids` mapped to `target`. */
  function MapAllTo(ids: seq<int>, target: int): (m: map<int, int>)
    ensures forall k :: k in m <==> k in ids
    ensures forall k :: k in m ==> m[k] == target
  {
    map k | k in ids :: target
  }

  /** The dictionary after the groups have been visited in order: a later
      group's entries overwrite an earlier group's. */
  function MappingOf(gs: seq<Group>): map<int, int>
    requires NonEmptyGroups(gs)
  {
    if |gs| == 0 then map[] else MappingOf(gs[..|gs| - 1]) + GroupMapping(gs[|gs| - 1])
  }

  /** The loop of the dedup step: for every row of `duplicate_groups`, in
      order, `id_mapping[duplicate_id] = first_id` for each id after the first. */
  method BuildIdMapping(groups: seq<Group>) returns (idMapping: map<int, int>)
    requires NonEmptyGroups(groups)
    ensures idMapping == MappingOf(groups)
  {
    idMapping := map[];
    var g := 0;
    while g < |groups|
      invariant 0 <= g <= |groups|
      invariant idMapping == MappingOf(groups[..g])
    {
      var ids := groups[g].ids;
      var firstId := ids[0];
      var j := 1;
      while j < |ids|
        invariant 1 <= j <= |ids|
        invariant idMapping == MappingOf(groups[..g]) + MapAllTo(ids[1..j], firstId)
      {
        AssignStep(MappingOf(groups[..g]), ids, j, firstId);
        idMapping := idMapping[ids[j] := firstId];
        j := j + 1;
      }
      assert ids[1..j] == ids[1..];
      assert groups[..g + 1][..g] == groups[..g];
      g := g + 1;
    }
    assert groups[..g] == groups;
  }

  lemma AssignStep(base: map<int, int>, ids: seq<int>, j: nat, first: int)
    requires 1 <= j < |ids|
    ensures (base + MapAllTo(ids[1..j], first))[ids[j] := first] == base + MapAllTo(ids[1..j + 1], first)
  {
    assert ids[1..j + 1] == ids[1..j] + [ids[j]];
  }

  /** The keys of the mapping are the ids listed after the first in some group. */
  lemma {:induction false} MappingKeys(gs: seq<Group>, k: int)
    requires NonEmptyGroups(gs)
    ensures k in MappingOf(gs) <==> exists g :: 0 <= g < |gs| && k in gs[g].ids[1..]
  {
    if |gs| > 0 {
      var init := gs[..|gs| - 1];
      MappingKeys(init, k);
      assert forall g :: 0 <= g < |init| ==> init[g] == gs[g];
    }
  }

  /** A key takes its value from the last group listing it after the first. */
  lemma {:induction false} MappingValue(gs: seq<Group>, p: nat, k: int)
    requires NonEmptyGroups(gs)
    requires p < |gs| && k in gs[p].ids[1..]
    requires forall q :: p < q < |gs| ==> k !in gs[q].ids[1..]
    ensures k in MappingOf(gs) && MappingOf(gs)[k] == gs[p].ids[0]
  {
    if p < |gs| - 1 {
      var init := gs[..|gs| - 1];
      assert forall g :: 0 <= g < |init| ==> init[g] == gs[g];
      MappingValue(init, p, k);
    }
  }

  // ---------------------------------------------------------------------------
  // the mapping described on the dish table

  /** The position of the first dish named `n`. */
  function FirstNamed(d: seq<Dish>, n: string): (i: nat)
    requires exists i :: 0 <= i < |d| && d[i].name == Some(n)
    ensures i < |d| && d[i].name == Some(n)
    ensures forall j :: 0 <= j < i ==> d[j].name != Some(n)
  {
    if d[0].name == Some(n) then 0
    else
      assert exists i :: 0 <= i < |d[1..]| && d[1..][i].name == Some(n) by {
        var i :| 0 <= i < |d| && d[i].name == Some(n);
        assert d[1..][i - 1] == d[i];
      }
      1 + FirstNamed(d[1..], n)
  }

  /** Dish `i` repeats the name of an earlier dish: its id is one the mapping
      replaces. */
  ghost predicate IsLaterDuplicate(d: seq<Dish>, i: int) {
    0 <= i < |d| && d[i].name.Some? && exists j :: 0 <= j < i && d[j].name == d[i].name
  }

  /** The id list of a name starts with the first dish's id and continues with
      the ids of the later dishes of that name. */
  lemma {:induction false} IdsNamedSplit(d: seq<Dish>, n: string)
    requires exists i :: 0 <= i < |d| && d[i].name == Some(n)
    ensures |IdsNamed(d, n)| > 0
    ensures IdsNamed(d, n)[0] == d[FirstNamed(d, n)].id
    ensures IdsNamed(d, n)[1..] == IdsNamed(d[FirstNamed(d, n) + 1..], n)
  {
    if d[0].name == Some(n) {
      assert IdsNamed(d, n) == [d[0].id] + IdsNamed(d[1..], n);
    } else {
      var i :| 0 <= i < |d| && d[i].name == Some(n);
      assert d[1..][i - 1] == d[i];
      IdsNamedSplit(d[1..], n);
      assert IdsNamed(d, n) == IdsNamed(d[1..], n);
      var f := FirstNamed(d[1..], n);
      assert FirstNamed(d, n) == f + 1;
      assert d[1..][f + 1..] == d[f + 2..];
    }
  }

  /** The ids after the first in a name's list are those of the dishes that
      repeat the name. */
  lemma LaterIds(d: seq<Dish>, n: string, k: int)
    requires exists i :: 0 <= i < |d| && d[i].name == Some(n)
    ensures |IdsNamed(d, n)| > 0
    ensures k in IdsNamed(d, n)[1..] <==>
      exists i :: FirstNamed(d, n) < i < |d| && d[i].name == Some(n) && d[i].id == k
  {
    IdsNamedSplit(d, n);
    var f := FirstNamed(d, n);
    var tail := d[f + 1..];
    assert forall i :: 0 <= i < |tail| ==> tail[i] == d[i + f + 1];
    if k in IdsNamed(d, n)[1..] {
      var i :| 0 <= i < |tail| && tail[i].name == Some(n) && tail[i].id == k;
      assert d[i + f + 1].id == k;
    }
  }

  /** The mapping `BuildIdMapping` builds for the dish table: its keys are
      exactly the ids of the dishes that repeat an earlier dish's present
      name. */
  function IdMappingOf(d: seq<Dish>): (m: map<int, int>)
    ensures NonEmptyGroups(DuplicateGroups(d))
    ensures forall k :: k in m <==> exists i :: IsLaterDuplicate(d, i) && d[i].id == k
  {
    var gs := DuplicateGroups(d);
    assert NonEmptyGroups(gs) by {
      forall g | 0 <= g < |gs| ensures |gs[g].ids| > 0 { }
    }
    assert forall k :: k in MappingOf(gs) <==> exists i :: IsLaterDuplicate(d, i) && d[i].id == k by {
      forall k ensures k in MappingOf(gs) <==> exists i :: IsLaterDuplicate(d, i) && d[i].id == k {
        GroupKeys(d, k);
      }
    }
    MappingOf(gs)
  }

  /** A key of the groups' mapping is the id of a dish repeating an earlier
      dish's present name, and every such id is a key. */
  lemma GroupKeys(d: seq<Dish>, k: int)
    requires NonEmptyGroups(DuplicateGroups(d))
    ensures k in MappingOf(DuplicateGroups(d)) <==> exists i :: IsLaterDuplicate(d, i) && d[i].id == k
  {
    var gs := DuplicateGroups(d);
    MappingKeys(gs, k);
    if k in MappingOf(gs) {
      var g :| 0 <= g < |gs| && k in gs[g].ids[1..];
      var n := gs[g].name;
      assert gs[g].ids[0] in IdsNamed(d, n);
      LaterIds(d, n, k);
      var i :| FirstNamed(d, n) < i < |d| && d[i].name == Some(n) && d[i].id == k;
      assert IsLaterDuplicate(d, i);
    }
    if exists i :: IsLaterDuplicate(d, i) && d[i].id == k {
      var i :| IsLaterDuplicate(d, i) && d[i].id == k;
      var n := d[i].name.value;
      NameRepeatedAt(d, i);
      LaterIds(d, n, k);
      var g :| 0 <= g < |gs| && gs[g].name == n;
      assert k in gs[g].ids[1..];
    }
  }

  /** A dish repeating an earlier name comes after the first dish of that
      name, and that name is a duplicate name. */
  lemma NameRepeatedAt(d: seq<Dish>, i: int)
    requires IsLaterDuplicate(d, i)
    ensures FirstNamed(d, d[i].name.value) < i
    ensures IsDuplicateName(d, d[i].name.value)
  {
    var n := d[i].name.value;
    var j :| 0 <= j < i && d[j].name == d[i].name;
    LaterIds(d, n, d[i].id);
    assert d[i].id in IdsNamed(d, n)[1..];
  }

  /** Every dish id is different. */
  predicate UniqueIds(d: seq<Dish>) {
    forall i, j :: 0 <= i < j < |d| ==> d[i].id != d[j].id
  }

  /** With unique dish ids, a repeated name's id maps to the id of the first
      dish carrying that name. */
  lemma IdMappingTarget(d: seq<Dish>, i: int)
    requires UniqueIds(d) && IsLaterDuplicate(d, i)
    ensures d[i].id in IdMappingOf(d)
    ensures IdMappingOf(d)[d[i].id] == d[FirstNamed(d, d[i].name.value)].id
  {
    var gs := DuplicateGroups(d);
    var n := d[i].name.value;
    var k := d[i].id;
    NameRepeatedAt(d, i);
    LaterIds(d, n, k);
    var p :| 0 <= p < |gs| && gs[p].name == n;
    forall q | p < q < |gs| ensures k !in gs[q].ids[1..] {
      if k in gs[q].ids[1..] {
        assert k in gs[q].ids;
        var i' :| 0 <= i' < |d| && d[i'].name == Some(gs[q].name) && d[i'].id == k;
        assert i' == i;
        StrLessIrreflexive(n);
      }
    }
    MappingValue(gs, p, k);
    IdsNamedSplit(d, n);
  }

  /** With unique dish ids, the id a key maps to is never itself a key, so
      one pass of `replace` already reaches the kept id. */
  lemma IdMappingNoChains(d: seq<Dish>)
    requires UniqueIds(d)
    ensures forall k :: k in IdMappingOf(d) ==> IdMappingOf(d)[k] !in IdMappingOf(d)
  {
    var m := IdMappingOf(d);
    forall k | k in m ensures m[k] !in m {
      var i :| IsLaterDuplicate(d, i) && d[i].id == k;
      IdMappingTarget(d, i);
      KeyIsLaterDuplicate(d, FirstNamed(d, d[i].name.value));
    }
  }

  /** With unique dish ids, the id of dish `i` is a key exactly when the dish
      repeats an earlier dish's name. */
  lemma KeyIsLaterDuplicate(d: seq<Dish>, i: nat)
    requires UniqueIds(d) && i < |d|
    ensures d[i].id in IdMappingOf(d) <==> IsLaterDuplicate(d, i)
  {
    forall i' | 0 <= i' < |d| && d[i'].id == d[i].id ensures i' == i { }
  }

  // ---------------------------------------------------------------------------
  // the remap of MenuItem.dish_id

  /** `Series.replace(id_mapping)` on one value: a key is replaced by its
      value, anything else (a missing id included) is left alone. */
  function RemapId(m: map<int, int>, id: Option<int>): (r: Option<int>)
    ensures id.None? ==> r.None?
    ensures id.Some? && id.value !in m ==> r == id
    ensures id.Some? && id.value in m ==> r == Some(m[id.value])
  {
    if id.Some? && id.value in m then Some(m[id.value]) else id
  }

  /** The row rewrite `df_cleaned['dish_id'] = df_cleaned['dish_id'].replace(id_mapping)` does. */
  function Remapper(m: map<int, int>): (f: ItemRow -> ItemRow)
    ensures forall r :: f(r) == r.(dishId := RemapId(m, r.dishId))
  {
    (r: ItemRow) => r.(dishId := RemapId(m, r.dishId))
  }

  /** The remapped menu items: same rows and labels, prices untouched, each
      `dish_id` passed through the mapping once. */
  function Remap(t: Table<ItemRow>, m: map<int, int>): (r: Table<ItemRow>)
    ensures |r| == |t|
    ensures forall i :: 0 <= i < |t| ==> r[i].index == t[i].index && r[i].row.price == t[i].row.price
    ensures forall i :: 0 <= i < |t| && t[i].row.dishId.None? ==> r[i].row.dishId.None?
    ensures forall i :: 0 <= i < |t| && t[i].row.dishId.Some? && t[i].row.dishId.value !in m ==>
      r[i].row.dishId == t[i].row.dishId
    ensures forall i :: 0 <= i < |t| && t[i].row.dishId.Some? && t[i].row.dishId.value in m ==>
      r[i].row.dishId == Some(m[t[i].row.dishId.value])
  {
    MapRows(t, Remapper(m))
  }

  /** When no value of the mapping is a key, remapping twice is remapping once. */
  lemma RemapIdempotent(t: Table<ItemRow>, m: map<int, int>)
    requires forall k :: k in m ==> m[k] !in m
    ensures Remap(Remap(t, m), m) == Remap(t, m)
  {
    var once := Remap(t, m);
    var twice := Remap(once, m);
    forall i | 0 <= i < |t| ensures twice[i] == once[i] {
      var id := t[i].row.dishId;
      assert once[i].row.dishId == RemapId(m, id);
      if id.Some? && id.value in m {
        var k := id.value;
        assert k in m;
        assert m[k] !in m;
      }
      assert twice[i].row == once[i].row.(dishId := RemapId(m, once[i].row.dishId));
    }
  }

  /** With unique dish ids, after the remap every menu item referring to a
      named dish refers to the first dish of that name, and the name it refers
      to is unchanged; references to other dishes are untouched. */
  lemma RemapResolvesDuplicates(t: Table<ItemRow>, d: seq<Dish>, r: nat, i: nat)
    requires UniqueIds(d)
    requires r < |t| && i < |d| && t[r].row.dishId == Some(d[i].id)
    ensures d[i].name.Some? ==> Remap(t, IdMappingOf(d))[r].row.dishId == Some(d[FirstNamed(d, d[i].name.value)].id)
    ensures d[i].name.None? ==> Remap(t, IdMappingOf(d))[r].row.dishId == t[r].row.dishId
  {
    KeyIsLaterDuplicate(d, i);
    if IsLaterDuplicate(d, i) {
      IdMappingTarget(d, i);
    } else if d[i].name.Some? {
      assert FirstNamed(d, d[i].name.value) == i;
    }
  }
}
