/** The change report of the plain cleaning script: each stage runs on a
    fresh copy of the raw table, and the report gives the row counts before
    and after (`len`) and the number of aligned cells a stage changed
    (`original.loc[cleaned.index][c] != cleaned[c]`). */
module DataCleaningChanges {
  import opened Frames
  import opened Records
  import Validators
  import opened Cleaning
  import Dates
  import opened CurrencyTables
  import opened Currency
  import opened Names
  import opened Dedup
  import opened Flows

  /** The required-column stage keeps one row per raw row whose date,
      currency and location are all non-empty. */
  lemma RequiredLengths(raw: seq<MenuRow>)
    ensures |DropMissingRequired(FromRows(raw))| == CountWhere(raw, HasRequiredFields)
  {
    var t := FromRows(raw);
    DropMissingRequiredSpec(t);
    FilterLength(t, HasRequiredFields);
    RowsOfFromRows(raw);
  }

  /** The date stage, on a fresh copy, keeps one row per raw row whose date
      is present and parses. */
  lemma DateLengths(raw: seq<MenuRow>, parse: Parser)
    ensures |Dates.ToIsoDates(FromRows(raw), parse)| == CountWhere(raw, Dates.DateParses(parse))
  {
    var t := FromRows(raw);
    var m := MapRows(t, Dates.IsoRewriter(parse));
    FilterLength(m, Dates.DatePresent);
    CountWhereMatch(RowsOf(m), raw, Dates.DatePresent, Dates.DateParses(parse));
  }

  /** The price stage keeps one row per raw item whose price is non-empty. */
  lemma PriceLengths(items: seq<ItemRow>)
    ensures |DropMissingPrice(FromRows(items))| == CountWhere(items, HasPrice)
  {
    var t := FromRows(items);
    DropMissingPriceSpec(t);
    FilterLength(t, HasPrice);
    RowsOfFromRows(items);
  }

  /** Every label of the currency stage is a raw row, so the alignment
      raises no KeyError. */
  lemma FreshLabelsIn(pairs: Pairs, raw: seq<MenuRow>)
    ensures forall i :: 0 <= i < |FreshCurrencyStage(pairs, raw)| ==>
      RowWithLabel(FromRows(raw), FreshCurrencyStage(pairs, raw)[i].index) == Some(raw[FreshCurrencyStage(pairs, raw)[i].index])
  {
    var c := FreshCurrencyStage(pairs, raw);
    forall i | 0 <= i < |c|
      ensures RowWithLabel(FromRows(raw), c[i].index) == Some(raw[c[i].index])
    {
      RowWithLabelFromRows(raw, c[i].index);
    }
  }

  /** `diff_count_a`: the stage never changes a currency, yet a missing one
      compares unequal to itself, so the count is the number of surviving
      rows whose currency is missing (they survive on their symbol alone). */
  lemma CurrencyDiffs(pairs: Pairs, raw: seq<MenuRow>)
    ensures DiffCount(FromRows(raw), FreshCurrencyStage(pairs, raw), CurrencyOf) ==
      Some(CountWhere(Column(FreshCurrencyStage(pairs, raw), CurrencyOf), Validators.IsMissing))
  {
    var c := FreshCurrencyStage(pairs, raw);
    FreshLabelsIn(pairs, raw);
    DiffCountIs(FromRows(raw), c, CurrencyOf, Column(c, CurrencyOf), Validators.IsMissing);
  }

  /** The raw rows whose symbol cell `diff_b` counts once the mapping ran on
      an unchanged copy: a missing raw symbol (NaN is unequal to whatever
      replaces it, itself included), or a listed currency whose code is not
      the raw symbol. */
  predicate SymbolDiffers(pairs: Pairs, r: MenuRow) {
    r.currencySymbol.None? || (Listed(pairs, r.currency) && Lookup(pairs, r.currency.value) != r.currencySymbol)
  }

  /** `diff_count_b`: it is defined, and an aligned row counts exactly when
      its raw row is one `SymbolDiffers` describes. */
  lemma SymbolDiffs(pairs: Pairs, raw: seq<MenuRow>)
    ensures DiffCount(FromRows(raw), FreshCurrencyStage(pairs, raw), SymbolOf).Some?
    ensures forall i :: 0 <= i < |FreshCurrencyStage(pairs, raw)| ==>
      (Differs(FromRows(raw), SymbolOf, FreshCurrencyStage(pairs, raw)[i]) <==>
       SymbolDiffers(pairs, raw[FreshCurrencyStage(pairs, raw)[i].index]))
  {
    var c := FreshCurrencyStage(pairs, raw);
    FreshLabelsIn(pairs, raw);
    forall i | 0 <= i < |c|
      ensures Differs(FromRows(raw), SymbolOf, c[i]) <==> SymbolDiffers(pairs, raw[c[i].index])
    {
      SymbolDiffersAt(pairs, raw, c[i]);
    }
  }

  lemma SymbolDiffersAt(pairs: Pairs, raw: seq<MenuRow>, x: Indexed<MenuRow>)
    requires x.index < |raw| && KeepsCurrency(raw[x.index]) && x.row == NormaliseSymbolRow(pairs, raw[x.index])
    ensures Differs(FromRows(raw), SymbolOf, x) <==> SymbolDiffers(pairs, raw[x.index])
  {
    RowWithLabelFromRows(raw, x.index);
  }

  /** The items whose `dish_id` cell the dish-id comparison counts: a
      missing id (NaN is unequal to itself), or an id the mapping sends to
      another id. */
  predicate IdChanged(m: map<int, int>, r: ItemRow) {
    r.dishId.None? || (r.dishId.value in m && m[r.dishId.value] != r.dishId.value)
  }

  function IdChangedTest(m: map<int, int>): (test: ItemRow -> bool)
    ensures forall r :: test(r) == IdChanged(m, r)
  {
    (r: ItemRow) => IdChanged(m, r)
  }

  /** `diff_count_a` of the dish-id stage: the remap keeps every label, and
      the count is the number of raw items `IdChanged` describes. */
  lemma DishIdDiffs(items: seq<ItemRow>, m: map<int, int>)
    ensures DiffCount(FromRows(items), Remap(FromRows(items), m), DishIdOf) == Some(CountWhere(items, IdChangedTest(m)))
  {
    var t := FromRows(items);
    var c := Remap(t, m);
    forall i | 0 <= i < |c|
      ensures RowWithLabel(t, c[i].index).Some?
      ensures Differs(t, DishIdOf, c[i]) <==> IdChangedTest(m)(items[i])
    {
      RowWithLabelFromRows(items, i);
    }
    DiffCountIs(t, c, DishIdOf, items, IdChangedTest(m));
  }

  /** An item whose id is missing, or is the id of a dish repeating an
      earlier dish's name. */
  ghost predicate RefersToRepeat(d: seq<Dish>, r: ItemRow) {
    r.dishId.None? || exists i :: IsLaterDuplicate(d, i) && d[i].id == r.dishId.value
  }

  ghost function RefersToRepeatTest(d: seq<Dish>): (test: ItemRow -> bool)
    ensures forall r :: test(r) == RefersToRepeat(d, r)
  {
    (r: ItemRow) => RefersToRepeat(d, r)
  }

  /** With unique dish ids no mapped id maps to itself, so an item counts
      exactly when its id is missing or is the id of a dish that repeats an
      earlier dish's name. */
  lemma IdChangedMeansDuplicate(d: seq<Dish>, r: ItemRow)
    requires UniqueIds(d)
    ensures IdChanged(IdMappingOf(d), r) <==> RefersToRepeat(d, r)
  {
    var m := IdMappingOf(d);
    IdMappingNoChains(d);
  }

  /** Standardising names keeps the ids, so unique ids stay unique. */
  lemma StandardizeKeepsUniqueIds(d: seq<Dish>)
    requires UniqueIds(d)
    ensures UniqueIds(StandardizeDishes(d))
  {
  }

  /** The dish-id stage on a fresh copy of the items: standardise the dish
      names, group the repeated names, build the id mapping, remap the
      items and count the changed cells. The count is that of the items
      `IdChanged` describes; with unique dish ids, that of the items whose id
      is missing or belongs to a dish repeating an earlier name. */
  method DishIdChanges(items: seq<ItemRow>, dishes: seq<Dish>) returns (diffCount: nat)
    ensures diffCount == CountWhere(items, IdChangedTest(IdMappingOf(StandardizeDishes(dishes))))
    ensures UniqueIds(dishes) ==> diffCount == CountWhere(items, RefersToRepeatTest(StandardizeDishes(dishes)))
  {
    var dishTable := StandardizeDishes(dishes);
    var groups := DuplicateGroups(dishTable);
    assert IdMappingOf(dishTable) == MappingOf(groups);
    var idMapping := BuildIdMapping(groups);
    var original := FromRows(items);
    var cleaned := Remap(original, idMapping);
    DishIdDiffs(items, idMapping);
    diffCount := DiffCount(original, cleaned, DishIdOf).value;
    if UniqueIds(dishes) {
      StandardizeKeepsUniqueIds(dishes);
      forall r ensures IdChangedTest(idMapping)(r) == RefersToRepeatTest(dishTable)(r) {
        IdChangedMeansDuplicate(dishTable, r);
      }
      CountWhereSame(items, IdChangedTest(idMapping), RefersToRepeatTest(dishTable));
    }
  }
}
