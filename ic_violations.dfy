/** The integrity report of the plain checking script: each stage restarts
    from a fresh copy of the raw table, and the report gives each check's
    violation count on the raw table and on the stage's result. */
module IcViolations {
  import opened Frames
  import opened Records
  import opened Validators
  import opened CurrencyTables
  import opened Currency
  import opened Names
  import opened Dedup
  import opened Integrity
  import opened Flows

  /** The ISO 4217 check before and after the currency stage run on a raw
      copy. `known` is the code lookup; when it accepts every code of the
      table, every survivor whose currency is listed holds an accepted code,
      and the stage reports no more violations than the raw table. */
  lemma {:induction false} CurrencyReport(pairs: Pairs, raw: seq<MenuRow>, known: string -> bool)
    requires forall i :: 0 <= i < |pairs| ==> known(pairs[i].1)
    ensures forall i :: 0 <= i < |FreshCurrencyStage(pairs, raw)| && Listed(pairs, FreshCurrencyStage(pairs, raw)[i].row.currency) ==>
      !Violates(FreshCurrencyStage(pairs, raw)[i].row.currencySymbol, known)
    ensures CountInvalid(FreshCurrencyStage(pairs, raw), SymbolOf, known) <= CountInvalid(FromRows(raw), SymbolOf, known)
  {
    var t0 := FromRows(raw);
    var t1 := Cleaning.DropBlankCurrencyPairs(t0);
    var t2 := FreshFiltered(raw);
    NormaliseSymbolsNoNewViolations(pairs, t2, known);
    CountInvalidFilter(t0, Cleaning.HasCurrencyInfo, SymbolOf, known);
    CountInvalidFilter(t1, Cleaning.NotCentsOrPence, SymbolOf, known);
  }

  /** The dish stage on a raw copy of the items: standardise the dish names,
      build the id mapping, remap every item, and run the integrity check on
      the raw items and on the remapped ones, against the standardised dish
      table. The remapped table keeps every item; with unique dish ids the
      two counts are equal, since the check only reports repeats of ids whose
      name is NaN and the remap never touches those. */
  method ItemIntegrityReport(items: seq<ItemRow>, dishes: seq<Dish>)
    returns (cleanedItems: Table<ItemRow>, original: nat, cleaned: nat)
    ensures cleanedItems == Remap(FromRows(items), IdMappingOf(StandardizeDishes(dishes)))
    ensures |cleanedItems| == |items|
    ensures original == BadMappings(Column(FromRows(items), DishIdOf), IdToName(StandardizeDishes(dishes)))
    ensures cleaned == BadMappings(Column(cleanedItems, DishIdOf), IdToName(StandardizeDishes(dishes)))
    ensures UniqueIds(dishes) ==> cleaned == original
  {
    var dishTable := StandardizeDishes(dishes);
    var groups := DuplicateGroups(dishTable);
    assert IdMappingOf(dishTable) == MappingOf(groups);
    var idMapping := BuildIdMapping(groups);
    var dfOriginal := FromRows(items);
    cleanedItems := Remap(dfOriginal, idMapping);
    original := VerifyIntegrity(dfOriginal, dishTable, idMapping);
    cleaned := VerifyIntegrity(cleanedItems, dishTable, idMapping);
    if UniqueIds(dishes) {
      assert UniqueIds(dishTable);
      RemapKeepsBadMappings(dfOriginal, dishTable);
    }
  }
}
