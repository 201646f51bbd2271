/** The integrity report of the annotated checking script: the Menu stages
    run one after the other on the same table, and so do the MenuItem
    stages; each check is counted on the raw table and on the table as the
    chain has left it. */
module AnnotatedIcViolations {
  import opened Frames
  import opened Records
  import opened Validators
  import opened Cleaning
  import Dates
  import opened CurrencyTables
  import opened Currency
  import opened Names
  import opened Dedup
  import opened Integrity
  import opened Flows

  /** The ISO 4217 check on the raw table and at the end of the chain. When
      `known` accepts every code of the table and rejects `""`, no stage adds
      a violation: turning `""` into missing keeps a violation a violation,
      the dates and the filters leave the symbols alone or drop rows, and
      the mapping only writes accepted codes. */
  lemma {:induction false} CurrencyReport(pairs: Pairs, raw: seq<MenuRow>, parse: Parser, known: string -> bool)
    requires forall i :: 0 <= i < |pairs| ==> known(pairs[i].1)
    requires !known("")
    ensures CountInvalid(ChainedMenuStage(pairs, raw, parse), SymbolOf, known) <= CountInvalid(FromRows(raw), SymbolOf, known)
  {
    var t1 := DropMissingRequired(FromRows(raw));
    var t2 := Dates.ToIsoDates(t1, parse);
    NormaliseSymbolsNoNewViolations(pairs, ChainFiltered(raw, parse), known);
    CurrencyFiltersNoNewViolations(t2, known);
    DatesNoNewViolations(t1, parse, known);
    RequiredNoNewViolations(raw, known);
  }

  lemma CurrencyFiltersNoNewViolations(t: Table<MenuRow>, known: string -> bool)
    ensures CountInvalid(DropCentsPence(DropBlankCurrencyPairs(t)), SymbolOf, known) <= CountInvalid(t, SymbolOf, known)
  {
    var t1 := Filter(t, HasCurrencyInfo);
    assert DropBlankCurrencyPairs(t) == t1;
    CountInvalidFilter(t1, NotCentsOrPence, SymbolOf, known);
    CountInvalidFilter(t, HasCurrencyInfo, SymbolOf, known);
  }

  lemma DatesNoNewViolations(t: Table<MenuRow>, parse: Parser, known: string -> bool)
    ensures CountInvalid(Dates.ToIsoDates(t, parse), SymbolOf, known) <= CountInvalid(t, SymbolOf, known)
  {
    var m := MapRows(t, Dates.IsoRewriter(parse));
    assert Dates.ToIsoDates(t, parse) == Filter(m, Dates.DatePresent);
    CountInvalidFilter(m, Dates.DatePresent, SymbolOf, known);
    CountInvalidMapRows(t, Dates.IsoRewriter(parse), SymbolOf, known);
  }

  lemma RequiredNoNewViolations(raw: seq<MenuRow>, known: string -> bool)
    requires !known("")
    ensures CountInvalid(DropMissingRequired(FromRows(raw)), SymbolOf, known) <= CountInvalid(FromRows(raw), SymbolOf, known)
  {
    var t0 := FromRows(raw);
    RequiredFiltersNoNewViolations(ReplaceEmptyMenu(t0), known);
    ReplaceEmptyNoNewViolations(t0, known);
  }

  lemma RequiredFiltersNoNewViolations(r: Table<MenuRow>, known: string -> bool)
    ensures CountInvalid(Filter(Filter(Filter(r, DatePresent), CurrencyPresent), LocationPresent), SymbolOf, known) <=
      CountInvalid(r, SymbolOf, known)
  {
    var d1 := Filter(r, DatePresent);
    var d2 := Filter(d1, CurrencyPresent);
    CountInvalidFilter(d2, LocationPresent, SymbolOf, known);
    CountInvalidFilter(d1, CurrencyPresent, SymbolOf, known);
    CountInvalidFilter(r, DatePresent, SymbolOf, known);
  }

  /** A `""` symbol already violates when `known` rejects `""`, and NaN
      violates too, so the replacement adds no violation. */
  lemma ReplaceEmptyNoNewViolations(t: Table<MenuRow>, known: string -> bool)
    requires !known("")
    ensures CountInvalid(ReplaceEmptyMenu(t), SymbolOf, known) <= CountInvalid(t, SymbolOf, known)
  {
    CountInvalidPointwise(ReplaceEmptyMenu(t), t, SymbolOf, known);
  }

  /** The MenuItem chain: `""` prices made missing and dropped, the dish
      names standardised, the id mapping built and applied to the surviving
      items; the integrity check then runs on the raw items and on the
      cleaned ones. No cleaned price is empty, and with unique dish ids the
      cleaned table reports no more violations than the raw one: dropping
      items removes occurrences and the remap changes none that count. */
  method ItemIntegrityReport(items: seq<ItemRow>, dishes: seq<Dish>)
    returns (cleanedItems: Table<ItemRow>, original: nat, cleaned: nat)
    ensures cleanedItems == Remap(DropMissingPrice(FromRows(items)), IdMappingOf(StandardizeDishes(dishes)))
    ensures CountEmpty(cleanedItems, PriceOf) == 0
    ensures original == BadMappings(Column(FromRows(items), DishIdOf), IdToName(StandardizeDishes(dishes)))
    ensures cleaned == BadMappings(Column(cleanedItems, DishIdOf), IdToName(StandardizeDishes(dishes)))
    ensures UniqueIds(dishes) ==> cleaned <= original
  {
    var dfOriginal := FromRows(items);
    var priced := DropMissingPrice(dfOriginal);
    var dishTable := StandardizeDishes(dishes);
    var groups := DuplicateGroups(dishTable);
    assert IdMappingOf(dishTable) == MappingOf(groups);
    var idMapping := BuildIdMapping(groups);
    cleanedItems := Remap(priced, idMapping);
    RemapKeepsPrices(dfOriginal, idMapping);
    original := VerifyIntegrity(dfOriginal, dishTable, idMapping);
    cleaned := VerifyIntegrity(cleanedItems, dishTable, idMapping);
    if UniqueIds(dishes) {
      assert UniqueIds(dishTable);
      PricedBadMappings(dfOriginal, dishTable);
    }
  }

  /** The remap after the price stage leaves no empty price. */
  lemma RemapKeepsPrices(t: Table<ItemRow>, m: map<int, int>)
    ensures CountEmpty(Remap(DropMissingPrice(t), m), PriceOf) == 0
  {
    var p := DropMissingPrice(t);
    var c := Remap(p, m);
    DropMissingPriceSpec(t);
    assert CountEmpty(p, PriceOf) == 0;
    forall i | 0 <= i < |c| ensures c[i].row.price.Some? && c[i].row.price != Some("") {
      assert c[i].row.price == p[i].row.price;
    }
    CountEmptyZero(c, PriceOf);
  }

  /** With unique dish ids, the price stage and the remap together never
      add a violation. */
  lemma PricedBadMappings(t: Table<ItemRow>, d: seq<Dish>)
    requires UniqueIds(d)
    ensures BadMappings(Column(Remap(DropMissingPrice(t), IdMappingOf(d)), DishIdOf), IdToName(d))
         <= BadMappings(Column(t, DishIdOf), IdToName(d))
  {
    var replaced := ReplaceEmptyItems(t);
    RemapKeepsBadMappings(DropMissingPrice(t), d);
    BadMappingsFilter(replaced, PricePresent, IdToName(d));
    assert Column(replaced, DishIdOf) == Column(t, DishIdOf);
  }
}
