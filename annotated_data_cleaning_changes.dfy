/** The change report of the annotated cleaning script: the Menu stages run
    one after the other on the same table, with the underscored currency
    table, and the report compares the end result with the raw table. */
module AnnotatedDataCleaningChanges {
  import opened Frames
  import opened Records
  import opened Validators
  import opened Cleaning
  import Dates
  import opened CurrencyTables
  import opened Currency
  import opened Flows

  /** A raw row that survives the required columns and whose date parses. */
  function RequiredAndParses(parse: Parser): (test: MenuRow -> bool)
    ensures forall r :: test(r) == (HasRequiredFields(r) && parse(r.date.value).Some?)
  {
    (r: MenuRow) => HasRequiredFields(r) && parse(r.date.value).Some?
  }

  /** The date stage after the required-column stage keeps one row per raw
      row whose date, currency and location are non-empty and whose date
      parses. */
  lemma DateLengths(raw: seq<MenuRow>, parse: Parser)
    ensures |Dates.ToIsoDates(DropMissingRequired(FromRows(raw)), parse)| == CountWhere(raw, RequiredAndParses(parse))
  {
    var t0 := FromRows(raw);
    RequiredThenDates(raw, parse);
    FilterCount(t0, HasRequiredFields, Dates.DateParses(parse), RequiredAndParses(parse));
    RowsOfFromRows(raw);
  }

  /** The date stage after the required-column stage counts the required
      rows whose date parses. */
  lemma RequiredThenDates(raw: seq<MenuRow>, parse: Parser)
    ensures |Dates.ToIsoDates(DropMissingRequired(FromRows(raw)), parse)| ==
      CountWhere(RowsOf(Filter(FromRows(raw), HasRequiredFields)), Dates.DateParses(parse))
  {
    var f := Filter(FromRows(raw), HasRequiredFields);
    DropMissingRequiredSpec(FromRows(raw));
    DateStageLength(MapRows(f, ReplaceEmptyMenuRow), parse);
    RequiredDatesMatch(f, parse);
  }

  /** The date stage keeps as many rows as have a date that parses. */
  lemma DateStageLength(t: Table<MenuRow>, parse: Parser)
    ensures |Dates.ToIsoDates(t, parse)| == CountWhere(RowsOf(MapRows(t, Dates.IsoRewriter(parse))), Dates.DatePresent)
  {
    FilterLength(MapRows(t, Dates.IsoRewriter(parse)), Dates.DatePresent);
  }

  lemma RequiredDatesMatch(f: Table<MenuRow>, parse: Parser)
    requires forall x :: x in f ==> HasRequiredFields(x.row)
    ensures CountWhere(RowsOf(MapRows(MapRows(f, ReplaceEmptyMenuRow), Dates.IsoRewriter(parse))), Dates.DatePresent) ==
      CountWhere(RowsOf(f), Dates.DateParses(parse))
  {
    var m := MapRows(MapRows(f, ReplaceEmptyMenuRow), Dates.IsoRewriter(parse));
    forall i | 0 <= i < |f|
      ensures Dates.DatePresent(RowsOf(m)[i]) == Dates.DateParses(parse)(RowsOf(f)[i])
    {
      assert f[i] in f;
      RequiredDateAt(f, m, parse, i);
    }
    CountWhereMatch(RowsOf(m), RowsOf(f), Dates.DatePresent, Dates.DateParses(parse));
  }

  lemma RequiredDateAt(f: Table<MenuRow>, m: Table<MenuRow>, parse: Parser, i: nat)
    requires i < |f| && HasRequiredFields(f[i].row)
    requires m == MapRows(MapRows(f, ReplaceEmptyMenuRow), Dates.IsoRewriter(parse))
    ensures Dates.DatePresent(m[i].row) == Dates.DateParses(parse)(f[i].row)
  {
    RequiredRowDate(f[i].row, parse);
  }

  /** A row with its required columns filled keeps its date through the `""`
      replacement, so its ISO date is present exactly when it parses. */
  lemma RequiredRowDate(r: MenuRow, parse: Parser)
    requires HasRequiredFields(r)
    ensures Dates.DatePresent(Dates.ToIsoMenuRow(ReplaceEmptyMenuRow(r), parse)) == Dates.DateParses(parse)(r)
  {
  }

  /** Every label of the chain is a raw row, so the alignment raises no
      KeyError. */
  lemma ChainLabelsIn(pairs: Pairs, raw: seq<MenuRow>, parse: Parser)
    ensures forall i :: 0 <= i < |ChainedMenuStage(pairs, raw, parse)| ==>
      RowWithLabel(FromRows(raw), ChainedMenuStage(pairs, raw, parse)[i].index) ==
      Some(raw[ChainedMenuStage(pairs, raw, parse)[i].index])
  {
    var c := ChainedMenuStage(pairs, raw, parse);
    forall i | 0 <= i < |c|
      ensures RowWithLabel(FromRows(raw), c[i].index) == Some(raw[c[i].index])
    {
      RowWithLabelFromRows(raw, c[i].index);
    }
  }

  /** `diff_count_a`: every survivor had a non-empty currency, which no stage
      changes, so no currency cell differs. */
  lemma CurrencyDiffsZero(pairs: Pairs, raw: seq<MenuRow>, parse: Parser)
    ensures DiffCount(FromRows(raw), ChainedMenuStage(pairs, raw, parse), CurrencyOf) == Some(0)
  {
    ChainLabelsIn(pairs, raw, parse);
  }

  /** The raw rows whose symbol cell `diff_b` counts at the end of the chain:
      for a listed currency, a missing raw symbol or one other than the code;
      for any other currency the symbol is only made missing if it was `""`,
      so a missing or empty raw symbol. */
  predicate ChainSymbolDiffers(pairs: Pairs, r: MenuRow) {
    if Listed(pairs, r.currency) then r.currencySymbol.None? || Lookup(pairs, r.currency.value) != r.currencySymbol
    else IsEmptyCell(r.currencySymbol)
  }

  /** `diff_count_b`: it is defined, and an aligned row counts exactly when
      its raw row is one `ChainSymbolDiffers` describes. */
  lemma SymbolDiffs(pairs: Pairs, raw: seq<MenuRow>, parse: Parser)
    ensures DiffCount(FromRows(raw), ChainedMenuStage(pairs, raw, parse), SymbolOf).Some?
    ensures forall i :: 0 <= i < |ChainedMenuStage(pairs, raw, parse)| ==>
      (Differs(FromRows(raw), SymbolOf, ChainedMenuStage(pairs, raw, parse)[i]) <==>
       ChainSymbolDiffers(pairs, raw[ChainedMenuStage(pairs, raw, parse)[i].index]))
  {
    var c := ChainedMenuStage(pairs, raw, parse);
    ChainLabelsIn(pairs, raw, parse);
    forall i | 0 <= i < |c|
      ensures Differs(FromRows(raw), SymbolOf, c[i]) <==> ChainSymbolDiffers(pairs, raw[c[i].index])
    {
      SymbolDiffersAt(pairs, raw, parse, c[i]);
    }
  }

  lemma SymbolDiffersAt(pairs: Pairs, raw: seq<MenuRow>, parse: Parser, x: Indexed<MenuRow>)
    requires x.index < |raw| && ChainKeeps(parse, raw[x.index]) && x.row == ChainedRow(pairs, parse, raw[x.index])
    ensures Differs(FromRows(raw), SymbolOf, x) <==> ChainSymbolDiffers(pairs, raw[x.index])
  {
    RowWithLabelFromRows(raw, x.index);
    ChainedSymbolDiffers(pairs, parse, raw[x.index]);
  }

  /** One kept row: the chain changes its symbol cell, as `!=` sees it, exactly
      when `ChainSymbolDiffers` says so. */
  lemma ChainedSymbolDiffers(pairs: Pairs, parse: Parser, r: MenuRow)
    requires ChainKeeps(parse, r)
    ensures PyNe(r.currencySymbol, ChainedRow(pairs, parse, r).currencySymbol) <==> ChainSymbolDiffers(pairs, r)
  {
  }

  /** A spaced currency name is not a key of the underscored table, so its
      symbol goes through the mapping unchanged. */
  lemma SpacedNameKeepsSymbol(symbol: Cell)
    ensures MappedSymbol(UnderscoredCurrencyTable, Some("Belgian Francs"), symbol) == symbol
  {
    UnderscoredMissesSpacedName();
  }
}
