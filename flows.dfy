/** The Menu pipelines the scripts assemble from the cleaning steps: the
    currency stage run on a fresh copy of the raw table, and the whole chain
    (blanks, required columns, dates, currency) run on one table. For each,
    where every surviving row came from and what became of it. */
module Flows {
  import opened Frames
  import opened Records
  import opened Validators
  import opened Cleaning
  import Dates
  import opened CurrencyTables
  import opened Currency

  type Parser = string -> Option<Dates.Timestamp>

  /** The blank-pair filter, the Cents/Pence filter and the symbol mapping,
      run on a fresh copy of the raw Menu table. The survivors are the raw
      rows with currency information and a currency other than Cents or
      Pence, each under its raw position as label and with its symbol
      mapped; every such raw row survives, once, and in raw order. */
  function FreshCurrencyStage(pairs: Pairs, raw: seq<MenuRow>): (c: Table<MenuRow>)
    ensures |c| <= |raw|
    ensures forall i :: 0 <= i < |c| ==>
      c[i].index < |raw| && KeepsCurrency(raw[c[i].index]) && c[i].row == NormaliseSymbolRow(pairs, raw[c[i].index])
    ensures forall j :: 0 <= j < |raw| && KeepsCurrency(raw[j]) ==> exists i :: 0 <= i < |c| && c[i].index == j
    ensures Increasing(c)
  {
    var t := FreshFiltered(raw);
    var c := NormaliseSymbols(pairs, t);
    assert Increasing(c) by {
      var t0 := FromRows(raw);
      assert Increasing(t0);
      FilterIncreasing(t0, HasCurrencyInfo);
      FilterIncreasing(Filter(t0, HasCurrencyInfo), NotCentsOrPence);
    }
    forall i | 0 <= i < |c|
      ensures c[i].index < |raw| && KeepsCurrency(raw[c[i].index]) && c[i].row == NormaliseSymbolRow(pairs, raw[c[i].index])
    {
      FreshFilteredSource(raw, i);
      MappedRow(pairs, t, c, i);
    }
    forall j | 0 <= j < |raw| && KeepsCurrency(raw[j]) ensures exists i :: 0 <= i < |c| && c[i].index == j {
      var i := FreshFilteredKeeps(raw, j);
      MappedRow(pairs, t, c, i);
    }
    c
  }

  /** The two currency filters on a fresh copy. */
  function FreshFiltered(raw: seq<MenuRow>): Table<MenuRow> {
    DropCentsPence(DropBlankCurrencyPairs(FromRows(raw)))
  }

  lemma FreshFilteredSource(raw: seq<MenuRow>, i: nat)
    requires i < |FreshFiltered(raw)|
    ensures FreshFiltered(raw)[i].index < |raw| && FreshFiltered(raw)[i].row == raw[FreshFiltered(raw)[i].index]
    ensures KeepsCurrency(raw[FreshFiltered(raw)[i].index])
  {
    var t0 := FromRows(raw);
    var t1 := Filter(t0, HasCurrencyInfo);
    var t2 := Filter(t1, NotCentsOrPence);
    assert FreshFiltered(raw) == t2;
    assert t2[i] in t2;
    assert t2[i] in t1;
    var j :| 0 <= j < |t0| && t0[j] == t2[i];
  }

  lemma FreshFilteredKeeps(raw: seq<MenuRow>, j: nat) returns (i: nat)
    requires j < |raw| && KeepsCurrency(raw[j])
    ensures i < |FreshFiltered(raw)| && FreshFiltered(raw)[i].index == j
  {
    var t0 := FromRows(raw);
    var t1 := Filter(t0, HasCurrencyInfo);
    var t2 := Filter(t1, NotCentsOrPence);
    assert FreshFiltered(raw) == t2;
    assert t0[j] in t0;
    assert t0[j] in t1;
    assert t0[j] in t2;
    i :| 0 <= i < |t2| && t2[i] == t0[j];
  }

  /** Row `i` of the mapped table is row `i` of its input with its symbol mapped. */
  lemma MappedRow(pairs: Pairs, t: Table<MenuRow>, c: Table<MenuRow>, i: nat)
    requires c == NormaliseSymbols(pairs, t) && i < |t|
    ensures c[i].index == t[i].index && c[i].row == NormaliseSymbolRow(pairs, t[i].row)
  {
  }

  /** What the chain makes of one raw row it keeps: `""` cells missing, the
      date in ISO form, the symbol mapped. */
  function ChainedRow(pairs: Pairs, parse: Parser, r: MenuRow): MenuRow {
    NormaliseSymbolRow(pairs, Dates.ToIsoMenuRow(ReplaceEmptyMenuRow(r), parse))
  }

  /** A raw row the chain keeps: date, currency and location non-empty, the
      date parses, and the currency information passes both filters. */
  predicate ChainKeeps(parse: Parser, r: MenuRow) {
    HasRequiredFields(r) && parse(r.date.value).Some? && KeepsCurrency(ReplaceEmptyMenuRow(r))
  }

  /** The whole Menu chain on one table: `""` to missing, `dropna` on the
      three required columns, dates to ISO form and unparsable ones dropped,
      the two currency filters, the symbol mapping. The survivors are the raw
      rows the chain keeps, under their raw positions, each rewritten by the
      chain; every such raw row survives, once, and in raw order. */
  function ChainedMenuStage(pairs: Pairs, raw: seq<MenuRow>, parse: Parser): (c: Table<MenuRow>)
    ensures |c| <= |raw|
    ensures forall i :: 0 <= i < |c| ==>
      c[i].index < |raw| && ChainKeeps(parse, raw[c[i].index]) && c[i].row == ChainedRow(pairs, parse, raw[c[i].index])
    ensures forall j :: 0 <= j < |raw| && ChainKeeps(parse, raw[j]) ==> exists i :: 0 <= i < |c| && c[i].index == j
    ensures Increasing(c)
  {
    var t := ChainFiltered(raw, parse);
    var c := NormaliseSymbols(pairs, t);
    assert Increasing(c) by {
      var t0 := FromRows(raw);
      assert Increasing(t0);
      DropMissingRequiredSpec(t0);
      var t2 := Dates.ToIsoDates(DropMissingRequired(t0), parse);
      Dates.ToIsoDatesIncreasing(DropMissingRequired(t0), parse);
      FilterIncreasing(t2, HasCurrencyInfo);
      FilterIncreasing(Filter(t2, HasCurrencyInfo), NotCentsOrPence);
    }
    forall i | 0 <= i < |c|
      ensures c[i].index < |raw| && ChainKeeps(parse, raw[c[i].index]) && c[i].row == ChainedRow(pairs, parse, raw[c[i].index])
    {
      ChainFilteredSource(raw, parse, i);
      MappedRow(pairs, t, c, i);
    }
    forall j | 0 <= j < |raw| && ChainKeeps(parse, raw[j]) ensures exists i :: 0 <= i < |c| && c[i].index == j {
      var i := ChainFilteredKeeps(raw, parse, j);
      MappedRow(pairs, t, c, i);
    }
    c
  }

  /** The chain up to, and without, the symbol mapping. */
  function ChainFiltered(raw: seq<MenuRow>, parse: Parser): Table<MenuRow> {
    DropCentsPence(DropBlankCurrencyPairs(Dates.ToIsoDates(DropMissingRequired(FromRows(raw)), parse)))
  }

  lemma ChainFilteredSource(raw: seq<MenuRow>, parse: Parser, i: nat)
    requires i < |ChainFiltered(raw, parse)|
    ensures ChainFiltered(raw, parse)[i].index < |raw|
    ensures ChainKeeps(parse, raw[ChainFiltered(raw, parse)[i].index])
    ensures ChainFiltered(raw, parse)[i].row == Dates.ToIsoMenuRow(ReplaceEmptyMenuRow(raw[ChainFiltered(raw, parse)[i].index]), parse)
  {
    var t1 := DropMissingRequired(FromRows(raw));
    var t2 := Dates.ToIsoDates(t1, parse);
    var x := CurrencyFiltersSource(t2, i);
    assert x == ChainFiltered(raw, parse)[i];
    var y :| y in t1 && x == Indexed(y.index, Dates.ToIsoMenuRow(y.row, parse));
    var j := RequiredSource(raw, y);
    ChainKeepsOfRow(parse, raw[j], x.row);
  }

  /** A row past the two currency filters is a row of their input that
      passes both. */
  lemma CurrencyFiltersSource(t: Table<MenuRow>, i: nat) returns (x: Indexed<MenuRow>)
    requires i < |DropCentsPence(DropBlankCurrencyPairs(t))|
    ensures x == DropCentsPence(DropBlankCurrencyPairs(t))[i]
    ensures x in t && KeepsCurrency(x.row)
  {
    var t3 := Filter(t, HasCurrencyInfo);
    var t4 := DropCentsPence(t3);
    assert DropBlankCurrencyPairs(t) == t3;
    x := t4[i];
    assert x in t4;
    assert x in t3;
  }

  lemma ChainKeepsOfRow(parse: Parser, r: MenuRow, x: MenuRow)
    requires HasRequiredFields(r) && x == Dates.ToIsoMenuRow(ReplaceEmptyMenuRow(r), parse)
    requires x.date.Some? && KeepsCurrency(x)
    ensures ChainKeeps(parse, r)
  {
  }

  lemma ChainFilteredKeeps(raw: seq<MenuRow>, parse: Parser, j: nat) returns (i: nat)
    requires j < |raw| && ChainKeeps(parse, raw[j])
    ensures i < |ChainFiltered(raw, parse)| && ChainFiltered(raw, parse)[i].index == j
  {
    var t1 := DropMissingRequired(FromRows(raw));
    var t2 := Dates.ToIsoDates(t1, parse);
    var t3 := Filter(t2, HasCurrencyInfo);
    var t4 := DropCentsPence(t3);
    assert ChainFiltered(raw, parse) == t4;
    var y := Indexed(j, ReplaceEmptyMenuRow(raw[j]));
    RequiredKeeps(raw, j);
    var x := Indexed(j, Dates.ToIsoMenuRow(y.row, parse));
    assert x in t2;
    assert x in t3;
    assert x in t4;
    i :| 0 <= i < |t4| && t4[i] == x;
  }

  /** A row left by the required-column stage is a raw row with its `""`
      cells made missing, under its raw position. */
  lemma RequiredSource(raw: seq<MenuRow>, y: Indexed<MenuRow>) returns (j: nat)
    requires y in DropMissingRequired(FromRows(raw))
    ensures j < |raw| && y == Indexed(j, ReplaceEmptyMenuRow(raw[j])) && HasRequiredFields(raw[j])
  {
    var t0 := FromRows(raw);
    DropMissingRequiredIsOneFilter(t0);
    var f := Filter(t0, HasRequiredFields);
    var k :| 0 <= k < |f| && MapRows(f, ReplaceEmptyMenuRow)[k] == y;
    assert f[k] in f;
    j := f[k].index;
  }

  /** A raw row with its required columns filled survives that stage. */
  lemma RequiredKeeps(raw: seq<MenuRow>, j: nat)
    requires j < |raw| && HasRequiredFields(raw[j])
    ensures Indexed(j, ReplaceEmptyMenuRow(raw[j])) in DropMissingRequired(FromRows(raw))
  {
    var t0 := FromRows(raw);
    DropMissingRequiredIsOneFilter(t0);
    var f := Filter(t0, HasRequiredFields);
    var k := FilterKeepsAt(t0, HasRequiredFields, j);
    assert MapRows(f, ReplaceEmptyMenuRow)[k] == Indexed(j, ReplaceEmptyMenuRow(raw[j]));
  }
}
