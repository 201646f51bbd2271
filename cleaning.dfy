/** The record filter: `""` to missing, `dropna` on required columns, the
    blank currency-pair filter and the Cents/Pence blacklist. */
module Cleaning {
  import opened Frames
  import opened Records
  import opened PyText
  import opened Validators

  /** `replace("", pd.NA)` on one cell: exactly `""` becomes missing. */
  function ReplaceEmptyCell(c: Cell): (r: Cell)
    ensures r != Some("")
    ensures IsEmptyCell(c) <==> r.None?
    ensures c != Some("") ==> r == c
  {
    if c == Some("") then None else c
  }

  function ReplaceEmptyMenuRow(r: MenuRow): MenuRow {
    MenuRow(ReplaceEmptyCell(r.date), ReplaceEmptyCell(r.currency), ReplaceEmptyCell(r.currencySymbol),
            ReplaceEmptyCell(r.location), ReplaceEmptyCell(r.occasion))
  }

  function ReplaceEmptyItemRow(r: ItemRow): ItemRow {
    r.(price := ReplaceEmptyCell(r.price))
  }

  /** `df.replace("", pd.NA, inplace=True)` on the Menu table: same rows and
      labels, every `""` cell now missing, every other cell unchanged. */
  function ReplaceEmptyMenu(t: Table<MenuRow>): (r: Table<MenuRow>)
    ensures |r| == |t|
    ensures forall i :: 0 <= i < |t| ==> r[i].index == t[i].index
    ensures forall i :: 0 <= i < |t| ==> r[i].row == ReplaceEmptyMenuRow(t[i].row)
  {
    MapRows(t, ReplaceEmptyMenuRow)
  }

  /** The same on the MenuItem table (its text column is `price`). */
  function ReplaceEmptyItems(t: Table<ItemRow>): (r: Table<ItemRow>)
    ensures |r| == |t|
    ensures forall i :: 0 <= i < |t| ==> r[i].index == t[i].index
    ensures forall i :: 0 <= i < |t| ==> r[i].row == ReplaceEmptyItemRow(t[i].row)
  {
    MapRows(t, ReplaceEmptyItemRow)
  }

  /** Replacing `""` by missing leaves `count_empty` of every column as it was. */
  lemma {:induction false} ReplaceEmptyKeepsCount<R>(t: Table<R>, col: R -> Cell, f: R -> R)
    requires forall r :: col(f(r)) == ReplaceEmptyCell(col(r))
    ensures CountEmpty(MapRows(t, f), col) == CountEmpty(t, col)
  {
    var before := Column(t, col);
    var after := Column(MapRows(t, f), col);
    forall i | 0 <= i < |t| ensures IsEmptyCell(after[i]) == IsEmptyCell(before[i]) { }
    CountWhereSameAt(before, after, IsEmptyCell);
  }

  /** A Menu row after `replace("", pd.NA)`: none of its cells is `""`. */
  predicate NoEmptyStrings(r: MenuRow) {
    && r.date != Some("") && r.currency != Some("") && r.currencySymbol != Some("")
    && r.location != Some("") && r.occasion != Some("")
  }

  /** The tests of `dropna(subset=[...])` on the Menu table, one per column. */
  predicate DatePresent(r: MenuRow) { r.date.Some? }
  predicate CurrencyPresent(r: MenuRow) { r.currency.Some? }
  predicate LocationPresent(r: MenuRow) { r.location.Some? }
  predicate DateCurrencyPresent(r: MenuRow) { r.date.Some? && r.currency.Some? }
  predicate RequiredPresent(r: MenuRow) { r.date.Some? && r.currency.Some? && r.location.Some? }

  /** A raw Menu row the three `dropna` calls keep: date, currency and location
      each hold a non-empty string. */
  predicate HasRequiredFields(r: MenuRow) {
    !IsEmptyCell(r.date) && !IsEmptyCell(r.currency) && !IsEmptyCell(r.location)
  }

  /** `""` to missing, then `dropna` on date, then on currency, then on location. */
  function DropMissingRequired(raw: Table<MenuRow>): Table<MenuRow> {
    Filter(Filter(Filter(ReplaceEmptyMenu(raw), DatePresent), CurrencyPresent), LocationPresent)
  }

  /** After `""` is replaced and the three `dropna` calls run, the survivors are
      exactly the raw rows whose date, currency and location are non-empty, in
      their original order and with their labels, with `""` cells turned into
      missing ones; `count_empty` is then zero on each of the three columns. */
  lemma DropMissingRequiredSpec(raw: Table<MenuRow>)
    ensures DropMissingRequired(raw) == MapRows(Filter(raw, HasRequiredFields), ReplaceEmptyMenuRow)
    ensures CountEmpty(DropMissingRequired(raw), DateOf) == 0
    ensures CountEmpty(DropMissingRequired(raw), CurrencyOf) == 0
    ensures CountEmpty(DropMissingRequired(raw), LocationOf) == 0
    ensures Increasing(raw) ==> Increasing(DropMissingRequired(raw))
  {
    DropMissingRequiredIsOneFilter(raw);
    RequiredRowsComplete(raw);
    RequiredCountsZero(raw);
    RequiredKeepsOrder(raw);
  }

  lemma RequiredCountsZero(raw: Table<MenuRow>)
    requires forall i :: 0 <= i < |DropMissingRequired(raw)| ==>
      RequiredPresent(DropMissingRequired(raw)[i].row) && NoEmptyStrings(DropMissingRequired(raw)[i].row)
    ensures CountEmpty(DropMissingRequired(raw), DateOf) == 0
    ensures CountEmpty(DropMissingRequired(raw), CurrencyOf) == 0
    ensures CountEmpty(DropMissingRequired(raw), LocationOf) == 0
  {
    var c := DropMissingRequired(raw);
    CountEmptyZero(c, DateOf);
    CountEmptyZero(c, CurrencyOf);
    CountEmptyZero(c, LocationOf);
  }

  lemma RequiredKeepsOrder(raw: Table<MenuRow>)
    requires DropMissingRequired(raw) == MapRows(Filter(raw, HasRequiredFields), ReplaceEmptyMenuRow)
    ensures Increasing(raw) ==> Increasing(DropMissingRequired(raw))
  {
    if Increasing(raw) {
      FilterIncreasing(raw, HasRequiredFields);
    }
  }

  lemma DropMissingRequiredIsOneFilter(raw: Table<MenuRow>)
    ensures DropMissingRequired(raw) == Filter(ReplaceEmptyMenu(raw), RequiredPresent)
    ensures DropMissingRequired(raw) == MapRows(Filter(raw, HasRequiredFields), ReplaceEmptyMenuRow)
  {
    var replaced := ReplaceEmptyMenu(raw);
    FilterFilter(replaced, DatePresent, CurrencyPresent, DateCurrencyPresent);
    FilterFilter(replaced, DateCurrencyPresent, LocationPresent, RequiredPresent);
    FilterMapRows(raw, ReplaceEmptyMenuRow, RequiredPresent, HasRequiredFields);
  }

  lemma RequiredRowsComplete(raw: Table<MenuRow>)
    requires DropMissingRequired(raw) == Filter(ReplaceEmptyMenu(raw), RequiredPresent)
    ensures forall i :: 0 <= i < |DropMissingRequired(raw)| ==>
      RequiredPresent(DropMissingRequired(raw)[i].row) && NoEmptyStrings(DropMissingRequired(raw)[i].row)
  {
    var replaced := ReplaceEmptyMenu(raw);
    var c := DropMissingRequired(raw);
    forall i | 0 <= i < |c|
      ensures RequiredPresent(c[i].row) && NoEmptyStrings(c[i].row)
    {
      assert c[i] in c;
      var j :| 0 <= j < |replaced| && replaced[j] == c[i];
    }
  }

  /** `count_empty` is zero once every cell of the column is present and not `""`. */
  lemma CountEmptyZero<R>(t: Table<R>, col: R -> Cell)
    requires forall i :: 0 <= i < |t| ==> col(t[i].row).Some? && col(t[i].row) != Some("")
    ensures CountEmpty(t, col) == 0
  {
  }

  predicate PricePresent(r: ItemRow) { r.price.Some? }

  /** A raw MenuItem row `dropna(subset=["price"])` keeps: a non-empty price. */
  predicate HasPrice(r: ItemRow) { !IsEmptyCell(r.price) }

  /** `""` to missing, then `dropna(subset=["price"])` on the MenuItem table. */
  function DropMissingPrice(raw: Table<ItemRow>): Table<ItemRow> {
    Filter(ReplaceEmptyItems(raw), PricePresent)
  }

  /** The survivors are the raw rows with a non-empty price, in order and with
      their labels, and `count_empty` on price is then zero. */
  lemma DropMissingPriceSpec(raw: Table<ItemRow>)
    ensures DropMissingPrice(raw) == MapRows(Filter(raw, HasPrice), ReplaceEmptyItemRow)
    ensures CountEmpty(DropMissingPrice(raw), PriceOf) == 0
    ensures Increasing(raw) ==> Increasing(DropMissingPrice(raw))
  {
    FilterMapRows(raw, ReplaceEmptyItemRow, PricePresent, HasPrice);
    PricesPresent(raw);
    if Increasing(raw) {
      FilterIncreasing(raw, HasPrice);
    }
  }

  lemma PricesPresent(raw: Table<ItemRow>)
    ensures CountEmpty(DropMissingPrice(raw), PriceOf) == 0
  {
    var c := DropMissingPrice(raw);
    forall i | 0 <= i < |c| ensures c[i].row.price.Some? && c[i].row.price != Some("") {
      assert c[i] in c;
      var j :| 0 <= j < |ReplaceEmptyItems(raw)| && ReplaceEmptyItems(raw)[j] == c[i];
    }
    CountEmptyZero(c, PriceOf);
  }

  /** `isna() | str.strip() == ''`: missing, or only whitespace. */
  predicate IsBlank(c: Cell) {
    c.None? || Strip(c.value) == ""
  }

  /** A row the blank-pair filter keeps: currency or symbol carries text. */
  predicate HasCurrencyInfo(r: MenuRow) {
    !(IsBlank(r.currency) && IsBlank(r.currencySymbol))
  }

  /** Missing, or made of whitespace only (the empty string included). */
  predicate AllWhitespace(c: Cell) {
    c.None? || forall i :: 0 <= i < |c.value| ==> IsSpace(c.value[i])
  }

  /** Drops a row iff both `currency` and `currency_symbol` are missing or
      whitespace-only; keeps every other row, in order and with its label. */
  function DropBlankCurrencyPairs(t: Table<MenuRow>): (r: Table<MenuRow>)
    ensures |r| <= |t|
    ensures forall x :: x in t ==>
      (x in r <==> !(AllWhitespace(x.row.currency) && AllWhitespace(x.row.currencySymbol)))
    ensures forall x :: x in r ==> x in t
  {
    Filter(t, HasCurrencyInfo)
  }

  /** `~df['currency'].isin(['Cents', 'Pence'])`: exact, case-sensitive; a
      missing currency is not in the list. */
  predicate NotCentsOrPence(r: MenuRow) {
    r.currency != Some("Cents") && r.currency != Some("Pence")
  }

  /** Drops exactly the rows whose currency is `"Cents"` or `"Pence"`; rows with
      a missing currency are kept. */
  function DropCentsPence(t: Table<MenuRow>): (r: Table<MenuRow>)
    ensures |r| <= |t|
    ensures forall x :: x in t ==> (x in r <==> x.row.currency != Some("Cents") && x.row.currency != Some("Pence"))
    ensures forall x :: x in t && x.row.currency.None? ==> x in r
    ensures forall x :: x in r ==> x in t
  {
    Filter(t, NotCentsOrPence)
  }

  /** The two currency filters commute: applying the blacklist first gives the
      same table, so the order of lines 124-125 and 137 does not matter. */
  lemma CurrencyFiltersCommute(t: Table<MenuRow>)
    ensures DropCentsPence(DropBlankCurrencyPairs(t)) == DropBlankCurrencyPairs(DropCentsPence(t))
  {
    FilterFilter(t, HasCurrencyInfo, NotCentsOrPence, KeepsCurrency);
    FilterFilter(t, NotCentsOrPence, HasCurrencyInfo, KeepsCurrency);
  }

  predicate KeepsCurrency(r: MenuRow) {
    HasCurrencyInfo(r) && NotCentsOrPence(r)
  }

  /** Filter cases: both fields missing is dropped, a
      symbol alone keeps the row, whitespace counts as blank, and `"Cents"` is
      dropped whatever its symbol. */
  lemma FilterExamples()
    ensures !HasCurrencyInfo(MenuRow(None, None, None, None, None))
    ensures HasCurrencyInfo(MenuRow(None, None, Some("$"), None, None))
    ensures !HasCurrencyInfo(MenuRow(None, Some("  "), Some("\t"), None, None))
    ensures !NotCentsOrPence(MenuRow(None, Some("Cents"), Some("USD"), None, None))
    ensures NotCentsOrPence(MenuRow(None, Some("cents"), None, None, None))
  {
    assert Strip("$") != "" by { assert !IsSpace("$"[0]); }
  }
}
