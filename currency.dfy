/** The currency stage: `currency.map(table).fillna(
    currency_symbol)`, and the ISO 4217 check on the symbol column. */
module Currency {
  import opened Frames
  import opened Records
  import opened Validators
  import opened CurrencyTables

  /** A currency cell the table maps to a code. */
  predicate Listed(pairs: Pairs, currency: Cell) {
    currency.Some? && Lookup(pairs, currency.value).Some?
  }

  /** One cell of `df["currency"].map(table).fillna(df["currency_symbol"])`:
      the code of a listed currency, otherwise the symbol already there (a
      missing currency maps to NaN, which `fillna` also replaces). */
  function MappedSymbol(pairs: Pairs, currency: Cell, symbol: Cell): (r: Cell)
    ensures currency.Some? && Lookup(pairs, currency.value).Some? ==> r == Lookup(pairs, currency.value)
    ensures currency.None? || Lookup(pairs, currency.value).None? ==> r == symbol
  {
    if currency.Some? && Lookup(pairs, currency.value).Some? then Lookup(pairs, currency.value) else symbol
  }

  function NormaliseSymbolRow(pairs: Pairs, r: MenuRow): MenuRow {
    r.(currencySymbol := MappedSymbol(pairs, r.currency, r.currencySymbol))
  }

  /** `df["currency_symbol"] = df["currency"].map(table).fillna(df["currency_symbol"])`:
      same rows and labels; a row whose currency the table lists gets its code
      as symbol, every other row keeps its symbol; no other column changes. */
  function NormaliseSymbols(pairs: Pairs, t: Table<MenuRow>): (r: Table<MenuRow>)
    ensures |r| == |t|
    ensures forall i :: 0 <= i < |t| ==> r[i].index == t[i].index
    ensures forall i :: 0 <= i < |t| ==> r[i].row == t[i].row.(currencySymbol := r[i].row.currencySymbol)
    ensures forall i :: 0 <= i < |t| && t[i].row.currency.Some? && Lookup(pairs, t[i].row.currency.value).Some? ==>
      r[i].row.currencySymbol == Lookup(pairs, t[i].row.currency.value)
    ensures forall i :: 0 <= i < |t| && (t[i].row.currency.None? || Lookup(pairs, t[i].row.currency.value).None?) ==>
      r[i].row.currencySymbol == t[i].row.currencySymbol
  {
    MapRows(t, row => NormaliseSymbolRow(pairs, row))
  }

  /** Mapping twice is mapping once. */
  lemma {:induction false} NormaliseSymbolsIdempotent(pairs: Pairs, t: Table<MenuRow>)
    ensures NormaliseSymbols(pairs, NormaliseSymbols(pairs, t)) == NormaliseSymbols(pairs, t)
  {
  }

  /** `count_invalid_iso_4217` after the mapping. `known` is forex-python's
      `get_currency_name(code) is not None`. When it accepts every code the
      table uses, the mapping never adds a violation: a row whose currency is
      listed now holds an accepted code, and every other row is unchanged. */
  lemma {:induction false} NormaliseSymbolsNoNewViolations(pairs: Pairs, t: Table<MenuRow>, known: string -> bool)
    requires forall i :: 0 <= i < |pairs| ==> known(pairs[i].1)
    ensures forall i :: 0 <= i < |t| && t[i].row.currency.Some? && Lookup(pairs, t[i].row.currency.value).Some? ==>
      !Violates(NormaliseSymbols(pairs, t)[i].row.currencySymbol, known)
    ensures CountInvalid(NormaliseSymbols(pairs, t), SymbolOf, known) <= CountInvalid(t, SymbolOf, known)
  {
    var r := NormaliseSymbols(pairs, t);
    forall i | 0 <= i < |t| && t[i].row.currency.Some? && Lookup(pairs, t[i].row.currency.value).Some?
      ensures !Violates(r[i].row.currencySymbol, known)
    {
      LookupKnown(pairs, t[i].row.currency.value, known);
    }
    CountInvalidPointwise(r, t, SymbolOf, known);
  }

  lemma {:induction false} LookupKnown(pairs: Pairs, key: string, known: string -> bool)
    requires forall i :: 0 <= i < |pairs| ==> known(pairs[i].1)
    requires Lookup(pairs, key).Some?
    ensures known(Lookup(pairs, key).value)
  {
  }
}
