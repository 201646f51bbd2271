/** The two `currency_to_symbol` dict literals of the scripts and Python's
    lookup in them. */
module CurrencyTables {
  import opened Frames

  /** A Python dict literal, as its key/value pairs in written order. */
  type Pairs = seq<(string, string)>

  /** `currency_to_symbol` of AnnotatedICViolations.py, ICViolations.py and
      src/DataCleaningChanges.py: currency names as the Menu data spells them. */
  const SpacedCurrencyTable: Pairs := [
    ("Dollars", "USD"),
    ("Francs", "FRF"),
    ("Belgian Francs", "BEF"),
    ("Shillings", "SHP"),
    ("Deutsche Marks", "DEM"),
    ("UK Pounds", "GBP"),
    ("Canadian Dollars", "CAD"),
    ("Austro-Hungarian Kronen", "HUF"),
    ("Swiss Francs", "CHF"),
    ("Pesetas", "ESP"),
    ("Danish kroner", "DKK"),
    ("Swedish kronor (SEK/kr)", "SEK"),
    ("Yen", "JPY"),
    ("Italian Lire", "ITL"),
    ("Quetzales", "GTQ"),
    ("Israeli lirot (1948-1980)", "ILS"),
    ("Dutch Guilders", "NLG"),
    ("Austrian Schillings", "ATS"),
    ("Escudos", "PTE"),
    ("Euros", "EUR"),
    ("Bermudian dollars", "BMD"),
    ("Hungarian forint", "HUF"),
    ("Mexican pesos", "MXN"),
    ("Drachmas", "GRD"),
    ("New Taiwan Dollar", "TWD"),
    ("Icelandic Krónur", "ISK"),
    ("Australian Dollars", "AUD"),
    ("Argentine peso", "ARS"),
    ("Sol", "PEN"),
    ("Uruguayan pesos", "UYU"),
    ("Brazilian Cruzeiros", "BRB"),
    ("Złoty", "PLN"),
    ("Norwegian kroner", "NOK"),
    ("Cuban pesos", "CUP"),
    ("Finnish markka", "FIM"),
    ("Lats", "LVL"),
    ("Straits dollar (1904-1939)", "SGD")
  ]

  /** `currency_to_symbol` of src/AnnotatedDataCleaningChanges.py: the same
      codes, with spaces, hyphens and brackets of the names written as `_` and
      the accents dropped. */
  const UnderscoredCurrencyTable: Pairs := [
    ("Dollars", "USD"),
    ("Francs", "FRF"),
    ("Belgian_Francs", "BEF"),
    ("Shillings", "SHP"),
    ("Deutsche_Marks", "DEM"),
    ("UK_Pounds", "GBP"),
    ("Canadian_Dollars", "CAD"),
    ("Austro_Hungarian_Kronen", "HUF"),
    ("Swiss_Francs", "CHF"),
    ("Pesetas", "ESP"),
    ("Danish_kroner", "DKK"),
    ("Swedish_kronor_SEK_kr", "SEK"),
    ("Yen", "JPY"),
    ("Italian_Lire", "ITL"),
    ("Quetzales", "GTQ"),
    ("Israeli_lirot_1948_1980", "ILS"),
    ("Dutch_Guilders", "NLG"),
    ("Austrian_Schillings", "ATS"),
    ("Escudos", "PTE"),
    ("Euros", "EUR"),
    ("Bermudian_dollars", "BMD"),
    ("Hungarian_forint", "HUF"),
    ("Mexican_pesos", "MXN"),
    ("Drachmas", "GRD"),
    ("New_Taiwan_Dollar", "TWD"),
    ("Icelandic_Kronur", "ISK"),
    ("Australian_Dollars", "AUD"),
    ("Argentine_peso", "ARS"),
    ("Sol", "PEN"),
    ("Uruguayan_pesos", "UYU"),
    ("Brazilian_Cruzeiros", "BRB"),
    ("Zloty", "PLN"),
    ("Norwegian_kroner", "NOK"),
    ("Cuban_pesos", "CUP"),
    ("Finnish_markka", "FIM"),
    ("Lats", "LVL"),
    ("Straits_dollar_1904_1939", "SGD")
  ]

  /** `dict[key]` for a dict literal: the value of the last pair with that key,
      or `None` for a key the dict does not hold. */
  function Lookup(pairs: Pairs, key: string): (r: Option<string>)
    ensures r.Some? <==> exists i :: 0 <= i < |pairs| && pairs[i].0 == key
    ensures r.Some? ==> exists i :: 0 <= i < |pairs| && pairs[i] == (key, r.value)
  {
    if |pairs| == 0 then None
    else if pairs[|pairs| - 1].0 == key then Some(pairs[|pairs| - 1].1)
    else
      var r := Lookup(pairs[..|pairs| - 1], key);
      assert forall i :: 0 <= i < |pairs| - 1 ==> pairs[..|pairs| - 1][i] == pairs[i];
      r
  }

  /** No key is written twice. */
  predicate DistinctKeys(pairs: Pairs) {
    forall j, k :: 0 <= j < k < |pairs| ==> pairs[j].0 != pairs[k].0
  }

  /** With distinct keys, `dict[key]` gives the value written next to the key. */
  lemma {:induction false} LookupDistinct(pairs: Pairs, i: nat)
    requires i < |pairs| && DistinctKeys(pairs)
    ensures Lookup(pairs, pairs[i].0) == Some(pairs[i].1)
  {
    if i < |pairs| - 1 {
      var front := pairs[..|pairs| - 1];
      assert front[i] == pairs[i];
      LookupDistinct(front, i);
    }
  }

  /** A key written nowhere is not found. */
  lemma {:induction false} LookupAbsent(pairs: Pairs, key: string)
    requires forall k :: 0 <= k < |pairs| ==> pairs[k].0 != key
    ensures Lookup(pairs, key) == None
  {
  }

  /** The position in `SpacedCurrencyTable` of the key with the length and first two
      characters of `name`, or -1 when there is none. */
  function SpacedPosition(name: string): int {
    if |name| == 3 then
      if name[0] == 'Y' && name[1] == 'e' then 12 else
      if name[0] == 'S' && name[1] == 'o' then 28 else
      -1
    else
    if |name| == 4 then
      if name[0] == 'L' && name[1] == 'a' then 35 else
      -1
    else
    if |name| == 5 then
      if name[0] == 'E' && name[1] == 'u' then 19 else
      if name[0] == 'Z' && name[1] == 'ł' then 31 else
      -1
    else
    if |name| == 6 then
      if name[0] == 'F' && name[1] == 'r' then 1 else
      -1
    else
    if |name| == 7 then
      if name[0] == 'D' && name[1] == 'o' then 0 else
      if name[0] == 'P' && name[1] == 'e' then 9 else
      if name[0] == 'E' && name[1] == 's' then 18 else
      -1
    else
    if |name| == 8 then
      if name[0] == 'D' && name[1] == 'r' then 23 else
      -1
    else
    if |name| == 9 then
      if name[0] == 'S' && name[1] == 'h' then 3 else
      if name[0] == 'U' && name[1] == 'K' then 5 else
      if name[0] == 'Q' && name[1] == 'u' then 14 else
      -1
    else
    if |name| == 11 then
      if name[0] == 'C' && name[1] == 'u' then 33 else
      -1
    else
    if |name| == 12 then
      if name[0] == 'S' && name[1] == 'w' then 8 else
      if name[0] == 'I' && name[1] == 't' then 13 else
      -1
    else
    if |name| == 13 then
      if name[0] == 'D' && name[1] == 'a' then 10 else
      if name[0] == 'M' && name[1] == 'e' then 22 else
      -1
    else
    if |name| == 14 then
      if name[0] == 'B' && name[1] == 'e' then 2 else
      if name[0] == 'D' && name[1] == 'e' then 4 else
      if name[0] == 'D' && name[1] == 'u' then 16 else
      if name[0] == 'A' && name[1] == 'r' then 27 else
      if name[0] == 'F' && name[1] == 'i' then 34 else
      -1
    else
    if |name| == 15 then
      if name[0] == 'U' && name[1] == 'r' then 29 else
      -1
    else
    if |name| == 16 then
      if name[0] == 'C' && name[1] == 'a' then 6 else
      if name[0] == 'H' && name[1] == 'u' then 21 else
      if name[0] == 'I' && name[1] == 'c' then 25 else
      if name[0] == 'N' && name[1] == 'o' then 32 else
      -1
    else
    if |name| == 17 then
      if name[0] == 'B' && name[1] == 'e' then 20 else
      if name[0] == 'N' && name[1] == 'e' then 24 else
      -1
    else
    if |name| == 18 then
      if name[0] == 'A' && name[1] == 'u' then 26 else
      -1
    else
    if |name| == 19 then
      if name[0] == 'A' && name[1] == 'u' then 17 else
      if name[0] == 'B' && name[1] == 'r' then 30 else
      -1
    else
    if |name| == 23 then
      if name[0] == 'A' && name[1] == 'u' then 7 else
      if name[0] == 'S' && name[1] == 'w' then 11 else
      -1
    else
    if |name| == 25 then
      if name[0] == 'I' && name[1] == 's' then 15 else
      -1
    else
    if |name| == 26 then
      if name[0] == 'S' && name[1] == 't' then 36 else
      -1
    else
    -1
  }

  /** The position in `UnderscoredCurrencyTable` of the key with the length and first two
      characters of `name`, or -1 when there is none. */
  function UnderscoredPosition(name: string): int {
    if |name| == 3 then
      if name[0] == 'Y' && name[1] == 'e' then 12 else
      if name[0] == 'S' && name[1] == 'o' then 28 else
      -1
    else
    if |name| == 4 then
      if name[0] == 'L' && name[1] == 'a' then 35 else
      -1
    else
    if |name| == 5 then
      if name[0] == 'E' && name[1] == 'u' then 19 else
      if name[0] == 'Z' && name[1] == 'l' then 31 else
      -1
    else
    if |name| == 6 then
      if name[0] == 'F' && name[1] == 'r' then 1 else
      -1
    else
    if |name| == 7 then
      if name[0] == 'D' && name[1] == 'o' then 0 else
      if name[0] == 'P' && name[1] == 'e' then 9 else
      if name[0] == 'E' && name[1] == 's' then 18 else
      -1
    else
    if |name| == 8 then
      if name[0] == 'D' && name[1] == 'r' then 23 else
      -1
    else
    if |name| == 9 then
      if name[0] == 'S' && name[1] == 'h' then 3 else
      if name[0] == 'U' && name[1] == 'K' then 5 else
      if name[0] == 'Q' && name[1] == 'u' then 14 else
      -1
    else
    if |name| == 11 then
      if name[0] == 'C' && name[1] == 'u' then 33 else
      -1
    else
    if |name| == 12 then
      if name[0] == 'S' && name[1] == 'w' then 8 else
      if name[0] == 'I' && name[1] == 't' then 13 else
      -1
    else
    if |name| == 13 then
      if name[0] == 'D' && name[1] == 'a' then 10 else
      if name[0] == 'M' && name[1] == 'e' then 22 else
      -1
    else
    if |name| == 14 then
      if name[0] == 'B' && name[1] == 'e' then 2 else
      if name[0] == 'D' && name[1] == 'e' then 4 else
      if name[0] == 'D' && name[1] == 'u' then 16 else
      if name[0] == 'A' && name[1] == 'r' then 27 else
      if name[0] == 'F' && name[1] == 'i' then 34 else
      -1
    else
    if |name| == 15 then
      if name[0] == 'U' && name[1] == 'r' then 29 else
      -1
    else
    if |name| == 16 then
      if name[0] == 'C' && name[1] == 'a' then 6 else
      if name[0] == 'H' && name[1] == 'u' then 21 else
      if name[0] == 'I' && name[1] == 'c' then 25 else
      if name[0] == 'N' && name[1] == 'o' then 32 else
      -1
    else
    if |name| == 17 then
      if name[0] == 'B' && name[1] == 'e' then 20 else
      if name[0] == 'N' && name[1] == 'e' then 24 else
      -1
    else
    if |name| == 18 then
      if name[0] == 'A' && name[1] == 'u' then 26 else
      -1
    else
    if |name| == 19 then
      if name[0] == 'A' && name[1] == 'u' then 17 else
      if name[0] == 'B' && name[1] == 'r' then 30 else
      -1
    else
    if |name| == 21 then
      if name[0] == 'S' && name[1] == 'w' then 11 else
      -1
    else
    if |name| == 23 then
      if name[0] == 'A' && name[1] == 'u' then 7 else
      if name[0] == 'I' && name[1] == 's' then 15 else
      -1
    else
    if |name| == 24 then
      if name[0] == 'S' && name[1] == 't' then 36 else
      -1
    else
    -1
  }

  /** `SpacedPosition` finds each key of the table at its own position. */
  predicate SpacedIndexedIn(lo: nat, hi: nat) {
    forall k :: lo <= k < hi && k < |SpacedCurrencyTable| ==> SpacedPosition(SpacedCurrencyTable[k].0) == k
  }

  lemma SpacedIndexed()
    ensures SpacedIndexedIn(0, |SpacedCurrencyTable|)
  {
    SpacedIndexedLow();
    SpacedIndexedHigh();
  }

  lemma SpacedIndexedLow()
    ensures forall k :: 0 <= k < 19 ==> SpacedPosition(SpacedCurrencyTable[k].0) == k
  {
  }

  lemma SpacedIndexedHigh()
    ensures forall k :: 19 <= k < 37 ==> SpacedPosition(SpacedCurrencyTable[k].0) == k
  {
  }

  /** `UnderscoredPosition` finds each key of the table at its own position. */
  predicate UnderscoredIndexedIn(lo: nat, hi: nat) {
    forall k :: lo <= k < hi && k < |UnderscoredCurrencyTable| ==> UnderscoredPosition(UnderscoredCurrencyTable[k].0) == k
  }

  lemma UnderscoredIndexed()
    ensures UnderscoredIndexedIn(0, |UnderscoredCurrencyTable|)
  {
    UnderscoredIndexedLow();
    UnderscoredIndexedHigh();
  }

  lemma UnderscoredIndexedLow()
    ensures forall k :: 0 <= k < 19 ==> UnderscoredPosition(UnderscoredCurrencyTable[k].0) == k
  {
  }

  lemma UnderscoredIndexedHigh()
    ensures forall k :: 19 <= k < 37 ==> UnderscoredPosition(UnderscoredCurrencyTable[k].0) == k
  {
  }

  /** Neither table writes a currency name twice, so Python's "last pair
      wins" never comes into play. */
  lemma SpacedTableDistinct()
    ensures DistinctKeys(SpacedCurrencyTable)
  {
    SpacedIndexed();
    assert forall j, k :: 0 <= j < k < |SpacedCurrencyTable| && SpacedCurrencyTable[j].0 == SpacedCurrencyTable[k].0 ==>
      SpacedPosition(SpacedCurrencyTable[j].0) == SpacedPosition(SpacedCurrencyTable[k].0);
  }

  lemma UnderscoredTableDistinct()
    ensures DistinctKeys(UnderscoredCurrencyTable)
  {
    UnderscoredIndexed();
    assert forall j, k :: 0 <= j < k < |UnderscoredCurrencyTable| && UnderscoredCurrencyTable[j].0 == UnderscoredCurrencyTable[k].0 ==>
      UnderscoredPosition(UnderscoredCurrencyTable[j].0) == UnderscoredPosition(UnderscoredCurrencyTable[k].0);
  }

  /** Every code in a table is ISO 4217-shaped: three upper-case letters. */
  predicate IsCodeShaped(code: string) {
    |code| == 3 && forall i :: 0 <= i < 3 ==> 'A' <= code[i] <= 'Z'
  }

  predicate CodesShaped(pairs: Pairs) {
    forall i :: 0 <= i < |pairs| ==> IsCodeShaped(pairs[i].1)
  }

  /** Both tables hold 37 currency names, each mapped to a three-letter code. */
  lemma TablesShaped()
    ensures |SpacedCurrencyTable| == 37 && CodesShaped(SpacedCurrencyTable)
    ensures |UnderscoredCurrencyTable| == 37 && CodesShaped(UnderscoredCurrencyTable)
  {
    SpacedCodesShaped();
    UnderscoredCodesShaped();
  }

  lemma SpacedCodesShaped()
    ensures forall i :: 0 <= i < 37 ==> IsCodeShaped(SpacedCurrencyTable[i].1)
  {
  }

  lemma UnderscoredCodesShaped()
    ensures forall i :: 0 <= i < 37 ==> IsCodeShaped(UnderscoredCurrencyTable[i].1)
  {
  }

  /** Every listed name is found with the code written next to it. */
  lemma SpacedTableLookups()
    ensures forall i :: 0 <= i < |SpacedCurrencyTable| ==>
      Lookup(SpacedCurrencyTable, SpacedCurrencyTable[i].0) == Some(SpacedCurrencyTable[i].1)
  {
    SpacedTableDistinct();
    forall i | 0 <= i < |SpacedCurrencyTable|
      ensures Lookup(SpacedCurrencyTable, SpacedCurrencyTable[i].0) == Some(SpacedCurrencyTable[i].1)
    {
      LookupDistinct(SpacedCurrencyTable, i);
    }
  }

  lemma UnderscoredTableLookups()
    ensures forall i :: 0 <= i < |UnderscoredCurrencyTable| ==>
      Lookup(UnderscoredCurrencyTable, UnderscoredCurrencyTable[i].0) == Some(UnderscoredCurrencyTable[i].1)
  {
    UnderscoredTableDistinct();
    forall i | 0 <= i < |UnderscoredCurrencyTable|
      ensures Lookup(UnderscoredCurrencyTable, UnderscoredCurrencyTable[i].0) == Some(UnderscoredCurrencyTable[i].1)
    {
      LookupDistinct(UnderscoredCurrencyTable, i);
    }
  }

  /** The plain names map to their codes: `"Dollars"` to `USD`, `"Belgian
      Francs"` to `BEF`. */
  lemma SpacedLookups()
    ensures Lookup(SpacedCurrencyTable, "Dollars") == Some("USD")
    ensures Lookup(SpacedCurrencyTable, "Belgian Francs") == Some("BEF")
  {
    SpacedTableDistinct();
    LookupDistinct(SpacedCurrencyTable, 0);
    LookupDistinct(SpacedCurrencyTable, 2);
  }

  /** Two different names share one code: both Hungarian names give `HUF`. */
  lemma HungarianNamesShareCode()
    ensures Lookup(SpacedCurrencyTable, "Austro-Hungarian Kronen") == Some("HUF")
    ensures Lookup(SpacedCurrencyTable, "Hungarian forint") == Some("HUF")
  {
    KronenLookup();
    ForintLookup();
  }

  lemma KronenLookup()
    ensures Lookup(SpacedCurrencyTable, "Austro-Hungarian Kronen") == Some("HUF")
  {
    SpacedTableDistinct();
    assert SpacedCurrencyTable[7] == ("Austro-Hungarian Kronen", "HUF");
    LookupDistinct(SpacedCurrencyTable, 7);
  }

  lemma ForintLookup()
    ensures Lookup(SpacedCurrencyTable, "Hungarian forint") == Some("HUF")
  {
    SpacedTableDistinct();
    assert SpacedCurrencyTable[21] == ("Hungarian forint", "HUF");
    LookupDistinct(SpacedCurrencyTable, 21);
  }

  /** The underscored table lists `"Belgian_Francs"`... */
  lemma UnderscoredLookup()
    ensures Lookup(UnderscoredCurrencyTable, "Belgian_Francs") == Some("BEF")
  {
    UnderscoredTableDistinct();
    LookupDistinct(UnderscoredCurrencyTable, 2);
  }

  /** ...but not the spaced spelling `"Belgian Francs"`, whose symbol it
      therefore keeps. */
  lemma UnderscoredMissesSpacedName()
    ensures Lookup(UnderscoredCurrencyTable, "Belgian Francs") == None
  {
    UnderscoredIndexed();
    assert UnderscoredPosition("Belgian Francs") == 2;
    assert UnderscoredCurrencyTable[2].0[7] != "Belgian Francs"[7];
    LookupAbsent(UnderscoredCurrencyTable, "Belgian Francs");
  }

  /** A name in neither table, such as `"Bitcoin"`, is not found, so its
      symbol is kept. */
  lemma UnlistedName()
    ensures Lookup(SpacedCurrencyTable, "Bitcoin") == None
    ensures Lookup(UnderscoredCurrencyTable, "Bitcoin") == None
  {
    SpacedIndexed();
    UnderscoredIndexed();
    assert SpacedPosition("Bitcoin") == -1 && UnderscoredPosition("Bitcoin") == -1;
    LookupAbsent(SpacedCurrencyTable, "Bitcoin");
    LookupAbsent(UnderscoredCurrencyTable, "Bitcoin");
  }
}
