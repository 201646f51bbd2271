# Integrity-constraint checking and repair for the NYPL menu tables

The repository cleans three tables of a historical restaurant-menu
collection (`Menu.csv`, `MenuItem.csv`, `Dish.csv`) with pandas scripts and
reports, for each integrity constraint, how many cells violate it before and
after cleaning. Four scripts do this: `AnnotatedICViolations.py` and
`ICViolations.py` report violation counts; `src/DataCleaningChanges.py` and
`src/AnnotatedDataCleaningChanges.py` report row counts and changed cells.
This project models the cleaning steps and the counters they report, and
proves what the reports mean.

A pandas frame is a `Table<R>`: a sequence of rows, each keeping its index
label, so that `df_original.loc[df_cleaned.index]` can be stated. A cell is
`Option<string>`, with `None` for NaN/NA. Rows are `MenuRow` (date,
currency, currency symbol, location, occasion), `ItemRow` (dish id, price)
and `Dish` (id, name).

Modules:

- `Frames` (frames.dfy): tables, filters, row maps, column extraction, label
  lookup, counting, and the pandas `!=` comparison (`PyNe`: a null on
  either side compares unequal).
- `Records` (records.dfy): the three row types and their column selectors.
- `Validators` (validators.dfy): `count_empty`, the `count_invalid_*`
  counters, and the 20-word occasion vocabulary.
- `Cleaning` (cleaning.dfy) holds the Menu and MenuItem row filters:
  - `replace("", NA)`;
  - `dropna` on the required columns and on `price`;
  - the blank currency-pair filter;
  - the Cents/Pence blacklist.
- `Dates` (dates.dfy) holds the date rewrite and the date-format check:
  - `to_iso_format`, with the parser as a parameter;
  - `strftime("%Y-%m-%d")`;
  - `is_date_format`, modelled as a lenient `%Y-%m-%d` reader.
- `CurrencyTables` (currency_tables.dfy) holds the two 37-entry
  `currency_to_symbol` dictionaries:
  - spaced keys, used by `AnnotatedICViolations.py`, `ICViolations.py` and
    `src/DataCleaningChanges.py`;
  - underscored keys, used by `src/AnnotatedDataCleaningChanges.py`.
- `Currency` (currency.dfy): `.map(table).fillna(currency_symbol)`.
- `PyText` (text.dfy): ASCII `str.strip`, `str.split()`, `' '.join` and
  `str.capitalize`.
- `Names` (names.dfy): `standardize_name` and its column update.
- `Dedup` (dedup.dfy) holds the duplicate-name resolution:
  - the duplicate-name groups (`duplicated(keep=False)` then
    `groupby('name')`);
  - the loop building `id_mapping`;
  - `Series.replace(id_mapping)`.
- `Integrity` (integrity.dfy): `verify_integrity` and its loop over
  `seen_dish_ids`.
- `Flows` (flows.dfy) composes the Menu stages in two ways:
  - restarting from a fresh raw copy (`ICViolations.py`,
    `src/DataCleaningChanges.py`);
  - chained on one table (`AnnotatedICViolations.py`,
    `src/AnnotatedDataCleaningChanges.py`).
- `IcViolations`, `AnnotatedIcViolations`, `DataCleaningChanges` and
  `AnnotatedDataCleaningChanges` hold what each script's report amounts to.

The two loops of the source are methods with loop invariants:
`Dedup.BuildIdMapping` is the nested loop filling `id_mapping`, and
`Integrity.VerifyIntegrity` is the pass over the items. Each is proved
equal to a specification function (`MappingOf`, `BadMappings`), and the
lemmas about those functions carry the properties.

Facts about the code that the model keeps:

- the two currency dictionaries have 37 entries each;
- `str.capitalize` lower-cases every character after the first, so
  `"MARGHERITA"` becomes `"Margherita"`;
- `verify_integrity` compares a name it stored with a lookup in the same
  id→name snapshot. So, despite its message about a different name, it only
  counts repeats whose name is NaN (`nan != nan`).

Some functions return a lambda so that filters and counts share one term:
`Frames.DiffTest`, `Validators.ViolationTest`, `Dates.IsoRewriter`,
`Dates.DateParses`, `Dedup.Remapper`, `DataCleaningChanges.IdChangedTest`,
`DataCleaningChanges.RefersToRepeatTest` and
`AnnotatedDataCleaningChanges.RequiredAndParses`. They are adapters, not
modelling claims. What they stand for is stated by `CountInvalid`,
`DiffCount`, `ToIsoDates`, `Remap`, `DishIdDiffs` and `DateLengths`.

Rows are given to members with a contract. The row predicates and
compositions below model source lines too; each is used in the contract of
the row named after it, which states what it means:
`Cleaning.DropMissingRequired` and `HasRequiredFields`
(`Cleaning.DropMissingRequiredSpec`), `Cleaning.DropMissingPrice`
(`Cleaning.DropMissingPriceSpec`), `Cleaning.HasCurrencyInfo`
(`Cleaning.DropBlankCurrencyPairs`, `Cleaning.FilterExamples`),
`Cleaning.NotCentsOrPence` (`Cleaning.DropCentsPence`,
`Cleaning.FilterExamples`), `Cleaning.KeepsCurrency`
(`Cleaning.CurrencyFiltersCommute`, `Flows.FreshCurrencyStage`),
`Cleaning.ReplaceEmptyMenuRow` (`Cleaning.ReplaceEmptyMenu`, whose cells
follow `Cleaning.ReplaceEmptyCell`), `Currency.NormaliseSymbolRow`
(`Currency.NormaliseSymbols`, `Currency.MappedSymbol`), `Dates.IsDateFormat`
(`Dates.FormatIsoRoundTrip` and the `Dates.IsDateFormat…` example rows),
`Dates.ToIsoMenuRow` (`Dates.ToIsoDates`, `Dates.ToIsoCell`),
`Validators.Violates` (`Validators.CountInvalid`,
`Validators.OccasionExamples`),
`Validators.IsValidOccasion` (`Validators.OccasionExamples`,
`Validators.CountInvalidOccasions`), `DataCleaningChanges.SymbolDiffers`
(`DataCleaningChanges.SymbolDiffs`), `DataCleaningChanges.IdChanged`
(`DataCleaningChanges.DishIdDiffs`),
`AnnotatedDataCleaningChanges.ChainSymbolDiffers`
(`AnnotatedDataCleaningChanges.SymbolDiffs`,
`AnnotatedDataCleaningChanges.ChainedSymbolDiffers`), `Integrity.BadAt` and
`Integrity.BadMappings` (`Integrity.VerifyIntegrity`, `Integrity.SnocBad`),
`Dedup.IsLaterDuplicate` (`Dedup.IdMappingOf`), `Flows.FreshFiltered`
(`Flows.FreshFilteredSource`, `Flows.FreshFilteredKeeps`),
`Flows.ChainFiltered` (`Flows.ChainFilteredSource`,
`Flows.ChainFilteredKeeps`) and `Flows.ChainKeeps`
(`Flows.ChainedMenuStage`).

## Model

| member | source | states |
|---|---|---|
| Frames.FromRows | AnnotatedICViolations.py:11-18 | a freshly read or copied frame labels row i with i and holds the rows in order |
| Frames.Filter | AnnotatedICViolations.py:124-125 | a boolean-mask selection keeps exactly the labelled rows that pass, each with its label, and never grows the table |
| Frames.FilterKeepsAt | AnnotatedICViolations.py:124-125 | a row that passes the mask appears, with its label, in the selection |
| Frames.FilterLength | src/DataCleaningChanges.py:21-31 | the length of a selection is the number of rows that pass the mask |
| Frames.FilterCount | src/DataCleaningChanges.py:21-31 | counting a property over a selection counts the rows that pass both the mask and the property |
| Frames.FilterIncreasing | AnnotatedICViolations.py:29-31 | a selection keeps the surviving labels in their original order |
| Frames.FilterFilter | AnnotatedICViolations.py:29-31 | two successive masks select the same rows as one mask requiring both |
| Frames.FilterAppend | AnnotatedICViolations.py:29-31 | a mask applied to two halves selects the concatenation of what it selects from each |
| Frames.FilterSame | AnnotatedICViolations.py:29-31 | masks that agree on every row select the same rows |
| Frames.MapRows | AnnotatedICViolations.py:189 | a column overwrite keeps every label and row count and rewrites each row |
| Frames.FilterMapRows | AnnotatedICViolations.py:23-31 | selecting after a rewrite equals rewriting after selecting by the pulled-back mask |
| Frames.CountWhere | AnnotatedICViolations.py:38-40 | an `apply(...).sum()` count is at most the number of cells |
| Frames.CountWhereZero | AnnotatedICViolations.py:38-40 | a count is zero exactly when no cell has the property |
| Frames.CountWhereAll | AnnotatedICViolations.py:38-40 | a count equals the number of cells exactly when every cell has the property |
| Frames.CountWhereMono | AnnotatedICViolations.py:38-40 | a weaker property never counts fewer cells |
| Frames.CountWhereDisjoint | AnnotatedICViolations.py:38-40 | the counts of two exclusive properties add up to the count of either (NaN plus `""` in `count_empty`) |
| Frames.CountWhereAppend | AnnotatedICViolations.py:38-40 | a count over two parts is the sum of the counts |
| Frames.CountWhereMatch | src/DataCleaningChanges.py:61-67 | two equally long columns whose cells agree position by position on two tests give equal counts |
| Frames.CountWherePointwise | AnnotatedICViolations.py:209-211 | a column that violates wherever another does counts at least as many violations |
| Frames.Column | AnnotatedICViolations.py:38-40 | `df[column]` holds one cell per row, in row order |
| Frames.CountWhereFilter | AnnotatedICViolations.py:124-137 | dropping rows never raises a column's count |
| Frames.RowWithLabel | src/DataCleaningChanges.py:138 | `.loc[label]` finds a row exactly when some row carries that label |
| Frames.RowWithLabelFromRows | src/DataCleaningChanges.py:138 | on a fresh frame, label i finds row i and labels past the end find nothing |
| Frames.DiffCount | src/DataCleaningChanges.py:138-146 | the aligned `!=` count is defined exactly when every surviving label exists in the original (else `KeyError`), is at most the surviving row count, and is 0 exactly when no aligned cell differs |
| Frames.DiffCountIs | src/DataCleaningChanges.py:138-146 | the aligned `!=` count equals any count that agrees with it row by row |
| Validators.CountEmpty | AnnotatedICViolations.py:37-41 | `count_empty` equals the number of cells that are NaN or exactly `""` (no stripping), is at most the row count, and is 0 exactly when every cell is a non-empty string |
| Validators.CountInvalid | AnnotatedICViolations.py:101-103 | a `count_invalid_*` count is at most the row count, counts every NaN, and is 0 exactly when every cell is present and valid |
| Validators.CountInvalidPointwise | AnnotatedICViolations.py:209-211 | a column that violates wherever another does has at least as many violations |
| Validators.CountInvalidFilter | AnnotatedICViolations.py:124-137 | dropping rows never raises an invalid count |
| Validators.CountInvalidMapRows | AnnotatedICViolations.py:201-211 | a rewrite that leaves the counted column alone leaves its invalid count alone |
| Validators.OccasionsDistinct | AnnotatedICViolations.py:233-256 | the occasion vocabulary has 20 distinct entries |
| Validators.OccasionExamples | AnnotatedICViolations.py:233-256 | membership is exact and case-sensitive: `"Dinner"` is valid; `"dinner"`, `"Dinner "`, `"Religious holiday"` and `"Brunch"` are not; NaN violates |
| Validators.UnlistedOccasions | AnnotatedICViolations.py:233-256 | an unlisted word and a listed word with a trailing space are invalid |
| Validators.MiscapitalisedOccasions | AnnotatedICViolations.py:233-256 | a listed word in other letter case is invalid |
| Validators.CountInvalidOccasions | AnnotatedICViolations.py:262-264 | `count_invalid_occasions` is at most the row count, counts every NaN, and is 0 exactly when every cell is one of the 20 occasions |
| Cleaning.ReplaceEmptyCell | AnnotatedICViolations.py:23 | `replace("", NA)` leaves no `""`, makes a cell missing exactly when it was NaN or `""`, and keeps every other cell |
| Cleaning.ReplaceEmptyMenu | AnnotatedICViolations.py:23 | the Menu replacement keeps the row count and every label; what each cell becomes is stated by `Cleaning.ReplaceEmptyCell` |
| Cleaning.ReplaceEmptyItems | AnnotatedICViolations.py:300 | the MenuItem replacement keeps the row count and every label; what each cell becomes is stated by `Cleaning.ReplaceEmptyCell` |
| Cleaning.ReplaceEmptyKeepsCount | AnnotatedICViolations.py:23 | `count_empty` of a column is the same before and after the replacement |
| Cleaning.DropMissingRequiredSpec | AnnotatedICViolations.py:23-31 | `""` to NaN then `dropna` on date, currency and location equals one filter requiring all three non-empty followed by the replacement; afterwards `count_empty` is 0 for all three columns; labels keep their order |
| Cleaning.DropMissingRequiredIsOneFilter | AnnotatedICViolations.py:23-31 | the three `dropna` calls after the replacement select the same rows as one filter on all three columns |
| Cleaning.RequiredRowsComplete | AnnotatedICViolations.py:52-56 | every surviving row has date, currency and location present and no `""` cell |
| Cleaning.RequiredCountsZero | AnnotatedICViolations.py:52-56 | when every survivor is complete, the three cleaned `count_empty` values are 0 |
| Cleaning.RequiredKeepsOrder | AnnotatedICViolations.py:29-31 | the required-column stage keeps labels in increasing order |
| Cleaning.CountEmptyZero | AnnotatedICViolations.py:37-41 | a column of present non-empty cells has `count_empty` 0 |
| Cleaning.DropMissingPriceSpec | AnnotatedICViolations.py:300-317 | `""` to NaN then `dropna` on price keeps exactly the items with a non-empty price, in order; its `count_empty` is 0 |
| Cleaning.PricesPresent | AnnotatedICViolations.py:311-317 | the cleaned price column has `count_empty` 0 |
| Cleaning.DropBlankCurrencyPairs | AnnotatedICViolations.py:124-125 | a row is dropped exactly when currency and symbol are both NaN or whitespace-only; survivors keep their labels |
| Cleaning.DropCentsPence | AnnotatedICViolations.py:137 | a row is dropped exactly when its currency is exactly `'Cents'` or `'Pence'`; rows with NaN currency stay |
| Cleaning.CurrencyFiltersCommute | AnnotatedICViolations.py:124-137 | the two currency filters give the same rows in either order |
| Cleaning.FilterExamples | AnnotatedICViolations.py:124-137 | a row with no currency information is dropped, a whitespace pair counts as blank, and the blacklist compares case-sensitively |
| Dates.DaysInMonth | AnnotatedICViolations.py:92 | a month has 28 to 31 days, and 29 exactly for February of a leap year |
| Dates.DigitChar | AnnotatedICViolations.py:77 | the printed digit reads back as the same value |
| Dates.Pad2 | AnnotatedICViolations.py:77 | a two-digit `%m`/`%d` field reads back as its value |
| Dates.Pad4 | AnnotatedICViolations.py:77 | a four-digit `%Y` field reads back as its value |
| Dates.FormatIso | AnnotatedICViolations.py:77 | `strftime("%Y-%m-%d")` produces ten characters with dashes at positions 4 and 7 |
| Dates.FirstDash | AnnotatedICViolations.py:92 | the separator search finds the first `-` or the end |
| Dates.ParseIsoDate | AnnotatedICViolations.py:90-95 | whatever the `%Y-%m-%d` reader accepts is a real calendar date |
| Dates.FormatIsoRoundTrip | AnnotatedICViolations.py:74-95 | reading a formatted date gives back the same date, so every date `to_iso_format` writes passes `is_date_format` |
| Dates.ParseTokens | AnnotatedICViolations.py:90-95 | a four-digit year and one- or two-digit month and day are accepted exactly when they form a calendar date from year 1 |
| Dates.IsDateFormatAcceptsDigits | AnnotatedICViolations.py:90-95 | padded and unpadded month and day are accepted |
| Dates.IsDateFormatAcceptsSpaceAndLeapDay | AnnotatedICViolations.py:90-95 | a space before a one-digit day and 29 February of a leap year are accepted |
| Dates.IsDateFormatRejectsDates | AnnotatedICViolations.py:90-95 | 29 February 1900, 30 February, year 0 and month 13 are rejected |
| Dates.IsDateFormatRejectsShape | AnnotatedICViolations.py:90-95 | a short year, another separator, trailing text and the empty string are rejected |
| Dates.ToIsoCell | AnnotatedICViolations.py:74-80 | `to_iso_format` yields a value exactly when the cell is present and parses, and that value reads back as the parsed date |
| Dates.ToIsoDates | AnnotatedICViolations.py:81-84 | after the rewrite and `dropna`, every survivor is a parsed input row under its label, its date is present, and every input row whose date parses survives |
| Dates.ToIsoDatesValid | AnnotatedICViolations.py:101-114 | after the date stage `count_invalid_dates` is 0 |
| Dates.ToIsoDatesIncreasing | AnnotatedICViolations.py:81-84 | the date stage keeps labels in order |
| CurrencyTables.Lookup | AnnotatedICViolations.py:189 | a dictionary lookup finds a code exactly when the name is a key, and the code is paired with that name |
| CurrencyTables.LookupDistinct | AnnotatedICViolations.py:149-187 | with distinct keys, each key looks up its own code |
| CurrencyTables.LookupAbsent | AnnotatedICViolations.py:189 | a name that is no key looks up nothing |
| CurrencyTables.SpacedIndexed | AnnotatedICViolations.py:149-187 | every key of the spaced table is found at its own position |
| CurrencyTables.UnderscoredIndexed | src/AnnotatedDataCleaningChanges.py:86-124 | every key of the underscored table is found at its own position |
| CurrencyTables.SpacedTableDistinct | AnnotatedICViolations.py:149-187 | the spaced dictionary literal has no repeated key |
| CurrencyTables.UnderscoredTableDistinct | src/AnnotatedDataCleaningChanges.py:86-124 | the underscored dictionary literal has no repeated key |
| CurrencyTables.TablesShaped | AnnotatedICViolations.py:149-187 | both tables have 37 entries and every code is three upper-case letters |
| CurrencyTables.SpacedTableLookups | AnnotatedICViolations.py:149-187 | every spaced key maps to the code written beside it |
| CurrencyTables.UnderscoredTableLookups | src/AnnotatedDataCleaningChanges.py:86-124 | every underscored key maps to the code written beside it |
| CurrencyTables.SpacedLookups | AnnotatedICViolations.py:150-152 | `'Dollars'` maps to USD and `'Belgian Francs'` to BEF |
| CurrencyTables.KronenLookup | AnnotatedICViolations.py:157 | `'Austro-Hungarian Kronen'` maps to `'HUF'` |
| CurrencyTables.ForintLookup | AnnotatedICViolations.py:171 | `'Hungarian forint'` maps to `'HUF'` |
| CurrencyTables.HungarianNamesShareCode | AnnotatedICViolations.py:157-171 | the table is many-to-one: two names map to HUF |
| CurrencyTables.UnderscoredLookup | src/AnnotatedDataCleaningChanges.py:89 | `'Belgian_Francs'` maps to BEF |
| CurrencyTables.UnderscoredMissesSpacedName | src/AnnotatedDataCleaningChanges.py:86-126 | the spaced name `'Belgian Francs'` is no key of the underscored table |
| CurrencyTables.UnlistedName | AnnotatedICViolations.py:189 | a name in neither table maps to nothing |
| Currency.MappedSymbol | AnnotatedICViolations.py:189 | the new symbol is the table's code when the currency is a key, and the old symbol otherwise (NaN currency included) |
| Currency.NormaliseSymbols | AnnotatedICViolations.py:189 | the mapping keeps labels, row count and every column but the symbol, sets the code for listed currencies, and leaves the others' symbol unchanged |
| Currency.NormaliseSymbolsIdempotent | AnnotatedICViolations.py:189 | mapping twice equals mapping once |
| Currency.NormaliseSymbolsNoNewViolations | AnnotatedICViolations.py:189-222 | when every code in the table is valid, a listed currency's row has a valid symbol and `count_invalid_iso_4217` never rises |
| Currency.LookupKnown | AnnotatedICViolations.py:189-203 | a code looked up in a table of valid codes is valid |
| PyText.ToUpper | AnnotatedICViolations.py:338 | a lower-case letter becomes the upper-case letter at the same place in the alphabet, which lower-cases back to it; any other character is returned unchanged |
| PyText.ToLower | AnnotatedICViolations.py:338 | an upper-case letter becomes the lower-case letter at the same place in the alphabet; any other character is returned unchanged |
| PyText.StripLeft | AnnotatedICViolations.py:338 | the result is a suffix, everything removed is whitespace, and it starts with a non-space |
| PyText.StripRight | AnnotatedICViolations.py:338 | the result is a prefix, everything removed is whitespace, and it ends with a non-space |
| PyText.Strip | AnnotatedICViolations.py:338 | `str.strip()` is empty exactly when the input is all whitespace, and else starts and ends with a non-space |
| PyText.StripFacts | AnnotatedICViolations.py:338 | stripping both sides in sequence behaves as `str.strip()` |
| PyText.WordEnd | AnnotatedICViolations.py:338 | the first word runs to the first whitespace character or the end |
| PyText.Split | AnnotatedICViolations.py:338 | `str.split()` produces non-empty words free of whitespace |
| PyText.SplitSpace | AnnotatedICViolations.py:338 | `str.split()` skips a leading whitespace character |
| PyText.SplitWord | AnnotatedICViolations.py:338 | `str.split()` returns a leading word followed by whitespace or nothing as its first word, then splits the rest |
| PyText.Capitalize | AnnotatedICViolations.py:338 | `str.capitalize` keeps the length, maps a word to a word, and changes only letter case: each character lower-cases to what the input's character lower-cases to |
| PyText.LowerAll | AnnotatedICViolations.py:338 | every character is lower-cased in place |
| PyText.CapitalizeIsCapitalized | AnnotatedICViolations.py:338 | the result has no lower-case first letter and no upper-case letter after it |
| PyText.CapitalizeIdempotent | AnnotatedICViolations.py:338 | capitalising twice equals capitalising once |
| PyText.LowerAllIdempotent | AnnotatedICViolations.py:338 | lower-casing twice equals lower-casing once |
| PyText.WordEndOfWord | AnnotatedICViolations.py:338 | a word followed by whitespace or nothing ends where the word ends |
| PyText.SplitJoin | AnnotatedICViolations.py:338 | splitting the single-space join of words gives the words back |
| PyText.JoinWellSpaced | AnnotatedICViolations.py:338 | the join of words has no doubled spaces and no leading or trailing whitespace |
| Names.CapitalizeWords | AnnotatedICViolations.py:338 | the generator capitalises each word, in order |
| Names.CapitalizeWordsFacts | AnnotatedICViolations.py:338 | every capitalised word is still a word and is capitalised |
| Names.StandardizeName | AnnotatedICViolations.py:335-338 | NaN stays NaN; otherwise the result is single-spaced with no outer whitespace, and its words are the input's words each capitalised |
| Names.StandardizeNameIdempotent | AnnotatedICViolations.py:335-338 | standardising a standardised name changes nothing |
| Names.StandardizeTwoWords | AnnotatedICViolations.py:335-338 | irregular spacing around two words is reduced to one space between the capitalised words |
| Names.CapitalizeLower | AnnotatedICViolations.py:338 | `"pizza"` becomes `"Pizza"` |
| Names.CapitalizeUpper | AnnotatedICViolations.py:338 | `"MARGHERITA"` becomes `"Margherita"`, because the rest is lower-cased |
| Names.StandardizeBlankName | AnnotatedICViolations.py:335-338 | an empty or all-whitespace name becomes `""`, not NaN |
| Names.SplitTwo | AnnotatedICViolations.py:338 | `str.split()` drops the whitespace around and between two words |
| Names.StandardizeDishes | AnnotatedICViolations.py:340 | the column update keeps every dish id and standardises every name |
| Names.StandardizeDishesIdempotent | AnnotatedICViolations.py:340 | standardising the column twice equals doing it once |
| Dedup.StrLessIrreflexive | AnnotatedICViolations.py:348 | the group-key order is irreflexive |
| Dedup.StrLessTotal | AnnotatedICViolations.py:348 | any two different names are ordered |
| Dedup.StrLessTransitive | AnnotatedICViolations.py:348 | the group-key order is transitive |
| Dedup.SortedDistinct | AnnotatedICViolations.py:348 | sorted group keys are distinct |
| Dedup.Insert | AnnotatedICViolations.py:348 | inserting a name into sorted keys keeps them sorted and adds exactly that name |
| Dedup.IdsNamed | AnnotatedICViolations.py:348 | a group's id list holds exactly the ids of the dishes with that name, in table order |
| Dedup.CollectNames | AnnotatedICViolations.py:346-348 | the collected keys are sorted and are the duplicated names met in the scanned part |
| Dedup.DuplicateNames | AnnotatedICViolations.py:346-348 | the group keys are sorted and are exactly the names shared by at least two dishes (NaN names excluded) |
| Dedup.DuplicateGroups | AnnotatedICViolations.py:346-348 | there is one group per duplicated name, in sorted order, and its ids are that name's ids in table order |
| Dedup.GroupMapping | AnnotatedICViolations.py:350-356 | one group maps each of its later ids to its first id and nothing else |
| Dedup.MapAllTo | AnnotatedICViolations.py:355-356 | the inner loop maps exactly the given ids, all to the first id |
| Dedup.BuildIdMapping | AnnotatedICViolations.py:350-356 | the nested loop builds the mapping the groups define, later groups overriding earlier ones |
| Dedup.MappingKeys | AnnotatedICViolations.py:350-356 | the keys of `id_mapping` are exactly the non-first ids of the groups |
| Dedup.MappingValue | AnnotatedICViolations.py:350-356 | a key maps to the first id of the last group listing it |
| Dedup.FirstNamed | AnnotatedICViolations.py:354 | the first dish bearing a name comes before every other one |
| Dedup.IdsNamedSplit | AnnotatedICViolations.py:354-355 | a group's first id is that of the first dish with the name, and the rest are those of the later ones |
| Dedup.LaterIds | AnnotatedICViolations.py:355 | an id is among a group's later ids exactly when a later dish with that name has it |
| Dedup.IdMappingOf | AnnotatedICViolations.py:346-356 | an id is a key of `id_mapping` exactly when it belongs to a dish repeating an earlier dish's present name |
| Dedup.NameRepeatedAt | AnnotatedICViolations.py:346 | a dish repeating an earlier name has a duplicated name and a first bearer before it |
| Dedup.IdMappingTarget | AnnotatedICViolations.py:346-356 | with unique dish ids, such a dish's id maps to the id of the first dish with its name |
| Dedup.IdMappingNoChains | AnnotatedICViolations.py:346-356 | with unique dish ids, no value of `id_mapping` is a key |
| Dedup.KeyIsLaterDuplicate | AnnotatedICViolations.py:346-356 | with unique dish ids, a dish's id is a key exactly when that dish repeats an earlier name |
| Dedup.RemapId | AnnotatedICViolations.py:358 | `replace` keeps NaN and ids that are no key, and sends a key to its value |
| Dedup.Remap | AnnotatedICViolations.py:358 | the remap keeps labels, row count and prices, keeps NaN and non-key ids, and sends keys to their values |
| Dedup.RemapIdempotent | AnnotatedICViolations.py:358 | when no value is a key, remapping twice equals remapping once |
| Dedup.RemapResolvesDuplicates | AnnotatedICViolations.py:346-358 | with unique dish ids, an item pointing at a named dish ends up pointing at the first dish with that name, and an item pointing at a NaN-named dish is untouched |
| Integrity.IdToName | AnnotatedICViolations.py:365 | the id→name dictionary has exactly the dish ids as keys |
| Integrity.IdToNameLast | AnnotatedICViolations.py:365 | a repeated id maps to the name of its last dish (`to_dict` keeps the last) |
| Integrity.IdToNameUnique | AnnotatedICViolations.py:365 | with unique ids, each id maps to its dish's name |
| Integrity.LookupName | AnnotatedICViolations.py:377 | `get(dish_id, None)` is not-found, NaN or a name, each exactly in its case |
| Integrity.PyNeNameSelf | AnnotatedICViolations.py:376 | a looked-up name differs from itself exactly when it is NaN |
| Integrity.VerifyIntegrity | AnnotatedICViolations.py:364-382 | the loop counts exactly the repeat occurrences of present ids whose name is NaN; it changes nothing and does not read `id_mapping` |
| Integrity.PrefixStep | AnnotatedICViolations.py:369-380 | one more row adds its id to the ids seen and adds one violation exactly when it is a repeat with a NaN name |
| Integrity.BadMappingsBound | AnnotatedICViolations.py:364-382 | violations plus distinct present ids is at most the number of present ids |
| Integrity.PresentIdsSnoc | AnnotatedICViolations.py:369-380 | the set of distinct ids grows by a row's id exactly when the id is present |
| Integrity.BadMappingsZero | AnnotatedICViolations.py:364-382 | there are no violations when no referenced dish has a NaN name |
| Integrity.BadMappingsSameMissing | AnnotatedICViolations.py:364-382 | two columns of equal length that agree wherever they refer to a NaN-named dish have the same count |
| Integrity.BadMappingsFilter | AnnotatedICViolations.py:364-393 | dropping rows never raises the count |
| Integrity.SnocBad | AnnotatedICViolations.py:369-380 | a final row adds one violation exactly when it repeats an id whose name is NaN |
| Integrity.ColumnFilterSubset | AnnotatedICViolations.py:306 | an id left after dropping rows was in the column before |
| Integrity.RemapKeepsBadMappings | AnnotatedICViolations.py:358-393 | with unique dish ids, the remap leaves the count unchanged |
| Flows.FreshCurrencyStage | ICViolations.py:99-157 | on a fresh copy, the survivors are the raw rows with currency information and a currency other than Cents/Pence, each once and in raw order, under their raw labels, with their symbol mapped |
| Flows.FreshFilteredSource | ICViolations.py:102-110 | a row past both filters of a fresh copy is that raw row and passes both |
| Flows.FreshFilteredKeeps | ICViolations.py:102-110 | a raw row passing both filters survives |
| Flows.MappedRow | ICViolations.py:157 | the mapping rewrites each row in place |
| Flows.ChainedMenuStage | AnnotatedICViolations.py:23-189 | the whole chain keeps the raw rows with required fields, a parsable date and kept currency information, each once and in raw order, under their raw labels, each rewritten by every stage |
| Flows.ChainFilteredSource | AnnotatedICViolations.py:23-137 | a row past the chain's filters is a raw row the chain keeps, rewritten |
| Flows.CurrencyFiltersSource | AnnotatedICViolations.py:124-137 | a row past both currency filters is an input row passing both |
| Flows.ChainKeepsOfRow | AnnotatedICViolations.py:23-137 | a raw row whose rewrite passes the date and currency tests is kept by the chain |
| Flows.ChainFilteredKeeps | AnnotatedICViolations.py:23-137 | a raw row the chain keeps reaches the mapping |
| Flows.RequiredSource | AnnotatedICViolations.py:23-31 | a row after the required-column stage is a raw row with required fields and `""` made NaN |
| Flows.RequiredKeeps | AnnotatedICViolations.py:23-31 | a raw row with required fields survives that stage |
| IcViolations.CurrencyReport | ICViolations.py:99-177 | on a fresh copy with valid table codes, listed currencies get valid symbols and `count_invalid_iso_4217` never rises |
| IcViolations.ItemIntegrityReport | ICViolations.py:265-322 | the remap runs on an unfiltered copy and so keeps the raw item count; the two reports are `verify_integrity` before and after; with unique dish ids they are equal |
| AnnotatedIcViolations.CurrencyReport | AnnotatedICViolations.py:23-222 | when table codes are valid and `""` is not, the chained stages never raise `count_invalid_iso_4217` |
| AnnotatedIcViolations.CurrencyFiltersNoNewViolations | AnnotatedICViolations.py:124-137 | the currency filters never raise the invalid symbol count |
| AnnotatedIcViolations.DatesNoNewViolations | AnnotatedICViolations.py:81-84 | the date stage never raises the invalid symbol count |
| AnnotatedIcViolations.RequiredNoNewViolations | AnnotatedICViolations.py:23-31 | the replacement and required-column stage never raise the invalid symbol count |
| AnnotatedIcViolations.RequiredFiltersNoNewViolations | AnnotatedICViolations.py:29-31 | the three `dropna` calls never raise the invalid symbol count |
| AnnotatedIcViolations.ReplaceEmptyNoNewViolations | AnnotatedICViolations.py:23 | making `""` NaN never raises the invalid symbol count when `""` is not a valid code |
| AnnotatedIcViolations.ItemIntegrityReport | AnnotatedICViolations.py:300-390 | the cleaned items are the priced items remapped, with `count_empty` 0 on price; the two reports are `verify_integrity` before and after; with unique dish ids cleaning never raises the count |
| AnnotatedIcViolations.RemapKeepsPrices | AnnotatedICViolations.py:306-358 | remapping the priced items keeps every price present |
| AnnotatedIcViolations.PricedBadMappings | AnnotatedICViolations.py:306-390 | with unique dish ids, dropping priceless items then remapping never raises the count |
| DataCleaningChanges.RequiredLengths | src/DataCleaningChanges.py:13-31 | the cleaned length is the number of raw rows with date, currency and location non-empty |
| DataCleaningChanges.DateLengths | src/DataCleaningChanges.py:49-67 | on a fresh copy, the cleaned length is the number of raw rows whose date parses |
| DataCleaningChanges.PriceLengths | src/DataCleaningChanges.py:172-187 | the cleaned length is the number of raw items with a non-empty price |
| DataCleaningChanges.FreshLabelsIn | src/DataCleaningChanges.py:138 | every surviving label of the currency stage is a raw row, so the alignment raises no `KeyError` |
| DataCleaningChanges.CurrencyDiffs | src/DataCleaningChanges.py:138-146 | `diff_count_a` is the number of survivors whose currency is NaN; survivors with a present currency never count |
| DataCleaningChanges.SymbolDiffs | src/DataCleaningChanges.py:133-146 | `diff_count_b` is defined, and a survivor counts exactly when its raw symbol is NaN or its currency is a key whose code differs from the raw symbol |
| DataCleaningChanges.SymbolDiffersAt | src/DataCleaningChanges.py:133-142 | per survivor, the symbol differs exactly as `SymbolDiffers` says |
| DataCleaningChanges.DishIdDiffs | src/DataCleaningChanges.py:224-233 | on a fresh copy, the `dish_id` diff count is defined and counts exactly the items with a NaN id or an id the mapping changes |
| DataCleaningChanges.IdChangedMeansDuplicate | src/DataCleaningChanges.py:206-224 | with unique dish ids, an item's id changes exactly when it belongs to a dish repeating an earlier name |
| DataCleaningChanges.StandardizeKeepsUniqueIds | src/DataCleaningChanges.py:206 | standardising names keeps unique ids unique |
| DataCleaningChanges.DishIdChanges | src/DataCleaningChanges.py:199-233 | the whole dish-id stage reports the items with a NaN id or a changed id; with unique dish ids, exactly the items with a NaN id or a repeating dish's id |
| AnnotatedDataCleaningChanges.DateLengths | src/AnnotatedDataCleaningChanges.py:53-71 | after the chained required and date stages, the length is the number of raw rows with required fields whose date parses |
| AnnotatedDataCleaningChanges.RequiredThenDates | src/AnnotatedDataCleaningChanges.py:21-63 | the chained date stage keeps as many rows as the rows with required fields whose date parses |
| AnnotatedDataCleaningChanges.DateStageLength | src/AnnotatedDataCleaningChanges.py:60-63 | the date stage keeps as many rows as have a date after the rewrite |
| AnnotatedDataCleaningChanges.RequiredDatesMatch | src/AnnotatedDataCleaningChanges.py:21-63 | on rows with required fields, a date is present after the replacement and rewrite exactly when the raw date parses |
| AnnotatedDataCleaningChanges.RequiredRowDate | src/AnnotatedDataCleaningChanges.py:21-60 | for one row with required fields, the rewritten date is present exactly when the raw date parses |
| AnnotatedDataCleaningChanges.ChainLabelsIn | src/AnnotatedDataCleaningChanges.py:132 | every surviving label of the chain is a raw row, so the alignment raises no `KeyError` |
| AnnotatedDataCleaningChanges.CurrencyDiffsZero | src/AnnotatedDataCleaningChanges.py:132-135 | after the chain, `diff_count_a` is 0: survivors have a present currency and no stage writes it |
| AnnotatedDataCleaningChanges.SymbolDiffs | src/AnnotatedDataCleaningChanges.py:126-136 | `diff_count_b` is defined, and a survivor counts exactly as `ChainSymbolDiffers` says of its raw row |
| AnnotatedDataCleaningChanges.SymbolDiffersAt | src/AnnotatedDataCleaningChanges.py:126-134 | per survivor, the symbol differs exactly as `ChainSymbolDiffers` says |
| AnnotatedDataCleaningChanges.ChainedSymbolDiffers | src/AnnotatedDataCleaningChanges.py:126-134 | per kept raw row, the symbol comparison reduces to `ChainSymbolDiffers` |
| AnnotatedDataCleaningChanges.SpacedNameKeepsSymbol | src/AnnotatedDataCleaningChanges.py:86-126 | a spaced name such as `'Belgian Francs'` is no key of this table, so its symbol passes through unchanged |

## Left out

- Reading the CSV files, every `print` table and the `query(...)` dumps are
  not modelled: they are input and output. The tables are parameters.
- `forex_python`'s `CurrencyCodes().get_currency_name` is a foreign library.
  ISO 4217 validity is the predicate parameter `known`. The properties that
  need it assume only that the table's codes are valid and, for the chained
  flow, that `""` is not.
- `pd.to_datetime` is a foreign parser and is the parameter `parse`, which
  returns a date in the pandas `Timestamp` range or nothing.
  `datetime.strptime(..., "%Y-%m-%d")` is modelled by `Dates.ParseIsoDate`:
  - exactly four digits for the year, from year 1;
  - a one- or two-digit month (`1[0-2]`, `0[1-9]` or `[1-9]`);
  - a one- or two-digit day, which alone may also be a space followed by
    one digit;
  - nothing after the day.
- Dates.ParseIsoDate: reads ASCII digits only. strptime's `\d` also matches
  non-ASCII decimal digits, so a full-width `"２０２０-01-01"` that strptime
  accepts is rejected by the model.
- The `unique()` and `drop_duplicates()` values are never used by the
  scripts and are not modelled.
- `cleaned_lengths = {"occasion": 0}` (AnnotatedICViolations.py:274,
  ICViolations.py:220) and `total_rows = 20` are constants that
  no cleaning step computes.
  - `unique_occasions = len(df['occasion'].unique())` is display only, and
    no occasion column is cleaned.
  - The occasion counter itself is modelled.
- The MenuItem part of src/AnnotatedDataCleaningChanges.py (158-216) is
  not modelled as a flow:
  - it never copies the freshly read MenuItem table into `df_cleaned` or
    `df_original`;
  - so its `replace`, `dropna(subset=["price"])` and remap act on the Menu
    frame left over from the currency stage.
  Its pieces (`standardize_name`, the mapping loop, the remap, the diff
  count) are the ones modelled for src/DataCleaningChanges.py.
- In-place updates (`replace(inplace=True)`, column assignment) are modelled
  as new table values. No updated frame is shared with another name, so no
  aliasing is lost; `dish_df`'s name column, rewritten in place, becomes a
  new dish table.
- `verify_integrity`'s printed violation lines are not modelled; the count
  is.
- `Dedup.BuildIdMapping`: takes the duplicate groups as input. The pandas
  `duplicated`/`groupby` that produce them is `Dedup.DuplicateGroups`.
  Groups are ordered by plain code-point order of the names.
- Unicode case mapping and Unicode whitespace: `str.capitalize`,
  `str.split` and `str.strip` are modelled on ASCII. Whitespace is the ASCII
  characters Python's `str.isspace` accepts.
- NotebookConverter.py is not part of this model: it only converts a
  notebook file.
- Float dish ids: `dish_id` is read as float because of NaN. The model
  uses integers with `None` for NaN.
