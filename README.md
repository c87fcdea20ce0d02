# TBCA scraper and migration, modelled in Dafny

This project models the core of a scraper for the Brazilian food
composition table (TBCA) and of the scripts that reshape its database:

- **Text** (`text.dfy`): the Python string operations the core relies on:
  `str.strip` (whitespace per `str.isspace`), `str.split` with a separator,
  `str.join` and `str.replace`. Each comes with its algebra: split and join
  are inverse, and replace is split-then-join.
- **Description** (`description.dfy`): `TBCAProcessor.processar_descricao`.
  The part before the first comma is the food's name (`principal`). The
  other parts are stripped and the abbreviations `s/` and `c/` are expanded
  to `sem` and `com`. They are rejoined with `", "`, and the name itself is
  used when there is no comma.
- **Extraction** (`extraction.dfy`): what the crawl reads from the HTML.
  - On a listing page: the food links and the `codigo_alimento=` code of
    each.
  - On a detail page: the description, taken from `h2`, else `h1`, else
    `title`, else a fixed text.
  - The nutrient table: header skipped, rows with fewer than three cells
    dropped, cells stripped.

  A parsed page is an abstract value: its `href`s, its headings and its
  table cells.
- **Store** (`store.dfy`): `TBCAProcessor.salvar_banco` on in-memory
  tables `alimentos`, `variacoes_alimentos` and `nutrientes_alimentos`.
  - `Saved` is the effect of one call.
  - The class `FoodStore` is the imperative writer, proved to have that
    effect.
  - Lemmas show that the store's referential invariants are kept. They
    show that a food code gets one row, with the first sighting's class
    and name, and that every call adds one variation and one row per
    nutrient.
- **Crawl** (`crawl.dfy`): the two loops of `fazer_webscraping`.
  - The listing loop pages through the site until a page fails or has no
    food link.
  - The detail loop turns each fetched page into a record and skips foods
    whose page failed. It appends the record to the output file and saves
    it to the database, committing after every tenth food and once at the
    end.
  - The network is replaced by the sequence of responses the site gives.
- **Decimal** (`decimal.dfy`): the subset of Python's `float()` the
  migration needs: optional whitespace, an optional sign, and a decimal
  numeral with at most one point, read as the exact rational it denotes.
- **Migration** (`migration.dfy`): `migrate_data`.
  - The fixed map from nutrient names to the wide table's columns, with the
    `"Energia"` fallback.
  - The coercion of a value, which turns a decimal comma into a point and
    treats a missing value, an empty string, `NA` or an unparsable value as
    NULL.
  - The insertion-ordered dictionary of values, where the last write to a
    column wins.
  - The shape of the INSERT statement.
  - The loop over variations, which skips a variation with no nutrients,
    one with no mapped nutrient, and one that already has a wide row.
  - The class `MigrationDb` holds that loop as a method.
- **Seeding** (`seeding.dfy`): `populate_nutrients_table`. The 38-entry
  catalog is inserted entry by entry, each only when no row already has
  its name and unit. The class `ReferenceDb` holds the loop.

Facts about the code that the model keeps:

- `s/` and `c/` expand to the Portuguese `sem` and `com`
  (src/webscraping.py:14).
- The listing loop stops at the first page that has no link holding
  `codigo_alimento`, or whose request fails (src/webscraping.py:91-94 and
  src/webscraping.py:107-109). It does not look for a "next page" link.
- Energy goes to `energia_kj` unless the row's own unit is `kcal`
  (src/migrate_data.py:90-92 and src/migrate_data.py:150-153). No search of
  the whole record for `kJ` takes place.
- Components, units and values are stored as read, with no truncation
  (src/webscraping.py:53-64 and src/migrate_data.py:172-182).
- `salvar_banco` has no rollback of its own (src/webscraping.py:24-64).

## Model

| member | source | states |
|---|---|---|
| Text.Strip | src/webscraping.py:13-14 | the result is empty or neither starts nor ends with whitespace |
| Text.StripInfix | src/webscraping.py:13 | `strip()` removes only leading and trailing whitespace; what is left is a contiguous slice of the input |
| Text.StripIdempotent | src/webscraping.py:126 | stripping twice is stripping once |
| Text.StripUnchanged | src/webscraping.py:137-139 | a text with no surrounding whitespace is left as it is |
| Text.StripKeepsAbsent | src/webscraping.py:13 | stripping never introduces a character |
| Text.TrimLeftSpec | src/webscraping.py:13 | the left trim drops a whitespace-only prefix and leaves a text that is empty or starts with non-whitespace |
| Text.TrimRightSpec | src/webscraping.py:13 | the right trim drops a whitespace-only suffix and leaves a text that is empty or ends with non-whitespace |
| Text.Split | src/webscraping.py:12 | `split(sep)` yields at least one piece |
| Text.SplitFirst | src/webscraping.py:12-13 | the first piece is a prefix of the text in which the separator does not occur |
| Text.SplitMany | src/webscraping.py:12 | there is more than one piece exactly when the text contains the separator |
| Text.SplitRest | src/webscraping.py:99 | the pieces after the first are the split of what follows the first separator |
| Text.JoinSplit | src/webscraping.py:12-15 | joining the pieces with the separator gives back the text |
| Text.SplitJoin | src/webscraping.py:15 | splitting a join of comma-free pieces on that character gives back the pieces |
| Text.SplitChar | src/webscraping.py:12 | splitting on a character yields pieces free of it, as many as its occurrences plus one |
| Text.SplitAtFirst | src/webscraping.py:12 | a text with a first occurrence of the separator splits into the part before it and the split of the rest |
| Text.IndexOf | src/webscraping.py:12-13 | the first position of a character, or the length when it is absent |
| Text.FirstPieceBeforeIndex | src/webscraping.py:12-13 | the first piece of a split on a character is the text before its first occurrence |
| Text.SecondPiece | src/webscraping.py:99 | when the split has more than one piece, piece `[1]` is the first piece of the text after the first separator |
| Text.PieceBeforeChar | src/webscraping.py:99 | the first piece of `split(sep)` cut at the first `c` is a prefix of the text that holds no `c`, has no `sep` starting inside it, and ends at the text's end, at a `c` or at a `sep` |
| Text.PieceAtUnique | src/webscraping.py:99 | those conditions fix the piece: two pieces read at the same place are the same text |
| Text.SecondPieceBeforeChar | src/webscraping.py:99 | piece `[1]` of `split(sep)`, cut with `split(c)[0]`, is read in the text right after the first `sep`, holds no `c` and no start of a `sep`, and ends at the text's end, at a `c` or at the next `sep` |
| Text.ReplaceIsJoinSplit | src/webscraping.py:14 | `replace(old, new)` equals splitting on `old` and joining with `new` |
| Text.ReplaceAtStart | src/webscraping.py:14 | an occurrence at the start is replaced and the rest is processed after it |
| Text.ReplaceAbsent | src/webscraping.py:14 | replacing a pattern that does not occur changes nothing |
| Text.ReplaceKeepsAbsent | src/webscraping.py:14 | replacing never introduces a character absent from the text and the replacement |
| Text.ReplaceFirst | src/webscraping.py:14 | a non-empty result starts with the replacement, or with the text's first character when the text does not start with the pattern |
| Text.ReplaceClearsPair | src/webscraping.py:14 | after replacing `c/` (or `s/`), no such two-character pattern is left; a later replacement cannot bring back an earlier one |
| Text.ReplaceCharConcat | src/migrate_data.py:158 | replacing a single character distributes over concatenation |
| Text.ReplaceCharAbsent | src/migrate_data.py:158 | replacing an absent character changes nothing |
| Text.PairIsContains | src/webscraping.py:14 | containing a two-character pattern means having the two characters adjacent |
| Description.CleanSegment | src/webscraping.py:14 | a cleaned part contains neither `s/` nor `c/`; it has no comma if the part had none; a part without abbreviations is only stripped |
| Description.ProcessDescription | src/webscraping.py:10-16 | `principal` is the stripped text before the first comma; with no comma the observation line is `principal`; otherwise it is the cleaned later parts joined by `", "` |
| Description.ObservationCount | src/webscraping.py:12-14 | there are as many observations as commas in the description |
| Description.ObservationsAfterFirstComma | src/webscraping.py:12-14 | the observations are the cleaned comma-separated parts of the text after the first comma |
| Description.ObservationsClean | src/webscraping.py:14 | every observation is cleaned and comma-free |
| Description.JoinCommaCount | src/webscraping.py:15 | joining n comma-free parts with `", "` puts exactly n - 1 commas in the line |
| Description.ObservationLineSplitsBack | src/webscraping.py:15 | the observation line splits on commas into as many parts as the description had commas |
| Description.DescriptionOfPieces | src/webscraping.py:10-16 | a description made of comma-free pieces yields the stripped first piece and the cleaned rest joined by `", "`, or the name when there is one piece |
| Description.ExampleAbbreviation | src/webscraping.py:10-16 | "Feijão, c/ sal" becomes the name "Feijão" and the line "com sal" |
| Description.ExampleNoComma | src/webscraping.py:15 | " Pão " becomes the name "Pão", which is also the line |
| Extraction.FoodLinks | src/webscraping.py:91 | no more links than `href`s, each holding `codigo_alimento` |
| Extraction.FoodLinksMembers | src/webscraping.py:91 | an `href` is kept exactly when it holds `codigo_alimento` |
| Extraction.FoodLinksAppend | src/webscraping.py:91 | the filter keeps page order: the links of two runs of `href`s are concatenated |
| Extraction.FoodLinksNonEmpty | src/webscraping.py:91-94 | there are food links exactly when some `href` holds `codigo_alimento` |
| Extraction.FoodCodeShape | src/webscraping.py:99 | the code is the text right after the first `codigo_alimento=` up to the next `&`, the next `codigo_alimento=` or the end; it holds no `&` and no start of `codigo_alimento=` (and `PieceAtUnique` makes it the only such text) |
| Extraction.PageCodesAppend | src/webscraping.py:96-102 | the codes of a page are the codes of its links in order (they distribute over concatenation) |
| Extraction.PageCodesCount | src/webscraping.py:98 | one code is collected per link that contains `codigo_alimento=` |
| Extraction.PageCodesShape | src/webscraping.py:99-102 | every collected entry has the class "Não especificada" and a code without `&` |
| Extraction.PageCodesOfFoodLinks | src/webscraping.py:91-98 | filtering the links first does not change the codes collected |
| Extraction.SelectRowsAppend | src/webscraping.py:133-141 | the rows are read one by one, in order |
| Extraction.ShortRowSkipped | src/webscraping.py:135 | a row with fewer than three cells is dropped without affecting the others |
| Extraction.SelectRowsShape | src/webscraping.py:133-141 | there are at most as many nutrients as rows; each has exactly the keys `Componente`, `Unidades` and `Valor por 100g`, with stripped values |
| Extraction.HeaderIgnored | src/webscraping.py:132 | the first row, whatever it holds, never contributes; there are at most as many nutrients as later rows |
| Extraction.FirstPresent | src/webscraping.py:124 | the `or` chain gives the first present element, and nothing only when none is present |
| Extraction.FirstPresentCons | src/webscraping.py:124 | a present head wins the `or` chain, otherwise the rest is consulted |
| Extraction.PageDescription | src/webscraping.py:123-126 | the description is the stripped text of the first of `h2`, `h1`, `title` present, else "Descrição não encontrada" |
| Extraction.HeadingPrecedence | src/webscraping.py:124 | when an `h2` is present, `h1` and `title` are irrelevant |
| Extraction.ExtractNutrients | src/webscraping.py:129-141 | the loop builds exactly the table's nutrient list, and none without a table |
| Store.FindFood | src/webscraping.py:40-42 | nothing is found exactly when no row has the code; a found id belongs to a row with the code |
| Store.FieldOfRowEntry | src/webscraping.py:61-63 | the inserted component, unit and value are the stripped cells of the table row |
| Store.EmptyValid | src/webscraping.py:24-64 | the empty database meets the invariants |
| Store.SavedValid | src/webscraping.py:24-64 | saving a record keeps the invariants: codes unique, ids increasing, every variation pointing at a food, every nutrient at a variation |
| Store.SavedFoodsValid | src/webscraping.py:29-42 | inserting with `ON CONFLICT (codigo) DO NOTHING` keeps codes unique and ids increasing in insertion order and below the counter, which advances on every insert, conflicting or not |
| Store.SavedVariationsValid | src/webscraping.py:45-51 | the new variation points at an existing food |
| Store.SavedNutrientsLinked | src/webscraping.py:54-64 | the new nutrient rows point at an existing variation |
| Store.SavedFoodRow | src/webscraping.py:29-49 | the new variation points at the food with the record's code |
| Store.SavedFirstSeenWins | src/webscraping.py:29-42 | a code already present keeps its row, class and name; a new code gets a new row with the record's class and name |
| Store.SavedVariation | src/webscraping.py:26-51 | exactly one variation is appended, with a fresh id and the processed observation line |
| Store.SavedNutrients | src/webscraping.py:54-64 | exactly the record's nutrients are appended, for the new variation |
| Store.SameCodeTwice | src/webscraping.py:29-51 | two records with one code give one food row and two variations of it |
| Store.FoodStore.constructor | src/webscraping.py:24 | the store starts empty |
| Store.FoodStore.SelectFoodId | src/webscraping.py:40-42 | the scan finds the id of the row with the code, if any |
| Store.FoodStore.InsertFood | src/webscraping.py:29-42 | the food id is that of the existing row or of a newly appended one; other tables unchanged |
| Store.FoodStore.InsertVariation | src/webscraping.py:45-51 | one variation is appended with the next id; nothing else changes |
| Store.FoodStore.InsertNutrients | src/webscraping.py:54-64 | the record's nutrient rows are appended; nothing else changes |
| Store.FoodStore.SaveRecord | src/webscraping.py:24-64 | the store's new state is `Saved` of its old one |
| Crawl.ContinuesIff | src/webscraping.py:91-94 | the loop goes on after a page exactly when it was fetched and one of its `href`s holds `codigo_alimento` |
| Crawl.ListFrom | src/webscraping.py:84-109 | the loop stops at the first page that failed or had no food link; every earlier page had one |
| Crawl.ListFromPages | src/webscraping.py:84-109 | after k pages with links the counter is n + k and the codes are those pages' codes in order |
| Crawl.CollectPage | src/webscraping.py:96-102 | the inner loop collects exactly the page's codes |
| Crawl.CollectCodes | src/webscraping.py:72-109 | the listing loop leaves the codes and page counter of the listing specification |
| Crawl.OneLinkPage | src/webscraping.py:91-102 | a page with one food link continues, yielding that link's code with the unspecified class |
| Crawl.TwoPageListing | src/webscraping.py:73-109 | two pages with links, then the end: the codes of both pages and a final counter of 3 |
| Crawl.Records | src/webscraping.py:114-162 | at most one record per listed food |
| Crawl.FailedFoodSkipped | src/webscraping.py:161-162 | a food whose page failed adds no record |
| Crawl.TwoFetchedRecords | src/webscraping.py:114-148 | two fetched pages give two records, in listing order |
| Crawl.PeriodicCommitsSpec | src/webscraping.py:157-158 | a periodic commit follows food k exactly when k is a multiple of 10 and that food was processed; commits come in increasing order |
| Crawl.ShortRunCommitsOnce | src/webscraping.py:157-166 | fewer than ten foods mean a single final commit |
| Crawl.SaveAllVariations | src/webscraping.py:153-154 | every saved record adds one variation |
| Crawl.SaveAllValid | src/webscraping.py:153-154 | saving any sequence of records keeps the invariants |
| Crawl.TwoFoodSave | src/webscraping.py:153-154 | two records with distinct codes give foods 1 and 2, and one variation for each |
| Crawl.ProcessFoods | src/webscraping.py:114-166 | the detail loop writes exactly the records to the file (when enabled), commits as specified, and leaves the store as `SaveAll` of the records (when enabled) |
| Decimal.Pow10 | src/migrate_data.py:158 | powers of ten are positive |
| Decimal.ParseUnsignedAccepts | src/migrate_data.py:158 | an unsigned numeral parses exactly when it has only digits and at most one point, and at least one digit |
| Decimal.ParseNumeral | src/migrate_data.py:158 | "whole.frac" reads as whole + frac / 10^len(frac) |
| Decimal.NumeralStripped | src/migrate_data.py:158 | a numeral, signed or not, has nothing for `strip` to remove |
| Decimal.ParseFloatNumeral | src/migrate_data.py:158 | `float("whole.frac")` is the numeral's value |
| Decimal.ParseFloatNegative | src/migrate_data.py:158 | `float("-whole.frac")` is the negated value |
| Migration.ColumnFor | src/migrate_data.py:150-153 | the column is found under "component (unit)" first, else under the component; there is none only when neither key is in the map; a found column is one of the map's columns |
| Migration.EnergyEntries | src/migrate_data.py:90-92 | "Energia (kJ)" and "Energia" map to `energia_kj`, "Energia (kcal)" to `energia_kcal` |
| Migration.EnergyKeys | src/migrate_data.py:89-129 | the only keys of the map with "n" as their second character are "Energia (kJ)", "Energia (kcal)" and "Energia" |
| Migration.EnergyOtherUnit | src/migrate_data.py:89-129 | energy in any other unit has no entry of its own |
| Migration.EnergyColumn | src/migrate_data.py:150-153 | an energy row goes to `energia_kcal` exactly when its unit is "kcal", otherwise to `energia_kj` |
| Migration.UnitIgnoredWithoutEntry | src/migrate_data.py:150-153 | for a component with no unit-qualified entry, the unit does not affect the column |
| Migration.CoerceMissing | src/migrate_data.py:158 | a missing value, an empty string, or "NA" after stripping gives NULL |
| Migration.CoerceDecimalComma | src/migrate_data.py:158-160 | "whole,frac" (and its negative) is read as the decimal number with that comma as the point |
| Migration.ExampleDecimalComma | src/migrate_data.py:158 | "12,5" becomes 12.5 |
| Migration.ColumnsDistinct | src/migrate_data.py:174 | `list(nutrient_values.keys())` repeats no column exactly when the dictionary's entries have distinct columns |
| Migration.Get | src/migrate_data.py:162 | a lookup finds nothing exactly when no entry has the column; a found value is that of an entry with the column |
| Migration.PutAbsent | src/migrate_data.py:162 | assigning a new column appends it at the end |
| Migration.PutPresent | src/migrate_data.py:162 | assigning an existing column replaces its value in place, keeping every position |
| Migration.PutGet | src/migrate_data.py:162 | after an assignment the column holds the new value and every other column its old one |
| Migration.PutDistinct | src/migrate_data.py:162 | the dictionary never holds a column twice |
| Migration.LastValue | src/migrate_data.py:148-162 | a column has no value exactly when no row maps to it (its value is the coerced value of the last row mapped to it) |
| Migration.LastWriteWins | src/migrate_data.py:145-162 | the built dictionary has distinct columns, each holding the value of the last row that maps to it |
| Migration.UnmappedRowIgnored | src/migrate_data.py:155 | a row with no column does not change the dictionary |
| Migration.ValueMapEmpty | src/migrate_data.py:145-165 | the dictionary is empty exactly when no row maps to a column |
| Migration.BuildValues | src/migrate_data.py:145-162 | the inner loop builds exactly the specified dictionary |
| Migration.InsertShape | src/migrate_data.py:174-176 | columns and values have equal length, `variation_id` first, then each column with its value |
| Migration.RowsOf | src/migrate_data.py:134-138 | the selected rows all belong to the variation, and there are none exactly when the table has none for it |
| Migration.RowsOfMembers | src/migrate_data.py:134-138 | a row is selected exactly when it is in the table and belongs to the variation |
| Migration.RowsOfAppend | src/migrate_data.py:134-138 | the rows come in table order: selecting from two runs of the table concatenates the selections |
| Migration.MigratedAppends | src/migrate_data.py:132-185 | the loop only appends; each new row is for a listed variation that had no row and has a mapped nutrient, and holds that variation's dictionary |
| Migration.MigratedCovers | src/migrate_data.py:132-185 | afterwards every listed variation with a mapped nutrient has a wide row |
| Migration.MigratedNothingLeft | src/migrate_data.py:167-172 | when every such variation has a row already, nothing changes |
| Migration.MigrateIdempotent | src/migrate_data.py:132-185 | running the migration twice has the effect of running it once |
| Migration.MigratedUnique | src/migrate_data.py:167-172 | the migration never gives a variation a second wide row |
| Migration.UnmappedVariationSkipped | src/migrate_data.py:141-165 | a variation with no nutrients, or none mapped, gets no row |
| Migration.MigrationDb.constructor | src/migrate_data.py:80-86 | the database holds the given tables |
| Migration.MigrationDb.Migrate | src/migrate_data.py:131-185 | the wide table becomes the specified migration of the old one; the count is the number of rows inserted; the other tables are unchanged |
| Seeding.SeededAppends | src/migrate_data.py:55-66 | seeding only appends; each new row is a catalog entry whose name and unit were absent |
| Seeding.SeededCovers | src/migrate_data.py:55-66 | afterwards every catalog entry's name and unit are present |
| Seeding.SeededNothingLeft | src/migrate_data.py:57-62 | with every pair present, nothing changes |
| Seeding.SeedIdempotent | src/migrate_data.py:5-75 | seeding twice has the effect of seeding once |
| Seeding.SeededUnique | src/migrate_data.py:57-66 | seeding never gives a name and unit a second row |
| Seeding.ReferenceDb.constructor | src/migrate_data.py:50-51 | the table holds the given rows |
| Seeding.ReferenceDb.SelectPair | src/migrate_data.py:57-62 | the scan answers whether a row has the name and unit |
| Seeding.ReferenceDb.PopulateNutrientsTable | src/migrate_data.py:9-66 | the table becomes the specified seeding of the old one with the catalog |

## Left out

- HTTP and HTML parsing. A listing page is its `href` list, and a failed
  request is one response value. A detail page is its `h2`, `h1` and
  `title` texts and its table cells. BeautifulSoup's selection and
  `get_text` are not modelled.
- `print` and the progress messages.
- The database connection, cursors and transactions. Tables are sequences
  held in memory, and a commit is recorded as the count of foods processed
  when it happens. Neither the store nor the cursor can fail, so an
  exception raised by `salvar_banco` or by the SQL in the two migration
  scripts is not modelled. Nor is the rollback those scripts do.
- The `SERIAL` id of `nutrients` and of `food_variation_nutrients`; neither
  is read back by the code.
- `salvar_arquivo`: the JSON file is modelled as the list of records
  appended to it. File I/O and `json.dumps` are left out.
- `processar_arquivo_existente` and the `__main__` block are not part of
  this model.
- Decimal.ParseFloat: accepts only signed decimal numerals. Python's
  `float()` also accepts exponents, `inf`, `nan`, underscores between
  digits and non-ASCII Unicode decimal digits (such as Arabic-Indic
  digits), which `IsDigit` refuses; for those the model gives NULL where
  Python gives a number.
  Binary floating-point rounding is not modelled either: a value is the
  exact rational the numeral denotes.
- Crawl.PageAt: the site is a finite sequence of responses, and every page
  number past its end is answered with a listing page with no links, so the
  listing loop always stops. A site that keeps answering food links for
  every page number would keep the source's `while True` loop
  (src/webscraping.py:84-109) running forever; the model does not capture
  that non-termination.
- Migration.RowsOf: the `SELECT` over `food_nutrients` and
  `food_variations` has no `ORDER BY`. The model takes rows in table
  order, which decides which row "wins" a column.
- A NULL `component` in `food_nutrients` is not modelled (the
  component is a string). A NULL `unit` or `value` is.
- The map of nutrient columns has the source's entries. The three
  energy entries are listed last, which makes no difference to a map.
- That the catalog's name and unit pairs are distinct is not stated as a
  lemma.
- The text-level SQL of the INSERT statement is not modelled. Its column
  and value lists are (InsertShape).
