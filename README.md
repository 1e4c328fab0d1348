# Pokédex dashboard core in Dafny

`app.py` is a Streamlit dashboard over a Pokédex CSV. Its computational core is
modelled here:

- `load_data` reads the CSV. It rejects a file missing any of the 11 expected
  headers. It coerces the seven stat columns with `pd.to_numeric(errors="coerce")`.
  It derives `Tipos_list` by splitting `Tipo` on "/".
- From the table it builds the sidebar's two option lists: the sorted distinct
  countries and the sorted distinct type fragments.
- It builds the filtered table `df_f` from three masks. A country filter means
  "no restriction" when empty. A type filter means overlap with the selection,
  and "no restriction" when empty. The `Total` range is inclusive.
- The "Explorador de combate" view shows four cards, each the `idxmax` maximum
  and its name.
- The "Geografía Pokémon" view shows the top ten rows by `Total`, and the
  `(Tipo, Conteo)` frequency table of the stripped tag fragments.

Modules:

- `Wrappers`: `Option` and `Result`.
- `Seqs`: order-preserving filtering, subsequences, distinctness and a descending
  insertion sort, with their multiset facts.
- `Text`: Python's `str.split` on one character, `str.strip()`, string order and
  `sorted(set(...))`.
- `Table`: the row-level view of the loaded table. It holds the `Record` and `Row`
  datatypes, the header check (`Missing`), `Tipos_list` and the loader as a
  function.
- `Frames`: `load_data` as the source writes it. A `DataFrame` class holds its
  header and a map from header to column of cells. Its methods change the columns
  in place. `Frames.LoadAgreesWithTable` proves that the frame it leaves, read row
  by row, is what `Table.LoadData` returns.
- `Options`: the option lists `paises` and `tipos_unicos`.
- `Filtering`: the masks, `tiene_tipo` and `df_f`.
- `Explorer`: `idxmax` and the metric cards.
- `Geography`: the top ten, the tag series and `value_counts`.
- `Scenarios`: small concrete tables that pin down the edge cases.

The globals `df`, `sel_paises`, `sel_tipos`, `rango_total` and `df_f` become
explicit values: a `Selection` and the row sequences passed between the
functions.

Modelling choices:

- A stat is `Option<int>`. `None` is NaN.
- What `pd.to_numeric` accepts as a number is the parameter `parse`.
- A cell that is neither a string nor a number (only a list can be) becomes NaN.
- `ID` and `Nombre` are only displayed. A cell of the wrong kind there reads as
  0 or "".
- A País cell that is not a string (a number, say) reads as a missing country.
  pandas would keep it as a present value for `dropna` (line 46) and `isin`
  (line 58). A column `read_csv` parses as text holds only strings and NaN.
- The `ValueError` is `Table.LoadError`. It holds the two lists the message
  prints: the missing headers and the headers found.

Where the dashboard's documented intent and `app.py` differ, the model follows
`app.py`:

- `Tipos_list` fragments are not stripped.
- A missing tag gives `[""]`, not `[]` (`Table.TiposList`,
  `Filtering.MissingTipoDroppedByFullSelection`).
- The tag count strips fragments but keeps empty ones. For example, "Fire/"
  contributes "Fire" and "". Only a missing tag contributes nothing
  (`Geography.FragmentsLength`, `Geography.MissingTagContributesNothing`).
- An empty country selection lets rows without a country through. A non-empty
  selection drops them (`Filtering.MissingPaisOnlyWithoutRestriction`).
  Selecting every offered country is no restriction at all when no row has a
  country, since nothing is then offered. Selecting none and selecting all agree
  when every row has a country (`Filtering.NoCountryEqualsAllCountries`).
- Selecting every offered country and type keeps the whole table when every row
  has a country, a tag and a `Total` within the range
  (`Filtering.FullSelectionKeepsAll`). The exact condition is weaker
  (`Filtering.FullSelectionKeepsAllIff`). A row without a country survives when
  no country is offered. A row without a tag survives when no type is offered, or
  when "" is an offered type because some tag has an empty "/"-piece, as "Fire/"
  does.
- `sort_values` and `value_counts` order ties in no promised way. The model
  proves only the order by value and the contents.

## Model

| member | source | states |
|---|---|---|
| Table.Missing | app.py:19-20 | the reported headers are exactly the expected ones absent from the file, in the expected order |
| Table.FillNa | app.py:30 | no contract of its own: a missing tag reads as "" and any other tag as itself; `Table.TiposList` states the split joins back to it |
| Table.TiposList | app.py:30 | at least one fragment, none containing "/", joined back with "/" they give the tag (a missing tag reads as ""), and a missing tag gives `[""]` |
| Table.AddTiposList | app.py:29-30 | one row per record, each keeping its record, and every row's `Tipos_list` is the split of its own tag |
| Table.LoadData | app.py:15-31 | an error exactly when some expected header is absent, carrying the missing headers and the headers found; otherwise every record, in order, with its `Tipos_list` |
| Frames.ToNumeric | app.py:27 | the result is a number or NaN; numbers and NaN are kept; a string becomes a number exactly when it parses, and then the number it parses to; a list becomes NaN |
| Frames.CoerceCells | app.py:27 | same length, cell i coerced as `to_numeric` coerces one value |
| Frames.SplitCells | app.py:30 | the Tipo column as the frame holds it after line 30: one cell per row; a tag or a missing cell becomes a non-empty list of "/"-free pieces that join back to the tag filled with "", a missing cell becomes `[""]`, any other cell NaN |
| Frames.CoerceColumns | app.py:25-27 | coercing a list of columns keeps the frame's headers and every column's length |
| Frames.AfterLoad | app.py:24-31 | the loaded frame has the file's headers plus `Tipos_list`, and the same column lengths |
| Frames.MissingIff | app.py:20-21 | the test on `missing` holds exactly when an expected header is absent |
| Frames.DataFrame.CoerceNumeric | app.py:25-27 | the loop leaves the header alone and leaves the frame as the numeric columns coerced one after another |
| Frames.DataFrame.AddTiposList | app.py:30 | the derived column is set to the split Tipo column and is appended to the header unless already present |
| Frames.DataFrame.LoadData | app.py:15-31 | on a missing header, the error with the missing and found headers and the frame unchanged; otherwise `Ok`, the header extended by `Tipos_list` and the columns those of `AfterLoad` |
| Frames.CoerceTwice | app.py:27 | coercing a coerced column changes nothing |
| Frames.CoerceColumnsAt | app.py:25-27 | after the loop every listed column is coerced exactly once, whatever the repetitions, and every other column is untouched |
| Frames.LoadedNumericColumn | app.py:25-27 | after loading, every cell of a stat column is the coercion of the cell read and is a number or NaN |
| Frames.LoadedKeepsOtherColumns | app.py:24-31 | loading leaves every column other than the stats and `Tipos_list` as read |
| Frames.LoadedTiposList | app.py:30 | after loading, each `Tipos_list` cell is the list of fragments of that row's tag, which joined with "/" gives the tag filled with "" |
| Frames.LoadAgreesWithTable | app.py:15-31 | the in-place frame, read row by row, equals the row-level loader's result on the same records |
| Options.Countries | app.py:46 | a country is listed exactly when some row holds it |
| Options.Paises | app.py:46 | strictly increasing, and containing exactly the countries that occur |
| Options.TagFragments | app.py:47 | a fragment is listed exactly when it is a "/"-piece of some non-missing tag |
| Options.TiposUnicos | app.py:47 | strictly increasing, and containing exactly the "/"-pieces of the non-missing tags |
| Options.PaisesDetermined | app.py:46 | any strictly sorted list of exactly the occurring countries is `paises` |
| Text.Split | app.py:30 | at least one piece, and no piece contains the separator |
| Text.JoinSplit | app.py:30 | joining the pieces with the separator gives back the string |
| Text.SplitJoin | app.py:30 | splitting a join of separator-free pieces gives back the pieces |
| Text.Strip | app.py:187 | a contiguous piece of the string with no whitespace at either end, and everything cut off is whitespace |
| Text.StripTrimmed | app.py:187 | a string with no whitespace at either end is kept |
| Text.SortedSet | app.py:46-47 | strictly increasing and holding exactly the strings of the input |
| Text.SortedListingUnique | app.py:46-47 | two strictly sorted lists with the same elements are equal |
| Seqs.Filter | app.py:65 | boolean-mask selection: the elements satisfying the predicate, each with all its copies, in their original order (with `Seqs.FilterIsSubseq`) |
| Filtering.PaisOk | app.py:58 | no contract of its own: `mask_pais`; `Filtering.MissingPaisOnlyWithoutRestriction` and `Filtering.EmptyPaisesNoRestriction` state its two cases |
| Filtering.Between | app.py:59 | no contract of its own: `mask_total`; `Filtering.FilteredTotalsInRange` and `Scenarios.RangeIsInclusive` state that it is inclusive and that a missing Total fails |
| Filtering.Passes | app.py:65 | no contract of its own: the conjunction of the three masks; `Filtering.FilterRows` keeps exactly the rows it accepts |
| Filtering.AnyIn | app.py:62 | true exactly when some type of the row is selected |
| Filtering.TieneTipo | app.py:61-62 | true exactly when the selection is empty or shares a type with the row |
| Filtering.FilterRows | app.py:58-65 | an order-preserving subsequence; a row is in it exactly when it is in the table and passes all three masks; every passing row keeps all its copies |
| Filtering.FilterRowsUnique | app.py:65 | no other order-preserving subsequence has exactly the passing rows |
| Filtering.FilteredTotalsInRange | app.py:59 | every filtered row has a `Total` within the inclusive range |
| Filtering.EmptyPaisesNoRestriction | app.py:58 | with no country selected, the result is the table filtered by the other two masks |
| Filtering.EmptyTiposNoRestriction | app.py:61-64 | with no type selected, the result is the table filtered by the other two masks |
| Filtering.NoCountryEqualsAllCountries | app.py:46-58 | when every row has a country, selecting none and selecting all countries give the same table |
| Filtering.MissingPaisOnlyWithoutRestriction | app.py:58 | a row without a country that passes the other masks survives exactly when no country is selected |
| Filtering.FullSelectionKeepsAll | app.py:46-65 | every country, every type and a covering range give back the whole table, row for row, when every row has a country, a tag and a `Total` |
| Filtering.PassesUnderFullSelection | app.py:46-64 | under every offered country and type, a row passes exactly when it has a country or none is offered, has a tag or no type is offered or "" is offered, and has a Total in range |
| Filtering.FullSelectionKeepsAllIff | app.py:46-65 | every offered country and type keep the whole table, row for row, exactly when every row meets that condition |
| Filtering.MissingTipoDroppedByFullSelection | app.py:30-64 | with every offered type selected and "" not offered, a row with a missing tag is filtered out |
| Explorer.IdxMax | app.py:83-86 | `None` exactly when the column is all missing; otherwise a row holding the largest value, with no earlier row as large |
| Explorer.MaxWithName | app.py:88-95 | the card's value is the column's maximum and its name is the first row holding it; `None` exactly when the column is all missing |
| Explorer.CombatCards | app.py:79-95 | the "no data" message exactly on an empty table; otherwise the four cards for Total, Velocidad, Ataque and Defensa |
| Explorer.FilteredTotalCardExists | app.py:79-88 | on a non-empty filtered table the Total card always has a value |
| Geography.SortByTotal | app.py:164 | a permutation of the rows, by non-increasing `Total`, with missing totals last |
| Geography.Top10 | app.py:164 | min(10, n) rows drawn from the table, ranked, and each ranking at least as high as every row left out |
| Geography.FilteredTop10 | app.py:164 | on the filtered table the top ten have totals in non-increasing order and no row left out has a larger total |
| Geography.TopOfTotals | app.py:164 | the same for any table whose rows all have a `Total` |
| Geography.StripAll | app.py:187 | one stripped fragment per fragment, in order |
| Geography.StripAllTrimmed | app.py:187 | fragments without surrounding whitespace pass through unchanged |
| Geography.RowFragments | app.py:181-188 | one row's share of the series: empty exactly when the tag is missing, otherwise entry k is the k-th "/"-piece of the tag, stripped, with one entry per piece |
| Geography.Fragments | app.py:181-188 | no contract of its own: `tipos_series`; `Geography.FragmentsMembers`, `Geography.FragmentsAppend`, `Geography.FragmentsLength` and `Geography.MissingTagContributesNothing` describe it |
| Geography.FragmentsMembers | app.py:181-188 | a label is in the series exactly when it is a stripped fragment of some row |
| Geography.FragmentsAppend | app.py:181-188 | the series of two tables one after the other is their series one after the other |
| Geography.MissingTagContributesNothing | app.py:182-185 | removing a row with a missing tag leaves the series unchanged |
| Geography.FragmentsLength | app.py:181-188 | the series has exactly one entry per "/"-piece of every non-missing tag, empty pieces included |
| Geography.SumPerm | app.py:195 | reordering a count table keeps the total count |
| Geography.ValueCounts | app.py:190-192 | each distinct fragment exactly once, with its number of occurrences, and the counts add up to the series length |
| Geography.PermutedCounts | app.py:195 | any reordering of a correct count table is still one |
| Geography.Conteo | app.py:181-196 | the frequency table of the series: distinct labels, exactly the fragments, correct counts summing to the series length, by non-increasing count |
| Scenarios.FirstOccurrenceWins | app.py:83-88 | two rows tied at 500 ahead of 300: the card shows 500 and the first name |
| Scenarios.OverlapNotContainment | app.py:61-62 | "Fire/Flying" passes a selection of Water and Fire and fails one of Water alone |
| Scenarios.RangeIsInclusive | app.py:59 | the upper end passes, one above does not, a missing Total never does |
| Scenarios.TagSeriesExample | app.py:181-188 | the rows "Fire/Flying", "Fire" and a missing tag give the series Fire, Flying, Fire |
| Scenarios.TagCountExample | app.py:181-192 | the same rows count Fire twice and Flying once |
| Scenarios.ConteoExample | app.py:181-196 | the same rows give the table Fire 2, then Flying 1, and nothing else |

## Left out

- Reading the file: the existence check (lines 33-36) and `pd.read_csv` are I/O. The `DataFrame` constructor stands for the frame `read_csv` returns.
- Frames.ToNumeric: the parsing rules of `pd.to_numeric` are the parameter `parse`. Floating-point stats are not modelled; stats are integers.
- Frames.LoadAgreesWithTable: requires every Tipo cell to be a string or NaN, as `read_csv` leaves a text column. A numeric Tipo column (where `.str` would raise) is outside it.
- Options.TiposUnicos: when no row has a tag, the model offers no type (`[]`), and the type filter then means no restriction. app.py fails instead: `read_csv` reads an all-empty Tipo column as float64, and `.str` at line 47 raises `AttributeError` before the sidebar is drawn.
- Frames.DataFrame.LoadData: when `read_csv` reads the Tipo column as numbers with no cell missing, `fillna("")` leaves it numeric and `.str` at line 30 raises `AttributeError`. The model returns `Ok` there, with NaN in every `Tipos_list` cell.
- Frames.RecordAt: a numeric Tipo cell among string tags reads as a missing tag. In app.py, line 30 gives it NaN, and the loop at line 47 fails when it iterates that NaN.
- Table.LoadError: holds the two lists, not the text of the message.
- Explorer.MaxWithName: on a non-empty table whose column is entirely missing, pandas' `idxmax` gives NaN or raises, and the lookup at lines 88-95 fails. The model returns `None` there instead of a failure.
- Geography.SortByTotal: pandas promises no order among equal totals, so the model claims none.
- Geography.Top10: states only which rows are taken and their order by `Total`. Like `SortByTotal`, it says nothing about ties.
- Geography.Conteo: ties between equal counts are in no promised order.
- The mean `Total` per country (lines 135-144) is a floating-point group-by feeding a map, so it is not modelled.
- The "Comparación" view has no code of its own: it falls into the `else` branch at line 134, which is the modelled geography view.
- The sidebar defaults are not modelled: the first ten countries (line 49), all types (line 50) and the slider bounds from the minimum and maximum `Total` (lines 52-53). `Selection` takes any values. `Filtering.FullSelectionKeepsAll` covers the all-values case.
- Rendering is not modelled: page setup, widgets, metrics, plots and tables (`st.*`, `px.*`). Neither is the caching decorator.
- pandas dtype handling beyond the cell kinds of `Frames.Cell` is not modelled.
