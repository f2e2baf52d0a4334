# GDP per capita dashboard — a Dafny model of its data pipeline

The dashboard in `app.py` loads a wide table of GDP per capita. The table has
one row per country and one column per year ("1800" … "2100"). At start-up
the dashboard does three things:

- It melts the table into a long table with one row per country and year.
- It reads the slider bounds as `int` of the smallest and largest year label.
- It rewrites every gdp cell with `val_float`. That function turns texts such
  as "1.2k" into thousands.

After start-up, the `update_graph` callback narrows the long table by the
selected countries, then by the selected year range, and plots what is left.

The model has four modules:

- `Wrappers`: `Option` (Python's `None`) and `Result` (a value, or the
  exception raised).
- `Builtins`: the Python built-ins the pipeline relies on:
  - `str.replace(c, '')`;
  - the code-point order of strings, with `min` and `max` under it;
  - `int(text)`. `ShowNat` and `ShowInt` print decimals only so that the
    round trip `ParseIntShowInt` can check the reading of `int`; the pipeline
    itself never calls `str`.
- `Frame`: the two tables, `pd.melt`, and row selection by a boolean mask
  (`df[mask]`).
- `Dashboard`: `val_float` and its `apply` to the gdp column, the slider
  bounds, start-up as a whole, and `update_graph`'s selection.

Python's `float(text)` is not defined here. Each member that reads a number
takes it as a parameter `parse: string -> Option<real>`:

- `Some(v)` when Python reads the text as the finite number `v`;
- `None` when `float` raises `ValueError`.

Exceptions are values: `Err(ValueError)` or `Err(IndexError)`.

Two behaviours of the code are kept as written:

- `val_float` returns `None` for a text without the marker `k`. It does not
  read such a text as a number. For example "603" becomes `None`, which the
  chart leaves out.
- The slider bounds come from the string minimum and maximum of the labels.
  They agree with the numeric bounds when all labels have one width. With
  labels of different widths they may not: "999" and "1000" give the bounds
  1000 and 999.

## Model

| member | source | states |
|---|---|---|
| Dashboard.ValFloat | app.py:28-34 | A number comes back unchanged. A text that yields a value yields a float. Only a text holding `k` with something else in it can raise. |
| Dashboard.ValFloatThousands | app.py:31-33 | A text with `k` and more is 1000 times what `float` reads once every `k` is removed; it raises `ValueError` when `float` refuses that rest. |
| Dashboard.ValFloatSuffix | app.py:31-33 | "<t>k" for a non-empty `t` without a marker is 1000 × `float(t)`, or raises when `float(t)` does. |
| Dashboard.ValFloatBareMarker | app.py:31-34 | The bare "k" is 1000.0, the same as "1k". |
| Dashboard.ValFloatMarkersAnywhere | app.py:33 | Two marked texts that are equal once the markers are removed normalise alike, wherever their markers stand. |
| Dashboard.ValFloatNoMarker | app.py:28-34 | A text without `k` falls through every branch and gives `None`, never an exception. |
| Dashboard.ValFloatOnlyMarkers | app.py:32-33 | A text of two or more markers and nothing else leaves the empty text, and raises `ValueError`. |
| Dashboard.ValFloatExampleThousands | app.py:31-33 | "1.2k" gives 1200.0. |
| Dashboard.ValFloatExampleMarkersOnly | app.py:31-33 | "kk" raises `ValueError`. |
| Dashboard.NormalizeGdp | app.py:37 | The apply succeeds exactly when `val_float` succeeds on every cell. The result has the same length and order. Each row keeps its country and year, with `val_float` of its cell as gdp. A failure is a `ValueError`. |
| Builtins.RemoveAll | app.py:33 | `replace('k', '')` leaves no marker and keeps the rest in order (a subsequence). |
| Builtins.RemoveAllCounts | app.py:33 | It drops exactly the markers: every other character keeps its count, and the length falls by the number of markers. |
| Builtins.RemoveAllOnly | app.py:33 | A text made only of markers becomes empty. |
| Builtins.RemoveAllLast | app.py:33 | Removing the markers from "<t>k", where `t` has none, gives back `t`. |
| Frame.Melt | app.py:13 | `pd.melt` keeping the country column: R countries and P year columns melt into exactly P × R rows. Their layout is proved in `MeltAt`, `MeltMember` and `MeltGroupedByYear`. |
| Frame.MeltAt | app.py:13 | Position j × R + i holds country i, year label j and that country's cell under label j. |
| Frame.MeltMember | app.py:13 | A row is in the melted table exactly when it is some country's cell under some year label. |
| Frame.MeltGroupedByYear | app.py:13-16 | The melted table is grouped year column by year column. The R rows from j × R on are column j's rows in country order, all with label j. |
| Builtins.LexLe | app.py:18-21 | Python's `<=` on strings, which `min` and `max` use on the year labels. A prefix comes first; otherwise the first differing code point decides. That it is a total order is proved in `LexLeRefl`, `LexLeTotal`, `LexLeAntisymmetric` and `LexLeTrans`. |
| Builtins.StrMin | app.py:18 | `min` of a non-empty column is one of its labels and precedes every label in string order. |
| Builtins.StrMax | app.py:21 | `max` of a non-empty column is one of its labels and follows every label in string order. |
| Builtins.StrMinLeMax | app.py:18-21 | The string minimum precedes the string maximum. |
| Builtins.LexLeTotal | app.py:18-21 | String order compares any two labels. |
| Builtins.LexLeAntisymmetric | app.py:18-21 | Two labels that precede each other are equal. |
| Builtins.LexLeTrans | app.py:18-21 | String order is transitive. |
| Builtins.LexLeDigits | app.py:18-21 | For digit labels of equal width, string order coincides with numeric order of their `int` values, in both directions. |
| Builtins.ParseInt | app.py:18-21 | `int(text)`, as used for the bounds and by `astype(int)` at line 106. A non-empty digit string reads as the number its digits denote. Any accepted text is non-empty with digits after its first character. The first character is a digit, or a sign followed by at least one digit. Only a leading `-` gives a negative number. |
| Builtins.ParseIntShowInt | app.py:18-21 | `int(str(n)) == n` for every integer `n`. |
| Dashboard.YearBounds | app.py:18-21 | The slider bounds. An empty table raises `ValueError`, since its `min` is `NaN` and `int(NaN)` raises. When every label is an integer the bounds are found. Any failure is a `ValueError`. Each bound is the year of some row. Which labels they are read from is proved in `YearBoundsLabels`; order and containment in `YearBoundsUniform`. |
| Dashboard.YearBoundsLabels | app.py:18-21 | `min_year` is `int` of the string-least year label and `max_year` that of the string-greatest. The bounds are found exactly when the table is not empty and those two labels are integers; other labels are never read. Through `PrepareTable` the same holds for the bounds start-up keeps. |
| Dashboard.YearBoundsUniform | app.py:18-21 | When all year labels are digit strings of one width: the bounds are found, `min_year <= max_year`, every row's year lies between them, and both bounds are years of the table. |
| Dashboard.YearBoundsMixedWidth | app.py:18-21 | With labels "999" and "1000" the code gives `min_year` 1000 and `max_year` 999: string order is not numeric order. |
| Dashboard.YearBoundsTwo | app.py:18-21 | A two-row table's bounds come from one string comparison each way, and raise when a chosen label is not an integer. |
| Dashboard.Prepare | app.py:13-37 | Start-up in source order: melt, then the bounds, then the gdp column. When it succeeds the table has P × R rows. Any failure is a `ValueError`. |
| Dashboard.PrepareSucceeds | app.py:13-37 | Start-up succeeds exactly when the year labels give bounds and `val_float` succeeds on every cell of the wide table. |
| Dashboard.PrepareAt | app.py:13-37 | After start-up, position j × R + i of the loaded table holds country i and year label j. Its gdp is `val_float` of that country's cell under that label, and that call succeeded. |
| Dashboard.PrepareBounds | app.py:13-37 | When the wide table's header year labels are digit strings of one width, the loaded bounds are ordered and every row of the loaded table lies within them. |
| Dashboard.AfghanistanPrepared | app.py:13-37 | On Afghanistan's cells "603" (1800) and "1.2k" (1801), start-up gives gdp `None` and 1200.0 and slider bounds 1800..1801. |
| Frame.Keeps | app.py:101-106 | The two boolean masks: the row's country is in the list, or the row's year, read with `int`, lies in the range with both ends included. An empty country list or an empty range keeps no row. A year that is not an integer is never in range. |
| Frame.Where | app.py:101 | `df[mask]` keeps exactly the rows the mask is true on. It keeps every copy of each, in original order, and no others. |
| Frame.WhereAll | app.py:101-106 | A mask true on every row selects the whole table. |
| Frame.WhereIdempotent | app.py:101-106 | Selecting twice by the same mask is selecting once. |
| Frame.WhereTwo | app.py:101-106 | Selection from two rows keeps each row the mask is true on, in order. |
| Dashboard.ByCountry | app.py:99-101 | With a non-empty country selection, the rows of the selected countries, in order and with multiplicity. Otherwise the whole table. |
| Dashboard.ByYear | app.py:103-106 | With a non-empty year range, the rows whose year lies in `[v[0], v[1]]`, ends included. `IndexError` exactly when the range has one element. `ValueError` exactly when a remaining year label is not an integer. Otherwise all rows. |
| Dashboard.UpdateGraph | app.py:94-106 | The plotted rows are an order-preserving selection of `df`: exactly the rows both selections admit, with their multiplicities. Each exception is raised exactly when its condition holds. |
| Dashboard.UpdateGraphNoCountries | app.py:100-101 | A `None` and an empty country selection both leave the countries unfiltered. With no year range either, the whole table is plotted. |
| Dashboard.UpdateGraphIdempotent | app.py:94-106 | Filtering the plotted rows again with the same selection changes nothing. |
| Dashboard.UpdateGraphFullRange | app.py:94-106 | With no country selection and the slider at `[min_year, max_year]`, a table with one-width year labels is plotted whole. |
| Dashboard.UpdateGraphInclusive | app.py:106 | A wanted country's rows in years `lo` and `hi` are plotted. One in year `hi + 1` is not. |
| Dashboard.UpdateGraphFirstOfTwo | app.py:94-106 | One country over two consecutive years, with the range of the first year alone: only the first row is plotted. |
| Dashboard.AfghanistanSelected | app.py:94-106 | Selecting Afghanistan over 1800..1800 in the loaded example plots its 1800 row only. |

## Left out

- Loading `gdp_pcap.csv` is not modelled. The wide table is an input. Which of its cells pandas reads as numbers and which as text is part of that input.
- The `print` calls, `melted_df.head(70)` and `print(type(max_year))` produce output only, and are not modelled.
- The Dash application, its layout and the country options are not modelled. Neither are the slider's default `[1800, 1950]`, its marks, the callback wiring, `px.line` with its layout update, and `run_server`. These are UI and plotting; the model covers only the rows handed to the chart.
- Python's `float(text)` is a parameter. Which texts it accepts (spaces, exponents, "inf", "nan", underscores) is outside the model.
- `int(text)` is modelled on an optional sign and ASCII digits. The spaces, underscores and non-ASCII digits that Python also accepts are not modelled.
- Dashboard.ValFloat: only two kinds of cell are modelled, numbers (including `NaN`) and texts. A cell of another type, such as a numpy scalar whose `type` is neither `float` nor `int`, is not modelled.
- Numbers are exact: `Float(v)` holds a real, so `float` rounding in `v * 1000` is not modelled.
- Pandas keeps `None` from `apply` either as `None` or as `NaN`, depending on the column dtype. The model keeps the `Option` as `val_float` returned it.
- The long table is a value, and pandas indexes are not modelled. Line 37 assigns the gdp column of `melted_df` in place; the model returns a new table instead. The two agree because the old gdp column is never read after line 37, and no other name refers to `melted_df` until line 39 names it `df`.
- Dashboard.ByYear: `astype(int)` at line 106 converts to a 64-bit integer, so a year label outside that range raises `OverflowError` there. The model reads labels as unbounded integers, and `ByYear` and `UpdateGraph` return `Ok` for such a label.
- Dashboard.UpdateGraph: `selected_countries` is a list of strings and `selected_year` a list of integers. Other types Dash could send are not modelled.
- Dashboard.YearBoundsUniform: ordered bounds are proved only for year labels of one width. For mixed widths the code's bounds can be reversed, as `YearBoundsMixedWidth` shows.
