# District keys, scale factors and zonal tables of the minimum-temperature dashboard

This project models the deterministic core of the minimum-temperature
dashboard (`Aplicacion/streamlit_app.py`) in Dafny and proves properties of
that model. The core has five parts:

- **District-key resolution** (`normalize_keys_upper`,
  `build_or_find_ubigeo`). A district polygon layer gets a district code
  (`UBIGEO_OK`), six digits in the usual case. Three strategies are tried
  in a fixed order:
  1. a direct code column, coerced to an integer and zero-filled to six;
  2. a code built from department, province and district columns;
  3. a scan for a column where more than 80% of the rows are six digits.

  If none applies, resolution fails with the configuration error.
- **Display names** (`load_vector`). The `NOMBRE_OK` column comes from the
  first name alias present, otherwise from the code itself. It is stripped
  and passed through the accent-stripping function. Then `UBIGEO_OK` is
  stripped too.
- **Scale factor** (`open_raster`, `guess_scale_factor`). The first
  metadata tag that parses as a float wins. Otherwise the factor is 0.1 or 1,
  classified from the largest magnitude in a sample of band 1.
- **Zonal table** (`compute_zonal`). Every statistic except `count` is
  scaled when the factor is truthy and not 1. Each row then gets the
  district code, the name and the year, by position.
- **Year labelling**: `year = start_year + band - 1`.

Modules, one file each:

- `wrappers.dfy`: `Option` and `Result`.
- `floats.dfy`: doubles as finite reals, NaN and the two infinities, with
  `abs` and multiplication.
- `strings.dfy`: the Python string operations the resolver relies on:
  `strip`, ASCII `upper`, `str(int)`, `zfill`, and the regular expressions
  `\d+` and `\d{6}`.
- `tables.dfy`: the attribute table as ordered named columns of cells,
  column assignment `gdf[name] = ...`, `normalize_keys_upper`, and the
  first-alias lookup `next(cmap[x] for x in aliases if x in cmap)`.
- `key_resolver.dfy`: the three strategies, `build_or_find_ubigeo` and the
  key-column part of `load_vector`.
- `scale_resolver.dfy`: `guess_scale_factor` and the tag loop of
  `open_raster`.
- `zonal.dfy`: the frame built in `compute_zonal`, and the year formula.

How things are represented:

- A table cell is the text that `astype(str)` gives for it. A missing value
  renders as `nan`.
- The frames that `load_vector` and `compute_zonal` change in place are
  local objects that nothing else refers to. They are modelled as values
  that a method reassigns step by step, just as the source overwrites
  columns. `LoadVector`, `AssignKeyColumns`, `OpenRasterScale`,
  `ScaleStatistics` and `ComputeZonal` are methods with loops or
  successive assignments, each proved against a specification function.
- Three things are parameters, not definitions:
  - `pd.to_numeric` on one value, a partial parse to a finite real;
  - `float(text)`, a partial parse to a double;
  - `strip_accents_upper`, an uninterpreted function.
- The raster sample and the records of `zonal_stats` are inputs.

Behaviours of the code worth knowing, all modelled as written:

- The scan counts matches over **all** rows, and missing values render as
  non-matching text. It requires strictly more than 80%: a
  column with exactly 80% does not qualify.
- `np.nanmax` does not skip infinities. An infinity in the sample
  therefore gives a factor of 1, even when the finite values lie between 80
  and 1000.
- `UBIGEO_OK` is not always six digits:
  - a direct code of -1 becomes `-00001`: six characters, not six digits;
  - numbers of seven or more digits stay longer;
  - a composite part with more than two digits is kept whole;
  - a scanned column needs only more than 80% six-digit rows, so the other
    rows keep whatever stripped text they hold, `""` included.

`DirectCodeMeaning`, `CompositePartMeaning` and `CompositeCodeSplits` state
exactly when the result is six digits. `ScanStrategyWins` states the 80%
bound on a scanned column.

## Model

| member | source | states |
|---|---|---|
| Strings.StripIsSlice | Aplicacion/streamlit_app.py:33 | `strip` keeps one slice of the text that neither starts nor ends with white space, and only white space is cut from either end |
| Strings.StripIdempotent | Aplicacion/streamlit_app.py:88 | stripping an already stripped text changes nothing |
| Strings.TrimLeftFacts | Aplicacion/streamlit_app.py:51 | the left trim keeps a suffix, removes only white space and stops at the first other character |
| Strings.TrimRightFacts | Aplicacion/streamlit_app.py:51 | the right trim keeps a prefix, removes only white space and stops at the last other character |
| Strings.IntToStringValue | Aplicacion/streamlit_app.py:40 | `str(n)` is an optional minus and digits without leading zeros that read back as `n` |
| Strings.ZFillValue | Aplicacion/streamlit_app.py:41 | `zfill` keeps the sign in front, pads with zeros after it, leaves texts at least as wide unchanged, and preserves the signed value |
| Strings.DigitRun | Aplicacion/streamlit_app.py:46-48 | the first run of `\d+` is all digits, empty exactly when the text has no digit, starts at the first digit and cannot be extended |
| Tables.SetColumn | Aplicacion/streamlit_app.py:83 | assigning a column overwrites it in place or appends it at the end, gives it exactly the new cells, and leaves every other column and the row count unchanged |
| Tables.KeyMapKeys | Aplicacion/streamlit_app.py:33 | in the dictionary comprehension every column's key is present and each key leads to a column that has that key |
| Tables.KeyMapLastWins | Aplicacion/streamlit_app.py:33 | when several columns share a key, the later column is the one kept |
| Tables.NormalizeKeysKeys | Aplicacion/streamlit_app.py:32-33 | every column is reachable through its upper-cased, stripped name, and each key leads to a column with that key |
| Tables.NormalizeKeysLastWins | Aplicacion/streamlit_app.py:32-33 | of columns that normalise to one key, the last one wins |
| Tables.FirstPresent | Aplicacion/streamlit_app.py:42-44 | the lookup is `None` exactly when no alias is a key, and otherwise the column of the first alias present, in list order |
| Tables.FirstPresentAgrees | Aplicacion/streamlit_app.py:84-85 | two maps that agree on the aliases give the same lookup result |
| Tables.FirstPresentAfterSetColumn | Aplicacion/streamlit_app.py:83-85 | adding a column whose name is its own key and no alias leaves the alias lookup on the recomputed keys unchanged |
| KeyResolver.Trunc | Aplicacion/streamlit_app.py:40 | `astype(int)` truncates toward zero: the result is within one of the real value, on the same side of zero |
| KeyResolver.Coerce | Aplicacion/streamlit_app.py:40 | a missing or non-numeric value becomes -1; a parsed value `x` becomes the integer `n` on the same side of zero that lies between `x` and 0 and less than 1 from `x`, that is `x` truncated toward zero |
| KeyResolver.DirectCodeMeaning | Aplicacion/streamlit_app.py:40-41 | the direct code has at least six characters, has exactly six iff -99999 <= n <= 999999, is six digits iff 0 <= n <= 999999, and reads back as `n` |
| KeyResolver.SentinelCode | Aplicacion/streamlit_app.py:40-41 | the sentinel -1 becomes `-00001`, with the sign in front |
| KeyResolver.CompositePartMeaning | Aplicacion/streamlit_app.py:46-48 | a part is all digits with the value of its digit run, is the run itself when the run has two or more digits, and has two characters when it has at most two |
| KeyResolver.CompositeCodeSplits | Aplicacion/streamlit_app.py:46-49 | when every run has at most two digits, the code is six digits and its three pairs give back the department, province and district numbers |
| KeyResolver.CompositeExample | Aplicacion/streamlit_app.py:46-49 | department "15", province "1" and district "3" give "150103" |
| KeyResolver.FirstQualifying | Aplicacion/streamlit_app.py:50-53 | the scan finds nothing exactly when no column has more than 80% six-digit rows, and otherwise the first such column in column order |
| KeyResolver.NormalizeKeysIsColumnMap | Aplicacion/streamlit_app.py:32-33 | the normalised map leads only to columns of the table, and a non-empty key to a non-empty name, so a found name is truthy |
| KeyResolver.FoundColumnTruthy | Aplicacion/streamlit_app.py:45 | with non-empty aliases, the truthiness test on a found column name holds exactly when some alias is present |
| KeyResolver.CompositeColumnsFound | Aplicacion/streamlit_app.py:42-45 | the composite strategy fires exactly when each of the three alias lists has an alias present |
| KeyResolver.DirectStrategyWins | Aplicacion/streamlit_app.py:37-41 | the first direct alias present decides, strategies 2 and 3 are not consulted, and each code reads back as its cell's coerced number, six digits exactly when that number is in 0..999999 |
| KeyResolver.CompositeDistrictAlias | Aplicacion/streamlit_app.py:37-44 | when the composite strategy runs, its district column was found through CCDI, DISTRITO_ID or DIST, because the other district aliases are direct aliases |
| KeyResolver.CompositeStrategyWins | Aplicacion/streamlit_app.py:42-49 | with no direct alias, each code is the department, province and district parts side by side, each from the first alias present in its list |
| KeyResolver.ScanStrategyWins | Aplicacion/streamlit_app.py:50-54 | otherwise the result is the stripped texts of the first qualifying column, more than 80% of which are six digits, or the configuration error when none qualifies |
| KeyResolver.ResolutionFailsIff | Aplicacion/streamlit_app.py:35-54 | resolution fails exactly when no direct alias is present, the three composite lists are not all matched, and no column qualifies |
| KeyResolver.ResolvedCodesStripped | Aplicacion/streamlit_app.py:88 | every resolved code, whatever the strategy, is its own strip |
| KeyResolver.BuildOrFindUbigeoStripped | Aplicacion/streamlit_app.py:88 | the codes of `build_or_find_ubigeo` are unchanged by the final strip of `UBIGEO_OK` |
| KeyResolver.DisplayNameFromAlias | Aplicacion/streamlit_app.py:84-87 | with a name alias present, each name is the accent-stripped, stripped text of the first such alias's column in that row |
| KeyResolver.DisplayNameFallback | Aplicacion/streamlit_app.py:86-87 | with no name alias present, each name is the accent-stripped, stripped district code |
| KeyResolver.NameLookupIgnoresColumn | Aplicacion/streamlit_app.py:83-85 | assigning `UBIGEO_OK` before the name lookup changes neither which name column is found nor its cells |
| KeyResolver.NameSourceAfterCodeColumn | Aplicacion/streamlit_app.py:84-87 | the names computed on the layer with `UBIGEO_OK` already assigned are the display names defined on the layer as read |
| KeyResolver.AssignKeyColumns | Aplicacion/streamlit_app.py:83-88 | after the three assignments the table holds the codes in `UBIGEO_OK` and the display names in `NOMBRE_OK`, every other column is unchanged, and the column names are the old ones followed by whichever of the two new names were not yet columns |
| KeyResolver.LoadVector | Aplicacion/streamlit_app.py:83-88 | `load_vector` fails exactly when resolution fails; otherwise it adds the resolved codes and the display names, every other column is unchanged, and no column besides `UBIGEO_OK` and `NOMBRE_OK` is added |
| ScaleResolver.NanMax | Aplicacion/streamlit_app.py:59 | the NaN-ignoring maximum is NaN only when both inputs are, +Inf when either is, and otherwise one of them and at least the other |
| ScaleResolver.MaxAbsMeaning | Aplicacion/streamlit_app.py:59 | `nanmax(abs(arr))` is NaN only for an all-NaN sample, +Inf exactly when an infinity is present, and otherwise the largest finite magnitude, which some value has |
| ScaleResolver.GuessScaleFactor | Aplicacion/streamlit_app.py:56-60 | the guess is always 0.1 or 1 |
| ScaleResolver.GuessScaleFactorMeaning | Aplicacion/streamlit_app.py:56-60 | the guess is 0.1 exactly when the sample has no infinity, some finite magnitude above 80, and every finite magnitude below 1000 |
| ScaleResolver.GuessScaleFactorBoundaries | Aplicacion/streamlit_app.py:60 | the bounds are strict: magnitudes all at most 80, or one at least 1000, give 1 |
| ScaleResolver.GuessScaleFactorInfinite | Aplicacion/streamlit_app.py:59-60 | any infinity in the sample gives 1 |
| ScaleResolver.FirstParsedTag | Aplicacion/streamlit_app.py:67-72 | no tag value is taken exactly when no key is present with a parsable value, and otherwise the value of the first such key, skipping keys whose value does not parse |
| ScaleResolver.TagOverridesSample | Aplicacion/streamlit_app.py:67-76 | once a tag parses, the factor is that tag's value whatever the sample holds |
| ScaleResolver.OpenRasterScale | Aplicacion/streamlit_app.py:66-76 | the loop yields the first parsable tag value, and falls back to the guess from the sample exactly when no tag parses |
| Floats.Abs | Aplicacion/streamlit_app.py:59 | `abs` keeps NaN, sends both infinities to +Inf, and gives a non-negative finite value of the same magnitude |
| Floats.Mul | Aplicacion/streamlit_app.py:120 | the product is NaN exactly when a factor is NaN or an infinity meets zero; otherwise an infinite factor gives the infinity whose sign is the product of the factors' signs; finite factors give the real product, and multiplying by 1 changes nothing |
| Zonal.ScaleStat | Aplicacion/streamlit_app.py:120 | a missing statistic stays missing, a number is multiplied by the factor, and an integer becomes the multiplied double |
| Zonal.StatKeysMeaning | Aplicacion/streamlit_app.py:117 | a name is a column of `pd.DataFrame(zs)` exactly when some record has it |
| Zonal.RawFrame | Aplicacion/streamlit_app.py:117 | `pd.DataFrame(zs)` has one row per record, full columns, and the records' keys as columns |
| Zonal.ScaleNamedMeaning | Aplicacion/streamlit_app.py:119-120 | visiting distinct statistic names scales each present column exactly once and leaves the others alone |
| Zonal.ScaledStatColumns | Aplicacion/streamlit_app.py:118-120 | after the loop each requested statistic present is scaled and every other column is as `zonal_stats` gave it |
| Zonal.ScaleStatistics | Aplicacion/streamlit_app.py:119-120 | the loop over the statistic names leaves the table exactly as visiting the names in order and rescaling each present column describes |
| Zonal.ZonalStats | Aplicacion/streamlit_app.py:117-120 | whether or not the factor applies, the statistic columns after the loop are the records' columns, scaled exactly for the requested statistics |
| Zonal.ComputeZonal | Aplicacion/streamlit_app.py:117-123 | the scaling loop and the three label assignments produce exactly the table `ZonalFrame` defines |
| Zonal.ZonalFrameShape | Aplicacion/streamlit_app.py:117-123 | the table has one full row per polygon and its columns are the statistics plus `UBIGEO_OK`, `NOMBRE_OK` and `year` |
| Zonal.ZonalLabelsByPosition | Aplicacion/streamlit_app.py:121-123 | row `i` carries the `i`-th polygon's code and name and the selected year |
| Zonal.ZonalCountUntouched | Aplicacion/streamlit_app.py:119 | `count` is never rescaled |
| Zonal.ZonalUnscaled | Aplicacion/streamlit_app.py:118 | a factor of 0 or 1 leaves every statistic as `zonal_stats` reported it |
| Zonal.ZonalScaled | Aplicacion/streamlit_app.py:118-120 | otherwise each requested statistic is the record's value times the factor, and a missing or absent one stays missing |
| Zonal.YearOfMeaning | Aplicacion/streamlit_app.py:108 | band 1 is the start year, and the labelling is one-to-one and order-preserving over the bands |

## Left out

- User interface, plotting, KPIs, top-15 tables, the merge and CSV export
  (lines 91-107 and 125 onwards): presentation and thin pandas calls.
- File and raster I/O: reading the layer and the raster, the CRS setting and
  reprojection (line 82), the 200×200 read window (lines 74-75) and
  file-existence checks. The sample is an input of `OpenRasterScale`.
- `zonal_stats` itself: its records are an input of `ComputeZonal`.
- Caching decorators: memoisation only.
- The internals of `strip_accents_upper`, `pd.to_numeric` and `float()`:
  they are function parameters. `pd.to_numeric` is assumed to yield finite
  numbers, so `astype(int)` of an infinity is not modelled.
- KeyResolver.Trunc: unbounded truncation. numpy's `astype(int)` of a
  finite value beyond the 64-bit range gives -9223372036854775808; that
  wrap is not modelled.
- ScaleResolver.GuessScaleFactor: the sample is a sequence of doubles. For
  an integer band, `np.abs` wraps the dtype minimum to itself (int16
  -32768 stays -32768), so a nodata value of -32768 does not raise the
  maximum. The model takes its magnitude as 32768 instead, and on such a
  band it can give 1 where the source gives 0.1. Integer samples are not
  modelled.
- Strings.Upper: upper-cases ASCII letters only. Python's full Unicode case
  mapping is not modelled.
- Strings.DigitRun, Strings.IsSixDigits: `\d` is ASCII digits only, in
  both the digit-run extraction and the six-digit `fullmatch` of the scan.
  Python also matches other Unicode decimal digits.
- Floats.Mul: exact real multiplication. Double rounding is not modelled.
- Tables.Render: every missing value renders as `nan`, but pandas renders
  a `None` in a text column as `None`. Every such rendered `None` differs:
  - a qualifying scanned column (lines 51-53) that holds a `None` gets
    `None` as that row's `UBIGEO_OK` in the source and `nan` here;
  - `NOMBRE_OK` (lines 85-87) differs for that row whichever column it
    comes from. A name-alias column holding `None` gives
    `strip_accents_upper("None")` in the source and the accent-stripped
    `nan` here; the fallback from the codes differs as the scanned code
    does.

  The direct and composite codes agree, because neither text has a digit:
  they give `-00001` and `00` either way.
- Zonal.ComputeZonal: pandas dtype conversions are not modelled. These
  include `None` becoming NaN in numeric columns, integer columns becoming
  doubles, and an all-`None` object column under multiplication. The column
  order of the frame is not modelled either.
- KeyResolver.AssignKeyColumns: takes the names `UBIGEO_OK` and `NOMBRE_OK`
  as arguments, which `LoadVector` passes. This keeps the proof generic in
  the column names; its behaviour is that of lines 83-88.
