# Calgary property assessment map — verified model of the data core

This project models, in Dafny, the logic at the heart of a small Flask web
application that shows Calgary's municipal property-assessment data on an
interactive map. Two pure pieces of `app.py` are modelled:

1. **The assessed-value summary** (`format_assessed_value`, applied to every
   property record at load time after numeric coercion of the four value
   columns). Each record has up to four assessed-value components — overall,
   residential, non-residential and farm land. The summary has one line
   `"<Label>: $<amount>"` per present component, in that fixed order, with
   the amount written with comma thousands separators and no decimals. The
   lines are joined by `<br>`, and the text is `No assessed value information`
   when no component is present.
2. **Community resolution and property filtering** (the request logic of
   `show_map`, and the community name list offered by `index`). The selected
   community name is looked up among the boundary records by exact,
   case-sensitive equality, and the first hit wins. Its community code then
   selects the property records that carry that code, in their original
   order. The page title is the community name of the first selected
   property. A missing selection or unloaded data gives a 400. An unknown
   name gives a 404. A known name whose code no property carries gives a
   different 404.

Modules, leaf first:

- `Wrappers` (`wrappers.dfy`): `Option`.
- `Text` (`text.dfy`): `JoinWith` (Python's `sep.join`), `SplitOn` (`str.split`)
  and `RemoveChar`, with the lemmas that split undoes join and join undoes split.
- `Decimal` (`decimal.dfy`): decimal digits of a natural number, the
  thousands grouping `Thousands` that `format(n, ",.0f")` produces for a
  whole non-negative value, and the strict reader `ParseThousands`.
- `Assessment` (`assessment.dfy`): the four components, the labels, the
  summary `FormatAssessedValue`, and a decoder `DecodeSummary` that is proved
  to be its exact inverse in both directions.
- `Normalize` (`normalize.dfy`): the raw cells, the numeric coercion
  `Coerce`, and the load-time normalisation of property records.
- `Ordering` (`ordering.dfy`): Python's string order and `sorted(set(...))`.
- `Community` (`community.dfy`): the datasets, the boundary lookup, the
  property filter, `ShowMap`, and the dropdown list `CommunityNames`.
- `Scenarios` (`scenarios.dfy`): worked instances (the `$500,000` summary,
  the HILLHURST/BOWNESS selection, the two distinct 404s).

Inputs that the application gets from outside are parameters of the model:

- The three remote datasets are an `Option` per dataset (`Datasets`). A failed
  load gives three `None`s (`LoadDatasets(None)`).
- The form field is an `Option<string>`.
- A cell's raw content is a `RawValue`.

A missing or empty selection and unloaded data return the same 400 response
(app.py:119-120). Both are modelled by the one outcome `BadRequest`.

## Model

| member | source | states |
|---|---|---|
| Text.JoinWith | app.py:31 | `"<br>".join`: no contract of its own; SplitJoin and JoinSplit state that it and splitting undo each other, and ConcatIsJoinEmpty relates it to plain concatenation |
| Text.ConcatIsJoinEmpty | app.py:31 | gluing parts together is joining them with the empty separator |
| Text.SplitJoin | app.py:31 | joining lines with a separator and then splitting at it gives back the lines, provided no line contains the separator's first character |
| Text.JoinSplit | app.py:31 | splitting any text at a separator and joining the pieces with it gives back the text |
| Decimal.ParseDecimal | app.py:40-42 | the text reader accepts a text exactly when it is a non-empty string of decimal digits, a narrower grammar than the one the application uses (see Left out) |
| Decimal.DigitsOf | app.py:23 | the digits printed for an amount form a canonical decimal numeral: at least one digit, only digits, and no leading zero unless the amount is 0 |
| Decimal.ValueOfDigitsOf | app.py:23 | reading back the printed digits of an amount gives that amount |
| Decimal.DigitsOfValueOf | app.py:23 | the other direction: every canonical numeral is exactly the printed digits of its own value |
| Decimal.ParseDigitsOf | app.py:23 | parsing the printed digits of an amount yields that amount |
| Decimal.Thousands | app.py:23-29 | the `:,.0f` rendering of a whole non-negative amount: no contract of its own; ThousandsShape, ParseThousandsRoundTrip and ThousandsOfParse state its behaviour |
| Decimal.ChunksShape | app.py:23 | the digit groups concatenate back to the digits; the first group has 1 to 3 digits and every later group exactly 3 |
| Decimal.ThousandsShape | app.py:23-29 | deleting the commas from a formatted amount gives its plain decimal digits; splitting at the commas gives a first group of 1 to 3 digits and then groups of exactly 3 |
| Decimal.ParseThousandsRoundTrip | app.py:23-29 | the strict reader of comma-grouped numerals recovers every formatted amount |
| Decimal.ThousandsOfParse | app.py:23-29 | the other direction: any text the strict reader accepts is exactly the formatted rendering of the value it reads |
| Assessment.Rank | app.py:22-29 | each component has a position in the fixed order Assessed, Residential, Non-Residential, Farm Land, and the order lists it at that position |
| Assessment.Label | app.py:23-29 | the four label texts: no contract of its own; DecodeLineOfLine and PrefixNotNoInfo state that they are told apart from each other and from the sentinel |
| Assessment.Line | app.py:23-29 | one summary line, label, `: $` and grouped amount: no contract of its own; LineAvoidsBreak, DecodeLineFrom and DecodeLineOfLine state its behaviour |
| Assessment.LinesFrom | app.py:20-29 | the four conditional appends in order: no contract of its own; LinesFromFields states that it holds one line per present component in summary order |
| Assessment.PresentFieldsFrom | app.py:20-29 | the listed components are exactly the present ones, each once, in strictly increasing summary order |
| Assessment.LinesFromFields | app.py:20-29 | there is one line per present component, and the i-th line is the labelled, grouped line of the i-th present component |
| Assessment.NoLinesIffNoValues | app.py:31 | the list of lines is empty exactly when all four components are absent |
| Assessment.FormatLines | app.py:11-31 | with no component present the summary is the sentinel; otherwise splitting it at `<br>` gives one line per present component, in order, so an absent component adds neither a line nor a separator |
| Assessment.LineAvoidsBreak | app.py:23-29 | a summary line never contains `<`, so the `<br>` joints stay recognisable |
| Assessment.DecodeLineFrom | app.py:23-29 | a line that the reader accepts is exactly the printed line of the component and amount it reports |
| Assessment.DecodeLineOfLine | app.py:23-29 | every printed line is read back as its own component and amount, because the labels begin with distinct letters |
| Assessment.PrefixNotNoInfo | app.py:23-31 | no labelled line can begin like the sentinel text |
| Assessment.DecodeFormat | app.py:11-31 | round trip: decoding the summary of any four components gives back exactly those components, so the summary loses nothing |
| Assessment.FormatOfDecode | app.py:11-31 | converse round trip: any text the decoder accepts is exactly the summary of the components it returns |
| Assessment.FormatAssessedValue | app.py:11-31 | `format_assessed_value`: no contract of its own; FormatLines, DecodeFormat, FormatOfDecode and NoInfoIffAllAbsent state its behaviour |
| Assessment.NoInfoIffAllAbsent | app.py:20-31 | the summary is `No assessed value information` if and only if all four components are absent |
| Normalize.Coerce | app.py:40-42 | a missing cell is absent; a numeric cell keeps its value; a text cell is present exactly when it is a non-empty digit string, and then has that string's value |
| Normalize.CoerceRendered | app.py:40-42 | a value written out in decimal digits coerces back to itself |
| Normalize.CoerceAll | app.py:40-42 | each of the four components is the coercion of its own raw column |
| Normalize.LoadProperty | app.py:40-43 | a normalised record keeps its code, name, address and class; its values are the coerced columns; its stored summary is the summary of those values |
| Normalize.LoadProperties | app.py:40-43 | normalisation keeps the number and order of records; the record at each position is the normalisation of the raw row at that position, so its summary is consistent with its values |
| Normalize.UnparseableIsAbsent | app.py:40-43 | a value that fails to parse gives the same values and the same summary as a missing one |
| Normalize.ZeroIsShown | app.py:22-23 | an overall value of zero is present and is shown, so the summary is not the sentinel |
| Normalize.AllUnusableGivesNoInfo | app.py:40-43 | when all four cells are missing or unparseable, the record's summary is the sentinel |
| Community.LoadDatasets | app.py:34-65 | the three datasets are either all loaded or all absent; when loaded, the properties are the fetched rows normalised one by one in order, each with a consistent summary, and the boundaries and sectors are kept as fetched |
| Community.FindBoundary | app.py:125-134 | the lookup finds the first boundary whose name is exactly the selection, and it finds nothing exactly when no boundary has that name |
| Community.FilterByCode | app.py:137-139 | the filter never grows the list, and every record it keeps has the resolved code |
| Community.MatchIndicesFrom | app.py:137-139 | the positions listed are increasing, all carry the code, and every position from the start onward that carries the code is listed |
| Community.FilterIsMatchingSubsequence | app.py:137-139 | the filter result is exactly the records at the matching positions, in original order and unmodified |
| Community.FilterMembership | app.py:137-139 | a record is in the result if and only if it is an input record carrying the code |
| Community.FilterEmptyIff | app.py:144 | the filtered set is empty exactly when no property carries the code |
| Community.ShowMap | app.py:117-152 | a 400 if and only if the selection is missing or empty or a dataset is unloaded; otherwise a boundary-not-found 404 if and only if no boundary has that name; a no-properties 404 carries the first matching boundary's name and code, and no property has that code; success carries that boundary, its code, the properties filtered by it (at least one), and the first filtered property's community name as display name |
| Community.ResolvableSelectionIsFound | app.py:125-152 | if the selection names a boundary whose code some property carries, the request succeeds, and it uses the first boundary with that name |
| Community.FoundKeepsSummaries | app.py:137-139 | the records shown are unmodified loaded records, so their summaries remain consistent with their values |
| Community.CommunityNames | app.py:107-109 | the dropdown list is empty when boundaries are not loaded; otherwise it is strictly sorted, has no duplicates, and contains exactly the boundary names |
| Community.OfferedNamesResolve | app.py:109 | every name in the dropdown resolves to a boundary |
| Ordering.LexTotal | app.py:109 | Python string order compares any two different names |
| Ordering.LexTransitive | app.py:109 | Python string order is transitive |
| Ordering.Insert | app.py:109 | inserting a name into a strictly sorted list keeps it strictly sorted, and the result holds exactly the old names plus the new one |
| Ordering.SortedUnique | app.py:109 | `sorted(unique(names))` is strictly sorted and holds exactly the given names |
| Ordering.StrictlySortedUnique | app.py:109 | a strictly sorted list is determined by its elements, so the dropdown equals Python's sorted list of unique names |
| Scenarios.OnlyOverallValue | app.py:22-23 | with only the overall value present, the summary is the single line `Assessed Value: $` followed by the grouped amount |
| Scenarios.SingleOverallValue | app.py:23 | an overall value of 500000 with nothing else gives exactly `Assessed Value: $500,000` |
| Scenarios.OverallAndFarmLandOnly | app.py:20-31 | with only the overall and farm-land values present, the summary is those two lines in that order with a single `<br>` between them |
| Scenarios.SelectHillhurst | app.py:125-152 | with three HIL parcels and two BOW parcels, selecting HILLHURST yields exactly the three HIL parcels in order, with the parcels' community name HILLHURST/SUNNYSIDE, not the boundary name, as display name |
| Scenarios.SelectUnknownName | app.py:127-129 | a name that no boundary carries gives boundary-not-found, not an empty map |
| Scenarios.SelectCommunityWithoutParcels | app.py:144-147 | a boundary whose code no parcel carries gives the distinct no-properties 404, carrying the boundary name and then the code (ALYTH/BONNYBROOK, AYB) |
| Scenarios.DataUnavailable | app.py:60-65 | after a failed load every request gives the 400 outcome |

## Left out

- Fetching the three GeoJSON collections (app.py:34-37) and the catch-all fallback (app.py:60-65) are network I/O and exception handling. Their result is the `Option` argument of `LoadDatasets`. The fallback map centre is not modelled.
- Coordinate reference system checks and reprojection (app.py:53-55, 157-158, 175-176) and centroid computation (app.py:58, 162-163) are floating-point geometry done inside geopandas/pyproj.
- All folium map building (app.py:76-97, 160-196) is left out: styles, tooltips, popups, layer control and map HTML. The overview route (app.py:70-100) is left out with it, because apart from drawing it only returns a 500 when data is not loaded (app.py:72-73).
- Flask routing and template rendering (app.py:105-106, 112, 115-116, 200, 202-203) are framework concerns. The date casts to text (app.py:44-51) only affect display.
- The texts of the error responses are not modelled. The model keeps the outcome kind, the status code and the data each message carries: the selection, or the name and filter code.
- Normalize.Coerce: a text cell is read as a value only when it is a non-empty string of ASCII digits. `pd.to_numeric` also reads signs, decimal points, exponents, surrounding whitespace and the like. The model reads such a cell as absent, so a cell like `" 500000"` or `"500000.0"` gives no line in the model, where the application prints one.
- Decimal.ParseDecimal: reads only non-empty strings of ASCII digits, which is narrower than `pd.to_numeric` in the same way as `Normalize.Coerce`.
- Assessed values are whole and non-negative (`nat`). The rounding of fractional values by `,.0f` and the `-` sign that negative values would get are not modelled.
- Community names are assumed to be strings. `sorted` on a column that holds missing names (NaN) is not modelled.
