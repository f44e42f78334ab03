# Apartment repricing by department — a Dafny model

The repository is a one-page web tool for repricing apartments. A user uploads a
spreadsheet of apartments. The page checks that the seven required columns are
there: readiness ("Готовность объекта"), department ("Подразделение"), apartment
number, floor, total area, apartment type and price ("Стоимость").

The user then picks readiness values. The department choices offered next are
drawn from the rows that pass the readiness filter. The user also enters a
non-negative amount to add to every price. The page previews the chosen rows
with a new price column ("Новая стоимость"), projected to six columns. When the
button is pressed, it writes one sheet per chosen department, in the order
chosen, into an archive entry named `<department>.xlsx`.

The model has three modules:

- `Frames` (`frames.dfy`): boolean-mask selection (`Where`) and `unique()`
  (`Distinct`), written as generic sequence functions with their properties:
  membership, multiplicity, original order, first-appearance order.
- `Flats` (`flats.dfy`): the table as values, the required-column gate, the
  readiness filter, both option lists, repricing with projection, the
  per-department sheet and the preview.
- `Export` (`export.dfy`): the export action. `WriteArchive` is the loop over
  the chosen departments that appends one entry per pass. `Recalculate` puts the
  column gate and the two warnings in front of it. The lemmas relate the archive
  to the preview.

Prices and the added amount are integers: the amount is a `nat`, because the
input widget has `min_value=0` and an integer step. The archive is the sequence
of its `(name, sheet)` entries.

Two behaviours of the page are worth stating outright:

- An empty readiness choice keeps no rows, because `isin([])` matches nothing.
- The column error lists all seven required columns, missing or not.

## Model

| member | source | states |
|---|---|---|
| `Frames.Where` | app.py:44 | mask selection: the result holds exactly the elements of the input on which the mask holds, and is no longer than the input |
| `Frames.WhereCount` | app.py:44 | each selected value is kept as often as it occurs in the input, every other value is dropped |
| `Frames.WhereIsSubsequence` | app.py:44 | the selection keeps the input's order (it is a subsequence of the input) |
| `Frames.WhereExtremes` | app.py:44 | a mask true nowhere selects nothing; a mask true everywhere selects the whole input |
| `Frames.Distinct` | app.py:47 | `unique()`: every value of the column appears, exactly once, and nothing else |
| `Frames.DistinctInFirstAppearanceOrder` | app.py:47 | the distinct values come out in the order of their first occurrence in the column |
| `Flats.CheckSchema` | app.py:34-37 | the table is accepted exactly when every one of the seven required column names is in its header; a rejection lists the required columns |
| `Flats.FilterReadiness` | app.py:44 | a row survives exactly when its readiness is among the chosen values; an empty choice leaves no rows |
| `Flats.FilterReadinessExact` | app.py:44 | the filtered table keeps every matching row with its multiplicity and in original order, and drops every other row |
| `Flats.FilterReadinessAll` | app.py:44 | choosing every readiness value that occurs keeps the table unchanged |
| `Flats.ReadinessOptions` | app.py:40 | the readiness options are the readiness values occurring in the table, each once |
| `Flats.DepartmentOptions` | app.py:47 | the department options are the departments occurring in the filtered rows, each once |
| `Flats.DepartmentOptionsCascade` | app.py:44-47 | a department is offered exactly when some uploaded row has a chosen readiness and that department |
| `Flats.OptionsInFirstAppearanceOrder` | app.py:40-47 | both option lists follow the order of first appearance in their column |
| `Flats.PriceFlat` | app.py:56-58 | a projected row keeps number, floor, area, type and price, and its new price exceeds the old price by exactly the added amount, so it is never lower |
| `Flats.Reprice` | app.py:73-75 | repricing keeps the number and order of rows, and row `i` of the output is the repriced row `i` of the input |
| `Flats.RepriceByZero` | app.py:51-56 | with an added amount of 0, every new price equals its old price |
| `Flats.RepriceAppend` | app.py:73 | repricing works row by row, so repricing a concatenation concatenates the repricings |
| `Flats.RepriceMembers` | app.py:56-58 | a row is in the repriced table exactly when it is the repricing of some input row |
| `Flats.RepriceTotals` | app.py:73 | a derived fact about repricing (the page itself sums nothing): over a sheet, the new prices sum to the old prices plus the added amount once per row |
| `Flats.OfDepartment` | app.py:72 | the `== dept` selection: a row is kept exactly when it is a filtered row of that department |
| `Flats.OfDepartments` | app.py:55 | the `isin` selection of the preview: a row is kept exactly when it is a filtered row whose department is chosen |
| `Flats.OfDepartmentsExact` | app.py:55 | the preview's rows are the filtered rows of the chosen departments, each as often as it occurs, in original order |
| `Flats.DepartmentSheet` | app.py:72-75 | a department's sheet has the six output columns in order, and one row per filtered row of that department |
| `Flats.PreviewSheet` | app.py:55-58 | the preview has the six output columns in order, and one row per filtered row whose department is chosen |
| `Flats.Preview` | app.py:54-58 | a preview is shown exactly when the header passed the gate and both choice lists are non-empty, with the six output columns |
| `Flats.PreviewContents` | app.py:44-58 | a row is previewed exactly when it is the repricing of an uploaded row with a chosen readiness and a chosen department |
| `Export.EntryName` | app.py:78 | the entry name is the department name followed by `.xlsx` |
| `Export.EntryNameInjective` | app.py:78 | two departments with the same entry name are the same department |
| `Export.WriteArchive` | app.py:71-78 | the loop writes one entry per chosen department, in the order chosen: entry `i` is named after department `i` and holds that department's sheet |
| `Export.Recalculate` | app.py:63-78 | a bad header gives the column error. Otherwise an empty readiness choice gives the readiness warning, checked first, and an empty department choice gives the department warning. Only when neither applies is the archive written, with one entry per chosen department |
| `Export.EntryNamesDistinct` | app.py:71-78 | with distinct chosen departments, no two archive entries share a name |
| `Export.DepartmentSheetContents` | app.py:72-75 | a department's sheet holds exactly the repriced filtered rows of that department; a department with no such row gets an empty sheet |
| `Export.OfDepartmentExact` | app.py:72 | the rows behind a department's sheet are that department's filtered rows, with their multiplicity and in original order |
| `Export.RepriceDisjointUnion` | app.py:55 | selecting with two disjoint masks and repricing gives, as a multiset, the union of the two separate results |
| `Export.SplitFirstDepartment` | app.py:55 | the preview body for a list of departments is, as a multiset, the first department's rows plus the others', when the first is not repeated |
| `Export.DepartmentRowsPartition` | app.py:55-72 | with distinct chosen departments, the department sheets' rows put together equal the preview body as a multiset |
| `Export.ArchiveRowsRepriced` | app.py:71-75 | the archive's rows, read entry after entry, are the repricing of the departments' rows one department after another |
| `Export.ArchiveMatchesPreview` | app.py:55-75 | with distinct chosen departments, the archive holds exactly the preview's rows as a multiset, so the row counts agree |

## Left out

- The page widgets are not modelled: title, image, text, file uploader, multiselects, number input, button, preview display, and the success, warning and error messages with their wording. The chosen values and the added amount are parameters. The two warnings and the column error are outcome values.
- Reading the spreadsheet and writing each sheet are library input and output, so they are not modelled. This covers the read error path and the zip container bytes. The uploaded table is a given header plus rows, and the archive is its list of entries.
- Prices are integers, not floating-point values. pandas dtype inference, missing cells (NaN) and their comparison rules in `isin`, `==` and `unique()` are not modelled.
- `Flats.PriceFlat` does not model 64-bit overflow or floating-point rounding of `Стоимость + add_val`, because prices are unbounded integers here.
- Department and readiness values are modelled as text. The f-string rendering of a non-text department value into the entry name is not modelled.
- A row has only the seven required columns. Further uploaded columns are not modelled, because the projection drops them and no step reads them. The header is checked by name only, and duplicate header names are not modelled.
- The widgets guarantee that chosen values come from the offered options and are distinct. The model does not assume this. The partition lemmas (`Export.DepartmentRowsPartition`, `Export.ArchiveMatchesPreview`, `Export.EntryNamesDistinct`) take distinctness as a hypothesis. What the zip library does with a repeated entry name is not modelled.
- Page reruns and widget state between reruns are not modelled. Each call of `Export.Recalculate` is one press of the button on the current choices.
