# JSON-to-Excel, modelled in Dafny

This project models the converter in `JSON-to-Excel/main.go`. It turns the array of
records stored under the top-level key `"data"` of a decoded JSON document into a
worksheet named `"Data"`. The keys of the first record become the header row (row 1),
and record `i` becomes row `i + 2`. The cell in column `'A' + col` holds that record's
value for header `col`, or nil when the record lacks that key.

Modules, one per concept of the converter:

- `Json` (`json.dfy`): the decoded value tree. Numbers keep their literal text and are never interpreted.
- `Spreadsheet` (`spreadsheet.dfy`): cell addresses and the sheet. Also the cell name
  `fmt.Sprintf("%c%d", 'A'+col, row)`, which follows Go's `%c` and `%d` verbs.
  `Sheet` is a class whose `cells` map is updated one `SetCellValue` at a time.
- `Projection` (`projection.dfy`): `IsProjection`, the sheet that a header list and a
  record sequence must produce, and the properties of that sheet.
- `JsonToExcel` (`converter.dfy`): `InferHeaders`, the loop over the first record's keys,
  and `Convert`, the extraction of `"data"` and the two nested writing loops.
  `Convert` is proved against `IsProjection`, with invariants over the cells written so far.
- `Wrappers` (`wrappers.dfy`): `Result`.

Go's iteration order over a map is unspecified, so `InferHeaders` picks each next key
nondeterministically (`:|`). Its contract says only that the headers are duplicate-free
and are exactly the first record's keys. `HeaderListsAgree` shows that two such lists
differ at most in order.

The source has two failure paths, and the model gives both as an `Aborted` outcome:

- A missing or non-array `"data"` makes the source print a message and return.
  This is `DataFieldNotFound`.
- An element of `"data"` that is not an object makes a type assertion panic, at line 48
  for the first element and at line 61 for the others. This is `RecordNotObject(i)`,
  where `i` is the first such index.

Three points where the code's behaviour may be unexpected:

- Header order comes from Go's map iteration. It is not the keys' order in the document.
- A cell stores the decoded value as it is, nested objects and arrays included.
- A key whose value is JSON `null` reads the same as a missing key: both give nil.

## Model

| member | source | states |
|---|---|---|
| `JsonToExcel.Convert` | JSON-to-Excel/main.go:27-66 | A missing or non-array `"data"` aborts with `DataFieldNotFound` before a sheet exists. A non-object element aborts with `RecordNotObject` at the first such index. Otherwise the result is a fresh sheet named `"Data"`. Its headers are empty for an empty array and are a header list of the first record otherwise, and its cells are exactly `IsProjection` of those headers and the records. |
| `JsonToExcel.InferHeaders` | JSON-to-Excel/main.go:46-52 | The headers are duplicate-free and contain exactly the keys of the first record, in no particular order. |
| `JsonToExcel.AsRecords` | JSON-to-Excel/main.go:47-61 | Succeeds exactly when every element is an object, and then returns their field maps in order. Otherwise it returns the least index whose element is not an object. |
| `Spreadsheet.Sheet.constructor` | JSON-to-Excel/main.go:38-39 | A new sheet has the given name and no cells. |
| `Spreadsheet.Sheet.SetCellValue` | JSON-to-Excel/main.go:56 | One call sets one cell to the given value and leaves every other cell unchanged. |
| `Spreadsheet.ColumnChar` | JSON-to-Excel/main.go:56 | The column character `'A' + col` is an upper-case letter A..Z exactly when `col < 26`, and then its code is `'A' + col`. It is a lower-case letter a..z exactly when `32 <= col < 58`. |
| `Spreadsheet.CellName` | JSON-to-Excel/main.go:56-64 | The name `Sprintf("%c%d", 'A'+col, row)` is the column character followed by decimal digits that read back as the row. |
| `Spreadsheet.Decimal` | JSON-to-Excel/main.go:64 | The row text is a non-empty run of decimal digits with no leading zero. |
| `Spreadsheet.DecimalRoundTrip` | JSON-to-Excel/main.go:64 | Reading the printed row number back gives the row number. |
| `Spreadsheet.CellNameInjective` | JSON-to-Excel/main.go:56-64 | Two addresses in columns A..Z with the same cell name are the same address. |
| `Projection.Lookup` | JSON-to-Excel/main.go:63 | `dataMap[header]` is the stored value when the key is present, nil when it is absent. |
| `Projection.CellValue` | JSON-to-Excel/main.go:55-65 | The cell value `IsProjection` requires at each address of the grid. Row 1 holds the header name. Row `i + 2` holds record `i`'s value for that column's header, or nil when the record lacks the key. |
| `Projection.IsProjection` | JSON-to-Excel/main.go:55-65 | The cell map the two writing loops produce: its addresses are exactly the grid of `|headers|` columns by `|records| + 1` rows, and each cell holds `CellValue`. `Convert` is proved against it. |
| `Projection.CellContents` | JSON-to-Excel/main.go:55-65 | Header `col` is in cell (`col`, 1). Record `i` puts its value for `headers[col]` in cell (`col`, `i + 2`), or nil when it lacks that key. |
| `Projection.ProjectionUnique` | JSON-to-Excel/main.go:55-65 | The header list and the records determine the sheet completely. |
| `Projection.RecordOnlyInItsRow` | JSON-to-Excel/main.go:60-64 | Changing record `i` changes no cell outside row `i + 2`. So data never reaches row 1, and distinct records occupy distinct rows. |
| `Projection.ExtraKeysIgnored` | JSON-to-Excel/main.go:62-64 | Records that agree on every header key give the same sheet, so keys outside the header list are never written. |
| `Projection.NoHeadersNoCells` | JSON-to-Excel/main.go:46-66 | The sheet has no cells exactly when the header list is empty. |
| `Projection.RowCells` | JSON-to-Excel/main.go:62-64 | The cells of one row, over `width` columns, are `width` distinct addresses. |
| `Projection.Grid` | JSON-to-Excel/main.go:55-65 | The cells of rows 1..n over `width` columns are `width * n` distinct addresses. |
| `Projection.ProjectionSize` | JSON-to-Excel/main.go:55-65 | A sheet with `w` headers and `n` records has exactly `w * (n + 1)` cells. |
| `Projection.DistinctCellNames` | JSON-to-Excel/main.go:56-64 | With at most 26 headers, distinct cells of the sheet get distinct cell names. |
| `Projection.HeaderListsAgree` | JSON-to-Excel/main.go:49-51 | Two header lists of the same record are permutations of each other. |
| `Projection.HeaderCount` | JSON-to-Excel/main.go:46-51 | There are as many headers as the first record has keys. |

## Left out

- Reading `input.json` and decoding it with `json.Unmarshal` (lines 13-25) are file I/O plus a library parser. `Convert` takes the decoded top-level object. A top-level `null` decodes without error to a nil map, which is `Convert(map[])` and ends in `Aborted(DataFieldNotFound)`. Any other non-object top level is a decode error, so it is out of scope.
- `excelize.NewFile`, `SetActiveSheet` and `SaveAs` (lines 35, 69-76) are not modelled. They belong to a foreign library that writes a binary file. The model's result is the filled sheet.
- The error branch of `NewSheet` (lines 40-43) is not modelled. It concerns excelize's sheet-name validation, and the fixed name `"Data"` is a valid name.
- How excelize renders a stored `interface{}` value, and float64 number semantics, are not modelled. Cells hold the decoded value, and numbers stay opaque literals.
- Console output (`fmt.Println`) throughout is not modelled.
- Convert: with more than 26 headers, the model stores every cell under its own address and does not model excelize's cell-name parsing, which does two different things (see `ColumnChar`):
  - Offsets 26 to 31 and 58 or more print a character that is not an ASCII letter (U+FFFD for surrogates and for values above U+10FFFF). excelize accepts only ASCII letters in a column name, so it rejects such names. The source ignores `SetCellValue`'s error, so those cells are not written.
  - Offsets 32 to 57 print the lower-case letters a..z. excelize reads these as columns A..Z, so those writes overwrite the cells of headers 0 to 25.
- Convert: the model stores every record's row, whatever its number. excelize rejects row numbers above 1,048,576, and the source ignores that error, so records at index 1,048,575 or more are not written.
- Convert: when a later record is not an object, the source has already written the header row and the earlier records into the in-memory workbook before it panics. That workbook is never saved. The model returns `Aborted` and drops the partly written sheet.
- Go's `int` is 32 or 64 bits wide depending on the target. At either width, `'A' + col` and `row + 2` cannot overflow for any slice that fits in memory, so the model uses unbounded integers.
- `AI/main.go` is not modelled. It is a network client for a text-generation service and has no computational logic.
- `ReST-API/scratchpad.go` is not modelled. It opens a MySQL connection and runs one `CREATE TABLE` statement.
