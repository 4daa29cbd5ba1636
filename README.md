# Stock check ("conferência de estoque") — reconciliation model

The application lets a user pick a store, upload a spreadsheet of counted
inventory codes, and download a workbook with two sheets: "Sobrando" (codes the
store's record lists more often than the sheet) and "Faltando" (codes the sheet
holds more often than the record). This project models the part of the upload
handler `handleXLSX` that decides those two lists, and proves what they contain.

- `cells.dfy` (module `Cells`): the values a cell or a recorded entry can hold
  (`Empty` for `undefined`/`null`, text, integer, boolean), JavaScript truthiness,
  the code column `row[2]`, and the string a value becomes when it is used as an
  object key (the plain decimal digits for integers, which is `String(n)` for
  integers of magnitude up to 2^53; its inverse and injectivity are proved).
- `counting.dfy` (module `Counting`): the two frequency tables as `map<string, nat>`,
  the counts they must hold as multisets of codes (`UploadedBag`, `RecordedBag`), and
  the two counting loops `CountUploaded` and `CountRecorded`, each proved to fill its
  table with exactly those counts.
- `report.dfy` (module `Report`): the discrepancy records, the predicate `IsReport`
  saying when two lists are the report of two counts (up to order), and the lemmas
  about it: the three-way split of codes, the lists as multiset differences, uniqueness
  up to order, and the balanced, nothing-recorded and nothing-uploaded cases.
- `conferencia.dfy` (module `Conferencia`): the comparison loop over the union of
  codes (`Diff`), the whole reconciliation (`Reconcile`), the handler with its guard
  (`HandleXlsx`), and three worked examples.

Three facts about the source shape the model:
- A code is the string form of the cell, because it becomes an object key
  (src/App.jsx:80, 87): the number 12 and the text "12" are one code
  (`Cells.NumMeetsItsText`, `Cells.TextMeetsItsNumber`).
- Every falsy code cell is skipped: an empty cell, a numeric 0 or `false`, in the
  sheet and in the recorded list alike.
- The code column is fixed at index 2.

The order of the two output lists is left open: `Diff` takes the codes of the union
in an arbitrary order (`:|`), and every property is stated up to order.

## Model

| member | source | states |
|---|---|---|
| `Cells.Truthy` | src/App.jsx:79 | `undefined`/`null`, `""`, `0` and `false` are falsy; every other text, integer and `true` is truthy |
| `Cells.CodeCell` | src/App.jsx:78 | the cell at index 2, and a falsy value (`undefined`) for a row of fewer than three cells |
| `Cells.Key` | src/App.jsx:80 | the object key of a truthy cell is never the empty string |
| `Cells.DecimalString` | src/App.jsx:80 | the key of a number is a non-empty decimal string that starts with `-` exactly when the number is negative |
| `Cells.DecimalRoundTrip` | src/App.jsx:87 | reading the decimal key of an integer back gives the integer |
| `Cells.NumKeysDistinct` | src/App.jsx:94-95 | two different numeric codes never share a key |
| `Cells.NumMeetsItsText` | src/App.jsx:87 | a number and the text of its decimal form are the same code |
| `Cells.TextMeetsItsNumber` | src/App.jsx:87 | a text that gives the same code as a nonzero number is a decimal numeral whose value is that number |
| `Counting.Lookup` | src/App.jsx:98-99 | reading `table[codigo]` with a default of 0: the stored count for a code the table holds, and 0 for one it lacks |
| `Counting.Add` | src/App.jsx:79-80 | one loop step: a truthy value's key gains an entry one above its previous count (0 when absent) and no other key appears; a falsy value adds no key |
| `Counting.LookupCount` | src/App.jsx:98-99 | reading a code with a default of 0 gives its count, and zero for a code the table lacks |
| `Counting.AddCounts` | src/App.jsx:79-80 | one step of either loop adds exactly the value's contribution to every code's count (its key's entry goes up by one from a default of 0 if the value is truthy, nothing otherwise) and creates no entry for any other code |
| `Counting.TalliedRowsTable` | src/App.jsx:76-82 | stepping through every row after the header builds exactly the table of the uploaded codes with their multiplicities |
| `Counting.TalliedTable` | src/App.jsx:85-89 | stepping through every entry of the recorded list builds exactly the table of its codes with their multiplicities |
| `Counting.CountUploaded` | src/App.jsx:75-82 | the uploaded table holds exactly the codes of the non-header rows' column 2, each with its number of occurrences |
| `Counting.CountRecorded` | src/App.jsx:83-90 | the recorded table holds exactly the truthy entries' codes with their number of occurrences, and is empty when `texto` is not an array |
| `Counting.UploadedBagCount` | src/App.jsx:76-82 | the uploaded count of a code equals the number of rows after the header whose column 2 is truthy and has that key |
| `Counting.CodeBagCount` | src/App.jsx:85-89 | the recorded count of a code equals the number of truthy entries with that key; falsy entries add nothing, each truthy entry adds one |
| `Counting.HeaderIgnored` | src/App.jsx:76-77 | replacing the first row by anything leaves the uploaded counts unchanged |
| `Counting.NoEmptyCode` | src/App.jsx:78-88 | no empty or missing cell ever creates the code `""` in either table |
| `Report.Classification` | src/App.jsx:93-105 | a code has a surplus record iff its recorded count exceeds its uploaded count, a missing record iff the reverse; no code is in both lists; every reported code is a key of one of the tables |
| `Report.ReportIsDifference` | src/App.jsx:97-105 | read as multisets, the surplus list is recorded minus uploaded and the missing list is uploaded minus recorded |
| `Report.ReportUnique` | src/App.jsx:93-97 | two reports of the same counts hold the same records, so the result is determined up to order |
| `Report.BalancedIff` | src/App.jsx:100-104 | both lists are empty iff the two counts are identical |
| `Report.NothingRecorded` | src/App.jsx:84-105 | with no recorded codes, nothing is surplus and every uploaded code is missing with recorded count 0 |
| `Report.NothingUploaded` | src/App.jsx:76-105 | with only a header uploaded, nothing is missing and every recorded code is surplus with uploaded count 0 |
| `Conferencia.SurplusStep` | src/App.jsx:100-101 | a code counted more in the record gets one surplus record with `sobrando` = recorded − uploaded > 0 |
| `Conferencia.MissingStep` | src/App.jsx:102-103 | a code counted more in the sheet gets one missing record with `faltando` = uploaded − recorded > 0 |
| `Conferencia.BalancedStep` | src/App.jsx:104 | a code with equal counts adds no record |
| `Conferencia.Diff` | src/App.jsx:91-105 | walking the union of the two tables' keys yields exactly the report of the two counts: distinct codes, exact fields, nothing else |
| `Conferencia.Reconcile` | src/App.jsx:75-105 | counting both sources and comparing them yields the report of the recorded codes against the uploaded ones |
| `Conferencia.HandleXlsx` | src/App.jsx:63-109 | without a file or store data the handler only alerts; otherwise it exports the report of the store's list against the sheet's rows |
| `Conferencia.ExampleOneEach` | src/App.jsx:75-106 | recorded A, A, B against uploaded A, B, B exports one surplus record for A (2, 1, 1) and one missing record for B (1, 2, 1) |
| `Conferencia.ExampleNothingRecorded` | src/App.jsx:75-106 | an empty recorded list against a sheet holding X exports no surplus and one missing record for X (0, 1, 1) |
| `Conferencia.ExampleBalanced` | src/App.jsx:75-106 | equal counts, with skipped short and zero rows and a number matching its text, export two empty lists |

## Left out

- Loading the store list and the selected store's document from the remote
  document store (src/App.jsx:14-50): network calls into a library that is not
  part of this model; only their result enters, as `HandleXlsx`'s `dadosLoja`
  (None when no document is loaded) and the document's `texto` field.
- Reading the chosen file and decoding its first sheet (`FileReader`, `XLSX.read`,
  `sheet_to_json`, src/App.jsx:69-74, 108): foreign I/O and codec code; `HandleXlsx`
  takes the decoded rows of the first sheet as given (`file`, None when no file was chosen).
  A file that cannot be decoded makes `XLSX.read` throw inside the read callback
  (src/App.jsx:71), and the handler then neither alerts nor exports; that failure is
  not an outcome of the model.
  The handler's asynchronous continuation is modelled as running to completion.
- Writing the result workbook (`exportResultado`, src/App.jsx:53-60, 106): library
  serialisation and download; `HandleXlsx` returns the two lists it would be given.
- The React state, the rendering and the `alert` text (src/App.jsx:9-11, 66, 111-144): UI;
  the alert is the `Alerted` outcome.
- The order of the output lists: JavaScript lists integer-like object keys first and
  then keeps insertion order; every property is stated up to order instead.
- Cells: fractional numbers, `NaN` and other non-integer numbers, dates, and
  Firestore values other than text, integers, booleans and null (maps, nested arrays)
  are not modelled; a `texto` that is not an array is modelled as None.
- DecimalString: agrees with JavaScript's `String` only for integers of magnitude up
  to 2^53. Not every larger integer is a JavaScript number (2^53 + 1 is not), and for
  those that are, `String` prints the shortest digits that read back as the same
  double and pads them with zeros (`String(2 ** 60)` is "1152921504606847000"),
  while the model prints every digit. From 10^21 on `String` switches to exponent
  notation. A sheet number 2^60 against the recorded text "1152921504606847000"
  is therefore one code in the source and two in the model.
- Key: the key of a number is `DecimalString` of it, so it differs from the source
  for integers of magnitude above 2^53 as stated on the line above.
- NumKeysDistinct, TextMeetsItsNumber: hold of the model's unbounded integers; above
  2^53 they are not statements about JavaScript numbers, whose `String` can map a
  text of padded digits onto a number it does not spell out.
- Codes that name properties inherited from `Object.prototype` (such as
  `constructor`, `toString` or `__proto__`) are modelled as ordinary codes. In the
  source, `table[codigo] || 0` reads the inherited property instead of 0, and adding 1
  to it yields a string (the function's text followed by "1"); each later occurrence
  appends another "1". String comparison then orders such values as their counts are
  ordered, so the code is reported in the same list as in the model, but its three
  numeric fields are not numbers (the inherited function, that text with its "1"s, or
  `NaN` for the difference). `__proto__` is the exception:
  it is never stored as a key and never reported.
