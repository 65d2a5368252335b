# Carbonless-form price widget, modelled in Dafny

The widget prices carbonless business forms from delimited price tables. It has two front ends.

`script.js` reads each table as positional text:
- `parseCSV` splits the text into lines, trims them, drops blank and `//` comment lines, discards the header, and maps each remaining line by column position into a record of eight fields. Numeric fields get defaults (`parts` 2, `quantity` 0, `price` 0).
- `getPrice` returns the price of the first record of the ink colour's table that has the wanted product type, size and quantity, or `null`.
- `updateDropdowns` derives two lists from the `Carbonless Form` records: the distinct quantities in ascending order, and the distinct sizes in first-seen order.

`src/App.jsx` is a React component over header-keyed rows. It has:
- two product types, each with a list of option keys;
- `getOptionValues`, which gives the distinct non-empty values of a column;
- a price effect that shows the `Price` of the first row agreeing with every option of the product type, where an option that is not selected agrees only with a row that lacks its column;
- four pieces of state (`productType`, `csvData`, `selections`, `price`), changed by setters.

The project has five files:
- `wrappers.dfy`: `Option`.
- `seqs.dfy` (module `Seqs`): the array operations the two front ends use:
  - `find` as `First`;
  - `filter` as `Filter`, with the positions it keeps;
  - `[...new Set(xs)]` as `Dedupe`, which keeps first-seen order;
  - numeric `sort` as `Sort`.
- `js_text.dfy` (module `JsText`): the string built-ins `trim`, `split`, `join` and `parseInt`. `parseInt` is modelled without a radix: it skips leading white space, reads a sign and a `0x` prefix, and takes the longest digit run. NaN is `None`.
- `price_table.dfy` (module `PriceTable`): `parseCSV`, `getPrice` and the list derivation of `updateDropdowns`. The lemmas cover:
  - line-by-line correspondence;
  - field defaults;
  - a full write-then-parse round trip of any table of writable rows;
  - first-match lookup and the null result;
  - the two dropdown lists.
- `price_app.dfy` (module `PriceApp`): the product list, `getOptionValues`, and the price effect's row match. The class `App` holds the component's state; its methods mirror the setters.

Some behaviour of the code worth knowing when reading the model:
- `getOptionValues` is computed over all rows, so the menus do not narrow by the options already chosen.
- The app's quantity values keep first-seen order and are not sorted.
- `updateDropdowns` filters on the constant `Carbonless Form` and does not use its `productType` argument.
- The price effect also runs on a partial selection. A key that is neither selected nor in the row compares `undefined === undefined` and counts as agreeing.

## Model

| member | source | states |
|---|---|---|
| Seqs.First | script.js:87-91 | `find`: a returned index holds an element that passes the test and no earlier element passes; None exactly when no element passes |
| Seqs.FirstIsUnique | script.js:87-91 | any index whose element passes the test, with no passing element before it, is the index `find` returns |
| Seqs.Filter | script.js:49-51 | `filter`: an element is in the result exactly when it is in the input and passes the test; the result is never longer |
| Seqs.FilterCorrespond | script.js:8-10 | `filter` keeps elements in order: the j-th kept element sits at the j-th listed position, the positions increase, and a position is listed if and only if its element passes |
| Seqs.FilterNone | script.js:10 | when no element passes, nothing is kept |
| Seqs.FilterKeepsAll | script.js:10 | when every element passes, the sequence is kept whole |
| Seqs.Dedupe | script.js:54 | `[...new Set(xs)]` has no repeated element and holds exactly the elements of `xs` |
| Seqs.FirstIndexOf | script.js:56 | the position of the first occurrence of a value |
| Seqs.DedupeOrder | script.js:56 | the deduplicated values appear in the order of their first occurrences in the input |
| Seqs.DedupeOfDistinct | script.js:54 | a sequence without repeats passes through the set unchanged |
| Seqs.Sort | script.js:54-55 | `sort((a, b) => a - b)` gives an ascending permutation of its input |
| Seqs.SortDistinct | script.js:54-55 | sorting values without repeats gives a strictly ascending sequence |
| JsText.TrimStart | script.js:25 | the white space `parseInt` skips: the result is a suffix, everything removed is white space, and the result does not start with white space |
| JsText.TrimEnd | script.js:9 | the result is a prefix, everything removed is white space, and the result does not end with white space |
| JsText.Trim | script.js:9 | `trim` leaves a string that neither starts nor ends with white space |
| JsText.TrimChars | script.js:19 | every character of a trimmed value occurs in the untrimmed value |
| JsText.TrimEmpty | script.js:10 | a trimmed line is empty exactly when the line is all white space |
| JsText.TrimOfTrimmed | script.js:19 | a string that neither starts nor ends with white space is its own trim |
| JsText.TrimIdempotent | script.js:9 | trimming twice is trimming once |
| JsText.StartsWith | script.js:10 | `startsWith`, the comment test; used by PriceTable.FormatRowLine and PriceTable.ParseCsvLines through the kept-line test |
| JsText.Join | script.js:8 | the inverse of `split`, specified by JsText.JoinSplit and JsText.SplitJoin |
| JsText.Split | script.js:8 | `split` with a one-character separator gives at least one piece, and no piece contains the separator |
| JsText.JoinSplit | script.js:8 | joining the pieces of a split with the separator restores the text |
| JsText.SplitJoin | script.js:19 | splitting a join of separator-free pieces restores the pieces |
| JsText.SplitPrefix | script.js:8 | a separator-free first line splits off as the first piece, ahead of the pieces of the rest |
| JsText.SplitWhole | script.js:8 | text without the separator is a single piece |
| JsText.ParseInt | script.js:25-28 | `parseInt` without a radix; specified by JsText.ParseIntSkipsSpace, JsText.ParseIntDecimal and JsText.ParseIntRoundTrip |
| JsText.LeadingDigits | script.js:25 | `parseInt` reads the longest run of digits of the radix: a prefix of digits not followed by another digit |
| JsText.NatDigits | script.js:61 | the decimal text `${qty}` of a natural number has at least one digit and no leading zero |
| JsText.NatDigitsValue | script.js:61 | the decimal digits of `n` denote `n` |
| JsText.ParseIntSkipsSpace | script.js:25 | leading white space does not change what `parseInt` returns |
| JsText.ParseMinus | script.js:25 | a leading minus sign negates the magnitude that follows |
| JsText.ParseIntDecimal | script.js:28 | `parseInt` of white space, the decimal text of any integer, and a tail that does not continue the number gives that integer |
| JsText.ParseIntRoundTrip | script.js:90 | `parseInt(String(n)) === n` for every integer `n`, so a quantity written as an option value is read back by `getPrice` as that quantity |
| PriceTable.ParseCsv | script.js:6-40 | `parseCSV`; specified by PriceTable.ParseCsvLines, PriceTable.NoHeaderNoRows, PriceTable.HeaderIgnored and PriceTable.TableRoundTrip |
| PriceTable.Values | script.js:19 | the trimmed comma-separated values of a line; specified by PriceTable.ParseRowFields and PriceTable.ParseRowClean |
| PriceTable.RowOf | script.js:21-30 | the record built from the values by position, whose `parts` is never 0; its fields are specified by PriceTable.ParseRowFields and PriceTable.RowRoundTrip |
| PriceTable.ParseRow | script.js:17-30 | the `parts` of a parsed record is never 0 |
| PriceTable.ParseCsvLines | script.js:6-40 | records correspond one to one, in input order, to the non-blank, non-comment trimmed lines after the first such line |
| PriceTable.NoHeaderNoRows | script.js:12-15 | text whose every line is blank or a comment has no header and gives no records |
| PriceTable.HeaderIgnored | script.js:8-12 | two texts that differ only in their header line give the same records, whatever blank or comment lines precede the header |
| PriceTable.LeadingSkipped | script.js:8-12 | blank and comment lines before the header are dropped before it is taken, so the clean lines are the trimmed header followed by those of the body |
| PriceTable.SkippedLine | script.js:9-10 | a blank or comment line contributes nothing to the clean lines |
| PriceTable.HeaderLine | script.js:8-12 | a kept header line in front of a body contributes only its trimmed self to the clean lines |
| PriceTable.HeaderOnly | script.js:12-17 | a one-line text gives no records, so every lookup is null and both dropdown lists are empty |
| PriceTable.ParseRowClean | script.js:19-27 | every text field of a record is trimmed and contains no comma |
| PriceTable.ParseRowFields | script.js:19-29 | each field is the trimmed piece at its position; a missing text field is `''`; `parts` is the `parseInt` of its piece or 2 for NaN or 0; `quantity` is its `parseInt` or 0 for NaN; `price` is its `parseFloat` or 0 for NaN |
| PriceTable.RowRoundTrip | script.js:17-30 | a record with trimmed, comma-free text fields and non-zero `parts`, written out in column order, parses back to itself |
| PriceTable.FormatRowLine | script.js:8-10 | a writable record writes as a single trimmed line that is neither blank nor a comment |
| PriceTable.TableRoundTrip | script.js:6-40 | a header line followed by the lines of writable records parses back to exactly those records |
| PriceTable.TableFor | script.js:86 | the black table for `black`, the full-colour table for any other ink colour; used by PriceTable.GetPriceNull and PriceTable.QuantityChoicesSpec |
| PriceTable.GetPrice | script.js:85-93 | `getPrice`; specified by PriceTable.GetPriceFirstMatch, PriceTable.GetPriceNull and PriceTable.SingleRowLookup |
| PriceTable.GetPriceFirstMatch | script.js:85-93 | when record `i` is the first with the product type, size and parsed quantity, `getPrice` returns its price |
| PriceTable.GetPriceNull | script.js:85-93 | `getPrice` is null exactly when the quantity is not a number or no record matches |
| PriceTable.SingleRowLookup | script.js:85-93 | for a one-record table written out and parsed back, asking for its product, size and a quantity gives its price exactly when the quantity is its own, and null otherwise |
| PriceTable.GetPriceIgnoresOtherColumns | script.js:87-91 | tables that agree on product type, size, quantity and price give the same answer, whatever their other columns |
| PriceTable.ProjectCarbonless | script.js:49-56 | a value is among the projections of the `Carbonless Form` records exactly when some such record projects to it |
| PriceTable.QuantityChoices | script.js:46-55 | the quantity list of `updateDropdowns`; specified by PriceTable.QuantityChoicesSpec |
| PriceTable.SizeChoices | script.js:46-56 | the size list of `updateDropdowns`; specified by PriceTable.SizeChoicesSpec |
| PriceTable.QuantityChoicesSpec | script.js:46-55 | the quantity list is strictly ascending and holds exactly the quantities of the `Carbonless Form` records of the ink colour's table, whatever product type is passed |
| PriceTable.SizeChoicesSpec | script.js:46-56 | the size list has no repeats, holds exactly the sizes of the `Carbonless Form` records, and keeps their first-seen order |
| PriceApp.Present | src/App.jsx:59 | `map(row => row[key]).filter(Boolean)` holds a value exactly when it is non-empty and some row has it under the key |
| PriceApp.Column | src/App.jsx:59 | `csvData.map(row => row[key])`; its filtered form is specified by PriceApp.PresentInOrder |
| PriceApp.PresentInOrder | src/App.jsx:59 | the present values are the truthy cells of the column in row order, one per row that has one: the j-th value is the cell of the j-th such row, and a row is listed exactly when its cell is truthy |
| PriceApp.OptionValues | src/App.jsx:58-61 | `getOptionValues`; specified by PriceApp.OptionValuesSpec |
| PriceApp.OptionValuesSpec | src/App.jsx:58-61 | option values have no repeats and no empty value; a value appears exactly when some row has it; the values keep first-seen order; the selections play no part |
| PriceApp.RowMatches | src/App.jsx:51-53 | the row test of the price effect; its use is specified by PriceApp.PriceForSpec and PriceApp.IncompleteSelectionShowsDash |
| PriceApp.PriceFor | src/App.jsx:49-54 | the price effect once rows are loaded; specified by PriceApp.PriceForSpec |
| PriceApp.PriceForSpec | src/App.jsx:51-54 | a price is shown exactly when the first row agreeing with every option of the product type has a non-empty `Price`, and it is that cell; otherwise "-" |
| PriceApp.IncompleteSelectionShowsDash | src/App.jsx:51-54 | while an option that every row defines is unselected, no row matches and the price is "-" |
| PriceApp.FindProduct | src/App.jsx:76 | the product lookup succeeds exactly for `black` and `fullcolor` and returns the listed product with that value |
| PriceApp.App.constructor | src/App.jsx:29-32 | the initial state: the first product type, no rows, no selections, price "-" |
| PriceApp.App.ChooseProduct | src/App.jsx:36-37 | a product change sets the product type, empties the selections and resets the price to "-"; the rows are kept |
| PriceApp.App.LoadData | src/App.jsx:42 | a finished download replaces the rows |
| PriceApp.App.Select | src/App.jsx:93 | a menu change sets the selection for its key and leaves every other key as it was |
| PriceApp.App.RefreshPrice | src/App.jsx:48-55 | without rows the price is left unchanged; with rows it becomes the price of the first row agreeing with every option of the product type, an unselected option agreeing only with a row that lacks its column |

## Left out

- `loadCSVFiles` (script.js:96-123) is network I/O and is not modelled. The two module-level tables it fills are the `Tables` value passed to `getPrice` and `updateDropdowns`.
- The `DOMContentLoaded` wiring, event listeners and CSS transitions (script.js:126-188) are UI glue and are not modelled. So are the `innerHTML` menus built by `updateDropdowns` (script.js:58-68) and `displayPrice` (script.js:72-82).
- Number formatting is locale- and floating-point-dependent output and is not modelled: `toFixed(2)`, `toLocaleString()` and the `$` prefix. The app's shown price is kept as the raw `Price` cell of the matched row.
- `parseFloat` is floating point. It is an abstract parameter from text to a real number, with None standing for NaN. Infinity and -0 are not represented.
- `Papa.parse` (src/App.jsx:38-44) downloads and parses with header keys in code that is not part of this model. Its rows are given as maps from header to cell, and an absent key stands for `undefined`.
- The `console.warn` and `console.error` diagnostics of `parseCSV` (script.js:32, script.js:37) are console output and are not modelled. Only the values the two catches return are modelled.
- JSX rendering (src/App.jsx:63-106) is not modelled, including the menus' displayed value `selections[opt.key] || ""`.
- React effect scheduling is not modelled. The effects and handlers are separate methods of `App`, and the caller chooses their order. The race in which a stale download overwrites newer rows is therefore not modelled.
- JsText.ParseInt: integers are unbounded. JavaScript rounds `parseInt` results above 2^53 to the nearest double, and `-0` is treated as `0`, as `|| 2` and `===` do.
- Strings are sequences of Unicode scalar values rather than UTF-16 code units. Every white-space character and separator involved is a single unit in both.
- PriceApp.App.ChooseProduct: requires one of the two listed product values. The menu offers no others, and an unknown value would make `productType` undefined and stop the component.
