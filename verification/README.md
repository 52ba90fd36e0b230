# b2fa row pipeline in Dafny

`b2fa.rb` turns a bank's CSV export into a three-column CSV of
`[date, amount, description]` triples that personal-finance software can
import. This project models the pure part of that conversion, the loop at
`b2fa.rb:15-55`, and proves properties about it. That part has three pieces:

- **Header scan.** A `header_found` flag starts unset. Every row whose first
  field is exactly `Transaction Date` sets the flag and is skipped. Once the
  flag is set, every other row is normalised. Rows before the first marker
  row are discarded.
- **Row normaliser.**
  - The date (field 0) has every `-` replaced by `/`.
  - The description (field 3) has every `"` deleted and is then stripped.
  - The debit (field 4) and the credit (field 5) each have every `,` and then
    every `"` deleted.
- **Amount merge.** If the cleaned debit is literally the string `"0.00"`,
  the amount is the cleaned credit. Otherwise it is `"-"` followed by the
  cleaned debit. The test compares strings, not numbers.

The model is split into four modules:

- `Seqs` (`seqs.dfy`): an order-preserving `Filter`, a `Map`, and the
  subsequence relation that states what "order-preserving" means.
- `Text` (`text.dfy`): Ruby's `gsub` with one-character arguments, either
  deleting a character (`Remove`) or substituting one (`Replace`), and
  Ruby's `String#strip` (`Strip`). `strip` removes NUL and the ASCII
  whitespace characters space, tab, line feed, vertical tab, form feed and
  carriage return.
- `Normalize` (`normalize.dfy`): the three field cleaners, the amount merge,
  and the normalisation of one row into a `Transaction`.
- `Scanner` (`scanner.dfy`): the header scan as a left fold (`Scan`) of one
  loop iteration (`Step`) over an explicit `ScanState` holding the flag and
  the transactions collected so far. `Scan` takes the row normaliser as a
  parameter. `Convert` applies it to the whole input with `NormalizeRow`.

The scan is specified by an independent reference definition,
`DataRows`: the rows after the first marker row that are not marker rows
themselves, in input order. `Convert(rows)` is proved to equal the
normalisation of `DataRows(rows)`, element by element.

The CSV reader is opened with `headers: true` (`b2fa.rb:17`). It therefore
consumes the first physical line itself, and the loop only sees lines 2..n.
The input of `Scanner.Convert` is that tail, with each row already split
into fields.

Two consequences of the code that the model keeps:

- **Every marker row is skipped.** The test at `b2fa.rb:20` runs on every
  row, so a `Transaction Date` row after the first one is skipped too, not
  treated as data (`Scanner.RepeatedMarkerSkipped`).
- **Normalised rows need six fields.** The normaliser reads fields 0, 3, 4
  and 5 only, so a normalised row needs six fields (`Normalize.Columns`).
  Only rows that get normalised must have them (`Scanner.FieldsPresent`).

## Model

| member | source | states |
|---|---|---|
| Text.Remove | b2fa.rb:34-35 | `gsub(c, '')`: the result has no `c`, keeps every other character as often as the input has it, and keeps the input's order (it is a subsequence). |
| Text.Replace | b2fa.rb:27 | `gsub(from, to)` with one-character arguments keeps the length and substitutes `to` at exactly the positions that held `from`. |
| Text.Strip | b2fa.rb:31 | `strip` returns the infix left once the strip-only runs at both ends are cut off. The result does not begin or end with a strip character and keeps every non-strip character of the input. |
| Text.StripUnique | b2fa.rb:31 | Whatever lies between two strip-only runs and has no strip character at its ends is what `strip` returns, so `strip` is determined by its contract. |
| Text.StripIdempotent | b2fa.rb:31 | Stripping an already stripped string changes nothing. |
| Normalize.CleanDate | b2fa.rb:27 | The cleaned date has the input's length and no `-`. It has `/` exactly where the input had `-` or `/`, and every other character is unchanged at its index. |
| Normalize.CleanDateIdempotent | b2fa.rb:27 | Cleaning a cleaned date changes nothing. |
| Normalize.CleanDateInverse | b2fa.rb:27 | A date with no `/` of its own is recovered by substituting `-` back for `/`, so no information is lost. |
| Normalize.CleanDateExample | b2fa.rb:26-27 | The export's `dd-mm-yyyy` becomes the required `dd/mm/yyyy`: `05-06-2021` becomes `05/06/2021`. |
| Normalize.CleanDescription | b2fa.rb:29-31 | The cleaned description has no `"` and no strip character at either end. It is a subsequence of the raw field and keeps every character that is neither `"` nor a strip character. |
| Normalize.CleanDescriptionUnique | b2fa.rb:31 | Once the quotes are deleted, the cleaned description is exactly the part between the leading and trailing whitespace runs. |
| Normalize.CleanDescriptionIdempotent | b2fa.rb:31 | Cleaning a cleaned description changes nothing. |
| Normalize.CleanCurrency | b2fa.rb:33-35 | A cleaned debit or credit has no `,` and no `"`. Every other character keeps its count and its relative order. |
| Normalize.CleanCurrencyAppend | b2fa.rb:34-35 | Cleaning works piecewise over a concatenation, so nothing is reordered across any split point. |
| Normalize.CleanCurrencyIdempotent | b2fa.rb:34-35 | Cleaning a cleaned amount changes nothing. |
| Normalize.CleanCurrencyPlain | b2fa.rb:34-35 | An amount with no separator and no quote is left as it is. |
| Normalize.CleanCurrencyExample | b2fa.rb:33-35 | The quoted amount `"1,234.50"` becomes `1234.50`. |
| Normalize.MergeAmount | b2fa.rb:38-43 | When the cleaned debit reads `0.00` the amount is the credit, whatever its sign. Otherwise the amount is one character longer than the debit, starts with `-`, and the debit is recovered from the rest. |
| Normalize.MergeAmountSign | b2fa.rb:37-43 | The credit, signed or not, is passed through when the debit reads `0.00`. For a credit that does not start with `-`, the amount is negative exactly when the debit is not `0.00`. |
| Normalize.MergeAmountQuirk | b2fa.rb:39-42 | The test is string equality: debits `0`, `0.0` and `0.00 ` come out as `-0`, `-0.0` and `-0.00 `, and only `0.00` selects the credit. |
| Normalize.NormalizeRow | b2fa.rb:27-53 | A normalised row is the triple (date, amount, description). The date has its column's length and no `-`. The amount has no `,` or `"`. The description has no `"` and no strip character at either end. |
| Normalize.NormalizeRowShape | b2fa.rb:27-53 | The date is field 0 cleaned, and the description is field 3 cleaned. The amount is the cleaned credit (field 5) when the cleaned debit (field 4) is `0.00`, and the negated cleaned debit otherwise. |
| Normalize.NormalizeRowLocal | b2fa.rb:27-53 | Each output field depends only on its own columns: the date on field 0, the description on field 3, and the amount on fields 4 and 5. |
| Normalize.NormalizeAll | b2fa.rb:25-53 | The normalisation of each row, in order. It has no contract of its own: `Normalize.NormalizeAllAppend` and `Scanner.ConvertOutputs` carry it. |
| Normalize.NormalizeAllAppend | b2fa.rb:25-53 | Normalising rows one after another: normalising a concatenation of row lists normalises each list. |
| Scanner.IsMarker | b2fa.rb:20 | The marker test: field 0 is exactly `Transaction Date`, and a row with no fields is not a marker row. It has no contract of its own: `Scanner.RepeatedMarkerSkipped`, `Scanner.DataRowsIndices` and `Scanner.ConvertOutputs` state what the scan does with marker rows. |
| Scanner.FirstMarker | b2fa.rb:20-23 | When some row is a marker row, this is the index of one, and no earlier row is a marker row. |
| Scanner.Step | b2fa.rb:20-25 | One loop iteration sets the flag exactly when it was already set or the row is a marker row. |
| Scanner.PendingCons | b2fa.rb:20-25 | The rows still to be normalised are the current row (if the flag is set and the row is not a marker row), followed by the rows still to be normalised after it under the updated flag. |
| Scanner.StepAppends | b2fa.rb:25-53 | One iteration appends the normalised row exactly when the flag is set and the row is not a marker row, and appends nothing otherwise. |
| Scanner.StepPending | b2fa.rb:17-55 | One iteration keeps the fold's invariant: the rows collected so far plus the normalised remaining work stay the same. |
| Scanner.Scan | b2fa.rb:15-55 | The loop ends with the flag set exactly when some row was a marker row. It appends the normalised images of the pending rows, in order, to what was already collected. |
| Scanner.Convert | b2fa.rb:13-55 | The whole loop's transaction list equals the normalisation of the reference data rows: the non-marker rows after the first marker row, in input order. |
| Scanner.DataRowsShape | b2fa.rb:20-25 | The data rows are a subsequence of the input, and none of them is a marker row. |
| Scanner.DataRowsIndices | b2fa.rb:20-25 | A row is a data row exactly when it sits at an input index after some marker row and is not itself a marker row. |
| Scanner.NoMarkerNoOutput | b2fa.rb:15-25 | Without a `Transaction Date` row the transaction list is empty. |
| Scanner.PreambleIgnored | b2fa.rb:15-25 | Rows before the first marker row have no effect on the data rows, on the field requirement or on the output. |
| Scanner.RepeatedMarkerSkipped | b2fa.rb:20-23 | A marker row after the first one is skipped. Removing it changes neither the data rows nor the output. |
| Scanner.ConvertOutputs | b2fa.rb:25-53 | There are as many transactions as data rows. The i-th transaction is the normalisation of the i-th data row, which is an input row and not a marker row. |

## Left out

- The command-line argument check and usage message (`b2fa.rb:3-6`): process plumbing with no logic to model.
- CSV tokenisation, quoting, row-separator detection and the `headers: true` handling inside `CSV.foreach` (`b2fa.rb:17`). These are library behaviour. The model takes the rows after the first line, already split into fields.
- Output serialisation with `CSV.generate_line`, writing the output file, and the `Done!` message (`b2fa.rb:57-63`). These are library quoting and I/O.
- The commented-out debug `puts` lines (`b2fa.rb:45-50`): they do nothing.
- The unused initial value `amount = 0` (`b2fa.rb:38`): it is always overwritten before use.
- Running-balance reconciliation: no such code exists in `b2fa.rb`, since field 6 is never read. There is nothing to model, and it would need floating-point parsing and rounding.
- Scanner.Convert: a normalised row with fewer than six fields, or with an empty unquoted field at index 0, 3, 4 or 5 (which Ruby's CSV reader returns as `nil`), makes the Ruby program raise `NoMethodError` when `gsub` is called on it (`b2fa.rb:27`, `31`, `34`, `35`). The model does not represent this crash. It requires six string fields of every normalised row instead (`Scanner.FieldsPresent`, `Normalize.NormalizeRow`).
- `strip` on non-ASCII input: Ruby strips only NUL and ASCII whitespace, and so does the model. Character encodings and invalid byte sequences are not represented: strings are sequences of `char`.
