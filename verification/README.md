# Payment confirmation generator — Dafny model

The system turns a bank-statement export (CSV) into one payment-confirmation PDF
per incoming payment and returns them zipped. This project models the row
pipeline of the upload handler and the text content of each confirmation:

- **Filter** (`Rows.Accepted`): a row is skipped when its raw `Částka` (amount)
  text begins with `-`; a missing or empty amount is kept.
- **Numbering** (`Archive.ProcessRows`, `Archive.Entries`): kept rows are numbered
  1, 2, 3, … in input order; skipped rows do not advance the counter.
- **Normalisation** (`Rows.Normalize`, `Rows.NormalizeInPlace`): every empty value
  of a kept row is replaced by the sentinel `neuvedeno` ("not specified").
- **Page text** (`Confirmation.GeneratePaymentPdf`): letterhead, title, the nine
  body lines with the row's fields (sentinel for a missing column), and the footer
  `Datum vystavení: DD.MM.YYYY`.
- **File name** (`Archive.FileName`): `row<N>_<date>.pdf`, the posting date with
  every `.` made `-`.
- **Archive** (`Archive.Entries`): the ordered list of (file name, page text) entries.

Modules: `Options` (optional values), `Decimal` (Python's `str(n)`, zero-padded
digits and their parser), `Rows` (the row map, filter and normalisation),
`IssueDate` (`strftime('%d.%m.%Y')` of a date passed in), `Confirmation` (page
text), `Archive` (file names and the upload loop), `Scenarios` (concrete inputs).

The file name is built from the row *after* rendering: `generate_payment_pdf`
rewrites the caller's dict in place (app.py:48-50) before the handler reads the
posting date (app.py:151). So a posting date that is present but empty gives
`row<N>_neuvedeno.pdf`, and only a missing column gives `row<N>_.pdf`
(`Archive.FileNameOfRawRow`, `Scenarios.EmptyPostingDate`).

Parameters stand in for what the source reads from outside: the issue date
(`datetime.today()`) is an `IssueDate.Date`, and the letterhead text (read from
`nastaveni/hlavicka.txt`) is an opaque string.

## Model

| member | source | states |
|---|---|---|
| `Rows.Get` | app.py:53-62 | `dict.get`: the stored value when the key is present, the default otherwise |
| `Rows.Normalize` | app.py:47-50 | same key set; no empty value remains; non-empty values unchanged; empty values become `neuvedeno` |
| `Rows.NormalizeInPlace` | app.py:48-50 | the key-by-key in-place loop ends with exactly the normalised row, whatever order the keys are visited in |
| `Rows.StartsWith` | app.py:143 | `str.startswith`: the prefix fits in the string and agrees with it character by character |
| `Rows.Accepted` | app.py:142-144 | the filter keeps a row with no amount column, and otherwise exactly when the amount is empty or its first character is not `-` |
| `Rows.AcceptedIff` | app.py:141-144 | a row is skipped if and only if its amount is present and its first character is `-` |
| `Rows.MissingOrEmptyAmountAccepted` | app.py:142-143 | a row with no amount column or an empty amount is kept |
| `Rows.AcceptedIgnoresNormalize` | app.py:142-148 | the filter gives the same verdict on the raw row and on the normalised one |
| `Rows.NormalizeIdempotent` | app.py:48-50 | normalising twice equals normalising once |
| `Rows.NormalizeFixesNonEmpty` | app.py:48-50 | a row without empty values is left unchanged |
| `Decimal.FixedDigits` | app.py:83 | zero-padded rendering has exactly the requested width and only digits |
| `Decimal.DigitCount` | app.py:152 | the digit count of `str(n)`: `n` fits and the count is minimal (no leading zero) |
| `Decimal.NatToString` | app.py:152 | `str(n)` is non-empty, all digits, and has no leading zero |
| `Decimal.FixedDigitsRoundTrip` | app.py:83 | parsing zero-padded digits gives the number back |
| `Decimal.ParseDecimalRoundTrip` | app.py:83 | printing a parsed digit string at its own width gives the string back |
| `Decimal.NatToStringRoundTrip` | app.py:152 | parsing `str(n)` gives `n` back |
| `Decimal.NatToStringInjective` | app.py:146-152 | different row numbers print differently |
| `IssueDate.Format` | app.py:83 | `%d.%m.%Y` is ten characters with dots at positions 2 and 5 |
| `IssueDate.FormatRoundTrip` | app.py:83 | reading back a formatted date gives the date |
| `IssueDate.ParseRoundTrip` | app.py:83 | a `DD.MM.YYYY` string of a valid date is exactly what formatting that date prints |
| `IssueDate.FormatInjective` | app.py:83 | different dates are printed differently |
| `Confirmation.ExtractPayment` | app.py:52-62 | each of the ten looked-up fields is the row's value when the column is present and `neuvedeno` when it is missing; the five printed fields are never empty on a normalised row |
| `Confirmation.BodyLines` | app.py:64-77 | the body has nine lines (intro in two lines, name, symbol, spacer, heading, date, amount, recipient); their text is stated by `Confirmation.DocumentContents` |
| `Confirmation.FooterLine` | app.py:83-84 | the footer is `Datum vystavení: ` followed by ten characters that parse back to the issue date |
| `Confirmation.GeneratePaymentPdf` | app.py:45-84 | returns the row as the call leaves it (normalised, same keys) and a page with the given letterhead, the title and nine body lines |
| `Confirmation.Displayed` | app.py:53-62 | what the page shows for a column is never empty |
| `Confirmation.LookupAfterNormalize` | app.py:48-62 | lookup after normalisation shows the raw value when present and non-empty, else `neuvedeno` |
| `Confirmation.DocumentContents` | app.py:45-84 | the whole page line by line in terms of the raw row: labels, field values or sentinel, amount as `amount + " " + currency`, fixed order, issue-date footer |
| `Confirmation.FooterIdentifiesDate` | app.py:83-84 | two footers are equal exactly when the dates are equal |
| `Archive.ReplaceDots` | app.py:151 | `.replace('.', '-')`: same length, no `.` left, other characters unchanged, dots become dashes |
| `Archive.DateSegment` | app.py:151 | the date part of a file name contains no `.` |
| `Archive.FileName` | app.py:152 | a file name starts with `row` and ends with `.pdf` |
| `Archive.FileNameRowNumber` | app.py:146-152 | the digits between `row` and the first `_` read back as the row number |
| `Archive.FileNamesDistinct` | app.py:146-152 | different row numbers give different file names whatever the dates |
| `Archive.FileNameOfRawRow` | app.py:148-152 | file name from the raw row: date part empty when the column is missing, `neuvedeno` when it is empty, dotted date with dashes otherwise |
| `Archive.AcceptedRows` | app.py:140-144 | the kept rows, in input order, are never more than the input rows |
| `Archive.AcceptedRowsMembers` | app.py:140-144 | a row is among the kept rows if and only if it is an input row that passes the filter |
| `Archive.AcceptedRowsSnoc` | app.py:140-146 | one more input row is appended to the kept rows exactly when it passes the filter |
| `Archive.MakeEntry` | app.py:146-159 | an entry's name carries the row number it was given |
| `Archive.MakeEntryParts` | app.py:148-152 | an entry stores the rendered page under the name built from the normalised row |
| `Archive.Numbered` | app.py:138-146 | numbering a list gives one item per element, the k-th (from 0) made with number k + 1 |
| `Archive.Entries` | app.py:137-166 | the archive has one entry per kept row, and entry k is the k-th kept row rendered and named with number k + 1 |
| `Archive.EntriesSnoc` | app.py:140-159 | one more input row adds one entry at the end when kept, nothing when skipped |
| `Archive.ProcessRows` | app.py:137-159 | the loop with its running counter builds exactly the reference archive: entry k is the k-th kept row numbered k + 1 |
| `Archive.AcceptedRowsPrefix` | app.py:140-146 | rows kept from a prefix of the input are a prefix of the rows kept from all of it |
| `Archive.AcceptedRowPosition` | app.py:138-146 | a kept row sits among the kept rows at the position equal to the number of kept rows before it |
| `Archive.EntryOfRow` | app.py:138-159 | a kept row gets number 1 + the number of kept rows before it, and its entry is at that position |
| `Archive.EntriesInInputOrder` | app.py:140-166 | of two kept rows, the earlier one in the input gets the smaller number |
| `Archive.EntryNamesDistinct` | app.py:146-152 | entry k's name reads back as row number k + 1, and names within one archive are pairwise distinct |
| `Archive.EntryCount` | app.py:140-166 | the number of entries equals the number of input rows whose amount does not start with `-` |
| `Archive.AcceptedRowsCount` | app.py:140-146 | the kept rows are as many as the input positions that pass the filter |
| `Archive.PositionsSnoc` | app.py:140-144 | one more input row adds its position to the kept positions exactly when it passes the filter |
| `Archive.SkippedRowKeepsAccepted` | app.py:142-146 | removing a skipped row anywhere leaves the kept rows unchanged |
| `Archive.SkippedRowHasNoEffect` | app.py:142-159 | a skipped row adds no entry and does not shift the numbering of the rows after it |
| `Scenarios.CompleteRow` | app.py:137-166 | a row dated 01.03.2024 with 100 CZK and symbol 123456 gives one entry `row1_01-03-2024.pdf` showing those values |
| `Scenarios.MissingPostingDate` | app.py:148-152 | a row without a posting-date column gives `row1_.pdf` and shows `Přijato dne: neuvedeno` |
| `Scenarios.EmptyPostingDate` | app.py:148-152 | a row with an empty posting date gives `row1_neuvedeno.pdf` |
| `Scenarios.NegativeAmountSkipped` | app.py:142-146 | a row with amount `-50` before another row changes nothing in the archive |
| `Scenarios.NoRows` | app.py:137-166 | an input with no data rows gives an empty archive |

## Left out

- HTTP handling: the GET upload form, reading the multipart upload and the 400
  "No file uploaded" answer (app.py:95-125, app.py:171-180) are web plumbing.
- Decoding the upload as UTF-16 and CSV tokenisation by `csv.DictReader`
  (app.py:134-135) are library behaviour; rows come in already parsed as maps.
  Ragged rows, which the library maps to `None` values or a `None` key, are not modelled.
- Page layout (app.py:13-31, app.py:40-43, app.py:80-81, app.py:87-90): fonts, cell
  sizes, coordinates, the rule under the letterhead, automatic word wrapping of long
  lines, the signature image and the latin-1 byte encoding of the output belong to
  the PDF library. The page is modelled as its ordered text lines; the spacer
  `pdf.ln(5)` is an empty line.
- Reading the letterhead file and the signature image: file I/O. The letterhead is
  an opaque string parameter; the image is not modelled.
- `datetime.today()`: the clock is replaced by a date parameter.
- Archive.ProcessRows: one issue date serves every page of a run, whereas the
  source reads the clock once per kept row (app.py:83, called from app.py:148),
  so a request running across midnight can print different dates on its pages.
- Confirmation.BodyLines: its own contract states only the line count; the line
  texts are stated for a whole page by `Confirmation.DocumentContents`.
- Temporary files and ZIP compression (app.py:131, app.py:155-168): the archive is
  the ordered list of entries. `os.path.join`/`basename` effects of a `/` inside
  the posting date are not modelled.
- The fields `Název protiúčtu`, `IBAN`, `BIC`, `Protiúčet` and
  `Bankovní kód protiúčtu` are looked up (app.py:54-58) but never printed; the
  model keeps them in `Confirmation.Payment` and shows nothing for them, as the source does.
- IssueDate.Format: prints the year on four digits, as Python documents `%Y`; the
  C library under some platforms prints years below 1000 without padding.
- Rendering failures (a missing font or resource file) abort the whole request in
  the source; the model has no such failures because the resources are parameters.
