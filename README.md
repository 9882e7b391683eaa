# Tobacco barcode checker: barcode normalisation and product registry

This project models the barcode core of a small web app. The app scans a
tobacco product's barcode and says whether the product is on an approved
list. The list is a CSV export whose code cells a spreadsheet may have
turned into scientific notation (`8.79982001196E+11`).

The model covers five parts of the app:

- **Cell expansion.** Two copies of the cell expander turn such a cell back
  into a digit string:
  - the catalog copy in `src/constants.ts`;
  - the standalone copy in `src/csvBarcode.ts`, which also keeps a minus sign
    and passes `sku:` cells through untouched.

  A cell that is only a pair of quotes (`""`) is not blank, yet both copies
  return `""` for it, like a blank cell, because nothing is left once the
  quotes are stripped.

  The shared notation pattern `^([+-]?\d+(?:\.\d+)?)[eE]([+-]?\d+)$` is a
  matcher with an exact inverse. The expansion is specified by the number it
  denotes.
- **Barcode keys.** One code becomes its UPC-A (12 digits), EAN-13 (13) and
  GTIN-14 (14) forms, plus the zero-padded forms of 8-to-11-digit codes. Only
  keys of 8 to 14 digits are kept, each once, and the plain digits come first.
  The same body appears in `src/constants.ts` and `src/App.tsx`, so one model
  covers both.
- **The header-keyed registry** of `src/constants.ts`:
  - field lookup under header aliases;
  - rows that carry no code are skipped;
  - every key of a row's unit code and carton code is set to the row's
    product, and the last write wins.
- **The older line-based reader** of `constants.ts`:
  - it splits the text on line feeds and skips the header;
  - one regular expression finds the fields;
  - fields are cleaned by position;
  - each product is indexed under its literal unit and carton codes.
- **The scan screen** of `App.js`:
  - the verdict for a decoded text: its digits are looked up verbatim, with no
    other code form tried;
  - the history, newest first and capped at 50;
  - clearing the history.

Modules:

| module | what it models |
|---|---|
| `Text` | the ECMAScript string operations used: `trim`, `\s`, `\d`, the deleting `replace` calls, `padStart`, `repeat`, and the value of a decimal digit string |
| `Types` | the records: two product shapes, the scan result, the screen status |
| `SciNotation` | the notation pattern, its inverse `Render`, and the expansion |
| `Catalog` | `src/constants.ts`: cell cleaning, `barcodeKeys`, `getField`, the `parseCSV` row loop |
| `CsvBarcode` | `src/csvBarcode.ts` |
| `LegacyCatalog` | `constants.ts`: line splitting, the field regex, `clean`, the index loop |
| `Scanner` | `App.js`: `handleScan` and clearing the history, as a class holding the app state |

## Model

| member | source | states |
|---|---|---|
| Text.Trim | src/constants.ts:20 | `trim` leaves no white space at either end, does not touch a trimmed text, and gives `""` exactly when the input is all white space |
| Text.RemoveSpaces | src/constants.ts:24 | `replace(/\s+/g, "")` leaves no white space and does not touch a text that has none |
| Text.RemoveSpacesChar | src/constants.ts:24 | a lone white-space character is deleted and any other character is kept |
| Text.RemoveSpacesAppend | src/constants.ts:24 | deleting white space commutes with concatenation, so every other character survives, in order |
| Text.Digits | src/constants.ts:47 | `replace(/\D/g, "")` leaves only ASCII digits and does not touch a digit string |
| Text.NoDigits | src/constants.ts:47 | a text without an ASCII digit gives `""` |
| Text.DigitsAppend | src/constants.ts:47 | deleting non-digits commutes with concatenation |
| Text.DigitsIgnoreSpaces | src/csvBarcode.ts:17 | deleting white space first keeps the same digits |
| Text.StripQuotes | src/constants.ts:23 | `replace(/^"|"$/g, "")` removes one quote at the front if there is one and one at the back if there is one, and nothing else |
| Text.Unquote | src/constants.ts:20-23 | the trim / strip quotes / trim chain gives a trimmed text with the same digits as the cell |
| Text.StripLeadingZeros | src/constants.ts:37 | `replace(/^0+/, "")` removes exactly the leading run of zeros |
| Text.PadStart | src/constants.ts:79 | `padStart(12, "0")` puts just enough zeros in front to reach the width |
| Text.Zeros | src/constants.ts:41 | `"0".repeat(n)` is n zeros |
| Text.ValueAppendZeros | src/constants.ts:41 | appending k zeros multiplies the value by 10^k |
| Text.ValueStripLeadingZeros | src/constants.ts:37 | removing leading zeros keeps the value |
| Text.ValueZeroIffAllZeros | src/constants.ts:37 | a digit string has value zero exactly when all its digits are `0` |
| Text.DecimalString | src/constants.ts:30 | the decimal numeral of n has value n and no leading zero, the inverse of `parseInt` |
| SciNotation.Match | src/constants.ts:26 | a match is well formed: optional signs, non-empty digit runs, marker `e` or `E` |
| SciNotation.MatchSound | src/constants.ts:26 | a match is the whole text: rendering it gives the input back |
| SciNotation.MatchRender | src/constants.ts:26 | every well-formed notation text is matched, and into the parts it was written from |
| SciNotation.MantissaDigits | src/constants.ts:32-37 | the joined mantissa digits are never empty and are digits only |
| SciNotation.MantissaValue | src/constants.ts:37 | the mantissa digits keep the value of the joined digits and have no leading zero unless they are `0` |
| SciNotation.ExponentOfDecimal | src/constants.ts:30 | `parseInt` of the exponent part reads the numeral back with its sign: `Exponent` is n, or -n after a `-` |
| SciNotation.ShiftPlacesPoint | src/constants.ts:37-38 | with a shift of zero or more, the joined mantissa digits times 10^shift equal the integer digits times 10^exp plus the fraction digits times 10^shift: `Shift` moves the decimal point to where the exponent puts it |
| SciNotation.Expansion | src/constants.ts:38-41 | the expansion is a non-empty digit string |
| SciNotation.ExpansionValue | src/constants.ts:37-41 | the expansion denotes mantissa × 10^shift; a negative shift keeps the mantissa; no leading zero unless the mantissa is zero, and then it is all zeros |
| SciNotation.RoundTrip | src/constants.ts:16-17 | a code written as `d.ddd…E+n`, or `dE+n` for a single digit, expands back to its digits followed by the zeros the exponent calls for |
| Catalog.ExpandScientific | src/constants.ts:19-42 | a blank cell gives `""`; a non-notation cell is returned unquoted and without white space; a notation cell gives its unsigned expansion |
| Catalog.QuotesOnlyCell | src/constants.ts:20-27 | a cell that is only `""` is not blank but expands to `""`, like a blank cell |
| Catalog.CleanCsvBarcode | src/constants.ts:45-48 | digits only; a non-notation cell keeps exactly its own digits; a notation cell becomes its expansion |
| Catalog.CleanEmptyIffNoDigits | src/constants.ts:45-48 | a cell cleans to `""` exactly when it holds no digit |
| Catalog.KeySet | src/constants.ts:51-85 | the keys of a code are exactly the 8-to-14-digit candidate forms of its digits, all digit strings |
| Catalog.Insert | src/constants.ts:55-56 | `v && keys.add(v)` ignores `""` and repeats; the result is the old keys unchanged or with `v` appended at the end |
| Catalog.KeepKeyLengths | src/constants.ts:84 | the length filter keeps exactly the 8-to-14 character keys without creating repeats; a one-element list is kept exactly when its key has a key length |
| Catalog.KeepKeyLengthsAppend | src/constants.ts:84 | filtering a concatenation is filtering each part and concatenating, so kept keys stay in their order |
| Catalog.BarcodeKeys | src/App.tsx:18-52 | no repeats; members are exactly `KeySet`; the plain digits come first when they are a key; `[d, "0"+d]` for 12 digits; `[d, d[1..]]` for 13 digits led by `0`, `[d]` otherwise; `[d, pad12, "0"+pad12]` for 8 to 11 digits; at most 4 keys for 14 digits; `[]` below 8 or above 14 |
| Catalog.KeysOfGtin14 | src/constants.ts:60-65 | a 14-digit code has as keys itself and the forms without one and two leading digits; the form without leading zeros is a key exactly when it has 8 or more digits; there are no others |
| Catalog.UpcEanSameKeys | src/constants.ts:67-75 | a UPC-A code and its EAN-13 form have the same two keys |
| Catalog.Gtin14FindsUpcA | src/constants.ts:60-75 | a GTIN-14 code of two zeros and a UPC-A code has the UPC-A and EAN-13 forms among its keys |
| Catalog.FieldValue | src/constants.ts:91-99 | `""` exactly when no alias is present and non-blank; otherwise the trimmed value of the first such alias |
| Catalog.GetField | src/constants.ts:91-99 | the early-return alias loop computes `FieldValue` |
| Catalog.Entry | src/constants.ts:122-146 | a row's product has digit-only codes, not both empty, read from the unit and carton alias lists, and its text fields read from their alias lists |
| Catalog.SkippedRow | src/constants.ts:134-138 | a row is skipped (yields no product) exactly when neither its unit nor its carton cell holds a digit |
| Catalog.ShortCodeRegistersNothing | src/constants.ts:140-150 | a kept row whose only code has 1 to 7 digits yields a product but registers it under no key |
| Catalog.Apply | src/constants.ts:140-150 | a skipped row leaves the registry unchanged; otherwise every key of both codes maps to the row's product and other keys are untouched |
| Catalog.SetEach | src/constants.ts:149 | `for (const k of keys) lookup.set(k, product)` sets exactly those keys |
| Catalog.AddRow | src/constants.ts:120-151 | one pass of the row loop applies the row's entry to the registry |
| Catalog.ParseCsv | src/constants.ts:107-154 | the loop builds the registry of the rows' entries, in order |
| Catalog.RegistryDomain | src/constants.ts:149-150 | a key is registered exactly when some row's product has it among its keys |
| Catalog.RegistryKeysOwn | src/constants.ts:149-150 | every key is an 8-to-14-digit string and a key of the product it finds |
| Catalog.RegistryLastWins | src/constants.ts:149-150 | a key finds the product of the last row writing it |
| CsvBarcode.SignText | src/csvBarcode.ts:25 | `"-"` exactly for a negative mantissa, otherwise `""`, so a `+` is dropped |
| CsvBarcode.ExpandScientific | src/csvBarcode.ts:6-15 | blank gives `""`; a non-blank cell tagged `sku:` in any letter case is returned unquoted and trimmed, untouched otherwise |
| CsvBarcode.CleanCsvBarcode | src/csvBarcode.ts:45-51 | digits only, and equal to the catalog copy's cleaning on every cell |
| CsvBarcode.CleanVariantsAgree | src/csvBarcode.ts:45-51 | the two cell cleaners agree on every cell |
| CsvBarcode.ExpandVariantsAgree | src/csvBarcode.ts:6-42 | without a `sku:` tag the standalone expander is the catalog's expander with the mantissa's `-` in front, and nothing else differs |
| CsvBarcode.SkuTagIgnoresCase | src/csvBarcode.ts:14 | `/sku:/i` finds a tag exactly when four characters read `sku:` once ASCII capitals are folded to lower case |
| CsvBarcode.SkuTagIsNotNotation | src/csvBarcode.ts:14-20 | a tagged cell would never have matched the notation pattern |
| CsvBarcode.CleanNotation | src/csvBarcode.ts:16-41 | a well-formed notation text alone in a cell expands to its expansion (behind its `-` in this copy, unsigned in the catalog copy) and cleans to that expansion |
| CsvBarcode.FullPrecisionExample | src/csvBarcode.ts:3 | both `expandScientific` copies turn `8.79982001196E+11` into `879982001196`, and so does cleaning |
| CsvBarcode.RoundedExample | src/csvBarcode.ts:4-5 | both `expandScientific` copies turn `8.79982E+11` into `879982000000`: rounded digits come back as zeros |
| CsvBarcode.SpreadsheetCell | src/csvBarcode.ts:3-5 | any code shown as `d.ddd…E+n`, or `dE+n` for a single digit, expands, in both copies, and cleans back to its digits plus the zeros the exponent calls for |
| LegacyCatalog.Split | constants.ts:29 | `split('\n')` gives at least one line, none holding a line feed |
| LegacyCatalog.JoinSplit | constants.ts:29 | joining the lines with line feeds gives the text back |
| LegacyCatalog.SplitHeader | constants.ts:29-32 | the text before the first line feed is line 0, the header |
| LegacyCatalog.HeaderIgnored | constants.ts:32 | the index depends only on the text after the header line |
| LegacyCatalog.FieldEndsLookahead | constants.ts:36 | the lookahead `(?=\s*,\|\s*$)` holds exactly when some run of white space leads to a comma or the end of the line |
| LegacyCatalog.QuotedEnd | constants.ts:36 | the lazy `".*?"` ends at the first quote followed by a field end, without crossing a line terminator; no earlier quote is followed by a field end; with no match, every quote followed by a field end lies past a line terminator |
| LegacyCatalog.BareEnd | constants.ts:36 | `[^",\s]+` runs to the first quote, comma or white space |
| LegacyCatalog.MatchAt | constants.ts:36 | a match is non-empty, is followed by only white space up to a comma or the end, and is a quoted text or a bare run |
| LegacyCatalog.Fields | constants.ts:36 | every field the global match yields is a quoted text or a non-empty bare run |
| LegacyCatalog.NoFieldAtComma | constants.ts:36 | an empty cell yields no field |
| LegacyCatalog.QuotedField | constants.ts:36 | a quoted cell without inner quotes is one field |
| LegacyCatalog.BareField | constants.ts:36 | a bare cell before a comma or the end is one field |
| LegacyCatalog.Clean | constants.ts:39 | the result has no white space at either end; a quoted field the pattern yields loses its quotes and the space inside them; a bare field is kept as it is |
| LegacyCatalog.Product | constants.ts:41-48 | for a line of any length, fields 0 to 5 are, in order, the trade name, packaging style, unit code, carton name, carton code and manufacturer, each read through `Part`, so a missing field is `""`; every field is trimmed |
| LegacyCatalog.Part | constants.ts:39-47 | a field the line lacks reads as `""` |
| LegacyCatalog.LineProduct | constants.ts:33-48 | a blank line or one without a field contributes nothing |
| LegacyCatalog.Codes | constants.ts:50-51 | a product is indexed under exactly its non-empty unit and carton codes |
| LegacyCatalog.Store | constants.ts:50-51 | the two `set` calls add exactly those codes, mapped to the product, and leave other keys untouched |
| LegacyCatalog.ParseCsv | constants.ts:28-55 | the loop from line 1, with its two `continue`s, builds the index of the lines' products |
| LegacyCatalog.IndexDomain | constants.ts:50-51 | a code is indexed exactly when some line's product has it as its unit or carton code |
| LegacyCatalog.IndexKeysOwn | constants.ts:50-51 | keys are the literal, non-empty unit or carton code of the product they find |
| LegacyCatalog.IndexLastWins | constants.ts:50-51 | a later line overwrites an earlier line's code |
| LegacyCatalog.EmptyCellsShiftFields | constants.ts:7 | in `"A","B",1,,,"M"` the empty cells yield no field: the manufacturer becomes the carton name, the carton code and manufacturer are empty, and only the unit code is indexed |
| Scanner.Scan | App.js:43-53 | the code is the decoded text's digits; approved exactly when that code is a key; the product is the mapped one when approved and absent otherwise |
| Scanner.Prepend | App.js:56 | the new result, then the old entries in order, at most 50 in all |
| Scanner.HistoryIsLatest | App.js:56 | after any run of scans from an empty history, the history is the 50 newest results, newest first |
| Scanner.NoDigitsNoMatch | App.js:44-46 | a decoded text without digits is never approved |
| Scanner.ApprovedIffWritten | App.js:45-46 | a scan is approved exactly when some line carries the scanned digits verbatim as a code |
| Scanner.FindsLastWriter | App.js:45-53 | a scan reports the product of the last line carrying the scanned digits |
| Scanner.ScannerApp.constructor | App.js:11-21 | start-up builds the index from the CSV text; idle, no result, empty history |
| Scanner.ScannerApp.HandleScan | App.js:43-59 | records the verdict as the last result, prepends it to the capped history, shows the result screen, keeps the index, and keeps every history entry agreeing with the index |
| Scanner.ScannerApp.ClearHistory | App.js:226 | empties the history and changes nothing else |

## Left out

- CSV tokenising by PapaParse in `src/constants.ts` is a foreign library. The registry is built over rows already parsed into header-to-cell maps. A column a row lacks is absent from its map.
- The `?raw` CSV import is build-tool plumbing. So is its duplicated import line.
- Camera start and stop, the `stopScanner` call at the end of `handleScan`, and the timers and promises around them are device I/O. Starting the scanner, which sets the status to scanning, goes with them.
- `localStorage` and JSON parsing are storage I/O. Loading and saving the history is left out, along with rebuilding its `Date` values. The history starts empty.
- `new Date()` is a clock. It is an integer parameter of the scan.
- The JSX rendering, and `src/App.tsx` after line 52, are UI.
- `buildApprovedLookupFromCSV` in `src/App.tsx` is cut off in the source, so there is no behaviour to model. The only lookup the code shows is the exact lookup in `App.js`.
- `src/index.tsx` and `index.js` only mount React.
- JavaScript strings are UTF-16 code units, while Dafny characters are Unicode scalar values. Text outside the Basic Multilingual Plane is not modelled unit by unit.
- The `raw ?? ""` and `String(val)` conversions of `null`, `undefined` and non-string values are not modelled: every cell is a string.
- `parseInt` loses precision above 2^53 and is not modelled that way: the exponent is the exact value of its digits.
- `"0".repeat(shift)` throws a `RangeError` for an exponent beyond the engine's string-length limit. Here every shift expands.
- Catalog.AddRow: the model does not distinguish writing the carton keys after the unit keys. Both loops write the same product, so the order cannot be observed in the resulting map.
- Catalog.AddRow and Catalog.SetEach are the body and inner loops of the `parseCSV` row loop, taken out as methods. The loop itself is Catalog.ParseCsv.
- SciNotation.Expansion: its contract states only the form of the result. Its value, leading zeros and zero padding are stated in SciNotation.ExpansionValue and SciNotation.MantissaValue.
- Scanner.ScannerApp.HandleScan requires `Valid()`, the class invariant that the constructor establishes and every method keeps. The source has no such check; history loaded from storage is outside the model.
