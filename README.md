# CSV to nested records: a verified model

This project models the core of a small Node.js service. The service reads a
CSV file line by line and turns every data line into a nested JSON record. A
header such as `name.firstName` builds the record `{ name: { firstName: … } }`.
A field under the key `age` is stored as a number. The service then maps the
records to user rows for the database, and it counts users in four age bands.

The model is written in Dafny, one module per part of the source:

- `js_builtins.dfy` (`JsBuiltins`) defines the JavaScript built-ins the code
  relies on: `String.prototype.trim` over the ECMAScript whitespace set,
  `split` on a one-character separator, and `parseInt(s, 10)`. Each comes with
  the laws the rest of the model uses. The module also defines `Join`, which
  glues pieces together with a separator. The code never calls `join`;
  `Join` is only a proof helper for stating round trips.
- `csv_line.dfy` (`CsvLine`) models `splitCSVLine`.
  - `SplitCSVLine` is the index loop, proved equal to the specification
    function `SplitLine`.
  - `RawFields` is the scan written as a recursive function: quote toggling,
    `""` escapes, and splitting on commas outside quotes.
  - `Clean` is the per-field trim and quote strip.
  - The module also proves the field count, the behaviour of lines without
    quotes, and a quoting round trip in the style of section 2 of RFC 4180:
    a line of quoted fields scans back to exactly those fields.
- `nested_record.dfy` (`NestedRecord`) models `setNestedValue`.
  - A record is a tree `Val = Str | Num | Obj(map)`.
  - `Assign` states what the tree becomes after one assignment.
  - `RecordObject.SetNestedValue` is the in-place walk with its moving
    `temp` pointer, proved to produce `Assign`.
  - Lemmas say that the path reaches the stored leaf, that existing objects on
    the path are reused, that non-objects are replaced, and that every path
    which parts ways with the assigned one is unchanged.
- `csv_parser.dfy` (`CsvParser`) models the per-line handler of `parseCSV`.
  - `CsvReader` is a class with the `records`, `headers` and `lineNumber`
    state; `OnLine` is the `'line'` event handler.
  - `ParseCSV` feeds a sequence of lines to a reader. It is proved equal to
    the reference definition `ParsedRecords`.
  - Lemmas over `ParsedRecords` cover blank lines, the header line, one record
    per data line, lines that throw, padding, and headers past the row length.
- `csv_controller.dfy` (`CsvController`) models the pure parts of the
  controller:
  - the record-to-user mapping of `uploadCSV` and the empty-result guards of
    `uploadCSV` and `previewCSV`;
  - the SQL `CASE` of the age bands as an integer function;
  - the loop that fills the four-band distribution map (`AgeDistribution`).

The file is modelled as the sequence of its lines, in order. A per-line
exception is modelled by a set `failing` of 1-based line numbers whose
processing throws. In this code only property names that reach JavaScript's
prototype machinery can throw, for example a header `__proto__.__proto__.x`.
Such a line is dropped and parsing goes on.

## Model

| member | source | states |
|---|---|---|
| JsBuiltins.Trim | src/services/csvParser.js:35 | `trim` gives an infix of the input that neither starts nor ends with whitespace |
| JsBuiltins.TrimDropsWhitespace | src/services/csvParser.js:35 | everything `trim` removes, at either end, is whitespace |
| JsBuiltins.TrimIdempotent | src/services/csvParser.js:35 | trimming twice is trimming once |
| JsBuiltins.TrimEmptyIffWhitespace | src/services/csvParser.js:102-104 | a line trims to the empty string exactly when it is all whitespace |
| JsBuiltins.SplitOn | src/services/csvParser.js:47 | `split('.')` always gives at least one piece, so every header has a last key |
| JsBuiltins.SplitOnPiecesAvoidSep | src/services/csvParser.js:47 | no piece of `split('.')` contains a dot |
| JsBuiltins.SplitOnPiecesFrom | src/services/csvParser.js:47 | every character of a piece comes from the split string |
| JsBuiltins.JoinSplitOn | src/services/csvParser.js:47 | joining the pieces with the separator gives back the string |
| JsBuiltins.SplitOnJoin | src/services/csvParser.js:47 | splitting a join of separator-free pieces gives back the pieces |
| JsBuiltins.DigitPrefixIsLongest | src/services/csvParser.js:55 | the digits `parseInt` reads are the longest prefix made of decimal digits |
| JsBuiltins.ParseInt | src/services/csvParser.js:55 | `parseInt(s, 10)`: skip leading whitespace, an optional sign, then the longest digit prefix, NaN when there is none; stated by `ParseIntOfShowInt`, `ParseIntSkipsWhitespace`, `ParseIntNaN` |
| JsBuiltins.ParseIntOfShowInt | src/services/csvParser.js:55 | `parseInt` of a decimal integer, optionally followed by text that does not start with a digit, is that integer |
| JsBuiltins.ParseIntSkipsWhitespace | src/services/csvParser.js:55 | `parseInt` ignores leading whitespace |
| JsBuiltins.ParseIntNaN | src/services/csvParser.js:55 | a string with no digit anywhere parses to NaN |
| CsvLine.Clean | src/services/csvParser.js:34-39 | the per-field clean-up (trim, then drop one wrapping quote at each end) never lengthens the field; its cases are stated by `CleanTrimsOrUnwraps` |
| CsvLine.RawFields | src/services/csvParser.js:13-31 | the scan always produces at least one field |
| CsvLine.FieldCount | src/services/csvParser.js:13-31 | the scan produces one field more than the commas it meets outside quotes |
| CsvLine.SplitLine | src/services/csvParser.js:8-41 | `splitCSVLine` returns 1 + (number of unquoted commas) fields |
| CsvLine.SplitCSVLine | src/services/csvParser.js:8-41 | the index loop with its quote flag and accumulator returns `SplitLine(line)`: at least one field, each the clean-up of the scanned field |
| CsvLine.ReadEscaped | src/services/csvParser.js:16-23 | inside quotes, every `""` adds one `"` and commas are kept, up to the closing quote |
| CsvLine.ReadQuoted | src/services/csvParser.js:16-28 | a quoted field followed by a comma or the end of the line adds exactly its text to the current field |
| CsvLine.RawFieldsOfEncodeLine | src/services/csvParser.js:13-31 | the scan reads back every line of quoted, quote-escaped fields exactly: quoting is its inverse |
| CsvLine.SplitLineOfEncodeLine | src/services/csvParser.js:8-41 | `splitCSVLine` of a line of quoted fields gives one cleaned-up field per field, in order |
| CsvLine.ReadInside | src/services/csvParser.js:16-28 | inside quotes, text without quotes goes into the current field, commas included |
| CsvLine.RawQuotedMiddle | src/services/csvParser.js:13-31 | a plain field, a quoted field and a plain field, separated by commas, scan back to the three texts |
| CsvLine.RawDoubledQuotes | src/services/csvParser.js:16-31 | a quoted field holding two doubled quotes, then a plain field, scan to the text with single quotes and the plain field |
| CsvLine.SplitEmbeddedComma | src/services/csvParser.js:16-28 | `a,"b,c",d` splits into `a`, `b,c`, `d` |
| CsvLine.SplitEscapedQuote | src/services/csvParser.js:18-20 | `"He said ""hi""",2` splits into `He said "hi"` and `2` |
| CsvLine.SplitLineWithoutQuotes | src/services/csvParser.js:24-40 | without double quotes, the fields are `line.split(',')` with every piece trimmed, empty pieces included |
| CsvLine.RawFieldsJoinWithoutQuotes | src/services/csvParser.js:24-31 | without double quotes, joining the scanned fields with commas gives back the line |
| CsvLine.SplitLineOfPlainFields | src/services/csvParser.js:24-40 | fields with no quote, no comma and no outer whitespace, joined with commas, split back into themselves |
| CsvLine.CleanTrimsOrUnwraps | src/services/csvParser.js:34-39 | a field is trimmed unless its trimmed form is wrapped in quotes; then exactly one quote is removed at each end, and a lone `"` becomes empty |
| CsvLine.CleanOfCleanField | src/services/csvParser.js:34-39 | a trimmed field not wrapped in quotes is left unchanged |
| CsvLine.CleanMayLeaveWhitespace | src/services/csvParser.js:34-39 | a scanned field wrapped in quotes gives its inside verbatim, so an inside that starts with whitespace stays untrimmed (the scanned field `" a "` becomes ` a `) |
| CsvLine.SplitTripleQuoted | src/services/csvParser.js:8-41 | a line of quote-free text between three quotes on each side is one field, the text with its whitespace: `""" a """` gives ` a ` |
| NestedRecord.AgeValue | src/services/csvParser.js:54-55 | `parseInt(value, 10) \|\| 0`: a non-zero age is the number `parseInt` reads; see `AgeOfNumber` and `AgeOfNonNumeric` |
| NestedRecord.LeafValue | src/services/csvParser.js:51-58 | the value stored under the last key: a number under `age`, the string otherwise; see `AssignReachesLeaf` |
| NestedRecord.Child | src/services/csvParser.js:59-64 | the object to descend into: a non-empty result is the object already under the key, otherwise a fresh empty one; see `AssignReusesObject` and `AssignReplacesNonObject` |
| NestedRecord.AgeOfNumber | src/services/csvParser.js:54-55 | the stored age (`parseInt(v, 10)`, or 0 for NaN) of a decimal integer, optionally followed by non-digit text, is that integer |
| NestedRecord.AgeOfNonNumeric | src/services/csvParser.js:54-55 | the stored age of a value with no digit is 0 |
| NestedRecord.Assign | src/services/csvParser.js:46-67 | one assignment adds the first key of the path to the top-level properties and no other key |
| NestedRecord.AssignKeepsOthers | src/services/csvParser.js:50-66 | a top-level property other than the path's first key keeps its value |
| NestedRecord.AssignReachesLeaf | src/services/csvParser.js:47-58 | after the assignment the path leads to the value, or to its age number when the last key is `age`, at any depth |
| NestedRecord.AssignPrefix | src/services/csvParser.js:59-65 | every proper prefix of the path leads to an object: the old object there, updated below, or a fresh one |
| NestedRecord.AssignReusesObject | src/services/csvParser.js:59-64 | an object already on the path is reused, so its sibling properties survive |
| NestedRecord.AssignReplacesNonObject | src/services/csvParser.js:61-63 | a missing or non-object node on the path is replaced by a fresh object holding only the rest of the path |
| NestedRecord.AssignOffPath | src/services/csvParser.js:50-66 | every path that parts ways with the assigned one reads as before |
| NestedRecord.AssignLeavesNothingBelow | src/services/csvParser.js:51-58 | nothing lies below the stored leaf |
| NestedRecord.MemberIsLookup | src/services/csvParser.js:128 | `record.name?.firstName` follows the two-key path `name`, `firstName` |
| NestedRecord.RecordObject.constructor | src/services/csvParser.js:119 | a new record has no properties |
| NestedRecord.RecordObject.SetNestedValue | src/services/csvParser.js:46-67 | the in-place walk with the moving `temp` pointer leaves the record equal to `Assign(old record, path.split('.'), value)` |
| CsvParser.Padded | src/services/csvParser.js:114-117 | padded values have length max(values, headers): short rows grow to the header count, long rows are never truncated |
| CsvParser.PaddedKeepsValues | src/services/csvParser.js:114-117 | padding keeps the original values, in place, at the front |
| CsvParser.PaddedWithEmpty | src/services/csvParser.js:115-117 | every entry added by the padding is `''` |
| CsvParser.Pad | src/services/csvParser.js:115-117 | the push loop returns `Padded(values, width)` |
| CsvParser.BuildKeepsPath | src/services/csvParser.js:119-125 | later headers whose paths part ways with a path leave what that path holds unchanged |
| CsvParser.Build | src/services/csvParser.js:119-125 | the record after each header path is set in order, skipping indices with no value; stated by `BuildKeys`, `BuildReachesField`, `BuildKeepsPath`, `BuildIgnoresExtraValues` |
| CsvParser.BuildRecord | src/services/csvParser.js:119-125 | `headers.forEach` over a fresh record gives `Build(headers, values)`, setting each header path in order |
| CsvParser.BuildKeys | src/services/csvParser.js:119-125 | with enough values, the record's top-level properties are exactly the first keys of the headers |
| CsvParser.BuildIgnoresExtraValues | src/services/csvParser.js:121-125 | values beyond the header count play no part in the record |
| CsvParser.BuildReachesField | src/services/csvParser.js:121-125 | a header's path holds its value unless a later header writes on or under that path |
| CsvParser.RowIgnoresExtraFields | src/services/csvParser.js:112-125 | two lines whose padded fields agree up to the header count give the same record |
| CsvParser.RowHasEveryHeader | src/services/csvParser.js:112-125 | padding makes every header set its top-level property, however short the row |
| CsvParser.ReadRow | src/services/csvParser.js:112-125 | split, pad and build give `RowRecord(headers, line)` |
| CsvParser.CsvReader.constructor | src/services/csvParser.js:76-78 | the reader starts with no records, no headers and line number 0 |
| CsvParser.CsvReader.OnLine | src/services/csvParser.js:98-138 | each line advances the line number. A blank line changes nothing else. The first non-blank line sets the headers. A throwing line is dropped. Every other line appends exactly its record, also when a mandatory field is missing |
| CsvParser.CsvReader.Feed | src/services/csvParser.js:98-138 | handling line `i` of the file after lines `0..i-1` leaves the reader's headers, records and line number on the reference definition for lines `0..i` |
| CsvParser.StepMatchesReference | src/services/csvParser.js:98-138 | the effect of each branch of the line handler, applied to the reference state of the lines seen so far, is the reference state of one more line |
| CsvParser.ParsedRecordsSnoc | src/services/csvParser.js:98-138 | one more line adds exactly its own record when it is non-blank, comes after the header line and does not throw, and nothing otherwise |
| CsvParser.ParseCSV | src/services/csvParser.js:98-142 | feeding the lines in order yields `ParsedRecords`: one record per non-blank, non-throwing line after the header line, in file order |
| CsvParser.FirstNonBlank | src/services/csvParser.js:102-109 | the header line is the first non-blank line; all lines before it are blank |
| CsvParser.BlankLineIgnored | src/services/csvParser.js:102-104 | appending a blank line leaves the result unchanged |
| CsvParser.KeptLinesCount | src/services/csvParser.js:102-132 | when nothing throws, every non-blank line after the header line is kept: (non-blank lines − 1) of them, or none |
| CsvParser.EveryDataLineYieldsARecord | src/services/csvParser.js:102-132 | when nothing throws, there are exactly (non-blank lines − 1) records, or none when every line is blank |
| CsvParser.HeaderOnlyGivesNoRecords | src/services/csvParser.js:106-110 | a file with at most one non-blank line gives no records |
| CsvParser.KeptLinesAroundKept | src/services/csvParser.js:111-136 | a data line `n` that does not throw sits in the kept lines between the kept lines before it and the data lines after it |
| CsvParser.KeptLinesAroundThrown | src/services/csvParser.js:111-136 | when data line `n` throws, the kept lines are those before it followed by the data lines after it |
| CsvParser.DataLinesOnlySeeTheirLines | src/services/csvParser.js:111-136 | whether a line throws affects only that line's own place in the kept lines |
| CsvParser.ParsedRecordsOfFront | src/services/csvParser.js:102-136 | the file cut after its header line parses to the records of its own kept lines under the file's headers |
| CsvParser.FailingLineDropsOnlyItsRecord | src/services/csvParser.js:111-136 | a line that throws loses its own record and no other: the records of the lines before and after it are kept in order, and there is one record fewer |
| CsvParser.RowOfPlainFields | src/services/csvParser.js:112-125 | a line of plain fields, one per header, builds the record from exactly those fields |
| CsvParser.BuildNestedPair | src/services/csvParser.js:119-125 | headers `n.f`, `n.l`, `a` build one object under `n` holding both fields, and a leaf under `a` |
| CsvParser.HasMandatoryFields | src/services/csvParser.js:128 | the record passes the mandatory check (no warning) when `name.firstName` and `name.lastName` are truthy and `age` is present; stated by `NestedNameIsComplete` and `MissingAge` |
| CsvParser.NestedNameIsComplete | src/services/csvParser.js:128 | a record with a nested name passes the mandatory check exactly when both name parts are non-empty |
| CsvParser.DecimalAge | src/services/csvParser.js:54-55 | a decimal age under the key `age` is stored as that number |
| CsvParser.NonNumericAge | src/services/csvParser.js:54-55 | an age with no digit is stored as 0, and the record still has an `age` |
| CsvParser.MissingAge | src/services/csvParser.js:127-132 | without a header for `age`, no row passes the mandatory check |
| CsvController.AdditionalInfo | src/controllers/csvController.js:91 | the rest object holds exactly the record's keys other than `name`, `age`, `address`, with their values |
| CsvController.DestructuringLosesNothing | src/controllers/csvController.js:91 | `name`, `age`, `address` and the rest put back together give the record |
| CsvController.ToUsers | src/controllers/csvController.js:90-103 | one user per record, in order |
| CsvController.FullName | src/controllers/csvController.js:93-95 | `first last` when `name` and both parts are truthy, else `N/A`; stated by `FullNameOfParts`, `FullNameMissing`, `FullNameNeedsBothParts` |
| CsvController.AddressOf | src/controllers/csvController.js:100 | `address \|\| null`: the address when truthy, null otherwise; stated by `ToUserKeepsFields` |
| CsvController.ToUser | src/controllers/csvController.js:90-102 | one record mapped to a user row; stated by `ToUserKeepsFields` and `DestructuringLosesNothing` |
| CsvController.FullNameOfParts | src/controllers/csvController.js:93-95 | two non-empty name parts give `first last` |
| CsvController.FullNameMissing | src/controllers/csvController.js:93-95 | a missing or empty name part, or no name at all, gives `N/A` |
| CsvController.FullNameNeedsBothParts | src/controllers/csvController.js:93-95 | a name other than `N/A` needs `name` to be an object with both parts truthy |
| CsvController.ToUserKeepsFields | src/controllers/csvController.js:97-102 | `age` is passed through; `address` is passed through when truthy and is null otherwise; `additional_info` has the remaining keys |
| CsvController.Upload | src/controllers/csvController.js:83-103 | no records gives status 400 with the message and nothing to create; otherwise every record is mapped, in order |
| CsvController.Preview | src/controllers/csvController.js:140-152 | no records gives status 404; otherwise status 200 with `totalRecords` equal to the length of `records` |
| CsvController.CaseAgeGroup | src/controllers/csvController.js:14-19 | the SQL `CASE` on an integer age; stated by `CaseIsBand`, `BandsCoverEveryAge`, `BandsAreDisjoint` |
| CsvController.BandsCoverEveryAge | src/controllers/csvController.js:14-19 | the `CASE` never falls through: every integer age lies in the band it picks |
| CsvController.BandsAreDisjoint | src/controllers/csvController.js:14-19 | no age lies in two bands |
| CsvController.CaseIsBand | src/controllers/csvController.js:14-19 | the `CASE` picks a band exactly when the age lies in that band's condition |
| CsvController.LabelsAreDistinct | src/controllers/csvController.js:14-19 | the four band keys differ |
| CsvController.BandCountsAddUp | src/controllers/csvController.js:14-24 | the four band counts of a list of ages add up to its length |
| CsvController.InitialDistribution | src/controllers/csvController.js:33-38 | the map starts with exactly the four bands, each 0 |
| CsvController.AgeDistribution | src/controllers/csvController.js:27-46 | zero users gives null. Otherwise the map has exactly the four band keys, each holding the share from the last row naming it, or 0 when no row does |
| CsvController.UnnamedBandStaysZero | src/controllers/csvController.js:33-46 | a band that no row names stays 0 |
| CsvController.NamedBandTakesItsRow | src/controllers/csvController.js:40-46 | a band named by exactly one row, as GROUP BY produces, takes that row's count |
| CsvController.HeaderOnlyFileIsRefused | src/controllers/csvController.js:83-88 | a file with at most a header line is refused by the upload with 400 and is not found by the preview |
| CsvController.PreviewCountsDataLines | src/controllers/csvController.js:147-151 | when nothing throws, the preview's `totalRecords` is the number of data lines |

## Left out

- File and stream handling are not modelled, because they are I/O. This
  covers the `CSV_FILE_PATH` lookup, the missing-path and missing-file
  rejections, `createReadStream`, `readline`, and the `close` and `error`
  events (`src/services/csvParser.js:80-96`, `140-147`). The input is the
  sequence of lines, and the result is what `close` resolves with.
- Logging (`console.log`, `warn`, `error`) is left out. The one branch with an
  effect on output, the missing-field warning, is kept only as the
  `Emitted(false)` outcome of `OnLine`.
- Exceptions inside a line are not derived from the keys. JavaScript's
  prototype semantics (`__proto__`, prototype pollution) are outside the model.
  The lines that throw are given as the `failing` parameter instead.
- Inherited properties such as `toString` are not looked up. In the source,
  a fresh object also replaces them, because they are not of type
  `'object'`. The model reaches the same tree by treating them as missing.
- `Val` has no array case, because the parser never stores an array. The
  `Array.isArray` test therefore falls into the not-an-object branch.
- Object key order is not modelled, because records are maps.
- `undefined` and `null` are both `None`.
- The rest object of a destructuring is never falsy, so
  `additional_info || null` is always the rest object; `ToUser` stores it
  directly.
- AgeDistribution: entries are a `Share` of the parsed count over the total,
  not `parseFloat((count / totalUsers) * 100).toFixed(2)`, because that uses
  floating point and number formatting.
- The Sequelize queries (`findAll` with `GROUP BY`, `count`, `bulkCreate`) are
  left out, because they are database calls. The `CASE` is an integer
  function, and the grouped rows and the user total are parameters.
- The response after `bulkCreate` (`src/controllers/csvController.js:105-120`)
  and the 500 error paths of both controllers are left out, because they are
  HTTP plumbing.
- ParseIntOfShowInt: `parseInt` is exact on unbounded integers. The source's
  loss of precision above 2^53 is not modelled.
- Rows are not cut to exactly the header count. The code pads short rows but
  never truncates: a longer row keeps its extra values, and
  they are ignored when building. The model follows the code (`Padded`,
  `BuildIgnoresExtraValues`).
- Not every output field is trimmed. After a wrapping pair of quotes is
  stripped, the inner text keeps its whitespace.
  The model follows the code (`CleanTrimsOrUnwraps`,
  `CleanMayLeaveWhitespace`).
- Rejoining the fields gives back the line only for lines without double
  quotes, and is stated for the scanned fields
  (`RawFieldsJoinWithoutQuotes`). A quoted field loses its quotes, so it does
  not rejoin to the line.
- The worked example of a full line (`John,Doe,30` under the headers
  `name.firstName,name.lastName,age`) is not stated as one lemma. Its parts
  are stated separately: `RowOfPlainFields`, `BuildNestedPair`, `DecimalAge`
  and `NestedNameIsComplete`.
- HTTP routing, server start-up, the database connection and the ORM model
  declaration are outside this model.
