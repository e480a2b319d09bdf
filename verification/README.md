# G85 wafer maps and lot approval rules, in Dafny

This project models the core of a lot-approval dashboard for semiconductor
wafer maps. The core has three parts.

- **The G85 codec** (`backend/utils/g85Parser.js`):
  - `parseG85` turns a G85 XML document into an in-memory wafer map. The map holds the Device header, the substrate attributes, the Bin definitions, the reference device, a die map keyed by `(x, y)` holding each die's two-character bin code, and a defects map of the reserved codes "EF" (defect) and "FA" (reference device).
  - `generateG85` writes a wafer map back out as G85 text.
  - `validateG85` checks a document's structure.
  - `getStatistics` counts dies, defects, reference dies and the occurrences of each bin code.
- **The lot routes** (`backend/routes/lots.js`):
  - the status update, which stamps the approver and time exactly on approval;
  - the guard in front of the FTP hand-off;
  - the lot, die and bin records an upload writes for a parsed map;
  - the pagination arithmetic of the lot list.
- **The route guards** (`backend/middleware/auth.js`): `protect`, which checks the Bearer token, and `authorize(...roles)`, which checks the role.

The files are:

- `common.dfy`: the shared types `Option`, `Result` and `Min`.
- `js_text.dfy`: the pieces of JavaScript string semantics the code relies on:
  - `||` on a nullable string;
  - interpolation of `null` as "null";
  - `parseInt`;
  - `String(n)`;
  - `split` and `join`;
  - `startsWith`.
- `coord_key.dfy`: the `"x,y"` string key the parser files dies under. The upload route splits this key back into numbers.
- `dom.dfy`: the parsed XML document, as the queries the codec makes of it.
- `g85_model.dfy`: the wafer-map record.
- `g85_parse.dfy`, `g85_generate.dfy` and `g85_validate.dfy`: the three codec operations.
- `g85_roundtrip.dfy`: how parsing and generating undo each other.
- `g85_stats.dfy`: `getStatistics`.
- `auth.dfy`: the two guards.
- `lots.dfy`: the lot routes' rules.

The XML library's tokenizer is not modelled. `Dom.ParsedDoc` stands for what it
returns:

- whether there was a parser error;
- the document element, if any;
- the Device, ReferenceDevice and Bin elements, in document order;
- the text content of each Row.

`G85Generate.ReadBack` states what a conforming XML parser reads from the text
the generator writes. It is only defined when every value is text that needs no
escaping (`G85Generate.Safe`), because the generator escapes nothing.
`G85Generate.Writable` states the same of a map's own values and die codes, and
`G85RoundTrip.WritableIsSafe` connects the two.

Where the system's documented behaviour and its code disagree, the model follows the code:

- `generateG85` never throws on a non-numeric `Rows` or `Columns`. `parseInt` gives NaN, and the loop simply runs zero times.
- `BinCount` is kept as the raw attribute string; it is never converted to a number.
- Dies outside the Rows × Columns rectangle are silently dropped by the generator.
- A null `BinCode` and a null reference coordinate are written as the text "null". The parser never produces them: an absent attribute reads as "".
- `validateG85` on text with no document element reports the TypeError message that reading `tagName` of null raises.
- `jwt.verify` refuses an empty or missing token before checking the signature. `protect` is modelled with that refusal, so such a request gets the generic 401.

## Model

| member | source | states |
|---|---|---|
| JsText.ParseIntDecimal | backend/utils/g85Parser.js:106-107 | `parseInt` reads the decimal text of any natural number back as that number |
| JsText.ParseIntSkipsSpace | backend/utils/g85Parser.js:106-107 | `parseInt` ignores a leading white-space character |
| JsText.ParseIntStopsAtNonDigit | backend/utils/g85Parser.js:106-107 | `parseInt` reads the decimal text of any n followed by a non-digit as n ("12px" and "12x" read as 12); only an `x` right after the text "0" is excluded, since "0x" starts a hex number |
| JsText.ParseIntHex | backend/utils/g85Parser.js:106-107 | `0x` followed by any non-empty run of hexadecimal digits reads as the run's positional base-16 value |
| JsText.DigitsValueHex | backend/utils/g85Parser.js:106-107 | the digit loop `parseInt` runs in base 16 computes the positional base-16 value of the digits |
| JsText.ParseIntNegative | backend/utils/g85Parser.js:106-107 | a leading minus negates the number read |
| JsText.ParseIntOfNull | backend/utils/g85Parser.js:106-107 | a null Rows/Columns value, interpolated as "null", reads as NaN |
| JsText.Decimal | backend/utils/g85Parser.js:80 | the text of a die index is a non-empty run of decimal digits with no leading zero |
| JsText.DecimalValue | backend/utils/g85Parser.js:80 | the decimal text of n has value n |
| JsText.SplitJoin | backend/routes/lots.js:259 | `split` loses nothing: joining the parts gives the text back, and no part holds the separator |
| JsText.SplitAtFirst | backend/middleware/auth.js:10 | the first separator ends the first part, and the rest splits independently |
| CoordKey.KeyRoundTrip | backend/routes/lots.js:259 | splitting the key `"x,y"` and converting with `Number` recovers exactly (x, y) |
| CoordKey.KeyInjective | backend/utils/g85Parser.js:80-81 | two positions never share a key, so the string-keyed die map is faithfully a map keyed by positions |
| G85Parse.RecordClassified | backend/utils/g85Parser.js:81-94 | filing one code adds exactly that die, and files it in the defects map exactly when it is "EF" or "FA", with that code's label |
| G85Parse.DecodeRowFromSpec | backend/utils/g85Parser.js:78-95 | the loop over one row adds exactly the dies from its start offset to the end of the text, each holding its two-character substring (one character at the end of an odd row), and keeps all earlier dies |
| G85Parse.DecodeRows | backend/utils/g85Parser.js:74-96 | row y of text length L yields exactly the dies (x, y) for x < ceil(L/2) with their substrings, and the defects map is exactly the reserved-code part of the die map |
| G85Parse.ParseG85 | backend/utils/g85Parser.js:9-102 | parsing fails exactly when there is no root element; otherwise each of the four substrate attributes is the root's attribute, the header is empty without a Device and otherwise lists all fifteen attributes of the first Device in order, the reference device is the first ReferenceDevice's X and Y, every Bin gives its four attributes in order, an absent attribute reading as "", and the dies and defects are as decoded |
| G85Parse.HeaderLookup | backend/utils/g85Parser.js:32-51 | looking a known attribute up in the parsed header gives the first Device element's attribute, "" when it has none |
| G85Generate.DeviceAttrs | backend/utils/g85Parser.js:117-123 | the Device element carries exactly the header entries whose value is not null |
| G85Generate.RowPayloadLength | backend/utils/g85Parser.js:142-150 | a row of two-character cells is exactly twice the column count long |
| G85RoundTrip.ParsedHeaderHasShape | backend/utils/g85Parser.js:32-51 | every parsed header is either empty or lists all fifteen known attributes in the parser's order, none of them null |
| G85RoundTrip.RowRoundTrip | backend/utils/g85Parser.js:142-150 | cutting a written row back into two-character codes gives exactly the cells it was written from |
| G85RoundTrip.DecodeGeneratedRows | backend/utils/g85Parser.js:142-150 | decoding all written rows gives exactly the Rows × Columns rectangle, each position holding its die's code or "FF" |
| G85RoundTrip.OrElseStable | backend/utils/g85Parser.js:111-114 | a default written for a null or empty attribute is written again unchanged |
| G85RoundTrip.HeaderRoundTrip | backend/utils/g85Parser.js:117-123 | the Device element written for a header reads back with every null value as "" (a null is left off and an absent attribute reads as ""), and as fifteen "" when there was no header |
| G85RoundTrip.BlankNullsParse | backend/utils/g85Parser.js:106-107 | reading a null as "" changes no number `parseInt` makes of a header value: both are NaN |
| G85RoundTrip.RereadHeaderCounts | backend/utils/g85Parser.js:106-107 | the header read back gives the generator the same Rows and Columns counts as the original |
| G85RoundTrip.CompleteHeaderRereads | backend/utils/g85Parser.js:117-123 | a header with no null value reads back unchanged |
| G85RoundTrip.BinRoundTrip | backend/utils/g85Parser.js:133-139 | a written Bin reads back with its code as interpolated and "" / "" / "0" in place of a falsy quality, description or count |
| G85RoundTrip.ClassifiedUnique | backend/utils/g85Parser.js:83-94 | the defects map is determined by the die map |
| G85RoundTrip.RoundTripHeader | backend/utils/g85Parser.js:117-123 | the header read back is the original with nulls as "" (fifteen "" for no header), and gives the same Rows and Columns counts |
| G85RoundTrip.RoundTripSubstrate | backend/utils/g85Parser.js:110-114 | the substrate attributes read back with "" for a falsy value and "1.0" for a falsy FormatRevision |
| G85RoundTrip.RoundTripReference | backend/utils/g85Parser.js:125-130 | the reference device reads back when there was one, a null coordinate as the text "null" |
| G85RoundTrip.RoundTripBins | backend/utils/g85Parser.js:132-139 | the bin list reads back in the same order with the written defaults |
| G85RoundTrip.RoundTripDies | backend/utils/g85Parser.js:141-150 | the dies read back are exactly the rectangle, holes as "FF", outside dies dropped, with the defects map classifying them |
| G85RoundTrip.SafeRoundTrip | backend/utils/g85Parser.js:104-158 | when the written tree needs no escaping and the rectangle holds two-character codes, parsing what was generated gives back every part of the map, with the defaults and losses listed above; the header comes back with nulls as "" (fifteen "" for no header), unchanged when it held no null |
| G85RoundTrip.WritableIsSafe | backend/utils/g85Parser.js:109-152 | a map whose header has the parser's shape, whose values and codes hold no character needing escape, is written as text that needs no escaping |
| G85RoundTrip.RoundTrip | backend/utils/g85Parser.js:104-158 | for a map whose header has the parser's shape, with values needing no escape and two-character codes, the generated text is well-formed and parsing it gives back every part of the map, with the defaults and losses listed above; the header comes back with nulls as "" (fifteen "" for no header), unchanged when it held no null |
| G85RoundTrip.DeviceAttrsOfNulls | backend/utils/g85Parser.js:118-122 | an all-null header writes a Device element with no attributes |
| G85RoundTrip.SafeGenerateIsStable | backend/utils/g85Parser.js:104-158 | when the written tree needs no escaping and the rectangle holds two-character codes, generating from what was read back writes the first generation's tree except that the Device element also carries the null attributes as ""; it is identical exactly when the header held no null |
| G85RoundTrip.GenerateIsStable | backend/utils/g85Parser.js:104-158 | for a map whose header has the parser's shape, with values needing no escape and two-character codes, the generated text is well-formed; generating from what was read back writes the first generation's tree except that the Device element also carries the null attributes as "", and it writes the identical text exactly when the header held no null |
| G85RoundTrip.StableHeader | backend/utils/g85Parser.js:117-123 | the Device element written from the header read back equals the first one exactly when the header held no null |
| G85RoundTrip.DeviceAttrsCount | backend/utils/g85Parser.js:118-122 | the Device element carries one attribute per header entry exactly when no header value is null |
| G85RoundTrip.SafeExactRoundTrip | backend/utils/g85Parser.js:9-102 | a map with a full header holding no null, every attribute present and dies exactly filling the rectangle with two-character codes, whose written tree needs no escaping, is parsed back exactly as it was |
| G85RoundTrip.ExactRoundTrip | backend/utils/g85Parser.js:9-102 | a map with a full header holding no null, every attribute present, dies exactly filling the rectangle with two-character codes, and values and codes needing no escape is written as well-formed text and parsed back exactly as it was |
| G85RoundTrip.OddRowDecodes | backend/utils/g85Parser.js:78-81 | the odd-length Row "ABC" is cut into the dies "AB" at column 0 and "C" at column 1 |
| G85RoundTrip.OddRowEmits | backend/utils/g85Parser.js:142-149 | with one row of three columns, those dies are written as the single Row "ABCFF" |
| G85RoundTrip.PaddedRowDecodes | backend/utils/g85Parser.js:78-81 | the Row "ABCFF" is cut into "AB", "CF" and "F" |
| G85RoundTrip.OddRowNotRestored | backend/utils/g85Parser.js:74-150 | parsing, generating and parsing a Row of odd length does not give back the dies first read: "AB", "C" becomes "AB", "CF", "F" |
| G85Validate.ValidateG85 | backend/utils/g85Parser.js:160-190 | each error message is reported exactly when its check is the first to fail: parser error, no root, a root other than Map, no Device, no Row |
| G85Validate.ValidIff | backend/utils/g85Parser.js:160-190 | a document passes exactly when it parsed cleanly with a Map root, a Device and a Row, and every failure carries one of the five messages |
| G85Validate.ValidParses | backend/routes/lots.js:203-213 | a document that passes validation also parses, to a full header and a die at the start of every non-empty row |
| G85Validate.ParseIsLenient | backend/utils/g85Parser.js:22-33 | the parser accepts documents the validator rejects |
| G85Validate.GeneratedValidates | backend/utils/g85Parser.js:181-184 | for a map whose header has the parser's shape, with values needing no escape, generated text is well-formed and passes validation exactly when Rows parses to a positive number, and otherwise fails with "No Row elements found" |
| G85Stats.TallyStep | backend/utils/g85Parser.js:203-217 | counting one more die raises the total, the count of its own code and the matching reserved count by one, and nothing else |
| G85Stats.GetStatistics | backend/utils/g85Parser.js:192-220 | in any visiting order: the total is the number of dies, the defect and reference counts are the numbers of "EF" and "FA" dies, and the distribution holds exactly the occurring codes with their occurrence counts |
| G85Stats.CountsAddUp | backend/utils/g85Parser.js:212-216 | the counts of the distinct occurring codes add up to the number of dies |
| G85Stats.DistributionSumsToTotal | backend/utils/g85Parser.js:212-216 | the distribution sums to the total, whatever order its codes are listed in |
| G85Stats.ReservedWithinTotal | backend/utils/g85Parser.js:203-210 | defective and reference dies together never exceed the dies |
| G85Stats.CountsMatchDefects | backend/utils/g85Parser.js:203-210 | for a parsed map, the defect and reference counts are the numbers of "EF" and "FA" entries of its defects map, and together all of them |
| G85Stats.StatisticsDetermined | backend/utils/g85Parser.js:203 | the statistics do not depend on the order the dies are visited in |
| G85Stats.StatisticsBounded | backend/utils/g85Parser.js:203-216 | the reserved counts are bounded by the total, and the distribution's "EF" entry is the defect count |
| Auth.BearerTokenOf | backend/middleware/auth.js:7-10 | the header "Bearer t", for a token t with no space, starts with "Bearer" and hands over exactly t |
| Auth.Protect | backend/middleware/auth.js:4-45 | every refusal is a 401 with one of the two messages; a request passes only with a Bearer header whose non-empty token verifies to an id the lookup finds, carrying that user; "User not found" only when the token verified and no user was found |
| Auth.ProtectAccepts | backend/middleware/auth.js:7-29 | a well-formed Bearer header whose token verifies to an existing user passes with that user |
| Auth.ProtectNeedsBearer | backend/middleware/auth.js:39-44 | without a Bearer header the request is refused with 401, whatever the token and user services say |
| Auth.Authorize | backend/middleware/auth.js:47-65 | the request passes exactly when a user is attached and its role is listed; 401 without a user; 403 naming the role otherwise |
| Auth.GuardOutcomes | backend/routes/lots.js:324 | behind both guards a request reaches the handler exactly when its token names a user whose role is listed; a 403 only reaches authenticated users; `authorize`'s own 401 cannot happen |
| Lots.UpdateLotStatus | backend/routes/lots.js:324-370 | an unknown status is a 400 and an unknown id a 404, both writing nothing; otherwise only that lot changes, to the new status, with approver and time set exactly when approved |
| Lots.UpdateIdempotent | backend/routes/lots.js:338-349 | repeating an update at any later time changes nothing but the approval time, which becomes the second time on approval; with any other status, or at the same time, the table is unchanged |
| Lots.LastUpdateWins | backend/routes/lots.js:338-349 | after two valid updates only the last one's status and stamping remain |
| Lots.FtpGuard | backend/routes/lots.js:375-406 | a lot goes to FTP exactly when it exists, is approved and its file exists; otherwise the first failing check gives its 404 or 400 |
| Lots.ApprovalOpensFtp | backend/routes/lots.js:394-399 | right after approval a lot may go to FTP exactly when its file exists; after any other status it is refused with 400 |
| Lots.DieRecordFor | backend/routes/lots.js:258-273 | a die's record is at the position its key names, with its code, and flagged with type "defect" exactly when the code is classified as a defect, a reference die not |
| Lots.RecordsForStep | backend/routes/lots.js:258-274 | writing one more die's record keeps the records one per visited die, at distinct positions, with the flagged count equal to the "EF" count |
| Lots.RecordsForAll | backend/routes/lots.js:258-274 | the records written for all dies are as many as the dies, their set is exactly the set of each die's record, and as many are flagged as there are "EF" dies |
| Lots.RecordOfUnique | backend/routes/lots.js:258-273 | a record that describes a die at a position with a code is that die's record |
| Lots.DieRecords | backend/routes/lots.js:257-274 | in any iteration order, the upload writes the records for all dies of the map |
| Lots.DefectFlagsMatchDefects | backend/routes/lots.js:260 | for a parsed map, a die record is flagged exactly when the defects map files its position as "EF" |
| Lots.StoreMap | backend/routes/lots.js:212-299 | the lot row carries every column the upload writes: the original file name (in both name columns), the file's path and size, the uploader, the description, the three substrate attributes, the header's LotId, ProductId, WaferSize, Rows and Columns, and the statistics' totals; the die rows are exactly the records of the map's dies, and there is one bin row per bin, in order |
| Lots.UploadLot | backend/routes/lots.js:184-319 | no file is a 400 "No file uploaded"; a file that fails validation is a 400 with the validator's message; otherwise the map is parsed and stored as above |
| Lots.Pages | backend/routes/lots.js:105 | the page count is the ceiling of total / limit (for a negative limit too), and no number for a zero limit |
| Lots.PagesCoverTotal | backend/routes/lots.js:74-75 | with a positive limit, lot i is on page i / limit + 1, which lies between 1 and the page count, and that page's window holds i |

## Left out

- The XML tokenizer and tree builder are abstracted as `Dom.ParsedDoc`. The model does not check that the generated text re-tokenizes; `G85Generate.ReadBack` states what a conforming parser reads, assuming the text needs no escaping.
- `G85RoundTrip.RoundTrip` and `G85RoundTrip.GenerateIsStable` ask every die code to be two characters long, not only those inside the Rows × Columns rectangle; `G85RoundTrip.SafeRoundTrip` and `G85RoundTrip.SafeGenerateIsStable` state the same properties for the rectangle alone.
- `G85RoundTrip.RoundTrip`, `G85RoundTrip.GenerateIsStable`, `G85RoundTrip.ExactRoundTrip` and `G85Validate.GeneratedValidates` say nothing about values holding `<`, `&`, `"` or a control character, nor about die codes holding `]`: the generator writes those unescaped, and what an XML parser makes of the result is not modelled.
- `Dom.GetAttribute` follows the `xmldom` package, which answers "" (never null) for an absent attribute. So a parsed map never holds null, and a null only enters through a map handed to the generator from elsewhere. A null header value is left off the Device element and reads back as ""; a null `BinCode` or reference coordinate is written, and read back, as the text "null". A map whose Bin or reference device lacks the key altogether (possible only in a JSON body) would have it written as "undefined"; the model has no separate undefined.
- `generateG85`'s catch, which rethrows any error as "Failed to generate G85 file: …", is not modelled. `G85Model.MapData` always holds a die map, a header and a bin list, so the error it guards against cannot arise here. The route that hands `generateG85` a JSON body whose `dies` is a plain object without `get` is not part of this model.
- Strings are sequences of Unicode scalar values, while JavaScript measures and cuts strings in UTF-16 code units. A Row holding a character outside the Basic Multilingual Plane, such as "😀A", is cut into two-character codes differently by the original code; the model cuts by scalar value.
- `G85RoundTrip.ExactRoundTrip` and `G85RoundTrip.SafeExactRoundTrip` ask for a header with no null value. A null header value is left off the Device element and reads back as "", so such a map never comes back exactly; `G85RoundTrip.HeaderRoundTrip` states what it comes back as.
- `G85RoundTrip.RoundTrip`, `G85RoundTrip.SafeRoundTrip` and `G85RoundTrip.ExactRoundTrip` do not restore Rows of odd length: the last one-character die is padded when written and the row is cut differently when read again. `G85RoundTrip.OddRowNotRestored` shows this for the Row "ABC" with Columns 3. The round-trip lemmas therefore ask for two-character codes.
- The database is reduced to the records written and read:
  - SQL text, transactions, rollback, commit and the 500 answers for database failures are not modelled;
  - the new lot's id is a parameter of `UploadLot`.
- File handling by multer and `fs` (storage, the file filter, the size limit, deleting rejected files) is not modelled. File existence is a parameter of `FtpGuard`.
- The FTP service, `generateRemoteFileName` and the upload history are not part of this model.
- The list, single-lot and delete routes are not modelled beyond the pagination arithmetic:
  - the status filter and LIKE search are SQL;
  - the string-to-number coercion of `page` and `limit` is not modelled: both are taken as integers.
- Token signing and the login routes are not modelled. `jwt.verify` is a function parameter of `Protect`, and the user query is a parameter too.
- `Lots.Pages`: JavaScript number precision is not modelled. Integers are unbounded, and `Math.ceil(total / limit)` is computed exactly.
- `Lots.Pages`: the zero and negative limits are modelled as `Math.ceil` computes them, but such a request never reaches the response. The list query (`backend/routes/lots.js:74-75`) would ask the database for `FETCH NEXT 0 ROWS` or a negative count, which SQL Server rejects, so the route answers 500. The database is not part of this model.
- `Lots.DieRecordFor`: `Number` is modelled only on the decimal keys the parser writes; other keys give None.
- `G85Stats.GetStatistics`: the distribution is modelled as a map from code to count. In JavaScript it is a plain object, which would misbehave for a code that names an `Object.prototype` member (such as "toString"). Codes here are at most two characters, so this cannot happen.
- The iteration order of JavaScript's `Map` is insertion order. The model visits dies in an arbitrary order, and every stated property holds for every order.
- The React front end and its API client are not part of this model.
