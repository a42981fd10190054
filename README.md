# qr-contact-generator, modelled in Dafny

The QR contact generator reads a spreadsheet of contacts. Each row becomes a
vCard, which is rendered as a QR-code PNG. The file is named after the
contact's name and phone. This project models the part of
`src/generate-qr.js` that decides what happens to each row:

- `sanitize.dfy` (module `Sanitize`) covers `sanitizeFilename`. It is the four-stage transform: ASCII lower-case, mask everything outside `[a-z0-9]` with `-`, collapse runs of `-`, and strip one `-` from each end. The module proves that every output is *clean*: it holds only `[a-z0-9-]`, no `--`, and no `-` at either end. It also proves that sanitising is idempotent, that its fixed points are exactly the clean strings, that every ASCII letter and digit survives in order, and that the output is empty exactly when the input has no ASCII letter or digit. Any non-empty stretch without ASCII letters or digits between two clean parts becomes exactly one hyphen.
- `decimal.dfy` (module `Decimal`) covers how a template literal writes the millisecond timestamp. It proves a round trip through a digit-string reader and injectivity.
- `contacts.dfy` (module `Contacts`) covers the alias-tolerant field resolution of `createVCard`. A chain `a || b || ''` over cells becomes a first-non-empty search over an ordered key list, proved to pick the first key whose cell is non-empty, or else the default.
- `filenames.dfy` (module `Filenames`) covers the output file name `{namePart || "contact"}-{mobilePart || timestamp}.png`. The timestamp is a parameter. The module proves:
  - The stem before `.png` is always non-empty and already sanitised.
  - Each fallback is taken exactly when the sanitised part would be empty.
  - The clock matters exactly when the phone yields nothing.
  - Two rows with the same resolved name and the same phone collide, when that phone holds an ASCII letter or digit.
- `generate.dfy` (module `Generate`) covers `generateQrCodeForContact` as a total function from a row to a `Success`/`Failure` result, and the batch loop of `generateBulkQrCodes` as a method. The method is proved to give one result per row, in row order, with success and failure counts that add up to the number of rows.

The vCard library (`vcards-js`) and the QR renderer (`QRCode.toFile`) are code outside this repository. They enter as function parameters that return either a value or a thrown error's message (`Outcome`). `Date.now()` enters as a clock function from row position to milliseconds.

Where the code and its description disagree, the model follows the code:

- A row with no name and no phone columns is named `unknown-<timestamp>.png`, not `contact-<timestamp>.png`. The first name defaults to `'unknown'` before sanitising (line 100), so the name part is never empty in that case; see `Filenames.NoNameNoPhone`. `"contact"` is used only when the names hold no ASCII letter or digit at all; see `Filenames.PunctuationNameGivesContact`.
- Column headers are matched exactly, against the key lists at lines 60-74 and 100-102, not case-insensitively. `FIRSTNAME`, for example, is not read.
- The display name of a failed row uses the default `'Unknown'` (line 124). The display name of a successful row uses `'unknown'` (line 100).

## Model

| member | source | states |
|---|---|---|
| Sanitize.ToLower | src/generate-qr.js:83 | the result has the input's length, and each character is the ASCII lower-case of the input's character at that position |
| Sanitize.MaskNonAlnum | src/generate-qr.js:84 | the result has the input's length, each character outside [a-z0-9] is replaced by `-` and every other is kept, and the result is over [a-z0-9-] |
| Sanitize.CollapseHyphens | src/generate-qr.js:85 | the result has no two adjacent hyphens, is no longer than the input, keeps the first and last character, and keeps the alphabet; where each run goes is stated by CollapseSplit and CollapseHyphenRun |
| Sanitize.CollapseSplit | src/generate-qr.js:85 | after a character that is not a hyphen, the two sides collapse independently, so no run reaches across a letter or digit |
| Sanitize.CollapseHyphenRun | src/generate-qr.js:85 | a run of one or more hyphens that is not followed by another hyphen becomes exactly one hyphen |
| Sanitize.StripEdgeHyphens | src/generate-qr.js:86 | the result is the input with at most its first and at most its last character removed, each only when it is a hyphen; a leading hyphen is always removed, and so is a trailing one that is not the leading one; on a string without doubled hyphens, the result has no hyphen at either end and still no doubled hyphen; a string without edge hyphens is returned unchanged |
| Sanitize.SanitizeFilename | src/generate-qr.js:80-87 | every output is clean: only [a-z0-9-], no `--`, no leading or trailing `-` |
| Sanitize.CleanIsFixpoint | src/generate-qr.js:80-87 | a clean string is left unchanged by the sanitiser |
| Sanitize.SanitizeIdempotent | src/generate-qr.js:80-87 | sanitising twice gives the same as sanitising once |
| Sanitize.SanitizeFixpointIff | src/generate-qr.js:80-87 | the sanitiser leaves a string unchanged if and only if the string is clean |
| Sanitize.CollapseKeepsAlnums | src/generate-qr.js:85 | collapsing hyphens drops only hyphens: the letters and digits stay in order |
| Sanitize.SanitizeKeepsAlnums | src/generate-qr.js:80-87 | the output without its hyphens is exactly the ASCII letters and digits of the lower-cased input, in order |
| Sanitize.SanitizeEmptyIff | src/generate-qr.js:80-87 | the output is empty if and only if the lower-cased input has no ASCII letter or digit |
| Sanitize.SanitizeCleanThenHyphen | src/generate-qr.js:86 | a trailing hyphen after a non-empty clean string is stripped |
| Sanitize.SanitizeJunkThenClean | src/generate-qr.js:84-86 | a leading non-alphanumeric character (such as `+`) before a non-empty clean string disappears |
| Sanitize.SanitizeLowerClean | src/generate-qr.js:83-87 | a string whose lower-cased form is clean sanitises to that form |
| Sanitize.SanitizeSeparator | src/generate-qr.js:83-87 | between two clean non-empty strings, any non-empty stretch without ASCII letters or digits (spaces, punctuation, several hyphens) becomes exactly one hyphen |
| Sanitize.SanitizeIgnoresCase | src/generate-qr.js:83-87 | two inputs that differ only in the case of ASCII letters sanitise to the same output, so such names collide |
| Decimal.NatToDecimal | src/generate-qr.js:108 | the numeral of a timestamp is non-empty, all digits, and has no leading zero unless it is 0 |
| Decimal.DecimalRoundTrip | src/generate-qr.js:108 | reading back the numeral of n gives n |
| Decimal.NatToDecimalInjective | src/generate-qr.js:108 | two timestamps have the same numeral if and only if they are equal |
| Contacts.Resolve | src/generate-qr.js:60-66 | the result is the cell of the first key whose cell is non-empty, or the default when every cell is empty or missing |
| Contacts.FirstHitOrNone | src/generate-qr.js:60-66 | a key list either has a first non-empty key or none at all, so the resolution is always determined |
| Contacts.CardFieldsOf | src/generate-qr.js:56-77 | first name, last name, organization, title, email, work phone, url and note are each resolved from their own alias list with the empty default; a postal entry is set if and only if `address` or `Address` is non-empty; its label is "Work Address" and its street is `address`, falling back to `Address` |
| Contacts.AddressResolution | src/generate-qr.js:69-72 | the address alias pair resolves to `address` when that is non-empty, else to `Address` |
| Contacts.WorkPhoneWins | src/generate-qr.js:65 | a non-empty `workPhone` is the phone, whatever the other phone columns hold |
| Contacts.MobileFallback | src/generate-qr.js:65 | `mobile` is used when both work-phone spellings are empty |
| Contacts.DesignationFallback | src/generate-qr.js:63 | with both title spellings empty, the title is the `designation` cell |
| Filenames.FileFirstName | src/generate-qr.js:100 | the file name's first name is `firstName`, else `FirstName`, else "unknown", and is never empty |
| Filenames.FullName | src/generate-qr.js:105 | the joined `first-last` string has exactly the letters and digits of the first name followed by those of the last name |
| Filenames.NamePart | src/generate-qr.js:100-108 | the name part is never empty and is clean |
| Filenames.PhonePart | src/generate-qr.js:102-108 | the phone part is never empty and is clean |
| Filenames.DeriveFilename | src/generate-qr.js:108 | the file name is a clean stem of at least three characters followed by ".png" |
| Filenames.FilenameStemIsSanitized | src/generate-qr.js:99-108 | every file name ends in ".png", and the stem before it is non-empty and is a fixed point of the sanitiser |
| Filenames.NamePartFallback | src/generate-qr.js:105-108 | "contact" is used exactly when `first-last` has no ASCII letter or digit; otherwise the name part is the sanitised `first-last` and keeps all of its lower-cased letters and digits |
| Filenames.PhonePartFallback | src/generate-qr.js:106-108 | the timestamp is used exactly when the phone has no ASCII letter or digit; otherwise the phone part is the sanitised phone and keeps its letters and digits |
| Filenames.NoNameNoPhone | src/generate-qr.js:100-108 | a row without name and phone columns is named `unknown-<timestamp>.png` |
| Filenames.PunctuationNameGivesContact | src/generate-qr.js:100-108 | a first name of punctuation only, with no last name or phone, gives `contact-<timestamp>.png` |
| Filenames.ClockIrrelevantWithPhone | src/generate-qr.js:106-108 | with a usable phone, the file name does not depend on the clock |
| Filenames.ClockDistinguishesWithoutPhone | src/generate-qr.js:106-108 | without a usable phone, different timestamps give different file names |
| Filenames.SameFieldsCollide | src/generate-qr.js:100-109 | rows with the same resolved first name and last name, and the same phone holding an ASCII letter or digit, get the same file name whatever the clock says |
| Filenames.JaneDoeExample | src/generate-qr.js:99-108 | Jane Doe with work phone `+1-555-0100` is named `jane-doe-1-555-0100.png` |
| Generate.SuccessName | src/generate-qr.js:119 | the display name of a success is `firstName`, else `FirstName`, else "unknown", then a space and the last name |
| Generate.FailureName | src/generate-qr.js:124 | the display name of a failure is `firstName`, else `FirstName`, else "Unknown", then a space and the last name |
| Generate.DisplayNamesAgree | src/generate-qr.js:119-124 | the two display names agree if and only if the row has a first-name cell |
| Generate.Classify | src/generate-qr.js:95-126 | given the card text or the formatter's error: success exactly when the header matches and the render succeeds; otherwise a failure carrying the formatter's message, "Invalid vCard format", or the renderer's message |
| Generate.GenerateForContact | src/generate-qr.js:90-127 | the result is a success if and only if the card is formatted, starts with BEGIN:VCARD and is rendered; a success carries the derived file name and the "unknown"-defaulted name; a failure carries the "Unknown"-defaulted name and the message of the step that threw, "Invalid vCard format" for a bad header, and the renderer's own message when rendering throws |
| Generate.CountsPartition | src/generate-qr.js:161-167 | every result is counted as exactly one of success and failure, so the counts add up to the number of results |
| Generate.CountsSnoc | src/generate-qr.js:159-167 | pushing one result adds one to exactly the count of its kind |
| Generate.RunBatch | src/generate-qr.js:150-168 | one result per row, in row order, each the step applied to that row; the counts equal the successes and failures among the results and add up to the number of rows |
| Generate.GenerateBulk | src/generate-qr.js:144-168 | every row, failing or not, gets its own generateQrCodeForContact result at its position, with the timestamp the clock gives for that position; the counts agree with the results and add up to the number of rows |

## Left out

- Spreadsheet reading (`readContactsFromExcel`, XLSX parsing, `process.exit` on a read error): the model starts from the list of rows, each a map from column header to cell text.
- vCard serialisation by `vcards-js`: the formatter is a parameter. The model states which fields are set on the card (`CardFieldsOf`) and what the result is for any formatter, throwing or not.
- `QRCode.toFile` and the PNG it writes: the renderer is a parameter that may throw. The request records the folder, file name, payload and options ('H', png, margin 4, scale 8). `path.join` is not modelled: folder and file name are kept apart.
- The output folder's creation (`fs`), command-line parsing (`yargs`), every console message and the summary banner: these are I/O with no effect on the results.
- The early return on an empty sheet prints a message and skips the loop. In the model the empty list gives an empty result list with zero counts.
- `Date.now()` is the clock parameter. The model does not assume that successive calls increase.
- `async`/`await`: the rows are processed one after the other, as the loop awaits each one, so the model is sequential.
- Cell values that are not strings (numbers, booleans) and JavaScript truthiness of them: every cell is text, and only the empty string is falsy. In the source, a numeric phone cell makes `sanitizeFilename` call `toLowerCase` on a number, which throws, so that row becomes a failure; the model, holding only text, does not have this case.
- Sanitize.ToLower: lower-cases ASCII letters only. Unicode case mappings (such as U+0130 or the Kelvin sign, which lower-case to ASCII letters) are not modelled.
- Generate.GenerateForContact: an exception thrown by the failure handler itself is not modelled, for example from a `contact` that is not an object.
