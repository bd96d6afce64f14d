# CSV upload pipeline and access middleware of the admin dashboard

This project models, in Dafny, the two pieces of the admin dashboard that carry logic of their own.

1. **The CSV ingestion pipeline** of the inline upload widget (`src/app/dashboard/CsvUploadInline.tsx`, lines 9-48).
   - `splitCSVLine` is a one-pass character scanner. A `"` flips quote mode and is dropped. A `,` outside quote mode ends a field.
   - `parseCSVPreview` splits the text into lines and drops the blank ones. It takes the header names from the first line with a plain `split(",")`. It then looks at no more than the next 50 lines and keeps each line whose field count equals the header count, as a header → trimmed value row.
   - `validateColumns` compares the header names with the expected columns of a table. It ignores case and surrounding whitespace. It accepts the file when at least half of the expected columns (rounded up) are present and no more than two are missing.
2. **The request middleware** (`src/middleware.ts`, lines 4-22). The login page and the login endpoint are always let through. Any other path is let through only when the `admin_auth` cookie is exactly `authenticated`; otherwise the request is redirected to `/login`.

Files:

- `js_strings.dfy`, module `JsStrings`: the JavaScript string built-ins the pipeline uses: `trim`, `toLowerCase` and `split` on one character. It also defines `join` with one character, which the code does not call, as the inverse of `split` for the round-trip lemmas. The module proves their properties: what `trim` cuts off, the piece count of a split, and that split and join are inverses.
- `csv_upload.dfy`, module `CsvUpload`: the three pipeline functions.
  - `SplitCsvLine` and `ParseCsvPreview` are methods with loops, as in the source. Each is proved equal to a reference function (`Fields`, `PreviewOf`), and the lemmas state what those functions promise.
  - `ValidateColumns` is a function, as in the source.
- `middleware.dfy`, module `Middleware`: the access decision. It is a function of the request path and the cookie jar.

Unlike the data lines, the header line does not go through `splitCSVLine`: it is split with a plain `split(",")` (`CsvUploadInline.tsx:26`), so quotes in the header are not honoured. `HeaderNames` uses `SplitOn` accordingly, and `HeaderShape` states the consequence.

The sample cap follows the code too. At most 50 *candidate* lines after the header are examined (`i < Math.min(lines.length, 51)`). This is not "the first 50 well-formed rows": a ragged line among the first 50 lowers the row count and is not replaced by a later line.

## Model

| member | source | states |
|---|---|---|
| `CsvUpload.Fields` | src/app/dashboard/CsvUploadInline.tsx:13-19 | The reference tokenizer, by recursion on the line from a given quote mode: a `"` flips the mode and is dropped, an unquoted `,` starts a new field, any other character joins the current field. There is always at least one field. |
| `CsvUpload.SplitCsvLine` | src/app/dashboard/CsvUploadInline.tsx:9-21 | The left-to-right scan with `current`, `inQuotes` and `result` returns exactly the fields of the reference tokenizer `Fields(line, false)`, which starts outside quote mode. |
| `CsvUpload.FieldsCount` | src/app/dashboard/CsvUploadInline.tsx:13-19 | There is one field per comma met outside quote mode, plus one. So there is always at least one field. |
| `CsvUpload.FieldsQuoteFree` | src/app/dashboard/CsvUploadInline.tsx:15 | No field ever contains a `"`. |
| `CsvUpload.FieldsConcat` | src/app/dashboard/CsvUploadInline.tsx:13-19 | The fields laid end to end are the line with every `"` and every unquoted `,` removed. Nothing else is lost or added. |
| `CsvUpload.FieldsWithoutQuotes` | src/app/dashboard/CsvUploadInline.tsx:13-19 | On a line without `"`, the tokenizer gives the same result as a plain `split(",")`. |
| `CsvUpload.QuotedCommaExample` | src/app/dashboard/CsvUploadInline.tsx:9-21 | `a,"b,c",d` splits into `a`, `b,c`, `d`. |
| `CsvUpload.DropCR` | src/app/dashboard/CsvUploadInline.tsx:24 | Removes exactly one carriage return, and only when it is the last character; a line without carriage returns is unchanged. |
| `CsvUpload.SplitLines` | src/app/dashboard/CsvUploadInline.tsx:24 | `text.split(/\r?\n/)` is rendered as a split at every line feed. Every piece except the last then loses the one carriage return that may end it, since a `\r` directly before a `\n` belongs to the separator. The last piece is followed by no line feed and is kept whole. There is one line per piece of the line-feed split. |
| `CsvUpload.SplitLinesWithoutCR` | src/app/dashboard/CsvUploadInline.tsx:24 | A text without carriage returns splits into exactly its pieces between line feeds. |
| `CsvUpload.SingleLineKeepsCR` | src/app/dashboard/CsvUploadInline.tsx:24 | A text without line feeds is a single line, kept whole, including a trailing `\r`. |
| `CsvUpload.CarriageReturnExample` | src/app/dashboard/CsvUploadInline.tsx:24 | `a\r\nb\r` splits into `a` and `b\r`: the `\r` before the line feed goes, the final one stays. |
| `CsvUpload.NonBlank` | src/app/dashboard/CsvUploadInline.tsx:24 | `.filter((l) => l.trim())`: keeps at most as many lines as it is given; which ones is stated by `NonBlankMembers`. |
| `CsvUpload.Lines` | src/app/dashboard/CsvUploadInline.tsx:24 | The `lines` the function works on: the non-blank lines of the split, never more than there are pieces between line feeds. |
| `CsvUpload.TrimAll` | src/app/dashboard/CsvUploadInline.tsx:26 | `.map((h) => h.trim())`: one trimmed piece per piece, in order. |
| `CsvUpload.HeaderNames` | src/app/dashboard/CsvUploadInline.tsx:26 | `lines[0].split(",").map((h) => h.trim())`: at least one header name, even for a line without commas; `HeaderShape` states the rest. |
| `CsvUpload.SampleRows` | src/app/dashboard/CsvUploadInline.tsx:28-34 | The loop's rows written as a function of the candidate lines: never more rows than candidate lines. |
| `CsvUpload.RowOf` | src/app/dashboard/CsvUploadInline.tsx:31-32 | The row object as a map, built by one write `headers[i] := trim(values[i])` per header in header order; its keys and last-write-wins values are stated by `RowKeys` and `RowLastWriteWins`. |
| `CsvUpload.BuildRow` | src/app/dashboard/CsvUploadInline.tsx:31-32 | The `forEach` that writes `row[h] = values[idx].trim()` in header order builds `RowOf(headers, values)`. |
| `CsvUpload.ParseCsvPreview` | src/app/dashboard/CsvUploadInline.tsx:23-36 | The loop over the candidate lines returns `PreviewOf(Lines(text))`. That is the header names of the first non-blank line, plus the rows of the next lines up to the cap. |
| `CsvUpload.PreviewOf` | src/app/dashboard/CsvUploadInline.tsx:25-28 | With no lines, the result has no headers and no rows. Otherwise there are at most `min(50, lines - 1)` rows. |
| `CsvUpload.SampleRowsStep` | src/app/dashboard/CsvUploadInline.tsx:28-34 | Examining one more candidate line appends its row when its field count matches, and appends nothing otherwise. |
| `CsvUpload.NonBlankMembers` | src/app/dashboard/CsvUploadInline.tsx:24 | The line filter keeps exactly the lines whose trim is non-empty. |
| `CsvUpload.NonBlankAppend` | src/app/dashboard/CsvUploadInline.tsx:24 | The line filter keeps the order of the lines it keeps. |
| `CsvUpload.BlankTextNoLines` | src/app/dashboard/CsvUploadInline.tsx:24 | Text made only of whitespace has no non-blank line. |
| `CsvUpload.TextWithContentHasLine` | src/app/dashboard/CsvUploadInline.tsx:24 | Text with a non-whitespace character has a non-blank line. |
| `CsvUpload.LinesEmptyIff` | src/app/dashboard/CsvUploadInline.tsx:24 | Text has no non-blank line if and only if it is empty or whitespace only. |
| `CsvUpload.BlankTextPreview` | src/app/dashboard/CsvUploadInline.tsx:24-25 | Empty or whitespace-only text gives empty headers and rows. The headers are empty only for such text. |
| `CsvUpload.HeaderShape` | src/app/dashboard/CsvUploadInline.tsx:26 | The header count is the number of commas in the first line plus one, with quotes ignored. Each name is the trimmed piece between commas. It is its own trim and holds no comma. |
| `CsvUpload.HeaderNamesRoundTrip` | src/app/dashboard/CsvUploadInline.tsx:26 | Joining the header names with commas and parsing them again gives the same names. |
| `CsvUpload.LaterLinesIgnored` | src/app/dashboard/CsvUploadInline.tsx:28 | Lines after the header and the 50 lines that follow it never change the preview. |
| `CsvUpload.SampleRowsAppend` | src/app/dashboard/CsvUploadInline.tsx:28-34 | The rows of two consecutive runs of candidate lines are the rows of the first run followed by those of the second. |
| `CsvUpload.CandidateContributes` | src/app/dashboard/CsvUploadInline.tsx:29-33 | A candidate line contributes one row if and only if its field count equals the header count. That row sits between the rows of the earlier and the later lines. |
| `CsvUpload.AllCandidatesFit` | src/app/dashboard/CsvUploadInline.tsx:29-33 | When every candidate line has the header's field count, each one gives a row. |
| `CsvUpload.WellFormedRowCount` | src/app/dashboard/CsvUploadInline.tsx:28-34 | A file with `k` data lines that all match the header count previews `min(k, 50)` rows. |
| `CsvUpload.RowKeys` | src/app/dashboard/CsvUploadInline.tsx:31-32 | A row's keys are exactly the header names. |
| `CsvUpload.RowLastWriteWins` | src/app/dashboard/CsvUploadInline.tsx:32 | Each header name maps to the trimmed value at its last position in the header. With duplicate names, the last write wins. |
| `CsvUpload.SampleRowKeys` | src/app/dashboard/CsvUploadInline.tsx:28-34 | Every retained row has exactly the header names as keys. |
| `CsvUpload.RaggedLineExample` | src/app/dashboard/CsvUploadInline.tsx:23-36 | The lines `a,b`, `1,2,3`, `4,5` give headers `a`, `b` and a single row `{a: "4", b: "5"}`. The three-field line is dropped. |
| `CsvUpload.RaggedTextExample` | src/app/dashboard/CsvUploadInline.tsx:23-36 | The uploaded text `a,b\n1,2,3\n4,5` previews as headers `a`, `b` and the single row `{a: "4", b: "5"}`; through `ParseCsvPreview`'s contract this is the method's result. |
| `CsvUpload.AbsentMembers` | src/app/dashboard/CsvUploadInline.tsx:43-44 | The filter keeps exactly the names whose lower-cased, trimmed form is not in the reference list. |
| `CsvUpload.Absent` | src/app/dashboard/CsvUploadInline.tsx:43-44 | `names.filter((h) => !reference.includes(h.toLowerCase().trim()))`: never keeps more names than it is given; which ones is stated by `AbsentMembers`, their order by `AbsentAppend`. |
| `CsvUpload.Normalize` | src/app/dashboard/CsvUploadInline.tsx:41-44 | `h.toLowerCase().trim()`: the normal form is never longer than the name. |
| `CsvUpload.NormalizeIdempotent` | src/app/dashboard/CsvUploadInline.tsx:41-44 | Normalising a normal form changes nothing: no ASCII capital and no surrounding whitespace is left. |
| `CsvUpload.NormalizeAll` | src/app/dashboard/CsvUploadInline.tsx:41-42 | `names.map((h) => h.toLowerCase().trim())`: one normal form per name, in order. |
| `CsvUpload.AbsentNone` | src/app/dashboard/CsvUploadInline.tsx:43-44 | Against an empty reference list every name is kept, in order. |
| `CsvUpload.AbsentUnlisted` | src/app/dashboard/CsvUploadInline.tsx:43-44 | Names that are their own normal form (lower-cased and trimmed already) and are all outside the reference list are all kept, in order. |
| `CsvUpload.AbsentListed` | src/app/dashboard/CsvUploadInline.tsx:43-44 | Names that are their own normal form (lower-cased and trimmed already) and are all in the reference list are all dropped. |
| `CsvUpload.HalfUp` | src/app/dashboard/CsvUploadInline.tsx:46 | `Math.ceil(n * 0.5)` is the least whole number that is at least half of `n`. |
| `CsvUpload.ValidateColumns` | src/app/dashboard/CsvUploadInline.tsx:38-48 | An unknown table gives `{valid: true, missing: [], unexpected: []}`. Otherwise `missing` holds exactly the expected names absent from the normalised CSV headers, and `unexpected` exactly the CSV names absent from the normalised expected names. The file is valid if and only if at most `min(2, expected/2)` names are missing. |
| `CsvUpload.AbsentAppend` | src/app/dashboard/CsvUploadInline.tsx:43-44 | The `missing` and `unexpected` filters preserve order. |
| `CsvUpload.AbsentSameReference` | src/app/dashboard/CsvUploadInline.tsx:43-44 | The filters depend only on which names the reference list holds, not on their order or repeats. |
| `CsvUpload.AbsentShrinks` | src/app/dashboard/CsvUploadInline.tsx:43 | A larger reference list leaves no more names missing. |
| `CsvUpload.ExtraColumnsKeepValid` | src/app/dashboard/CsvUploadInline.tsx:43-46 | Adding columns to an accepted file never makes it rejected. Unexpected columns never count against the file. |
| `CsvUpload.SameNamesSameVerdict` | src/app/dashboard/CsvUploadInline.tsx:42-46 | Two header lists with the same set of normalised names get the same verdict and the same `missing` list. |
| `CsvUpload.EmptyExpectationAccepts` | src/app/dashboard/CsvUploadInline.tsx:40-46 | A registered table with no expected columns accepts any header list: nothing is missing and every CSV column is unexpected. |
| `CsvUpload.ValidateLowerWords` | src/app/dashboard/CsvUploadInline.tsx:41-47 | On header lists of lower-case ASCII words, `missing` and `unexpected` are the plain list differences, and `valid` is the half-and-at-most-two test on them. |
| `CsvUpload.TwoMissingAccepted` | src/app/dashboard/CsvUploadInline.tsx:41-47 | For any lower-case ASCII words where `c`, `d` differ from `a`, `b`, `e`, `f` and `e`, `f` differ from `a`, `b`: expected `a,b,c,d` against CSV `a,b,e,f` is valid, with `c`, `d` missing and `e`, `f` unexpected. |
| `CsvUpload.ThreeMissingRejected` | src/app/dashboard/CsvUploadInline.tsx:41-47 | For any lower-case ASCII words where `d`, `e`, `f` differ from `a`, `b`, `c`: expected `a,b,c,d,e,f` against CSV `a,b,c` is rejected with `d`, `e`, `f` missing. Three matches reach half of six, so only the cap of two missing columns rejects it. |
| `CsvUpload.CaseAndSpaceExample` | src/app/dashboard/CsvUploadInline.tsx:41-47 | Expected `Name` against CSV ` name `: nothing missing, nothing unexpected, valid. |
| `JsStrings.TrimEmptyIff` | src/app/dashboard/CsvUploadInline.tsx:24 | `l.trim()` is empty (falsy) if and only if `l` is all whitespace. |
| `JsStrings.SplitOnCount` | src/app/dashboard/CsvUploadInline.tsx:26 | `split(",")` gives one piece more than there are commas. |
| `JsStrings.JoinSplitOn` | src/app/dashboard/CsvUploadInline.tsx:26 | Joining the pieces of a split with the separator restores the input. |
| `JsStrings.SplitOnJoin` | src/app/dashboard/CsvUploadInline.tsx:26 | Splitting a join of a non-empty list of separator-free pieces gives back the pieces. (The empty list joins to `""`, which splits into `[""]`.) |
| `JsStrings.TrimIdempotent` | src/app/dashboard/CsvUploadInline.tsx:26 | Trimming twice is the same as trimming once. |
| `JsStrings.Trim` | src/app/dashboard/CsvUploadInline.tsx:24 | `String.prototype.trim`: the result is no longer than the input and has whitespace at neither end. |
| `JsStrings.ToLower` | src/app/dashboard/CsvUploadInline.tsx:41-44 | `toLowerCase` on ASCII: same length, each capital letter replaced by its small letter, every other character kept. |
| `JsStrings.SplitOn` | src/app/dashboard/CsvUploadInline.tsx:26 | `split(",")` on one character: always at least one piece. |
| `JsStrings.Join` | src/app/dashboard/CsvUploadInline.tsx:26 | `join` with one character, the inverse of the header's `split(",")` in the round-trip lemmas: a join of `n` pieces holds at least `n - 1` separators. |
| `Middleware.Decide` | src/middleware.ts:4-22 | `/login` and `/api/auth/login` are always let through. Any other path is let through if and only if the `admin_auth` cookie is present and exactly `authenticated`. Otherwise the request is redirected to `/login`. |
| `Middleware.IsPublicPath` | src/middleware.ts:7-8 | Among the paths the middleware runs on, exactly `/login` and `/api/auth/login` are reachable without the cookie. |
| `Middleware.OnlyAuthCookieMatters` | src/middleware.ts:14-21 | Two cookie jars that agree on `admin_auth` get the same decision for every path. |
| `Middleware.AdmittedMeansAuthorised` | src/middleware.ts:6-21 | A request that is let through is for a public path or carries the authenticated cookie. |

## Left out

- The React component `CsvUploadInline` (`CsvUploadInline.tsx:50-270`) is not modelled. It covers UI state, reading the file, the `fetch` upload and rendering, all of which are I/O.
- `EXPECTED_HEADERS` (module `@/lib/constants`) is not part of this model. `ValidateColumns` takes the table as a `map<string, seq<string>>` parameter, and a table is unknown exactly when it is not a key of the map. JavaScript would also look the name up through `Object.prototype` (for example `constructor`); that lookup is not modelled.
- `toLowerCase` is modelled for ASCII letters only. Unicode case mapping (including mappings that change a string's length) is not modelled.
- `trim` uses the ECMAScript whitespace and line-terminator characters, listed by code point. JavaScript strings are UTF-16 code units, while Dafny characters are Unicode scalar values. So the characters of a string outside the Basic Multilingual Plane are counted differently; this affects no branch of the code.
- `row[h] = …` on a plain object is modelled as a map update. A header named `__proto__` would hit the prototype setter in JavaScript and create no key; the model treats it as an ordinary name.
- `Math.ceil(expected.length * 0.5)` is modelled as the integer `(n + 1) / 2`. This is exact for every length an array can have, so no floating point is modelled.
- Middleware: the Next.js request and response objects are abstracted. The request becomes its pathname and a map from cookie name to value. The response becomes `Next` or `Redirect("/login")`, and the absolute URL built from the request URL is not modelled. The `config.matcher` pattern (`middleware.ts:24-35`), which decides which paths reach the middleware at all, is routing configuration for the framework's regex engine and is not modelled.
- The HTTP handlers (`src/app/api/...`), the page component, the layout and the SHA-256 helper are not modelled. They are database calls, network plumbing, UI or a foreign crypto call.
