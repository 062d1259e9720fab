# PDF AI extractor — a Dafny model of its request handlers and client flow

The application takes a medical document and sends it to a generative model
that extracts the patient's name, date of birth, identifier and insurer. It
stores the result with the file in a hosted database and lists earlier
analyses in a paged, redacted history. This project models the logic of
that flow and proves properties of the model:

- **History endpoint** (`GetHistory`). It covers:
  - validation of the query string: page, limit, sort whitelists, stripping of
    unsafe characters from the search text, lower-cased file types, date
    filters;
  - the per-client fixed-window rate limiter. This is a class holding the
    client map. The `Admit` function specifies it, and lemmas about replaying
    requests prove the 100-per-window bound;
  - redaction of each record;
  - pagination arithmetic: the row range asked of the store and the page
    count. Lemmas prove that every row lies on exactly one page;
  - the `GET` handler that puts these together.
- **Upload endpoint** (`Upload`). It covers:
  - the ordered input checks;
  - the `.doc` to `.docx` MIME remap;
  - clean-up of the model's reply: trimming and removal of code fences;
  - normalisation of the parsed reply to four nullable fields, with a round
    trip;
  - the 500-character excerpt;
  - the `POST` handler.
- **Save endpoint** (`SaveAnalysis`). It covers:
  - the early checks;
  - the storage name built from the file name and the timestamp. The
    extension and the decimal rendering of the timestamp are defined, and
    lemmas give the name for one-dot names and for dot-free names, and prove
    that the extension is kept;
  - the upload, whose failure does not stop the insert;
  - the exact row inserted and the reply.
- **Step indicator** (`Instructions`). It covers the current step and the four
  step statuses.
- **Client flow** (`AnalyzerContainer`). This is the container's `UploadState`
  as a class with one method per transition:
  - the drop;
  - the start and the completion of an analysis;
  - the close.

  A preserved invariant, `Consistent`, says:
  - no upload is pending between transitions;
  - a file is shown exactly when it has a preview;
  - there is no stale data while an analysis runs.

  The methods also state the step the indicator then shows.

`JsCore` holds the JavaScript primitives the code relies on, over Dafny
values: JSON values and their truthiness, `trim` and the `\s` whitespace set,
`substring(0, n)`, `indexOf`, and a single `replace`. `Records` holds the
stored row shape.

External services and library calls are parameters of the handlers:

- the generative model call: `generate`;
- `JSON.parse`: `parse`;
- `Date.parse` validity: `parsesAsDate`;
- the database query and insert: `db` and `insert`;
- the storage upload: `upload`;
- the clock: `now`;
- the preview URL: `preview`;
- the fetch result on the client: `AnalysisOutcome`.

Environment configuration is a boolean input.

## Model

| member | source | states |
|---|---|---|
| `JsCore.OrNull` | src/app/api/upload/route.ts:126-129 | `x or null` is `x` when truthy and null otherwise, so the result is always null or truthy |
| `JsCore.TrimStart` | src/app/api/upload/route.ts:114 | the result is a suffix of the input, everything removed is whitespace, and the result does not start with whitespace |
| `JsCore.TrimEnd` | src/app/api/upload/route.ts:114 | the result is a prefix of the input, everything removed is whitespace, and the result does not end with whitespace |
| `JsCore.Trim` | src/app/api/upload/route.ts:111 | trimming never lengthens the text |
| `JsCore.TrimPadded` | src/app/api/upload/route.ts:111 | trimming a text with no outer whitespace, after whitespace of any length was put around it, gives the text back |
| `JsCore.Prefix` | src/app/api/get-history/route.ts:86 | `substring(0, n)` is the first `n` characters, or the whole text when it is shorter |
| `JsCore.IndexOf` | src/app/api/save-analysis/route.ts:39 | the position found is an occurrence with no earlier occurrence; no position is found only when the pattern occurs nowhere |
| `JsCore.IndexOfFirst` | src/app/api/save-analysis/route.ts:39 | an occurrence with no earlier one is exactly the position `indexOf` returns |
| `JsCore.RemoveFirst` | src/app/api/save-analysis/route.ts:39 | a string-pattern `replace` deletes exactly the first occurrence, and changes nothing when there is none |
| `GetHistory.ParseSortField` | src/app/api/get-history/route.ts:31-34 | a sort column is accepted exactly when it is one of `created_at`, `patient_name`, `file_name`, and its name round-trips |
| `GetHistory.ParseSortOrder` | src/app/api/get-history/route.ts:36-39 | a sort order is accepted exactly when it is `asc` or `desc`, and its name round-trips |
| `GetHistory.StripUnsafe` | src/app/api/get-history/route.ts:43 | no `<`, `>`, `'` or `"` remains; every other character is kept exactly as often as the input has it; the result is never longer |
| `GetHistory.StripUnsafeConcat` | src/app/api/get-history/route.ts:43 | stripping distributes over concatenation, so it keeps the order of the characters it keeps |
| `GetHistory.StripUnsafeKeepsSafe` | src/app/api/get-history/route.ts:43 | a text without unsafe characters is left unchanged |
| `GetHistory.StripUnsafeIdempotent` | src/app/api/get-history/route.ts:43 | stripping twice is the same as stripping once |
| `GetHistory.LowerAscii` | src/app/api/get-history/route.ts:47-48 | no upper-case ASCII letter remains; each one is replaced in place by its lower-case letter; every other character is kept; the length is kept |
| `GetHistory.LowerAsciiIdempotent` | src/app/api/get-history/route.ts:47-48 | lower-casing twice is the same as lower-casing once |
| `GetHistory.ValidateQueryParams` | src/app/api/get-history/route.ts:19-62 | the page is at least 1 and kept when positive; the limit is in 1..100 and kept when in range, otherwise 20; sort column and order are set exactly for whitelisted values; the search is kept exactly when non-empty and at most 100 characters, stripped of unsafe characters; the file type is kept exactly when its lower-case form is pdf, doc, docx or txt and is stored lower-cased; each date is kept verbatim exactly when non-empty and parseable |
| `GetHistory.Admit` | src/app/api/get-history/route.ts:64-79 | an unseen client or one whose window has passed gets a new window with count 1 ending 60 s later and is admitted; within a live window a request is admitted exactly when fewer than 100 were counted, and then counted; the reset time of a live window never moves; no other client's entry changes; counts stay within 1..100 |
| `GetHistory.LiveWindowBudget` | src/app/api/get-history/route.ts:64-79 | requests within a live window are admitted exactly up to the room left in it, and the window ends with that many more counted and its reset time unchanged |
| `GetHistory.AtMostMaxPerWindow` | src/app/api/get-history/route.ts:64-79 | of n requests in one window opened by the first of them, exactly min(n, 100) are admitted, so never more than 100 |
| `GetHistory.ReplayKeepsOthers` | src/app/api/get-history/route.ts:64-79 | any sequence of requests from one client leaves every other client's entry as it was |
| `GetHistory.HistoryEndpoint.constructor` | src/app/api/get-history/route.ts:6 | the rate-limit map starts empty |
| `GetHistory.HistoryEndpoint.CheckRateLimit` | src/app/api/get-history/route.ts:64-79 | the imperative check answers and updates the map exactly as `Admit` specifies, and keeps the counts within 1..100 |
| `GetHistory.Sanitize` | src/app/api/get-history/route.ts:81-96 | a non-empty name becomes its first character and `***`; a non-empty birth date becomes `***`; a non-empty identifier becomes at most its first three characters and `***`; a non-empty text becomes at most its first 200 characters and `...`; empty or null ones become null; all other fields are copied |
| `GetHistory.SanitizeRevealsOnlyPrefixes` | src/app/api/get-history/route.ts:81-96 | two records that agree on the name's first character, the presence of a birth date, the identifier's first three characters, the text's first 200 characters and the copied fields are redacted identically |
| `GetHistory.SanitizeAll` | src/app/api/get-history/route.ts:190 | null rows give an empty list; otherwise every row is redacted, in order |
| `GetHistory.TotalPages` | src/app/api/get-history/route.ts:192 | a null or zero count gives 0 pages; otherwise n pages with (n-1)·limit < count ≤ n·limit, that is the ceiling of count/limit |
| `GetHistory.PageInfo` | src/app/api/get-history/route.ts:192-194 | the pagination block echoes page, limit and count, has the page count above, a next page exactly when page < totalPages and a previous page exactly when page > 1 |
| `GetHistory.PageRangeSpansLimit` | src/app/api/get-history/route.ts:172-173 | the inclusive range asked of the store spans exactly `limit` rows, and the next page starts right after it |
| `GetHistory.RowOnExactlyOnePage` | src/app/api/get-history/route.ts:172-192 | each of the `count` rows lies on one page between 1 and totalPages, and on no other page |
| `GetHistory.ClientIdentifier` | src/app/api/get-history/route.ts:123 | the client is keyed by a non-empty forwarded-for header, else a non-empty real-IP header, else `unknown`, and the key is never empty |
| `GetHistory.PlanQuery` | src/app/api/get-history/route.ts:153-173 | each filter is applied exactly for a non-empty value; the order is the chosen column or creation time, ascending only when `asc` was asked; the range starts at (page-1)·limit and spans limit rows |
| `GetHistory.HistoryEndpoint.Get` | src/app/api/get-history/route.ts:98-236 | unconfigured gives 503 and counts nothing; otherwise the request is counted as `Admit` says and a refused one gets 429 with retry after 60 s; a store error gives 500; otherwise the redacted rows and the pagination block of the validated page and limit |
| `Upload.CheckUpload` | src/app/api/upload/route.ts:11-45 | the checks run in order: missing file, unsupported type, over 10 MB, missing key; the first that fails gives its status and message; none fails exactly when a supported file of at most 10 MB comes with a configured key |
| `Upload.RemapMime` | src/app/api/upload/route.ts:51-54 | `.doc` is sent as `.docx` and every other type unchanged, so a supported type stays supported and is never `.doc` |
| `Upload.StripLeadingFence` | src/app/api/upload/route.ts:114 | what is left after an opening fence is a suffix of the text after the fence; only whitespace was removed; no leading whitespace remains |
| `Upload.StripTrailingFence` | src/app/api/upload/route.ts:114 | a text without a closing fence is unchanged; with one, what is left is a prefix of the text before the fence, only whitespace was removed and no trailing whitespace remains |
| `Upload.StripFences` | src/app/api/upload/route.ts:113-117 | a reply that does not start with a fence is left unchanged, and no reply is lengthened |
| `Upload.CleanResponse` | src/app/api/upload/route.ts:111-117 | the text handed to `JSON.parse` is never longer than the reply, and a reply that is not fenced once trimmed is only trimmed; the fenced case is stated by `Upload.CleanFencedReply` |
| `Upload.BareFenceIsNotJsonFence` | src/app/api/upload/route.ts:113-116 | a bare fence followed by whitespace is not a `json` fence, so the second branch applies |
| `Upload.JsonFenceIsFence` | src/app/api/upload/route.ts:113-115 | a reply opening with a `json` fence also opens with a bare fence |
| `Upload.StripLeadingOfOpened` | src/app/api/upload/route.ts:114 | removing the opening fence of a fenced body leaves the body, the closing whitespace and the fence |
| `Upload.StripTrailingOfClosed` | src/app/api/upload/route.ts:114 | removing the closing fence of that leaves exactly the body |
| `Upload.StripFencesJson` | src/app/api/upload/route.ts:113-114 | a body inside a `json` fence comes out as the body |
| `Upload.StripFencesJsonUnclosed` | src/app/api/upload/route.ts:113-114 | a reply opening with a `json` fence but without a closing fence loses only the fence and the whitespace after it |
| `Upload.StripFencesBare` | src/app/api/upload/route.ts:115-116 | a body inside a bare fence followed by whitespace comes out as the body |
| `Upload.StripFencesOfFenced` | src/app/api/upload/route.ts:113-117 | both fence forms give back the fenced body |
| `Upload.CleanFencedReply` | src/app/api/upload/route.ts:111-117 | a reply made of a fenced body, with whitespace of any length around it and inside the fences, is cleaned to exactly the body |
| `Upload.Excerpt` | src/app/api/upload/route.ts:144 | a reply of at most 500 characters is returned whole; a longer one as its first 500 characters and `...`; never more than 503 characters |
| `Upload.Normalize` | src/app/api/upload/route.ts:125-130 | each of the four fields is the parsed field when truthy and null otherwise |
| `Upload.NormalizeRoundTrip` | src/app/api/upload/route.ts:125-130 | normalised data sent as the JSON object and normalised again is unchanged |
| `Upload.Post` | src/app/api/upload/route.ts:6-154 | a failed check gives its error; a throwing model call gives 500 with the internal message; an empty reply gives 500; a cleaned reply that does not parse to an object gives 500 with the parse message; otherwise the normalised data and the excerpt of the raw reply. Success implies a supported file within the size bound |
| `SaveAnalysis.Extension` | src/app/api/save-analysis/route.ts:38 | `split('.').pop()` is the dot-free suffix that either is the whole name or follows a dot; a name without a dot is its own extension |
| `SaveAnalysis.ExtensionAfterDot` | src/app/api/save-analysis/route.ts:38 | a dot and a dot-free text at the end make that text the extension, whatever precedes |
| `SaveAnalysis.Decimal` | src/app/api/save-analysis/route.ts:40 | the timestamp is rendered as a non-empty string of decimal digits with no leading zero (except for zero itself), one digit exactly below 10 |
| `SaveAnalysis.DecimalRoundTrip` | src/app/api/save-analysis/route.ts:40 | reading the rendered timestamp back gives the timestamp |
| `SaveAnalysis.StorageName` | src/app/api/save-analysis/route.ts:36-40 | the storage name ends with a dot and the original extension |
| `SaveAnalysis.FirstOccurrenceAfterStem` | src/app/api/save-analysis/route.ts:39 | after a dot-free stem, `.ext` is first found right after the stem, whatever follows |
| `SaveAnalysis.StorageNameSingleDot` | src/app/api/save-analysis/route.ts:36-40 | a one-dot name `stem.ext` is stored as `stem_<timestamp>.ext` |
| `SaveAnalysis.StorageNameNoDot` | src/app/api/save-analysis/route.ts:36-40 | a name without a dot is stored as `name_<timestamp>.name` |
| `SaveAnalysis.RemoveFirstAfterStem` | src/app/api/save-analysis/route.ts:39 | removing the first `.ext` after a dot-free stem leaves the stem and whatever followed |
| `SaveAnalysis.StorageNameRemovesFirstOccurrence` | src/app/api/save-analysis/route.ts:36-40 | when the extension also follows an earlier dot, that earlier occurrence is removed and the last one stays: `my.pdfs.pdf` is stored as `mys.pdf_<timestamp>.pdf` |
| `SaveAnalysis.StorageNameKeepsExtension` | src/app/api/save-analysis/route.ts:36-40 | the storage name has the same extension as the original name |
| `SaveAnalysis.Post` | src/app/api/save-analysis/route.ts:4-99 | early checks in order: unconfigured gives 500 with details, missing or empty data 400, data that does not parse 500, none of them storing anything. The upload is attempted exactly for a file with a name and a type, under the storage name. Parsed null fails with 500 after the upload. Otherwise the row is inserted whatever the upload did: the four fields and `fullText` as parsed, the original text, the original file name and type (null when empty or absent), and the URL and size only when the upload returned. An insert error gives 500 with its message. Otherwise the stored record, `fileUploaded` exactly when a URL is present, the storage name and the URL |
| `Instructions.CurrentStep` | src/components/Instructions.tsx:7-13 | the step is in 1..4: 1 without a file, even while analysing; 2 with a file and neither analysis nor data; 3 with a file while analysing; 4 with a file and data after the analysis |
| `Instructions.StepStatuses` | src/components/Instructions.tsx:17-46 | four statuses; only step 3 can be active and exactly at current step 3; the steps after the current one are pending; completed steps form a prefix |
| `Instructions.Steps` | src/components/Instructions.tsx:15-46 | step 1 is always completed; at current step 1 only step 1 is completed; at step 4 all four are |
| `AnalyzerContainer.FailureMessage` | src/containers/DocumentAnalyzerContainer.tsx:83-101 | a failed response shows its error field when non-empty and `Analysis failed` otherwise; a thrown `Error` shows its message; any other thrown value shows `An error occurred` |
| `AnalyzerContainer.DocumentAnalyzer.constructor` | src/containers/DocumentAnalyzerContainer.tsx:12-20 | the initial state: nothing uploading or analysing, no data, error, text, file or preview; the indicator shows step 1 |
| `AnalyzerContainer.DocumentAnalyzer.OnDrop` | src/containers/DocumentAnalyzerContainer.tsx:22-49 | an empty drop changes nothing. Otherwise error, data and text are cleared and the upload flag ends false. With a preview, the first file and its preview are shown, and the indicator is at step 2 unless an analysis is running. Without one, the preview error is set and file and preview stay as they were |
| `AnalyzerContainer.DocumentAnalyzer.BeginAnalysis` | src/containers/DocumentAnalyzerContainer.tsx:51-67 | without a file nothing changes; with one the analysis is marked running, error, data and text are cleared, and the indicator is at step 3 |
| `AnalyzerContainer.DocumentAnalyzer.FinishAnalysis` | src/containers/DocumentAnalyzerContainer.tsx:72-102 | success stores the response's data and text. Failure stores the failure message. Either way the analysis ends and nothing else changes. With a file, successful data puts the indicator at step 4. A failure that ends the running analysis puts it at step 2. A failure that arrives after an earlier reply already ended the analysis goes to step 2 only when no data is showing, and otherwise leaves step 4 |
| `AnalyzerContainer.DocumentAnalyzer.AnalyzeDocument` | src/containers/DocumentAnalyzerContainer.tsx:51-103 | uninterrupted, the analysis ends with the response's data and text and no error, at step 4 when data came back, or with the failure message and no data, at step 2. The file and the preview are never touched |
| `AnalyzerContainer.DocumentAnalyzer.HandleClose` | src/containers/DocumentAnalyzerContainer.tsx:105-115 | the state is exactly the initial state again, and the indicator is at step 1 |

## Left out

- The database and storage client is not part of this model: creating it,
  querying, inserting, uploading and the public-URL lookup. Their outcomes are
  inputs: `DbOutcome`, `InsertOutcome` and `UploadAttempt`. The `ilike`
  search text sent to the store is not modelled: `PlanQuery` carries the
  search value instead.
- The generative model call, the prompt text and the base64 encoding of the
  file (`Buffer`) are not modelled. The call's outcome is the input
  `generate`, which receives the MIME type sent. The REST relay route
  `src/app/api/gemini/route.ts` is not part of this model.
- `JSON.parse`, `Date.parse`, `Date.now`, `crypto.randomUUID` and
  `URL.createObjectURL` are inputs. The request id, response times and
  timestamps in replies are not modelled.
- Logging, the response headers (rate-limit and cache headers) and the
  `success`/`message`/`requestId`/`meta` fields of replies are not modelled.
  Replies are datatypes that carry the status and the fields that vary.
- `GetHistory.ValidateQueryParams` takes page and limit as already-parsed
  integers. An absent parameter arrives as the default (`|| '1'`,
  `|| '20'`), and `None` stands for NaN. The decimal and prefix parsing of
  `parseInt` is not modelled.
- `GetHistory.PlanQuery`, `GetHistory.PageRangeSpansLimit` and
  `GetHistory.RowOnExactlyOnePage` take page, limit and row offsets as
  unbounded integers, while the source computes them as JavaScript numbers
  (IEEE doubles). Their contracts therefore hold in the source only while
  `page * limit` stays within 2^53. For example, with a page of 2^60 and a
  limit of 20, `offset + 19` rounds to `offset`, so the range holds one row.
  A page whose value is at least about 1.8·10^308 (for instance any digit
  string of 310 or more significant digits) parses to `Infinity`, which the
  model's optional integer cannot represent.
- JavaScript strings count UTF-16 code units, and the model's strings count
  code points. `charAt(0)`, `substring`, `length <= 100` and the 500-character
  excerpt therefore differ from the model on characters outside the Basic
  Multilingual Plane.
- Full Unicode `toLowerCase` is not modelled. `GetHistory.LowerAscii`
  lower-cases ASCII letters only. This is exact for the file-type filter: no
  non-ASCII character lower-cases to a letter of `pdf`, `doc`, `docx` or
  `txt`, so the same inputs are accepted and the same values are stored.
- The rate-limit map is shared by concurrent requests of one server process
  and is never pruned. The model handles one request at a time, and the
  unbounded growth of the map is not stated.
- The catch-all handlers are not modelled: failures of reading the form data
  or the file bytes, and exceptions other than those stated in each handler's
  contract. Each of them would answer 500 with the handler's internal-error
  message.
- `undefined` and `null` are both modelled as null, because the code only
  tests their truthiness and the store writes both as SQL null.
- Form values in the save and upload handlers are taken to be text or a
  file as declared. A text value where a file is expected is not modelled.
- The save handler reads `fullText` from the saved data, which the upload
  handler never produces: the upload side has four fields. `fullText` is
  therefore an optional property on the save side, and is null for data that
  came from the upload handler.
- `AnalyzerContainer.DocumentAnalyzer.AnalyzeDocument` states the
  uninterrupted run only. A drop or a close during the request is captured by
  calling `BeginAnalysis`, the other transition and `FinishAnalysis` in
  sequence; `FinishAnalysis` then applies the result to the state as it is by
  then. React's state batching and rendering are not modelled.
- `AnalyzerContainer.FailureMessage`: a non-string truthy `error` field in a
  failed response would become its string conversion. The model takes the
  field as an optional string, which is what the upload handler sends.
- The `POST`, `PUT` and `DELETE` handlers of the history route, which only
  answer 405 `Method not allowed`, are not modelled.
- The file-size and percentage displays, the progress timer and every page
  that is markup only are not part of this model.
