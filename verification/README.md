# ReportCheck web client — a Dafny model of its client-side logic

ReportCheck is a single-page application: the user enters a national ID
number and a licence-plate number, and the page shows, per municipality,
whether open parking fines exist. This project models the core decision
logic of the client:

- **`src/api.ts`**: the line splitter and dispatcher that reads the
  incremental result stream. The carried-over `buffer` is modelled as a fold
  over already-decoded chunks. Also modelled: the choice of error message on
  a non-success response, and the municipality-logo resolution. That
  resolution covers the hard-coded overrides, the one-shot administrative
  prefix stripper, and matching returned page titles back to names.
- **`src/App.tsx`**: the status filter, the vehicle carousel's page clamp,
  the digits-only input sanitiser, the status badge's label, the expandable
  result card, and the page state with its submit, success, failure and
  reset transitions.

Modules: `Wrappers` (Option), `Text` (prefixes, digits, decimal rendering,
`String.prototype.trim`), `Model` (the records), `StreamReader`,
`ApiErrors`, `MunicipalityImages`, `Views` and `AppState`.

Facts about the code that shape the model:
- The code has no result aggregator and no reconciliation path for a stream
  that ends without a "done" record.
- The server-error text is used when the body is unreadable, or when
  `detail` is missing or null. An empty string `detail` is kept as the
  message, because `??` only replaces null and undefined.
- The page calls the non-streaming check, so the stream reader is modelled
  on its own.

Foreign pieces are parameters:
- `JSON.parse` of a stream payload is the function `parse`. `None` stands
  for a throw, including a parsed `null` whose `.type` throws.
- The image lookup's outcome is a `Lookup`: either unavailable, or the
  returned pages as `(title?, thumbnail source?)` records.
- A failed response's body is an `ErrorBody`.
- The check's outcome and the vehicle lookup's result reach the page state
  as `Action`s.

## Model

| member | source | states |
|---|---|---|
| `Text.ParseNatToString` | src/api.ts:81 | the status printed into the server-error text reads back as the same number |
| `Text.NatToStringInjective` | src/api.ts:105 | two different statuses never print as the same text |
| `Text.Trim` | src/App.tsx:436 | trimming empties a string exactly when it is all JavaScript whitespace, and leaves a whitespace-free string unchanged |
| `StreamReader.Split` | src/api.ts:117 | `split('\n')` gives at least one piece, no piece holds a newline, and joining the pieces with newlines restores the text |
| `StreamReader.SplitUnique` | src/api.ts:117 | any cut of a text into newline-free pieces that joins back to it is the split |
| `StreamReader.Feed` | src/api.ts:116-118 | after a chunk, the complete lines followed by the held-back piece are exactly the old buffer plus the chunk, and the new buffer holds no newline |
| `StreamReader.Decode` | src/api.ts:121-123 | a line yields a record only when it starts with "data: ", and then it is exactly the parse of the text after the prefix |
| `StreamReader.DecodeDataLine` | src/api.ts:121-123 | the prefix followed by a payload decodes to the payload's parse |
| `StreamReader.DispatchLine` | src/api.ts:121-129 | a line makes at most one callback; a line without "data: " makes none; `onResult` with `data.result` exactly when the payload after the prefix parses with type "result", `onDone` with `data.summary` exactly when it parses with type "done" |
| `StreamReader.DispatchAll` | src/api.ts:120-131 | the lines of one read make no more callbacks than there are lines |
| `StreamReader.DispatchAllAppend` | src/api.ts:120-131 | the callbacks of consecutive runs of lines are those of each run in order |
| `StreamReader.ExtendConsistent` | src/api.ts:116-120 | appending newline-free lines whose text plus a new newline-free buffer equals the old buffer plus a chunk keeps the loop's invariant, with the callbacks of the new lines appended |
| `StreamReader.StepConsistent` | src/api.ts:112-131 | one loop iteration keeps the loop's invariant: the buffer holds no newline, the examined lines plus the buffer are all text received, and the callbacks are those of the examined lines |
| `StreamReader.Step` | src/api.ts:116-131 | one read never retracts an examined line or a callback already made; the newly examined lines plus the new buffer are the old buffer plus the chunk, and the buffer holds no newline |
| `StreamReader.Run` | src/api.ts:108-132 | after any number of chunks, the buffer holds no newline, the examined lines plus the buffer are the concatenated chunks, and the callbacks made are those of the examined lines in order |
| `StreamReader.StreamLines` | src/api.ts:112-120 | the examined lines are the newline-terminated lines of all text received, and the text after the last newline stays in the buffer, never examined |
| `StreamReader.ChunkBoundaryInvariance` | src/api.ts:108-132 | two chunkings of the same text end in the same buffer, the same examined lines and the same callbacks |
| `StreamReader.SingleChunkEquivalent` | src/api.ts:112-118 | any chunking behaves like the whole text delivered in one chunk |
| `StreamReader.UnprefixedLinesSilent` | src/api.ts:121 | lines none of which starts with "data: " trigger no callback |
| `StreamReader.SkipUnparsable` | src/api.ts:122-129 | a record whose payload fails to parse is skipped and the lines after it dispatch as if it were absent |
| `StreamReader.DoneDoesNotStop` | src/api.ts:126-128 | a "done" record calls `onDone` once with its summary and the following lines are still dispatched |
| `StreamReader.PayloadIsAfterPrefix` | src/api.ts:121-123 | the dispatcher depends on a line only through the text after its six-character prefix |
| `ApiErrors.ErrorMessage` | src/api.ts:79-82 | the message is a string `detail` when present and not null (even when empty); otherwise it is the server-error text followed by the status, which can be read back from it and starts with 0 only for status 0 |
| `ApiErrors.FallbackDistinguishesStatus` | src/api.ts:103-106 | without a `detail`, different statuses give different messages |
| `ApiErrors.ErrorMessageExamples` | src/api.ts:103-106 | `{"detail":"invalid id"}` gives "invalid id"; an unreadable or detail-less body gives the server-error text with the status |
| `MunicipalityImages.OverriddenIffListed` | src/api.ts:161-176 | the truthiness test on the override table is table membership, since every override URL is non-empty |
| `MunicipalityImages.Partition` | src/api.ts:173-181 | a name gets its override URL exactly when it has one, and is queued for lookup exactly when it has none, so never both |
| `MunicipalityImages.PartitionQueueAppend` | src/api.ts:175-181 | the lookup queue follows input order |
| `MunicipalityImages.StripPrefix` | src/api.ts:186-187 | the result is a suffix of the name; a name with none of the prefixes is unchanged; otherwise the name is one prefix followed by the result |
| `MunicipalityImages.PrefixesExclusive` | src/api.ts:187 | a name starts with at most one of the pattern's alternatives |
| `MunicipalityImages.StripOnePrefix` | src/api.ts:186-187 | exactly one prefix is removed, even if another follows it |
| `MunicipalityImages.Distinct` | src/api.ts:189-192 | the keys of `nameToSearch` are exactly the queued names, each once |
| `MunicipalityImages.DistinctAppend` | src/api.ts:189-192 | a name becomes a new last key the first time it is queued; queuing it again changes nothing |
| `MunicipalityImages.DistinctInFirstAppearanceOrder` | src/api.ts:189-192 | the keys are in order of each name's first appearance in the queue |
| `MunicipalityImages.ReverseIndex` | src/api.ts:205-208 | every queued name's search term is a key, and each key leads back to a queued name with that term |
| `MunicipalityImages.LaterNameWins` | src/api.ts:206-207 | of several names sharing a search term, the index keeps the last one |
| `MunicipalityImages.EarlierNameShadowed` | src/api.ts:206-207 | of two distinct names sharing a search term, the earlier is not a value of the index at all |
| `MunicipalityImages.Assignment` | src/api.ts:210-216 | a page contributes only with a non-empty thumbnail source and a title (missing counts as "") that the index maps to a non-empty name |
| `MunicipalityImages.MatchPages` | src/api.ts:210-218 | only indexed names gain entries; other entries are kept; every changed entry comes from some returned page |
| `MunicipalityImages.LastPageStands` | src/api.ts:210-218 | a page that assigns a thumbnail to a name decides that name's entry unless a later page assigns the same name |
| `MunicipalityImages.FetchImages` | src/api.ts:159-222 | every override entry is present and never overwritten; only requested names get entries; every non-override entry is the thumbnail of a returned page whose title is that name's search term |
| `MunicipalityImages.OnlyOverridesWithoutLookup` | src/api.ts:184-200 | with nothing queued, or the lookup unavailable, the result is exactly the override entries |
| `MunicipalityImages.LastMatchingPageWins` | src/api.ts:205-216 | a queued name that shares its search term with no other name gets the thumbnail of any page titled with that term, provided no later page with that title has a thumbnail |
| `MunicipalityImages.EarlierQueuedNameGetsNoImage` | src/api.ts:189-216 | of two queued names stripping to the same term, the one queued first gets no looked-up image |
| `Views.Filtered` | src/App.tsx:466 | without a response the list is empty; with one, a result is listed exactly when the selected tab admits it |
| `Views.Keep` | src/App.tsx:466 | a result is listed exactly when the filter admits it, and the list is no longer than the results |
| `Views.KeepAppend` | src/App.tsx:466 | filtering keeps the original order |
| `Views.KeepAll` | src/App.tsx:466 | the 'all' filter lists every result unchanged |
| `Views.KeepStatus` | src/App.tsx:466 | a status filter keeps every result of its status and drops every result of another status |
| `Views.KeepIdempotent` | src/App.tsx:466 | filtering twice equals filtering once |
| `Views.StatusTabsPartition` | src/App.tsx:466 | with only the three documented statuses, the three status filters list every result exactly once |
| `Views.GoTo` | src/App.tsx:183-187 | the page is always in [0, 2]; an in-range request is kept, a lower one goes to 0, a higher one to 2 |
| `Views.ArrowsStopAtEnds` | src/App.tsx:212-215 | the next/previous arrows stop at the last/first page |
| `Views.Sanitize` | src/App.tsx:380 | the output holds only digits, each digit as often as in the input, and nothing else |
| `Views.SanitizeAppend` | src/App.tsx:380 | the digits keep their original order |
| `Views.SanitizeKeepsDigits` | src/App.tsx:380 | an all-digit input is unchanged |
| `Views.SanitizeIdempotent` | src/App.tsx:380 | sanitising twice equals sanitising once |
| `Views.StatusBadge` | src/App.tsx:32-52 | clean and failed get fixed labels and icons; an unrecognised status gets an empty label and no icon; fine gets the alert icon and the count (or "undefined" when missing), then a space and then exactly one wording: the plural exactly when the count, missing counted as 0, exceeds 1, and the singular otherwise; the label is no longer than those three parts |
| `Views.HasFines` | src/App.tsx:94 | only a 'fine' result with a fines list can expand; a missing or empty list never does |
| `Views.Click` | src/App.tsx:103 | a click toggles an expandable card and leaves any other card's `open` unchanged |
| `Views.ClicksToggleDetails` | src/App.tsx:94-126 | the fines are shown exactly when the card is expandable and has been clicked an odd number of times |
| `Views.ExpandableCardHasAlertBadge` | src/App.tsx:94-105 | an expandable card carries the alert badge |
| `AppState.CanSubmit` | src/App.tsx:436 | the guard passes only for non-empty inputs, and always passes for non-empty inputs without whitespace |
| `AppState.SubmitDisabled` | src/App.tsx:546 | the button is disabled exactly when the page is loading or the submit guard would refuse |
| `AppState.Submit` | src/App.tsx:434-442 | submit does nothing unless both trimmed inputs are non-empty; otherwise it starts loading and clears the error, response and vehicle details, resets the filter to 'all' and the progress to 0; the inputs are never changed |
| `AppState.Succeed` | src/App.tsx:450-452 | success stores the response, ends loading and sets progress to 100, leaving the rest alone |
| `AppState.Fail` | src/App.tsx:453-457 | failure shows the error's message (or the unknown-error text), ends loading and sets progress to 0 |
| `AppState.Apply` | src/App.tsx:380-601 | typing changes only its own input, and only to digits; choosing a tab changes only the filter; the vehicle lookup changes only the vehicle details; only submit, success and failure move `loading`; only submit, success and reset change the response; only typing and reset change the inputs |
| `AppState.Reset` | src/App.tsx:461-464 | reset returns everything except `loading` to its initial value |
| `AppState.ApplyPreservesValid` | src/App.tsx:399-466 | every transition keeps the inputs digit-only, the progress a percentage, and loading free of error and response |
| `AppState.ReachableStatesValid` | src/App.tsx:399-466 | every state reachable from the initial one satisfies that invariant |
| `AppState.GuardOnDigitInputs` | src/App.tsx:436 | on reachable inputs the submit guard is just "both inputs non-empty" |
| `AppState.DisabledIffSubmitIgnored` | src/App.tsx:546 | when not loading, the button is disabled exactly when submitting would change nothing |
| `AppState.FreshResultsShowAll` | src/App.tsx:441 | after a valid submit and success, the list shows every returned result |
| `AppState.NothingListedWhileLoading` | src/App.tsx:466 | while loading, the filtered list is empty |
| `AppState.ResetSettles` | src/App.tsx:461-464 | reset is idempotent and leaves the form empty and not submittable |
| `AppState.RejectedRequestMessage` | src/App.tsx:453-457 | a rejected check shows the server's string `detail` verbatim, or the server-error text carrying the status; the error box is missing exactly when `detail` is empty |

## Left out

- `fetch`, `res.json()`, the stream reader and `TextDecoder`: these are I/O. Chunks are already-decoded strings, JSON parsing is the `parse` parameter, and lookup outcomes are inputs.
- `getUserLocation` and its module-level cache, and the request bodies (trimmed inputs plus coordinates): browser APIs and network I/O.
- `fetchVehicleInfo` and `fetchMunicipalities`: network wrappers with no logic of their own. Only the vehicle result's arrival is an `Action`.
- `startProgress`/`stopProgress` and `muniLabel`: random, floating-point, timer-driven progress. Only the synchronous `setPct(0)` on submit is kept.
- `handleScroll` and the test-expiry date comparison: DOM geometry, float rounding and the wall clock.
- The 400 ms delay before the response appears: timing only. Success is one immediate transition.
- The fire-and-forget vehicle lookup: concurrency. Its result may arrive at any point as `VehicleArrived`.
- The filter tabs' counts: they come from the server's summary and are not computed by the client.
- JSX rendering, styling, icons other than the badge's, and the `Logo`, `Summary` and `ProgressBar` components: presentation only.
- `Web/api.ts`: a duplicate of the error-message choice already modelled from `src/api.ts`. `vite.config.ts`: build configuration.
- Plain-object lookups by a key inherited from `Object.prototype` (a name such as "constructor" in the override table, the reverse map or the badge config): municipality names and statuses are not such keys. Tables are modelled as maps.
- The enumeration order of integer-like keys in `Object.entries`: municipality names are not integers. Entries are in insertion order.
- A `null` entry among the returned pages: it would throw mid-loop, and the catch would keep the entries already assigned. Pages are modelled as records.
- `ApiErrors.ErrorMessage`: `detail` is typed as a string, as the source's own `detail?: string` cast does. A non-string `detail` is shown as JavaScript's string conversion of it by `new Error`: a list of objects shows "[object Object]", an empty list shows "" (so no error box appears), and the number 404 shows "404".
- A failed response whose body is JSON `null`: reading `.detail` throws a `TypeError` with an engine-specific message.
- The inputs' `maxLength`: the browser truncates the typed text before the handler runs.
- A callback throwing inside the stream's `try`: the catch would swallow it like a parse error. Callbacks are recorded, not run.
- A non-string `type`: it behaves like an unrecognised type.
- `Views.CountText`: the model prints every count as an exact integer decimal and a missing one as "undefined". The source differs for counts of 1e21 or more (printed as "1e+21"), for non-integers (for example "1e-7"), for integers above 2^53 (which lose digits when the JSON is parsed) and for a JSON `null` count (printed as "null"). Counts are modelled as `Option<int>`, so null and missing are both `None`.
- `MunicipalityImages.FetchImages`: its own contract says which page each looked-up URL came from. Which page wins, and that a matching page yields an entry, are stated by `LastPageStands`, `LastMatchingPageWins` and `EarlierQueuedNameGetsNoImage`.
