# local-clipboard: a verified model of the clipboard convergence protocol

local-clipboard keeps the clipboards of several machines on a LAN in step
through one small HTTP server, which holds a history of recent entries. This
project models its core in Dafny and proves what that core promises. The
core has four parts.

- **The polling client.** Each machine runs a loop. It reads the local
  clipboard, pushes the text to the server when it is new, then pulls the
  server's latest entry and writes it locally unless it is the machine's own
  echo.
- **The server's write and read paths.** The handlers validate and sanitise
  a POST, insert the entry into the history table, and only then put it in
  the single-slot cache that GET answers from. The history table keeps the
  pinned-first, newest-first order, the case-insensitive search, pinning and
  deletion.
- **The encoders and parsers between server and database.** These are the
  SQL string literals the inserts are built from, the parse of the new row's
  id, and the tab-separated row reader of the older single-file server.
- **Smaller pieces.** These are the bounded request log and its middleware,
  the choice of clipboard tool, the listen-address helpers, and the web
  client's text, API, time-formatting and history-view logic.

Outside effects are parameters of the model. These are each sqlite3 run,
each HTTP request, each clipboard command, the clock and the network
interfaces. A decoded request body is a parameter too. The history table is
the sequence of its rows in insertion order, together with the next
AUTOINCREMENT id.

There is one Dafny module per source file:

| module | models |
|---|---|
| `Models`, `Wrappers` | the entry type, Option and Result |
| `GoStrings` | the parts of Go's strings and strconv the core uses |
| `LineEndings` | the CRLF/CR rewrite shared by the server and the browser |
| `Sanitize` | sanitizeForDB |
| `SqlQuote` | sqlQuote and sqlQuoteMultiline, with a small evaluator for the literals |
| `InsertId` | the id read from the sqlite3 output |
| `History` | the history table and `SqliteHistory` |
| `Store` | the single-slot cache |
| `Handlers` | the API handlers and the startup seeding |
| `Logs` | the request log, the response recorder, the middleware and `/api/logs` |
| `Client` | the polling loop |
| `TabRows` | the `.mode tabs` format and the older `selectRows` |
| `Legacy` | the older single-file server in main.go |
| `Clipboard` | the clipboard-tool choice |
| `Addr` | the listen-address helpers |
| `WebText` | text.js |
| `WebApi` | api.js |
| `WebFormat` | relativeTime |
| `UseHistory` | the history composable |
| `Seqs` | reversal, filter and LIMIT |

SetPinned and Delete (internal/history/sqlite.go:88-101) run the UPDATE or
DELETE with no existence check. So `History.SqliteHistory.SetPinned` and
`History.SqliteHistory.Delete` succeed for an absent id, and
`Handlers.App.HandleDelete` answers 204 for it.

## Model

| member | source | states |
|---|---|---|
| GoStrings.TrimSpaceSpec | internal/server/handlers.go:64-68 | strings.TrimSpace gives text that starts and ends with a non-space character; the text is empty exactly when the input is all white space; text with no white space at either end is unchanged; and the text is what is left of the input once a white-space prefix and a white-space suffix are cut off |
| GoStrings.TrimSpaceSlice | internal/server/handlers.go:64 | the trimmed text is the slice of the input between an all-white-space prefix and an all-white-space suffix |
| GoStrings.TrimSpace | internal/server/handlers.go:64 | strings.TrimSpace with unicode.IsSpace as the white-space test; the result is no longer than the input, and TrimSpaceSpec characterises it |
| GoStrings.TrimSpaceIdempotent | internal/client/client.go:42 | trimming twice is trimming once |
| GoStrings.ParseShowNat | internal/history/sqlite.go:68 | the decimal form of any int64 at or above zero parses back to the same number |
| GoStrings.ParseInt | internal/history/sqlite.go:68 | strconv.ParseInt(s, 10, 64): an optional sign and at least one decimal digit, in the int64 range, and an error otherwise; an accepted value is an int64 and the text starts with a digit or a sign; ParseShowNat gives the round trip |
| GoStrings.JoinSplit | internal/history/sqlite.go:192-196 | joining the pieces of strings.Split with the separator gives back the string |
| GoStrings.IndexOf | web/src/utils/text.js:20-22 | the result is -1 or a position where the pattern occurs, and no earlier position holds it |
| GoStrings.Lower | internal/history/sqlite.go:131 | lower-casing keeps the length and maps each character on its own |
| LineEndings.ChainIsLineEnds | internal/server/handlers.go:24-26 | ReplaceAll of CRLF and then of CR is one left-to-right pass in which each CRLF and each lone CR becomes one LF, and no CR is left |
| Sanitize.SanitizeIsLineEndsOfNulFree | internal/server/handlers.go:22-27 | sanitizeForDB is the line-ending pass over the text with every NUL removed, so its result has no NUL and no CR and is no longer than the input |
| Sanitize.SanitizeKeepsClean | internal/server/handlers.go:22-27 | text with no NUL and no CR is stored exactly as given |
| Sanitize.SanitizeIdempotent | internal/server/handlers.go:22-27 | sanitising twice is sanitising once |
| Sanitize.SanitizeNulBetweenCrLf | internal/server/handlers.go:23-25 | NUL goes first, so "\r\0\n" becomes a single LF |
| Sanitize.SanitizeForDB | internal/server/handlers.go:22-27 | the three ReplaceAll calls in order (NUL, then CRLF, then CR); SanitizeIsLineEndsOfNulFree characterises the result |
| SqlQuote.QuoteRoundTrip | internal/history/sqlite.go:181-183 | reading the quoted literal back, with doubled quotes undone, gives exactly the original string |
| SqlQuote.Quote | internal/history/sqlite.go:181-183 | sqlQuote, the same function as at main.go:446-448: the text with every quote doubled, between single quotes; QuoteRoundTrip gives its inverse |
| SqlQuote.LitBodyOfEscape | internal/history/sqlite.go:182 | the escaped text followed by a closing quote reads back as the text, leaving whatever follows the quote |
| SqlQuote.EvalQuotedLines | internal/history/sqlite.go:192-196 | the quoted lines joined by \|\|char(10)\|\| evaluate to the lines joined by LF |
| SqlQuote.MultilineRoundTrip | internal/history/sqlite.go:185-197 | SQLite evaluates the expression sqlQuoteMultiline builds to the sanitised text, so quotes, tabs and newlines survive storage, while CRLF and CR are stored as LF and NUL is dropped |
| SqlQuote.MultilineLiteral | internal/history/sqlite.go:185-197 | the expression sqlQuoteMultiline returns, as a function of the text: '' for empty sanitised text, otherwise its lines quoted and joined by \|\|char(10)\|\|; MultilineRoundTrip and MultilineHasNoLineBreaks characterise it |
| SqlQuote.MultilineHasNoLineBreaks | internal/history/sqlite.go:189-196 | the built expression contains no LF and no CR |
| SqlQuote.MultilineOfSingleLine | internal/history/sqlite.go:185-197 | for text with no NUL, CR or LF the expression is the plain sqlQuote literal |
| SqlQuote.MultilineOfNothing | internal/history/sqlite.go:189-191 | empty text, and text made only of NUL, give the literal '' |
| SqlQuote.QuoteMultiline | internal/history/sqlite.go:185-197 | the method with its normalisation, early return and in-place loop builds the expression whose round trip is MultilineRoundTrip |
| SqlQuote.QuoteLines | internal/history/sqlite.go:193-195 | the loop turns every line into its quoted literal, in order |
| InsertId.LastNonBlank | internal/history/sqlite.go:59-64 | the index is that of a non-blank line, and every line after it is blank; -1 means every line is blank |
| InsertId.LastLine | internal/history/sqlite.go:58-64 | the backward scan returns "" exactly when every line is blank, and otherwise the trimmed last non-blank line |
| InsertId.InsertIdOf | internal/history/sqlite.go:57-74 | an accepted id is positive and fits in int64 |
| InsertId.ParseInsertOutput | internal/history/sqlite.go:57-74 | split, scan, parse and check give the id InsertIdOf specifies |
| InsertId.ScanStopsAtLastLine | internal/history/sqlite.go:57-64 | after trimming, the last line is never blank, so the scan stops at the very last line |
| InsertId.InsertIdOfBlank | internal/history/sqlite.go:65-67 | blank output gives errNotFound |
| InsertId.InsertIdOfRowid | internal/history/sqlite.go:51-74 | the output of SELECT last_insert_rowid() for a positive id reads back as that id |
| InsertId.InsertIdRejectsZero | internal/history/sqlite.go:69-72 | id 0 is refused with errNotFound |
| InsertId.InsertIdRejectsWord | internal/history/sqlite.go:68-69 | a line that is not a number is refused with the parse error |
| History.OrderedSorted | internal/history/sqlite.go:105 | the rows under ORDER BY pinned DESC, id DESC are sorted by that order and are a permutation of the table |
| History.Ordered | internal/history/sqlite.go:105 | the table under ORDER BY pinned DESC, id DESC: the pinned rows newest first, then the rest newest first; OrderedSorted characterises it |
| History.BeforeTotal | internal/history/sqlite.go:105 | of two different rows of the table, one strictly comes before the other, so the order is total |
| History.ListSound | internal/history/sqlite.go:128-135 | List returns at most limit rows, each a row of the table matching the search, pinned first and newest first |
| History.ListComplete | internal/history/sqlite.go:128-135 | a matching row is left out only when the result is full, and then it comes after every row returned |
| History.Matches | internal/history/sqlite.go:130-132 | the WHERE clause List adds: every row for an empty search, otherwise the rows whose lowered text contains the lowered search (the LIKE wildcards are under Left out) |
| History.ListOf | internal/history/sqlite.go:128-135 | the rows the List query selects: the ordered table filtered by Matches and cut to limit; ListSound and ListComplete characterise it |
| History.SearchAlphaFindsPinned | main_test.go:37-64 | with "alpha snippet" pinned and "beta note" not, List(10, "alpha") returns exactly the pinned entry |
| History.FindById | internal/history/sqlite.go:116-117 | the lookup finds a row of the table with that id, and finds nothing exactly when no row has it |
| History.PinRows | internal/history/sqlite.go:88-95 | only the pinned flag of the rows with that id changes; the rows and their order stay; an absent id changes nothing |
| History.PinThenFind | internal/history/sqlite.go:88-95 | looking up a row after pinning it gives the row with the new flag, and an absent id stays absent |
| History.PinIdempotent | internal/history/sqlite.go:88-95 | setting a pin twice is setting it once |
| History.PinKeepsInvariant | internal/history/sqlite.go:88-95 | pinning keeps the ids positive, increasing and below the next id |
| History.DeleteRows | internal/history/sqlite.go:98-101 | the rows left are exactly those with another id |
| History.DeleteKeepsInvariant | internal/history/sqlite.go:98-101 | deleting keeps the table invariant, and the id is gone afterwards |
| History.AppendKeepsInvariant | internal/history/sqlite.go:28 | a row with the next id keeps the ids strictly increasing; ids are never reused |
| History.SqliteHistory.Insert | internal/history/sqlite.go:46-85 | on success one row holding the sanitised text and source is appended with the next id, and the entry returned has that id, the text and source as passed and pinned false; the id is above every older id; on failure nothing changes |
| History.SqliteHistory.Latest | internal/history/sqlite.go:104-113 | the row that comes first under the ORDER BY, errNoRows exactly for an empty table, and a storage error when sqlite3 fails |
| History.SqliteHistory.ByID | internal/history/sqlite.go:116-125 | the row with that id, or errNotFound exactly when there is none |
| History.SqliteHistory.List | internal/history/sqlite.go:128-135 | the rows of the List query: at most limit, each matching, sorted pinned first and newest first |
| History.SqliteHistory.SetPinned | internal/history/sqlite.go:88-95 | on success the table is PinRows of the old one, with no error for an absent id; on failure it is unchanged |
| History.SqliteHistory.Delete | internal/history/sqlite.go:98-101 | on success the table is DeleteRows of the old one, with no error for an absent id; on failure it is unchanged |
| Store.Store.constructor | internal/store/store.go:15-17 | a new store holds the zero entry |
| Store.Store.Set | internal/store/store.go:20-24 | Set overwrites the slot with any value, with no comparison |
| Store.Store.Get | internal/store/store.go:27-31 | Get returns the slot and modifies nothing |
| Store.SetThenGet | main_test.go:11-19 | Get after Set(v) returns v with every field intact |
| Store.GetBeforeSet | internal/store/store.go:15-17 | before any Set, Get returns the zero entry, whose text is empty |
| Handlers.DecodeClipboard | internal/server/handlers.go:42-63 | a form Content-Type selects the form decoder and any other type the JSON one; the request decodes exactly when the chosen decoder succeeds; each failure has its own message |
| Handlers.InsertArgsRefusesBlank | internal/server/handlers.go:64-68 | a POST is refused exactly when its text is all white space |
| Handlers.InsertArgsAreSanitized | internal/server/handlers.go:64-74 | Insert receives the sanitised trimmed text and source, with no NUL or CR, on which sanitising changes nothing |
| Handlers.SourceDefaulting | internal/server/handlers.go:69-73 | a blank source is stored as "unknown"; any other source is kept untrimmed, apart from sanitising |
| Handlers.NulOnlyTextIsStoredEmpty | internal/server/handlers.go:64-74 | the emptiness check runs before sanitising, so NUL-only text passes it and is stored empty |
| Handlers.LimitParam | internal/server/handlers.go:99-107 | the limit is 50 when blank; otherwise it is the trimmed value, which must parse as an integer from 1 to 200, or the request is refused |
| Handlers.LimitParamAcceptsDecimal | internal/server/handlers.go:99-107 | every limit from 1 to 200 written in decimal is accepted as is |
| Handlers.PostStoresExactly | internal/server/handlers.go:64-81 | a POST stores a row exactly when it decodes, its text is not blank and the INSERT succeeds; the row is new, unpinned and holds the trimmed, sanitised text |
| Handlers.PostRefusalStatus | internal/server/handlers.go:42-78 | a refused POST answers 400 exactly for a body problem and 500 exactly for a storage failure |
| Handlers.InsertArgs | internal/server/handlers.go:64-73 | what handleClipboard passes to Insert: refusal for blank trimmed text, otherwise the trimmed text and the defaulted source, both sanitised; InsertArgsRefusesBlank, InsertArgsAreSanitized and SourceDefaulting characterise it |
| Handlers.PostOutcome | internal/server/handlers.go:40-81 | the outcome of a POST: 400 with the decode message, 400 for blank text, 500 when the INSERT fails, otherwise the new unpinned row with the next id; PostStoresExactly and PostRefusalStatus characterise it |
| Handlers.Prepare | internal/server/handlers.go:64-73 | the step-by-step trim, refusal, defaulting and sanitising compute the arguments PostStoresExactly is about |
| Handlers.App.constructor | internal/server/server.go:28-31 | the cache starts with the first row under the ORDER BY when Latest succeeds, and with the zero entry otherwise |
| Handlers.App.Post | internal/server/handlers.go:40-81 | a refused POST leaves the cache and the table as they were; an accepted one appends the entry and then caches it, answering 201 with it |
| Handlers.App.HandleClipboard | internal/server/handlers.go:38-92 | GET answers 404 exactly when the cached text is blank and 200 with the cached entry otherwise; other methods besides POST answer 405; only POST changes state |
| Handlers.App.HandleHistory | internal/server/handlers.go:94-115 | a bad limit answers 400 before List runs; otherwise the reply is List with the validated limit and the trimmed query, or 500 |
| Handlers.App.HandlePin | internal/server/handlers.go:117-144 | id <= 0 answers 400 before the table is touched; an UPDATE failure answers 500; the 404 comes only from the ByID that follows; the cache is never updated |
| Handlers.App.HandleDelete | internal/server/handlers.go:146-167 | id <= 0 answers 400 before the table is touched; any positive id whose DELETE runs answers 204, found or not; the cache is never updated |
| Handlers.ZeroEntryIsEmpty | internal/server/handlers.go:83-86 | the zero entry's text is blank, so GET answers 404 before the first POST |
| Logs.Window | internal/server/logs.go:38-45 | the reference contents of the log: the last 500 entries ever added, or all of them while there are fewer |
| Logs.Appended | internal/server/logs.go:41-44 | after one Add the new entry is last and there are at most 500 entries; only the oldest overflowing entry is dropped, and the others keep their order; below capacity the buffer grows by exactly the new entry |
| Logs.AppendedWindow | internal/server/logs.go:38-45 | one Add on the window of a history is the window of the extended history |
| Logs.AddAllWindow | internal/server/logs.go:38-45 | any run of Adds on the window of a history leaves the window of the extended history |
| Logs.AddAllFromEmpty | internal/server/logs.go:33-45 | from the empty log, any run of Adds leaves exactly the last 500 entries added, oldest first |
| Logs.NewestListedFirst | internal/server/logs.go:48-57 | right after Add(e), List starts with e |
| Logs.RequestLogs.constructor | internal/server/logs.go:33-35 | a new log is empty |
| Logs.RequestLogs.Add | internal/server/logs.go:38-45 | the new buffer is Appended of the old one, and the size bound is kept |
| Logs.RequestLogs.List | internal/server/logs.go:48-57 | the two-index swap loop returns the entries reversed, newest first, and leaves the stored entries as they were |
| Logs.TruncateForLog | internal/server/logs.go:81-89 | the result is the first min(len, max) bytes: the input itself when it fits, and so empty for empty input |
| Logs.TruncateIdempotent | internal/server/logs.go:81-89 | truncating twice to the same bound is truncating once |
| Logs.ResponseRecorder.constructor | internal/server/logs.go:109 | the recorder starts at the given status with an empty buffer |
| Logs.ResponseRecorder.WriteHeader | internal/server/logs.go:66-68 | WriteHeader only records the code |
| Logs.ResponseRecorder.Write | internal/server/logs.go:70-72 | Write only appends to the buffer and reports every byte as written |
| Logs.ResponseRecorder.Status | internal/server/logs.go:74-79 | the recorded code, with 0 read as 200; never 0 |
| Logs.WrittenAppend | internal/server/logs.go:70-72 | the bytes buffered over two runs of calls are those of the first run followed by those of the second |
| Logs.NoHeaderKeepsStatus | internal/server/logs.go:66-68 | a run of calls without WriteHeader leaves the initial code |
| Logs.LogPath | internal/server/logs.go:94-97 | an empty URL path is logged as "/", and any other path as it is |
| Logs.Captured | internal/server/logs.go:103-107 | only POST, PUT and PATCH with a body are read, and of those at most 65537 leading bytes |
| Logs.LargeBodyCut | internal/server/logs.go:103-107 | as written, a POST, PUT or PATCH body of more than 65537 bytes reaches the handler cut short |
| Logs.LargePostExample | internal/server/logs.go:103-107 | a 65538-byte POST to /api/clipboard reaches the handler without its last byte |
| Logs.Forwarded | internal/server/logs.go:103-107 | the body the handler reads as written: a captured body is replaced by the captured bytes alone; LargeBodyCut shows the loss |
| Logs.ForwardedWholeIsBody | internal/server/logs.go:103-107 | with the unread rest chained back on, the handler reads exactly the body sent and the log keeps the same bytes |
| Logs.ForwardedWhole | internal/server/logs.go:103-107 | the corrected forwarding: the captured bytes followed by the unread rest of the body; ForwardedWholeIsBody shows it is the body sent |
| Logs.SmallBodyForwarded | internal/server/logs.go:103-107 | a body of at most 65537 bytes reaches the handler whole even as written |
| Logs.RemoteIP | internal/server/logs.go:119-122 | the logged address is the host part when it is non-empty, and the raw address otherwise |
| Logs.EntryFor | internal/server/logs.go:123-131 | the logged status is never 0, the path is LogPath, both bodies are at most 64 KiB, and an uncaptured request logs no body |
| Logs.Record | internal/server/logs.go:109-110 | a fresh recorder at 200 ends with the last WriteHeader code and every byte written, in order |
| Logs.Serve | internal/server/logs.go:92-133 | /api/logs is passed through unchanged and not logged; any other request reaches the handler with its whole body (the corrected forwarding of the finding below), the status sent on is the recorder's (never 0), which is also the status logged, the bytes sent on are the handler's, and exactly one entry is added to the log |
| Logs.HandleLogs | internal/server/handlers.go:169-179 | 405 for any method but GET; 200 with an empty list without a log; otherwise 200 with the entries newest first |
| Client.Run | internal/client/client.go:36-58 | a run of cycles does one thing per outcome |
| Client.Client.constructor | internal/client/client.go:35 | lastSent starts empty |
| Client.Step | internal/client/client.go:37-57 | one pass of the loop: a read error leaves lastSent and does nothing, otherwise StepWith of the trimmed text |
| Client.StepWith | internal/client/client.go:42-56 | the rest of the pass: post when the text is new, fetch when there is a writer, and apply a foreign entry that differs from the text; PushCondition, WriteCondition and StepLastSent characterise it |
| Client.Client.Cycle | internal/client/client.go:37-57 | one pass of the loop takes lastSent and what the pass did to the transition Step gives |
| Client.Client.RunCycles | internal/client/client.go:36-58 | the loop over a sequence of outcomes ends with the state and effects of Run |
| Client.ReadFailureSkipsCycle | internal/client/client.go:37-41 | a failed local read skips push and pull and keeps lastSent |
| Client.PushCondition | internal/client/client.go:42-44 | a push happens exactly when the trimmed text is non-empty and differs from lastSent, and what is pushed is the trimmed text |
| Client.StepLastSent | internal/client/client.go:37-56 | after a cycle lastSent is the written text when the local write succeeds, otherwise the posted text when the post succeeds, otherwise unchanged; a fetch happens exactly when there is a write command and the local read succeeded |
| Client.FailedPostKeepsLastSent | internal/client/client.go:44-54 | a failed post keeps lastSent unless a local write succeeds in the same cycle, including when a write is attempted and fails |
| Client.FailedPostIsRetried | internal/client/client.go:43-54 | after a failed post, unless a local write succeeded in that cycle, reading the same text in the next cycle posts it again |
| Client.PushOnlyWithoutWriter | internal/client/client.go:30-32 | without a write command the client never fetches and never writes |
| Client.WriteCondition | internal/client/client.go:49-52 | the remote text is written exactly when a writer exists, the fetch succeeded, its text is non-empty, its source is another machine and its text differs from this cycle's trimmed local text |
| Client.WrittenTextIsNotPushedBack | internal/client/client.go:52-54 | after a successful local write, a next read that trims to the written text pushes nothing |
| Client.EchoSuppressed | internal/client/client.go:51 | in any run, every local write copies a fetched entry from another source; the client's own entries are never written back |
| Client.HoldsTextStep | internal/client/client.go:42-56 | a cycle whose read trims to t and whose fetch offers nothing foreign and new writes nothing, and lastSent becomes t exactly when it posts t successfully |
| Client.RunConcat | internal/client/client.go:36-58 | running a then b is running b from where a left lastSent |
| Client.RunSplit | internal/client/client.go:36-58 | a run splits at any cycle into the run of the cycles before it and the run of the rest |
| Client.SteadyStateIsQuiet | internal/client/client.go:42-56 | while the local text trims to lastSent and the server offers nothing new from another machine, no cycle posts or writes and lastSent stays put |
| Client.LastSentAfterPost | internal/client/client.go:44-45 | a successful post of t leaves lastSent equal to t |
| Client.NoPushAfterSuccess | internal/client/client.go:42-46 | while the local text stays the same and nothing new arrives, it is pushed successfully at most once |
| TabRows.SplitN | main.go:417 | strings.SplitN gives between 1 and n pieces; all but the last are free of the separator, and so is the last when there are fewer than n |
| TabRows.SplitNLength | main.go:417-418 | the number of pieces is the number of separators plus one, capped at n |
| TabRows.JoinSplitN | main.go:417 | joining the pieces of SplitN with the separator gives back the line |
| TabRows.DropCR | main.go:414-416 | the scanner's line is the piece itself or the piece without one final CR |
| TabRows.IdField | main.go:421 | the parsed id when the field is an int64; the saturated bound when it is out of range, also when its leading digits overflow 64 bits before a later non-digit; 0 for any other malformed field |
| TabRows.ParseRow | main.go:417-429 | a row has tab-free text, source and timestamp, comes from exactly five pieces, and is pinned exactly when the fifth piece is "1" |
| TabRows.ParseRowKeeps | main.go:417-420 | a line is kept exactly when it has at least four tabs; others are skipped silently |
| TabRows.SelectRows | main.go:405-432 | the scanner loop returns no rows for blank output, and otherwise the rows of the lines it parses, in order |
| TabRows.ScannerLines | main.go:414-416 | the tokens of bufio.Scanner with ScanLines: the pieces between line breaks, each without one trailing CR, with no token after a final line break; there are no more tokens than pieces, and ScanJoined gives the inverse |
| TabRows.SelectRowsOf | main.go:405-432 | selectRows as a function: no rows for blank output, otherwise the parse of each scanner line; SelectJoined and ReadBackClean characterise it |
| TabRows.ParseShowInt | main.go:421 | every int64 id printed in decimal parses back to itself |
| TabRows.RowLineParses | main.go:417-429 | the line of a row without tab or line break in its columns parses back to that row |
| TabRows.ScanJoined | main.go:414-416 | the scanner gives back lines joined by line breaks |
| TabRows.SelectJoined | main.go:405-432 | selectRows of lines joined by line breaks and trimmed is the parse of those lines |
| TabRows.ReadBackClean | main.go:405-432 | rows without tab or line break in their columns come back from selectRows unchanged |
| TabRows.TabInTextShiftsColumns | main.go:417-428 | a tab in the text shifts the columns: the text keeps what comes before the tab and the source becomes what follows |
| TabRows.NewlineSplitsLine | main.go:414-416 | a line break in the text makes the row two lines |
| TabRows.NewlineInTextLosesRow | main.go:414-420 | a row whose text holds a line break is not read back at all |
| Legacy.SelectedById | main.go:385-386 | the WHERE id = n LIMIT 1 query selects at most one row, and none exactly when no row has the id |
| Legacy.ByIdOf | main.go:385-394 | the older byID fails on a storage error, gives "not found" when the id is absent, and finds only ids that are present |
| Legacy.LatestOf | main.go:374-383 | the older latest fails on a storage error and gives "no rows" for an empty table |
| Legacy.ListRead | main.go:396-403 | the older list succeeds exactly when sqlite3 does |
| Legacy.ByIdClean | main.go:385-394 | on a table without tabs or line breaks the older byID finds exactly the row with that id |
| Legacy.ListClean | main.go:396-403 | on such a table the older list returns exactly what the List query selects |
| Legacy.LatestClean | main.go:374-383 | on such a table the older latest is the first row under the ORDER BY, and "no rows" only for an empty table |
| Legacy.SearchAlphaReadsPinned | main_test.go:37-64 | with "alpha snippet" pinned, the older list for "alpha" reads back exactly that entry |
| Legacy.InsertReadsBackClean | main.go:351-363 | a row without tab or line break that insert has just stored is read back as stored |
| Legacy.FindAfterOlder | main.go:362 | looking up the id of a row appended after older ids finds it |
| Legacy.InsertLosesMultilineText | main.go:351-363 | as written, a text with a line break is stored, but the byID that insert ends with reports "not found" |
| Legacy.InsertLosesLineBreakExample | main.go:351-363 | "a\nb" inserted into an empty table is stored as row 1, which byID does not find |
| Legacy.InsertShiftsTabbedText | main.go:351-363 | a tab in the text is stored as given, but insert returns the row with its columns shifted |
| Legacy.RowidOutput | main.go:358 | the trimmed output of SELECT last_insert_rowid() parses back to the id |
| Legacy.LegacyHistory.constructor | main.go:46-49 | a fresh table is empty, with next id 1 |
| Legacy.LegacyHistory.Insert | main.go:351-363 | on success the strings passed in are appended as a new unpinned row with the next id, and the result is what byID then reads back; on failure nothing changes |
| Legacy.LegacyHistory.ByID | main.go:385-394 | the method through selectRows gives ByIdOf |
| Legacy.LegacyHistory.Latest | main.go:374-383 | the method through selectRows gives LatestOf |
| Legacy.LegacyHistory.List | main.go:396-403 | the method through selectRows gives ListRead |
| Legacy.LegacyHistory.SetPinned | main.go:365-372 | on success the table is PinRows of the old one; on failure it is unchanged |
| Legacy.InsertTwo | main_test.go:37-64 | the two inserts of the test store rows 1 and 2 unpinned, and the first insert returns row 1 |
| Legacy.SearchAndPinScenario | main_test.go:37-64 | on a fresh table, two inserts, pinning the first and searching "alpha" return exactly the pinned first entry |
| Legacy.LegacyInsertArgs | main.go:119-128 | the older handler refuses text that is all white space; otherwise it inserts the trimmed text and the defaulted source, unsanitised |
| Legacy.NewerArgsAreSanitisedLegacyArgs | internal/server/handlers.go:64-74 | the newer handler inserts the older handler's values, sanitised |
| Legacy.EmptyTextRefused | main_test.go:21-35 | empty text is refused |
| Legacy.LegacyApp.constructor | main.go:84-87 | the older cache starts with what latest returns when that succeeds, and with the zero entry otherwise |
| Legacy.LegacyApp.Post | main.go:110-136 | a refused POST changes nothing; an accepted one stores the row and caches and answers 201 with what insert read back, or answers 500 with the row stored and the cache untouched |
| Legacy.LegacyApp.HandleClipboard | main.go:108-148 | GET answers 404 exactly when the cached text is blank; other methods besides POST answer 405; only POST changes state; a POST is refused with 400 for a bad body or blank text, answers 500 with nothing stored when the INSERT fails, and otherwise stores the row and answers 201 with what insert reads back (caching it), or 500 when that read-back fails |
| Legacy.LegacyApp.HandleHistory | main.go:150-174 | the same limit rule as the newer server; the rows are those the older list reads back |
| Legacy.LegacyApp.HandlePin | main.go:176-205 | id <= 0 answers 400, a failed setPinned 500, and a failed byID 404; otherwise 200 with the row read back |
| Clipboard.Detect | internal/clipboard/clipboard.go:19-36 | detection succeeds exactly when a reader is present; wl-paste wins when present, then xclip, then xsel; chosen tools are present; without one the result is an empty read command, no writer and the error |
| Clipboard.WaylandPair | internal/clipboard/clipboard.go:20-24 | with wl-paste and wl-copy the pair is wl-paste and wl-copy |
| Clipboard.WaylandReadOnly | internal/clipboard/clipboard.go:25 | wl-paste without wl-copy is read-only with no error, with no fallback to xclip or xsel writers |
| Clipboard.X11HasWriter | internal/clipboard/clipboard.go:27-34 | xclip and xsel each come with a writer of the same tool |
| Clipboard.EnsureDetect | internal/clipboard/clipboard.go:39-48 | TryInstall runs exactly when the first Detect fails; Detect is run again only when TryInstall returned true |
| Clipboard.FailedInstallKeepsError | internal/clipboard/clipboard.go:39-48 | a failed install leaves the no-tool error |
| Clipboard.Write | internal/clipboard/clipboard.go:63-72 | a nil command is an error and nothing runs; otherwise the command runs and its failure is the error |
| Clipboard.ReadOnlyNeverWrites | internal/clipboard/clipboard.go:25 | with a read-only detection every Write fails without running a command |
| Addr.PortFromAddr | internal/server/addr.go:39-47 | "8080" for an empty address; otherwise the result is "8080" or a suffix of the address; with no colon or a trailing colon the address itself |
| Addr.PortOfHostPort | internal/server/addr.go:43-45 | the port joined onto any host after a colon comes back out, when it is non-empty and has no colon |
| Addr.ListenFormsGivePort | internal/server/addr.go:39-47 | ":8080" and "0.0.0.0:8080" both give "8080", as instances of PortOfHostPort with an empty host and with 0.0.0.0 |
| Addr.EffectivePort | internal/server/addr.go:51-53 | an empty port is "8080"; any other port is kept |
| Addr.JoinHostPort | internal/server/addr.go:60 | net.JoinHostPort: host, colon and port, with the host bracketed exactly when it contains a colon |
| Addr.ServerURLs | internal/server/addr.go:50-63 | one http://ip:port per IP, in input order, none without IPs, with an empty port read as 8080 |
| Addr.URLCarriesPort | internal/server/addr.go:50-63 | PortFromAddr of each URL gives back the port it was built with |
| WebText.JsTrimSpec | web/src/utils/text.js:18 | String.prototype.trim gives text that starts and ends with a non-space character, is empty exactly for all-white-space input, and leaves text with no white space at either end unchanged; and the text is what is left of the input once a white-space prefix and a white-space suffix are cut off |
| WebText.JsTrimSlice | web/src/utils/text.js:18 | the trimmed text is the slice of the input between an all-white-space prefix and an all-white-space suffix |
| WebText.JsTrim | web/src/utils/text.js:18 | String.prototype.trim with the ECMAScript white-space set; the result is no longer than the input and uses only its characters, and JsTrimSpec characterises it |
| WebText.ServerKeepsClientTrim | web/src/api.js:22-25 | text trimmed by the browser is unchanged by the server's trim unless it starts or ends with U+0085 |
| WebText.ShortText | web/src/utils/text.js:5-9 | "" for a falsy text; the text itself up to max characters; otherwise its first max characters and an ellipsis, max + 1 in all |
| WebText.ShortTextIdempotent | web/src/utils/text.js:5-9 | shortening a shortened text changes nothing |
| WebText.HighlightSearch | web/src/utils/text.js:17-28 | a blank query or a falsy text gives the escaped short text, and so does a query the short text does not contain |
| WebText.HighlightMarksFirstMatch | web/src/utils/text.js:20-27 | when the short text is before + match + after, with the match the query up to case and no earlier occurrence, the result marks exactly that match |
| WebText.HighlightMissesTruncatedMatch | web/src/utils/text.js:18-23 | a match past the truncation is not seen |
| WebText.NormalizeLineEndings | web/src/utils/text.js:31-38 | a non-string comes back as it is; a string comes back free of CR, U+2028 and U+2029 |
| WebText.NormalizeIdempotent | web/src/utils/text.js:31-38 | normalising twice is normalising once |
| WebText.NormalizeIsLineEnds | web/src/utils/text.js:33-35 | without the Unicode separators the browser's normalisation is the server's line-ending pass, so CRLF becomes one LF |
| WebText.CrlfBecomesOneLf | web/src/utils/text.js:33-35 | "\r\n" becomes "\n" |
| WebApi.GetClipboard | web/src/api.js:3-10 | 404 gives null and nothing else does; a 2xx reply gives the entry; any other status and a failed fetch throw |
| WebApi.Attempt | web/src/api.js:24-52 | an OK reply gives the entry; a non-OK reply throws its body text, or its status text when the body is empty; a rejected fetch throws its reason |
| WebApi.Normalized | web/src/api.js:24-25 | the text sent is free of CR, U+2028 and U+2029 and has no white space at either end |
| WebApi.SourceOrWeb | web/src/api.js:22 | the source is "web" when none is passed |
| WebApi.PostClipboard | web/src/api.js:22-62 | the JSON attempt goes first; the form attempt is sent exactly when the JSON attempt fails; both send the same normalised text and source; when both fail the error is the JSON attempt's |
| WebApi.ServerStoresSubmittedText | web/src/api.js:22-62 | text the browser sends without NUL, and not starting or ending with U+0085, is stored by the server unchanged |
| WebFormat.RelativeTime | web/src/utils/format.js:17-35 | "" for a falsy time; otherwise, with s the whole seconds, the buckets below 10 s, 1 min, 1 h, 1 day and 1 week are contiguous, each shows s in its unit, and a week or more gives the locale date |
| WebFormat.JustNowBelowTenSeconds | web/src/utils/format.js:22-23 | anything under ten seconds old, future times included, is "just now" |
| UseHistory.LoadedItems | web/src/composables/useHistory.js:35-38 | an array reply is kept, and a non-array reply and a failure both give [] |
| UseHistory.TogglePinRequest | web/src/composables/useHistory.js:46 | the request carries the item's id and the negation of its flag |
| UseHistory.HistoryView.constructor | web/src/composables/useHistory.js:6-12 | the view starts empty and loading, sorted "recent", with limit 80 |
| UseHistory.HistoryView.FilteredItems | web/src/composables/useHistory.js:16-21 | "oldest" gives the reverse of the list, "pinned" the pinned items in order, and anything else the list as it is; nothing is modified |
| UseHistory.HistoryView.LoadHistory | web/src/composables/useHistory.js:32-42 | the list becomes LoadedItems of the reply, loading ends whatever the outcome, and the query, sort and limit are not changed |
| UseHistory.HistoryView.TogglePin | web/src/composables/useHistory.js:44-52 | the request negates the flag; on success the list is reloaded and the toast follows the old flag; on failure the list stays and the toast is "Pin failed" |
| UseHistory.OldestUndoesRecent | web/src/composables/useHistory.js:18 | reading the "oldest" view backwards gives the list |
| UseHistory.PinnedViewMembers | web/src/composables/useHistory.js:19 | the "pinned" view holds exactly the pinned items |
| UseHistory.PinnedViewNewestFirst | web/src/composables/useHistory.js:19 | on a list in server order the "pinned" view is newest first |
| UseHistory.TogglePinFlips | web/src/composables/useHistory.js:46 | sending the request for a row of the table flips that row's flag and nothing else about it |
| Seqs.ReverseInPlace | internal/server/logs.go:53-55 | the two-index swap loop leaves the array reversed |
| Seqs.ReverseReverse | web/src/composables/useHistory.js:18 | reversing twice gives back the sequence |
| Seqs.ReverseMultiset | internal/server/logs.go:51-55 | reversal keeps the same elements |
| Seqs.FilterMembers | web/src/composables/useHistory.js:19 | an element is in the filtered sequence exactly when it is in the sequence and satisfies the predicate |
| Seqs.FilterKeepsPairwise | web/src/composables/useHistory.js:19 | filtering keeps the relative order of the elements it keeps |
| Seqs.FilterPartition | internal/history/sqlite.go:105 | the pinned rows and the unpinned rows together are the whole table |
| Seqs.Take | internal/history/sqlite.go:133 | LIMIT n keeps the first n rows, or all of them for a negative n |

## Left out

- Process execution: the sqlite3 subprocess, its `.mode` switch, the JSON row decoding of the newer selectRows, and the schema migration in Init. Each call's success is a parameter, and the table is an in-memory sequence.
- HTTP transport and the JSON and form codecs on both sides. Decoded bodies and replies are parameters, and responses are a status with the body the handler chooses. The legacy client's postClipboard and fetchClipboard are covered only through the client's outcomes.
- Mutexes: every operation is modelled as sequential.
- The clock. Timestamps are the opaque text the server formats; time.Parse is not modelled, and relativeTime takes the elapsed milliseconds as a parameter.
- The clipboard commands' execution and 2-second timeouts, clipboard Read, and the package installs of install.go. Their outcomes are parameters.
- LocalIPs, which enumerates the network interfaces. ServerURLs takes the IPs as a parameter. net.SplitHostPort is a parameter of the middleware.
- History.Matches: LIKE wildcards (`%`, `_` inside the search) and full Unicode case mapping are not modelled. Search is plain substring containment on ASCII-lowered text, and String.prototype.toLowerCase is the same ASCII lowering.
- escapeHtml, which needs the DOM. It is a parameter of highlightSearch.
- formatDate, formatLogTime and formatLogBody: they depend on locale formatting and JSON.parse.
- copyItem, deleteItem, the search debounce, the toasts, and the useClipboard, useLogs and useToasts composables: they depend on timers and the DOM. The request wrappers getHistory, setPin, deleteHistory and getLogs are fetch calls, and their outcomes are parameters of the history view.
- web/src/api.js normalizeLineEndings is the same function as the one in text.js and is modelled once, as WebText.NormalizeLineEndings.
- main.go clipboardStore and the runClient loop are the same code as internal/store/store.go and internal/client/client.go, and are modelled once, as Store and Client.
- Startup wiring, flag parsing, the embedded HTML page, static.go and the index handler.
- Logs.Captured: a read error of the request body is not modelled.
- Logs.Serve: the reply of the passed-through /api/logs request is not followed.
- TabRows.ScannerLines: bufio.Scanner's error for lines over 64 KiB is not modelled.
- Client.Run: the loop is infinite in the program and runs over a finite sequence of outcomes here.
- WebText.ShortText: a Dafny character is a Unicode scalar value, not a UTF-16 code unit, so the JavaScript length and slice of text with characters outside the Basic Multilingual Plane (counted as two units, and possibly cut between them) are not modelled.
- WebFormat.RelativeTime: the delta is an integer, so the NaN delta of an unparseable timestamp, which gives "Invalid Date", is not modelled.
- Legacy.LatestOf: on a table with tabs or line breaks, latest reads back whatever the text format yields; only the clean case is stated, in Legacy.LatestClean.

## Findings

| source | as written | input that shows it | evidently intended | confidence | as-written member | corrected member |
|---|---|---|---|---|---|---|
| main.go:351-363 | insert stores the row, then returns byID's read-back through the `.mode tabs` parser, which splits a text with a line break into two lines and skips both | POST text "a\nb" to an empty table: row 1 is stored, insert reports "not found", and the handler answers 500 | return the row just inserted, as internal/history/sqlite.go:75-84 later does | not executed | Legacy.InsertLosesMultilineText, Legacy.InsertLosesLineBreakExample | History.SqliteHistory.Insert |
| internal/server/logs.go:103-107 | the middleware reads at most 65537 bytes of a POST, PUT or PATCH body for the log, then replaces the body with only those bytes | a 65538-byte POST to /api/clipboard reaches the handler without its last byte | log at most 64 KiB and forward the whole body, with the unread rest chained after the captured bytes | not executed | Logs.LargeBodyCut, Logs.LargePostExample | Logs.ForwardedWholeIsBody, used by Logs.Serve |
