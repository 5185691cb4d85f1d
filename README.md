# Log tail of the `/event-stream` endpoint

This project models the log-tailing core of the Realtime-Logs server
(`server/index.ts`). A client that opens `/event-stream` gets a server-sent
event stream. First comes the greeting `data: connected to server\n\n`. Then
comes the history: every non-blank line of `logs/combined.log`. After that
comes the live tail. A file watcher keeps a byte cursor, `lastSize`. On every
`'change'` notification where the file has grown past the cursor, it starts a
read of exactly the new bytes and moves the cursor to the new size at once.
When the read ends, it writes one frame per non-blank line of what was read.

Files:

- `line_text.dfy` (module `LineText`): the JavaScript string work used to extract lines, written out over `seq<char>`. This is `split('\n')` (`Split`, with its inverse `Join`), `trim()` (`Trim`, over the full ECMAScript whitespace and line-terminator set) and the `filter` on a non-empty trim (`KeepNonBlank`). `Lines` composes the three.
- `log_tail.dfy` (module `LogTail`): the watcher callback as a pure state machine over the cursor (`Advance`, `NewContent`, `NewLines`), runs of callbacks (`CursorAfter`, `ContentRead`, `LinesEmitted`), and the lemmas about those runs.
- `event_stream.dfy` (module `EventStream`): SSE frames and the `Session` class. The class holds the mutable state of one connection: the frames written so far, the `lastSize` cursor, and whether the watcher is still running. Its methods are the connect sequence, the history replay, the frame-writing loops and the watcher callback. Each method is proved against the `LogTail` functions. `Serve` runs one whole connection and returns what the client receives (`Transcript`).

The file is a `FileState`: either `Missing` (`statSync` throws) or `Present(content)`. Its content is treated as ASCII, so its size in bytes is its length. A connection sees the file three times before any notification: at the history read, at the size probe and when `fs.watch` is set up. Each watcher notification is an `Event`. It carries the event type and the file as the callback finds it. The read stream is taken to finish inside the callback that opened it.

Where the system's intended design and its code differ, the model follows the code:

- A trailing partial line is not held back. It is emitted at once as a fragment, and the cursor moves past it (`SplitRecordArrivesInFragments`).
- The cursor is never reset when the file shrinks. Content appended after a truncation is skipped until the file grows past the old cursor (`TruncatedFileIsNotReread`).
- A missing file does not produce the sentinel `{"info": "No previous logs found"}`. The branch at `server/index.ts:114` cannot be reached, because `statSync` throws instead of returning a falsy value. `fs.watch` on a missing path also throws. A connection whose file is missing when the watcher is set up gets the history read so far and then nothing more, and one whose file is missing throughout gets the greeting alone (`MissingFileGetsOnlyGreeting`).
- A line is cut only at `'\n'`, and the filter tests `trim()` without applying it. A carriage return inside a line therefore reaches the client inside the frame, and the event-stream format ends the data line there. Such a line does not reach the client as written (`LineFramesReadBack`).
- There is no subscriber registry. Each connection has its own watcher and its own cursor.
- The handoff from history to live is not atomic. History is read first, and the size is probed afterwards. Bytes appended in between are never delivered (`GrowthBeforeProbeIsSkipped`). When nothing changes in between, every byte is delivered exactly once (`HistoryThenLive`).

## Model

| member | source | states |
|---|---|---|
| `LineText.Trim` | server/index.ts:109 | `line.trim()` is never longer than the line, and what remains neither starts nor ends with whitespace |
| `LineText.TrimStripsWhitespaceEnds` | server/index.ts:109 | `line.trim()` is a stretch of the line with only whitespace before and after it; with Trim's own contract this fixes the result |
| `LineText.TrimEmptyIffBlank` | server/index.ts:109 | `line.trim()` is empty (falsy) exactly when the line holds only whitespace, in both directions |
| `LineText.Split` | server/index.ts:107-108 | `split('\n')` yields at least one piece, and no piece contains `'\n'` |
| `LineText.JoinSplit` | server/index.ts:107-108 | splitting loses nothing: joining the pieces with `'\n'` gives back the text |
| `LineText.SplitJoin` | server/index.ts:107-108 | splitting undoes joining for pieces without `'\n'` (the other direction of the round trip) |
| `LineText.SplitCount` | server/index.ts:107-108 | there is one more piece than there are `'\n'` characters |
| `LineText.SplitAtSeparator` | server/index.ts:149-150 | a `'\n'` between two texts is the boundary between their pieces |
| `LineText.KeepNonBlank` | server/index.ts:109 | the filter keeps at most the pieces it is given, and every kept piece has a non-empty trim |
| `LineText.KeepNonBlankMembers` | server/index.ts:109 | a piece is kept if and only if it is one of the input pieces and its trim is non-empty |
| `LineText.KeepNonBlankAppend` | server/index.ts:151 | filtering keeps order: the filter of a concatenation is the concatenation of the filters |
| `LineText.Lines` | server/index.ts:107-109 | `split('\n')` then the filter: at most one line more than there are `'\n'` characters |
| `LineText.LinesAreNonBlankPieces` | server/index.ts:107-109 | every extracted line is a non-blank piece of the text without `'\n'`, and every non-blank piece is extracted |
| `LineText.LinesAtSeparator` | server/index.ts:149-151 | the lines of `a + "\n" + b` are the lines of `a` followed by the lines of `b` |
| `LineText.LinesAfterWholeRecords` | server/index.ts:149-151 | when a text ends in `'\n'` or is empty, the lines of it followed by more text are the lines of each part, in order |
| `LogTail.ProbedFileReadsNothing` | server/index.ts:124-141 | a callback that finds the file as the probe saw it reads nothing, so bytes present at the probe are never read live |
| `LogTail.Advance` | server/index.ts:133-137 | one callback never moves the cursor back; it moves exactly when `Grew` holds (a `'change'` to a present file larger than the cursor), and then to the file size (line 156) |
| `LogTail.NewContent` | server/index.ts:138-146 | the read covers exactly the bytes from the old cursor up to the new one, and nothing when the cursor stays |
| `LogTail.NewLines` | server/index.ts:149-151 | a callback without growth emits no line |
| `LogTail.CursorNeverDecreases` | server/index.ts:137 | over any run of callbacks the cursor never decreases |
| `LogTail.ReadLengthIsAdvance` | server/index.ts:138-141 | over any run, the text read is exactly as long as the cursor's total advance |
| `LogTail.ReadsAreContiguous` | server/index.ts:138-156 | on an append-only file the ranges read are adjacent and disjoint: together they are the file between the first and the final cursor, so no byte is read twice |
| `LogTail.HistoryThenLive` | server/index.ts:106-141 | if the file is unchanged between the history read and the size probe, the history followed by all live reads is the file up to the final cursor: nothing replayed is read again and nothing is skipped |
| `LogTail.GrowthBeforeProbeIsSkipped` | server/index.ts:106-127 | when the file grows between the history read and the size probe, the live reads are the file from the probed size on, and the file up to the final cursor is the history, then the bytes appended in between (never delivered), then the live reads |
| `LogTail.LinesStep` | server/index.ts:149-156 | for whole records, one callback's lines extend the lines up to the cursor to the lines up to the new cursor |
| `LogTail.WholeRecordsDeliveredOnce` | server/index.ts:107-156 | when the writer appends whole records, the replayed lines followed by the live lines are exactly the lines of the file up to the final cursor |
| `LogTail.SplitRecordArrivesInFragments` | server/index.ts:149-156 | a record written in two steps (a prefix, then the rest with its `'\n'`) is emitted as two fragments, although the file holds one line |
| `LogTail.TruncatedFileIsNotReread` | server/index.ts:133-137 | for any cursor and any run in which no callback finds the file larger than the cursor (it shrank, or it regrew at most to the old size), the cursor stays and nothing is read or emitted |
| `EventStream.Frame` | server/index.ts:111 | a frame is its line plus the eight characters of `data: ` and the closing blank line |
| `EventStream.Frames` | server/index.ts:110-112 | the `forEach` writes exactly one frame per line |
| `EventStream.FramesOnePerLine` | server/index.ts:110-112 | the frame at each position is the frame of the line at that position |
| `EventStream.FrameRoundTrip` | server/index.ts:111 | a frame `data: <line>\n\n` reads back as exactly its line if and only if the line holds neither `'\n'` nor `'\r'`, both of which end a field line in the event-stream format |
| `EventStream.LineFramesReadBack` | server/index.ts:152-154 | a frame written for an extracted line reads back as that line if and only if the line holds no `'\r'`, which the split and the filter let through |
| `EventStream.FramesAppend` | server/index.ts:110-112 | writing two lists of lines one after the other writes their frames in the same order |
| `EventStream.Transcript` | server/index.ts:83-173 | everything one connection writes starts with the greeting, followed by one frame per replayed line and, when the watcher was set up, one per live line |
| `EventStream.Session.Connect` | server/index.ts:90-132 | a new connection has written the greeting and then one frame per replayed line; the cursor is `ProbeSize` of the file at the probe (lines 124-130): its size, or 0 when the probe throws; the watcher runs only if the file exists when `fs.watch` is called |
| `EventStream.Session.SendExistingLogs` | server/index.ts:103-121 | history replay appends the frames of `ReplayLines`: one frame per non-blank line of the file, in order, or nothing, and no notice, when the file is missing |
| `EventStream.Session.WriteLines` | server/index.ts:110-112 | the `forEach` loop appends exactly one frame per line, in order, and keeps the greeting first |
| `EventStream.Session.OnEvent` | server/index.ts:132-165 | the callback sets the cursor to `Advance` of the old one and appends the frames of the lines read, and changes nothing once the watcher is gone; the cursor never decreases |
| `EventStream.Session.Follow` | server/index.ts:132-165 | a run of callbacks leaves the cursor at `CursorAfter` and appends the frames of `LinesEmitted`, in order |
| `EventStream.Session.Close` | server/index.ts:168-173 | after the client closes the connection, the watcher no longer runs |
| `EventStream.Serve` | server/index.ts:83-173 | what one connection writes, given the file at the history read, at the probe and at `fs.watch` and the callbacks it sees, is its transcript: the greeting, the history frames, then the live frames of every callback when the watcher was set up |
| `EventStream.MissingFileGetsOnlyGreeting` | server/index.ts:104-132 | a connection whose file is missing when the watcher is set up gets the greeting and the history and nothing after; with the file missing throughout it gets the greeting alone; the "No previous logs found" frame is never written |
| `EventStream.EachRecordDeliveredOnce` | server/index.ts:90-165 | when the watcher is set up, with an unchanged file between history read and probe, and whole records appended, the client gets the greeting and then one frame per non-blank line of the file up to the final cursor, each once and in file order |

## Left out

- Express setup, CORS and JSON middleware, the SSE response headers, `app.listen` and the `/emit-event` route (`server/index.ts:11-18`, `74-81`, `86-88`, `181-186`): HTTP plumbing over libraries that are not part of this model.
- `generateRandomLog` (`server/index.ts:21-72`): it is driven by `Math.random` and `randomUUID`, and it only builds fixed record literals. `server/logger.ts` is not part of this model: it is Winston configuration with no logic of its own.
- `statSync`, `readFileSync`, `fs.watch` and `createReadStream` are I/O. The file each of them finds is a parameter: the `FileState` at the history read, at the size probe, when the watcher is set up, and at each callback. Collecting the stream's chunks (`server/index.ts:142-146`) is modelled as one slice of the file.
- `fs.watch` failing on a file that exists (permissions, the system's watcher limit): the model ties the watcher only to whether the file exists at that moment.
- A read stream that fails to open (`server/index.ts:138-147`): it emits `'error'` with no listener attached, which Node turns into an uncaught exception. The model always delivers the slice.
- The read stream's `'end'` handler runs after the cursor update and may interleave with later callbacks. That concurrency is outside a sequential model, so each read finishes inside its callback.
- UTF-8: sizes are byte counts and the model's strings are characters. The model assumes an ASCII file, so a chunk boundary can never split a multi-byte character.
- Error logging in the catch blocks (`server/index.ts:116-120`, `158-163`). The logger writes to `logs/combined.log`, which can be the file being tailed, so a logged error can come back to the client as a live line. The model does not constrain the file at each callback, so every such record is covered as an ordinary append, but the feedback loop itself is not modelled.
- The outer catch (`server/index.ts:174-177`) runs when `fs.watch` throws on a missing file. Its `res.status(500).json(...)` comes after the greeting has already sent the headers, so it throws in turn, the error leaves the handler, and Express closes the connection. The model only records that the connection then gets nothing after the history, and does not model the socket being closed.
- `LineText.Trim`: its own contract states the length bound and that neither end of the result is whitespace. That the result is the line with its whitespace ends removed is stated by `TrimStripsWhitespaceEnds`. It is kept out of the function's contract because it would be unfolded for every trimmed line in every proof.
- `EventStream.Session.Close`: states only that the watcher stops. The `res.end()` call and the log message are not modelled.
