# Restork dashboard: verified core

A Dafny 4.11 model of the parts of the Restork dashboard that have to be right on every input: the durable
event stream, the session token that gates every request, the inspection of uploaded PPTX archives, the
Markdown preview, and the title of a forked conversation. `dafny verify dfyconfig.toml` checks it.

## What is modelled

- **Event stream** (`JsText`, `EventStream`, `EventWire`, `EventFields`, `EventCursors`). The decoder cuts
  frames at a match of `\r?\n\r?\n`, parses each, and flushes what is left when the stream ends. `EventWire` is the text that Core
  writes: frames with `id`, `event` and `data` lines, comments, LF or CRLF line ends, and the frame without an id
  that tells that Core cannot go on. `Number` and `JSON.parse` are two arbitrary functions in a `Runtime`; what a
  theorem needs of them is in its `requires`: `Number` reads back the ids that are sent, payloads are one-line
  objects, and no text that stops inside a payload is an object.
- **Reconnecting reader** (`DurableStream`, `DurableStreamLaws`, `Reconnection`, `ExactlyOnce`, `Rejections`). The
  environment is a function from the number of the attempt and the Last-Event-ID to what happens: the open fails,
  a status, no body, or a body read in chunks until it ends, breaks, or hangs. Every await point says whether the
  signal is aborted after it. A run is the list of opens, connections, deliveries and waits in their order,
  observed for any number of attempts. The code is a method with the loops of the source, proved equal to a function; the
  theorems are about that function. An honest server sends what the log has above the Last-Event-ID, or a part of
  it and then a failure frame.
- **Vault and mail streams** (`WatchStream`, `WatchDeliveries`). The same decoder without a cursor; failures
  of a response are swallowed and the delay depends on what was delivered.
- **Session rotation** (`SessionRotation`, `SessionLiveness`). The private fields are a class whose methods are the
  code between two awaits. A machine says what they do together when the actions of the page come in any order, and `Perform`
  proves the code equal to it. A promise that settles lets its waiters go on before any other action, in the
  order in which they came.
- **PPTX inspection** (`PptxArchive`, `PptxPolicy`). Bytes, little-endian fields, the backward scan, the walk over
  the central directory, and a writer of archives (sections 4.3.12 and 4.3.16 of PKWARE's APPNOTE.TXT). The UTF-8 decoder and
  `toLowerCase` are arbitrary functions. A ratio above 100 is written without division, which is exact: the
  quotient of two 32-bit integers is never rounded across 100.
- **Markdown preview** (`MarkdownInline`, `MarkdownRendering`, `MarkdownMarkup`, `MarkdownLines`, `MarkdownBlocks`,
  `MarkdownForms`, `MarkdownGrammar`). Each regular expression is written out as a function on strings, and
  `MarkdownGrammar` proves that the function accepts exactly what the expression describes. The four inline
  rewrites are one function with four patterns, applied one after the other as the source does.
- **Fork title** (`ForkTitle`). UTF-16 code units and the length of their UTF-8 encoding (section 3 of RFC 3629).

## Findings

Each of these is a property that one might expect and that the code does not have; the members named give a run
that shows it and the exact condition.

- A response that ends cleanly inside a frame rejects the call for good, where a broken connection would
  reconnect: after the read loop the decoder is flushed outside the `try`. The same happens after a terminal
  event or an abort, if a frame has begun behind it. `CallRejectsExactlyWhen` gives the condition for every call
  against an honest server: the last response was left in a frame of which `id:` has arrived and not the whole
  data line, or it completed a failure frame. `CleanEndInsideFrame` and `TerminalThenTorn` are two such runs.
- A frame with data and no `id` makes the decoder throw. Core sends such a frame (`runtime.error`) when its
  replay fails, and the reader then rejects for good instead of reconnecting (`FailureRejects`,
  `FailedReplayRejects`). Events of the
  same chunk are dropped with it, but the cursor still stands before them, so the next call gets them
  (`NextCallGoesOn`).
- `#scheduleRotation` sets its retry timer without looking at the pending one. `TimersStayTidy` gives the exact
  condition under which a timer is left that nobody can cancel, and `OrphanTimer` a run that meets it.
  Single flight does not depend on it.
- A request that waited for a rotation does not always bear the token of that rotation: a session that is accepted
  while the answer is being stored is used instead (`ReleasedRequestBearsItsRotation`, `OvertakenAnswer`).
- `inspectPptxArchive` does not tie the walk to the declared directory size, which has no part in the result
  (`DeclaredSizeIsIgnored`): the walk stays inside the declared directory exactly if that size covers the
  records (`WalkEnds`, `RunsPastDirectory`). The last record may even run past the end of the file; it does
  exactly if its extra field and comment do not fit behind its name (`OnlyLastRunsOut`, `RunsPastFile`).
- Emphases that touch are not read one by one: `*a**b**c*` comes out as one emphasis around strong text
  (`TouchingEmphases`); everywhere else a line renders piece by piece (`InlineRenders`).
- A forked title exceeds 240 bytes exactly when its suffix is above 228 bytes and not even the first code unit
  of the title fits (`BoundHolds`, `TitleTooLong`).
- Replayed events are recognised by id and type together, where docs/adr/0008-loopback-session-recovery-and-sse-replay.md
  speaks of ids: two events that share an id and differ in type are both handed out (`OneIdTwoTypes`). The model
  follows the code.

## Model

| member | source | states |
|---|---|---|
| `EventStream.ParseFrame` | dashboard/src/api/events.ts:59-82 | the line loop gives the meaning of the frame: last id, last type, all data lines joined, then the checks in order |
| `EventStream.FrameWithoutId` | dashboard/src/api/events.ts:70-73 | a frame is skipped exactly when no line is an id or data line; data without id is always an invalid cursor |
| `EventFields.FieldsMeaning` | dashboard/src/api/events.ts:59-82 | a frame with any fields in any order: the last id and the last type count, `message` stands for a missing type, the data lines are joined by line feeds; an id outside 0 to 9007199254740991 is an invalid cursor |
| `EventStream.EventStreamDecoder.Push` | dashboard/src/api/events.ts:31-43 | the result and the new buffer after a chunk, also when a frame throws |
| `EventStream.EventStreamDecoder.Finish` | dashboard/src/api/events.ts:45-51 | a blank rest gives nothing, any other rest is one more frame; the buffer is empty afterwards |
| `EventStream.ParseEventStream` | dashboard/src/api/events.ts:54-57 | a whole body: the complete frames, then the flushed rest, or the first error |
| `EventStream.BoundaryStable` | dashboard/src/api/events.ts:84-87 | the leftmost frame boundary of a text is that of every longer text that starts with it |
| `EventFields.BoundaryExactly` | dashboard/src/api/events.ts:84-87 | a frame ends at the first place where two line ends follow each other, each with or without a carriage return; without such a place there is no end |
| `EventStream.DrainAppend` | dashboard/src/api/events.ts:31-43 | pushing two texts one after the other is pushing them together |
| `EventStream.ChunkInvariance` | dashboard/src/api/events.ts:31-43 | every way of cutting a text gives the same events, the same error or none, and the same rest |
| `EventWire.BoundaryOfJoined` | dashboard/src/api/events.ts:84-87 | the first boundary of a written frame is the blank line that ends it, whatever follows |
| `EventWire.ItemMeaning` | dashboard/src/api/events.ts:59-82 | a written event frame means exactly its event, a comment frame nothing, a failure frame an invalid cursor |
| `EventWire.RoundTrip` | dashboard/src/api/events.ts:54-82 | writing any list of events, with LF or CRLF and comments anywhere, and decoding it gives that list back |
| `EventWire.DrainCut` | dashboard/src/api/events.ts:31-43 | a stream that has arrived up to any character has given the events of the first k frames and buffers the start of frame k |
| `EventWire.CutMeaning` | dashboard/src/api/events.ts:45-82 | a frame cut anywhere, even inside a character: an event means itself exactly if its data line is complete, nothing exactly if less than `id:` has arrived, and an error otherwise; a failure frame is an error exactly once its data line has begun |
| `EventWire.NoCorruptedDelivery` | dashboard/src/api/events.ts:45-51 | a stream that stops anywhere, flushed, has given a prefix of the events sent, unaltered; before the flush exactly a complete failure frame raises an error, in the flush exactly a torn frame |
| `EventCursors.IdentityInjective` | dashboard/src/api/events.ts:18 | the textual key determines id and type, although types may contain colons and digits |
| `EventCursors.EventCursor.AcceptEvents` | dashboard/src/api/events.ts:15-25 | the accepted events and the new state of the filter |
| `EventCursors.EventCursor.AcceptPayload` | dashboard/src/api/events.ts:11-13 | a body is decoded, then filtered; a decoding error leaves the cursor alone |
| `EventCursors.AcceptedKeys` | dashboard/src/api/events.ts:15-25 | the memory grows by exactly the keys handed out, none of which it held, and then holds every key offered |
| `EventCursors.AtMostOnce` | dashboard/src/api/client.ts:1393-1433 | over any mix of reads through one cursor no pair is handed out twice, every pair offered is handed out once, and the position is the largest id |
| `EventCursors.AcceptNew` | dashboard/src/api/events.ts:15-25 | events above the position, in order, pass unchanged and move the position to the last of them |
| `EventCursors.OneIdTwoTypes` | dashboard/src/api/events.ts:18-19 | two events with one id and two types are both handed out |
| `EventCursors.SharedCursorMissesNothing` | dashboard/src/api/client.ts:1393-1433 | readers that share a cursor, in any interleaving, hand out the log together once, in order and without a gap |
| `DurableStream.ReadResponse` | dashboard/src/api/reconnectable-stream.ts:42-67 | the read loop, its catch and the flush behind it, for every sequence of reads |
| `DurableStream.StreamDurableEvents` | dashboard/src/api/reconnectable-stream.ts:17-73 | the promise, the operations and the cursor of a call against any environment |
| `Reconnection.BodyLeaves` | dashboard/src/api/reconnectable-stream.ts:42-67 | however a response is cut into chunks, what becomes of it is told from its text: it stays open, throws, breaks for a reason of the transport or another, or closes |
| `Reconnection.EndsExactlyWhen` | dashboard/src/api/reconnectable-stream.ts:20-72 | a run ends, with which outcome, exactly if some attempt is the first to fail to open or read for another reason than the transport, has a status outside the seven transient ones, has no body, is aborted, brings a terminal event or holds a bad event |
| `Reconnection.KeepsTrying` | dashboard/src/api/reconnectable-stream.ts:20-72 | every operation follows on its predecessor, with a wait between two opens; while no attempt ends the call or stays open there is one open per attempt and a wait behind each |
| `Reconnection.CallEndsExactlyWhen` | dashboard/src/api/reconnectable-stream.ts:17-73 | both for every whole call, from any cursor and against any environment |
| `Reconnection.LostNetworkIsRetried` | dashboard/src/api/reconnectable-stream.ts:34-41 | a reader whose connections are lost while they open, with a transient status or while they are read opens again as often as it is observed |
| `DurableStreamLaws.RunLaws` | dashboard/src/api/reconnectable-stream.ts:20-72 | the m-th wait since the last successful open is r, then min(15000, r * 2^m); nothing but deliveries follows a terminal event |
| `DurableStreamLaws.EveryRunIsLawful` | dashboard/src/api/reconnectable-stream.ts:20-72 | both laws for every call, against any server |
| `DurableStreamLaws.FeedHonest` | dashboard/src/api/reconnectable-stream.ts:52-56 | a chunk of a well-formed response raises an error exactly if it completes a failure frame; otherwise what has been handed out is what has arrived |
| `DurableStreamLaws.BodyHonest` | dashboard/src/api/reconnectable-stream.ts:42-67 | one response hands out a prefix of its events however it ends, and all of them if it was read to its end |
| `DurableStreamLaws.FailureRejects` | dashboard/src/api/reconnectable-stream.ts:56-60 | a failure frame that arrives whole rejects the call with a cursor error, unless a terminal event or an abort came first |
| `ExactlyOnce.StreamAtMostOnce` | dashboard/src/api/reconnectable-stream.ts:46-51 | against any server, no pair is handed out twice by a call, nor one that the cursor already held |
| `ExactlyOnce.AboveResumes` | rust/crates/restork-storage/src/lib.rs:846-850 | asking again from the m-th event above n gives the events behind it |
| `ExactlyOnce.PagesAreOnePage` | rust/crates/restork-storage/src/lib.rs:1031-1046 | reading the log page by page, with any limits, is reading it at once up to the sum of the limits |
| `ExactlyOnce.ReplayIsAbove` | rust/crates/restork-storage/src/lib.rs:995-1048 | a replay that starts with a snapshot is what a strictly increasing log, the compacted one, has above the Last-Event-ID |
| `ExactlyOnce.RunOnTrack` | dashboard/src/api/reconnectable-stream.ts:22-72 | before every open, what was handed out and what is still owed is the log; every open resumes at the last event handed out, and so does the cursor that is left behind |
| `ExactlyOnce.ExactlyOnce` | dashboard/src/api/reconnectable-stream.ts:22-72 | for every schedule, with failure frames before or behind any event, the deliveries are a prefix of the log above the start, the cursor stands at the last of them, and they are the whole of it once a response has been read to the end |
| `ExactlyOnce.NextCallGoesOn` | dashboard/src/api/client.ts:1409-1433 | two calls on one cursor, however the first ended, together hand out the log once |
| `ExactlyOnce.TerminalResolves` | dashboard/src/api/reconnectable-stream.ts:49-73 | a call that has handed out the terminal event of a log that ends with it and is served without a failure frame resolves |
| `Rejections.BodyRejects` | dashboard/src/api/reconnectable-stream.ts:52-67 | one honest response rejects the call exactly if it is closed in a torn frame or completes a failure frame before an abort |
| `Rejections.CallRejectsExactlyWhen` | dashboard/src/api/reconnectable-stream.ts:52-72 | the same condition on the last response, for whole calls; a call that handed out a terminal event resolves or is rejected for that reason |
| `Rejections.TornLogRejects` | dashboard/src/api/reconnectable-stream.ts:64-67 | every log that is sent up to any torn frame, then ends cleanly, rejects the call after what has arrived is handed out |
| `Rejections.CleanEndInsideFrame` | dashboard/src/api/reconnectable-stream.ts:64-67 | a run that is rejected by a clean end inside its first frame |
| `Rejections.TerminalThenTorn` | dashboard/src/api/reconnectable-stream.ts:64-67 | a run that is rejected although its terminal event has been handed out |
| `Rejections.FailedReplayRejects` | rust/crates/restork-api/src/lib.rs:3079-3087 | for every log, a replay that fails before it has sent anything is an honest response, and rejects the call with a cursor error |
| `WatchStream.Watch` | dashboard/src/api/client.ts:201-265 | the outcome and the operations of the vault and mail streams against any environment |
| `WatchStream.DelaysFollowDeliveries` | dashboard/src/api/client.ts:1262-1325 | the m-th wait since the last event handed out is min(15000, 750 * 2^m), whatever connections opened in between |
| `WatchStream.OnlyTheServerEndsIt` | dashboard/src/api/client.ts:248-263 | whatever mix of failed opens, refusals and responses comes, the stream ends exactly by an attempt without a body, with a lasting status or with an abort, before any response that hangs |
| `WatchDeliveries.WatchHandsOut` | dashboard/src/api/client.ts:201-265 | a call hands out what its responses give, one after the other, and nothing else |
| `WatchDeliveries.BodyHandsOut` | dashboard/src/api/client.ts:236-259 | however a response is cut, it hands out the used events of what has arrived, up to the first that is refused |
| `WatchDeliveries.ResponseHandsOut` | dashboard/src/api/client.ts:236-259 | a well-formed response that has arrived up to any character hands out the used events of its complete frames, in order, up to the first that is refused |
| `WatchDeliveries.WholeResponseHandsOut` | dashboard/src/api/client.ts:236-259 | read to its end, it hands out those of all its events |
| `WatchDeliveries.VaultHandsOut` | dashboard/src/api/client.ts:238-247 | the vault stream uses exactly the three vault types, in order, and refuses nothing |
| `WatchDeliveries.MailHandsOut` | dashboard/src/api/client.ts:1299-1307 | the mail stream hands out all snapshots in order if they are valid |
| `WatchDeliveries.MailStopsAt` | dashboard/src/api/client.ts:1299-1318 | behind a snapshot that is not valid its response hands out nothing |
| `WatchDeliveries.VaultChangeIsHandedOut` | dashboard/src/api/client.ts:236-259 | one complete frame of a change in the vault is handed out |
| `SessionRotation.LocalApiClient.CheckSession` | dashboard/src/api/client.ts:1475-1477 | whether there is a token, and whether it has to be rotated first |
| `SessionRotation.LocalApiClient.RotateSession` | dashboard/src/api/client.ts:1501-1531 | a caller joins the pending rotation, starts one, or is rejected |
| `SessionRotation.LocalApiClient.ScheduleRotation` | dashboard/src/api/client.ts:1533-1547 | the old timer is dropped; the new delay is within its bounds and otherwise ends 120 s before expiry |
| `SessionRotation.LocalApiClient.ClearSession` | dashboard/src/api/client.ts:1549-1554 | token, expiry and timer are gone; a pending rotation stays |
| `SessionRotation.Perform` | dashboard/src/api/client.ts:1468-1554 | every action, carried out by the methods of the class, does to the fields, timers, waiters and log what the machine says |
| `SessionRotation.StepKeepsInv` | dashboard/src/api/client.ts:1468-1547 | every action keeps the slot, the waiters and the log of calls consistent |
| `SessionRotation.SingleFlight` | dashboard/src/api/client.ts:1501-1531 | in every interleaving a rotate call is sent only when all earlier ones have settled, each settles at most once, and the slot holds exactly the unsettled one |
| `SessionRotation.RequestsAreGrounded` | dashboard/src/api/client.ts:1475-1487 | a request is sent only with a token that was accepted before, and that had, by the expiry it was accepted with, more than 120 s left, or after the rotation it waited for succeeded; all waiters share the outcome |
| `SessionRotation.TimersStayTidy` | dashboard/src/api/client.ts:1533-1547 | the exact condition under which a step leaves a timer that nobody can cancel |
| `SessionRotation.OrphanTimer` | dashboard/src/api/client.ts:1538-1545 | a run that meets the condition |
| `SessionLiveness.AcceptedSessionIsRenewed` | dashboard/src/api/client.ts:1490-1499 | in every interleaving, a session that is accepted has a live timer in the field, due 120 s before it expires unless a bound of the delay says otherwise |
| `SessionLiveness.TimerRotates` | dashboard/src/api/client.ts:1536-1538 | a timer that fires while there is a session has a rotation under way, its own unless one was pending |
| `SessionLiveness.FailedTimerIsRetried` | dashboard/src/api/client.ts:1538-1545 | in every interleaving, a first timer whose rotation fails is followed by one more 15 s later, if the session lasts until then |
| `SessionLiveness.FailedResumptionClears` | dashboard/src/api/client.ts:129-143 | a resumption whose rotation fails drops the session |
| `SessionLiveness.ReleasedRequestBearsItsRotation` | dashboard/src/api/client.ts:1475-1487 | in every interleaving, a request released by a rotation bears the token of that rotation's one answer exactly if the session accepted last has that token, and always if none was accepted since |
| `SessionLiveness.OvertakenAnswer` | dashboard/src/api/client.ts:1490-1499 | a run in which it bears another |
| `PptxArchive.FindEnd` | dashboard/src/features/presentationTemplates.ts:349-354 | the backward scan finds the last end signature of the last 65557 bytes, or there is none |
| `PptxArchive.WalkDirectory` | dashboard/src/features/presentationTemplates.ts:360-394 | the loop with its running total gives the verdict on the records, with the code of the first error |
| `PptxArchive.InspectPptxArchive` | dashboard/src/features/presentationTemplates.ts:346-395 | the verdict on any bytes, every byte read being there |
| `PptxArchive.JudgeAccepts` | dashboard/src/features/presentationTemplates.ts:381-395 | acceptance exactly when every record passes, the total is within 8 MiB and both required parts are there; the result is the set of names |
| `PptxArchive.OrderIsIrrelevant` | dashboard/src/features/presentationTemplates.ts:365-394 | permuting the records changes neither acceptance nor the selection |
| `PptxArchive.AcceptanceIsSound` | dashboard/src/features/presentationTemplates.ts:355-395 | for arbitrary bytes: the declared number of contiguous records at growing offsets, each of them admissible |
| `PptxArchive.RecordReadBack` | dashboard/src/features/presentationTemplates.ts:366-389 | a written record is read back wherever it lies, with the place of the next one |
| `PptxArchive.WrittenReadBack` | dashboard/src/features/presentationTemplates.ts:346-364 | the scan reaches the end record of a written archive however long its comment; the walk sees exactly the written entries, whatever size and last comment length are declared |
| `PptxArchive.RoundTrip` | dashboard/src/features/presentationTemplates.ts:346-395 | a written archive is accepted exactly when it has 1 to 2048 entries, its declared size fits the file and its entries satisfy the limits, with exactly their template names |
| `PptxArchive.ReorderedArchive` | dashboard/src/features/presentationTemplates.ts:365-394 | the same records written in another order are accepted alike |
| `PptxPolicy.AcceptedExactlyWhen` | dashboard/src/features/presentationTemplates.ts:355-395 | the conditions for a written archive to be accepted, names, flags and numbers written out: 1 to 2048 entries, a directory within the file, every entry allowed, 8 MiB in all, both required parts; the result is the set of selected names |
| `PptxPolicy.ActivePartsAreRefused` | dashboard/src/features/presentationTemplates.ts:397-402 | an archive with a macro or other active part is refused, whatever comes around the telling part of its name and wherever the entry lies |
| `PptxPolicy.EscapingNamesAreRefused` | dashboard/src/features/presentationTemplates.ts:376-379 | so is one with a name that starts with a slash or has a `..` component, after backslashes are turned |
| `PptxPolicy.AcceptedBytesAreHarmless` | dashboard/src/features/presentationTemplates.ts:346-395 | in arbitrary bytes that are accepted, no record is encrypted, active, leads out of the archive or unpacks to too much, and all that is selected is there |
| `PptxPolicy.FirstOffenceDecides` | dashboard/src/features/presentationTemplates.ts:365-389 | the first entry that is not in order decides the code of the error |
| `PptxPolicy.RecordLayout` | dashboard/src/features/presentationTemplates.ts:366-375 | the bytes of a written record, place by place, as the format has them |
| `PptxPolicy.EndLayout` | dashboard/src/features/presentationTemplates.ts:355-358 | those of the end record |
| `PptxArchive.DeclaredSizeIsIgnored` | dashboard/src/features/presentationTemplates.ts:356-363 | any two declared sizes that fit the file, and any two lengths of the last comment, give the same result |
| `PptxArchive.WalkEnds` | dashboard/src/features/presentationTemplates.ts:358-390 | the walk over a written archive ends within the declared directory exactly if its size covers the records, and within the file exactly if the last comment does |
| `PptxArchive.OnlyLastRunsOut` | dashboard/src/features/presentationTemplates.ts:366-390 | in any accepted file only the last record may run past the end, exactly if its extra field and comment do not fit |
| `PptxArchive.RunsPastDirectory` | dashboard/src/features/presentationTemplates.ts:357-363 | an accepted archive that declares an empty directory |
| `PptxArchive.RunsPastFile` | dashboard/src/features/presentationTemplates.ts:373-390 | an accepted archive whose last record runs past the file |
| `MarkdownInline.EscapersAgree` | dashboard/src/ui/presentations.ts:656-658 | five sequential replacements equal the single-pass table |
| `MarkdownInline.EscapeHtmlAppend` | dashboard/src/ui/dom.ts:2-9 | escaping distributes over concatenation |
| `MarkdownInline.EscapeIsSafe` | dashboard/src/ui/markdown.ts:110-117 | the escaped text has no raw bracket or quote, and the original can be read back from it |
| `MarkdownRendering.EscapedThere` | dashboard/src/ui/markdown.ts:110-117 | each of the five characters is written as its reference wherever it stands, and every other as itself |
| `MarkdownRendering.InlineRenders` | dashboard/src/ui/markdown.ts:101-108 | a line of plain words, code, strong text, emphases that do not touch, and links renders piece by piece, in order, each between its own tags |
| `MarkdownRendering.MarkersRender` | dashboard/src/ui/markdown.ts:101-108 | which tags backticks, two stars, one star and double brackets stand for, around any plain text |
| `MarkdownRendering.PlainTextIsEscaped` | dashboard/src/ui/markdown.ts:101-108 | a text without markers is only escaped |
| `MarkdownRendering.TouchingEmphases` | dashboard/src/ui/markdown.ts:104-106 | three emphases that touch come out as one around strong text |
| `MarkdownInline.RewriteRefines` | dashboard/src/ui/markdown.ts:101-108 | no rewrite cuts into an earlier tag; tags come in pairs; only backticks and stars are dropped |
| `MarkdownGrammar.MatchExactly` | dashboard/src/ui/markdown.ts:103-107 | a pass matches at the start of a text exactly if its regular expression does |
| `MarkdownGrammar.FirstMatchIsTagged` | dashboard/src/ui/markdown.ts:103-107 | a pass puts its leftmost match between its tags and goes on behind it |
| `MarkdownGrammar.NoMatchIsKept` | dashboard/src/ui/markdown.ts:103-107 | a text in which nothing matches stays as it is |
| `MarkdownInline.InlineIsInert` | dashboard/src/ui/markdown.ts:101-108 | every `<` of the output starts a fixed tag, each kind is opened as often as closed, and without tags the escaped text is left, less some markers |
| `MarkdownLines.BlockLineIsInert` | dashboard/src/ui/markdown.ts:31-61 | whatever a line is taken for, every `<` of its HTML starts a fixed tag |
| `MarkdownGrammar.RuleExactly` | dashboard/src/ui/markdown.ts:34 | a line is a rule exactly if it is three or more of one of `-*_`, white space aside |
| `MarkdownGrammar.HeadingExactly` | dashboard/src/ui/markdown.ts:37 | a line is a heading of level n with a text exactly if it falls into n signs, at most six, white space, and that text |
| `MarkdownGrammar.TaskExactly` | dashboard/src/ui/markdown.ts:42 | the parts of a task, with its tick and its text |
| `MarkdownGrammar.BulletExactly` | dashboard/src/ui/markdown.ts:48 | the parts of a bullet, with its text |
| `MarkdownGrammar.OrderedExactly` | dashboard/src/ui/markdown.ts:53 | the parts of a numbered line, with one to three digits and its text |
| `MarkdownGrammar.QuoteExactly` | dashboard/src/ui/markdown.ts:58 | the parts of a quote, with its text |
| `MarkdownGrammar.LineHtml` | dashboard/src/ui/markdown.ts:31-61 | the HTML of every line, tags written out, in the order in which the forms are tried |
| `MarkdownBlocks.RowsAreAsWideAsTheHeader` | dashboard/src/ui/markdown.ts:79-84 | the HTML of a body row has as many `<td>` as that of the header has `<th>` |
| `MarkdownBlocks.TablesAreRectangular` | dashboard/src/ui/markdown.ts:71-90 | the HTML of a table has a row for the header and each body row, and as many cells in each body row as in the header, whatever the cells contain |
| `MarkdownBlocks.RenderTable` | dashboard/src/ui/markdown.ts:71-90 | the table of a header and all body rows behind its rule, and the line after it |
| `MarkdownBlocks.SafeMarkdownPreview` | dashboard/src/ui/markdown.ts:2-29 | the index-jumping loop renders the blocks of the recursive grammar, in order |
| `MarkdownBlocks.BlocksPartition` | dashboard/src/ui/markdown.ts:6-27 | every line is in exactly one block; it is fenced exactly when it is no marker and an odd number of marker lines precede it |
| `MarkdownBlocks.TablesAreMaximal` | dashboard/src/ui/markdown.ts:66-78 | a table takes all body rows that follow its rule, and stops at the first line that is none |
| `MarkdownBlocks.BlocksExactly` | dashboard/src/ui/markdown.ts:6-27 | the blocks lie end to end in order, and each is told from the lines alone: a table exactly at a row outside code with a rule below, with exactly the rows that follow |
| `MarkdownForms.FenceLine` | dashboard/src/ui/markdown.ts:8 | a line is a fence marker exactly if it is white space, three backticks and anything |
| `MarkdownGrammar.RowExactly` | dashboard/src/ui/markdown.ts:63 | a line is a table row exactly if it is one line between two pipes, white space aside |
| `MarkdownGrammar.RuleRowExactly` | dashboard/src/ui/markdown.ts:64 | a line is a table rule exactly if it is a row of cells of one or more dashes, each with or without colons |
| `MarkdownForms.RowReadBack` | dashboard/src/ui/markdown.ts:92-99 | a written row is read back cell by cell, trimmed, in order |
| `MarkdownForms.TableRenders` | dashboard/src/ui/markdown.ts:71-90 | the HTML of a table, written out: header cells, then the cells of each body row, as many as the header has, in order |
| `MarkdownForms.LinePiece` | dashboard/src/ui/markdown.ts:6-27 | the piece of HTML that a line outside a table gives, told from the line and the fence markers before it |
| `MarkdownForms.LinesRenderInOrder` | dashboard/src/ui/markdown.ts:1-29 | without fences and tables, line by line and in order |
| `MarkdownBlocks.PreviewIsInert` | dashboard/src/ui/markdown.ts:1-29 | the preview of every text is inert |
| `ForkTitle.LengthDrops` | dashboard/src/main.ts:1653-1655 | dropping the last code unit always shortens the encoding, even when it tears a surrogate pair |
| `ForkTitle.TrimIsUnique` | dashboard/src/main.ts:1651 | the trimmed title is the one part of the title that neither starts nor ends with white space and has only white space around it |
| `ForkTitle.BoundedForkTitle` | dashboard/src/main.ts:1649-1657 | the longest prefix of the trimmed title that fits is kept, else the fallback |
| `ForkTitle.BoundHolds` | dashboard/src/main.ts:1653-1656 | the exact condition for at most 240 bytes, and for the fallback |
| `ForkTitle.TitleTooLong` | dashboard/src/main.ts:1649-1657 | a title of 256 bytes |

## Left out

- The network, `fetch` with its one retry, byte-level text decoding, timers and abort plumbing: steps of the environment. The signal is taken not to be aborted when a stream is called, and callbacks are taken not to throw.
- `ExactlyOnce.ExactlyOnce`: one log for the whole call. A snapshot that exists before the call is covered (`ReplayIsAbove`); a compaction between two attempts of a call is not.
- `DurableStream.StreamDurableEvents`: between its awaits no other reader moves the shared cursor. What readers that share one hand out together is `SharedCursorMissesNothing`, on the level of the batches they pass to it.
- `EventStream.ParseFrame`: an id of `-0` counts as 0.
- `SessionRotation.StepKeepsInv`: `normalizeSession`, the dates and the answers of Core are reduced to a valid session or a failure; tokens are opaque; delays are computed, but a timer may fire at any time.
- `MarkdownInline.InlineIsInert`: nothing is said about proper nesting of inline tags, which the sequential rewrites do not provide.
- `PptxArchive.RoundTrip`: compressed contents, the checks on unpacked parts and the palette are not modelled.
- The live list of run events, pagination, vault search and preview requests, and conversation paging of `main.ts` and `vault.ts`: list upkeep with weaker laws than the cursor's.
- The structured-output probe in `scripts/probe_grok_x_a2.py`: a chain of field checks over URL, date and JSON libraries.
- Endpoint wrappers, DOM rendering, localisation, themes, and the Rust core beyond the frames it writes.
