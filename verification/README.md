# A verified model of prisma-pglite-bridge

prisma-pglite-bridge lets `pg.Client` talk to an in-process PGlite instead of a PostgreSQL server. A duplex stream
takes the frontend bytes, cuts them into protocol messages, hands batches to PGlite, and passes PGlite's responses back
with a few changes. Several duplexes may share one PGlite, which has a single session, under one lock.

This project models the parts of the bridge that decide what is sent, what is answered and what is kept apart, and
proves what they promise. Each is written in two forms. One is what the bridge does: classes whose fields are updated
in place, index loops, scratch arrays. The other is what it means: a function on bytes, frames, texts, lexemes, calls
or histories. The first is proved to compute the second, and the theorems are about the second.

## The parts

| file | what it models |
|---|---|
| `Bytes.dfy`, `Wrappers.dfy`, `Text.dfy` | bytes and big-endian integers, options, texts as UTF-16 code units |
| `RowDescription.dfy`, `RowDescriptionFields.dfy` | the gate and the in-place rewrite of `"char"` columns, and the frame as a list of fields |
| `BackendStream.dfy`, `BackendFilter.dfy` | the framer's meaning: a byte automaton, and a filter on lists of frames |
| `BackendFramer.dfy` | the framer: whole frames in one slice, lazily passed on, and frames that span chunks |
| `FrontendBuffer.dfy` | the chunk queue as a flat byte queue |
| `DuplexProtocol.dfy` | the duplex's meaning: a function on frontend bytes, for any backend |
| `DuplexFraming.dfy`, `DuplexLedger.dfy`, `DuplexAnswers.dfy`, `DuplexMessages.dfy`, `DuplexCopyIn.dfy` | which bytes are a message, where every message goes, what the client gets back, what each message type does, and which queries never reach PGlite |
| `PGliteDuplex.dfy` | the duplex: drain loop, message handling, COPY capture, streaming calls |
| `SessionLock.dfy`, `SharedSession.dfy`, `SharedPortals.dfy` | the lock, any number of duplexes sharing it and one backend session, and suspended portals on it |
| `CopyIn.dfy`, `CopyInLexemes.dfy`, `CopyInVerdicts.dfy` | the COPY FROM STDIN scanner, texts divided as it divides them, and its verdict on them |
| `CopyInSql.dfy`, `CopyInMisreadings.dfy` | texts divided as PostgreSQL divides them, the documented verdict, where the two agree, and the texts on which they do not |
| `Recency.dfy`, `StatementNames.dfy`, `NameGenerator.dfy` | gated least-recently-used statement names and the Close queue |
| `Deallocate.dfy` | the DEALLOCATE / DISCARD decoder against its grammar |
| `Migrations.dfy` | migration history, failures and stops included |

What the bridge reads off the wire or out of a text (message types, status bytes, lengths, keywords, OIDs, white space)
is spelled out once more in the theorems, in the numbers and words of the protocol and of SQL, and not by the names the
model has for them.

`dafny verify dfyconfig.toml` verifies the whole project.

## Environment

PGlite is any function from the calls made so far to the reply of the last one: the chunks of the response, and
whether the call rejects after them. The UTF-8 decoder, the checksum and the texts of the two errors the duplex makes
are parameters. In `Migrations.dfy` the environment chooses at every pending migration whether the call finishes it,
fails in its script, or stops before the insert, after the insert or before the finishing update; and whether user
tables are found at all.

`SharedSession.dfy` gives turns at the backend in the order they were asked for. It assumes of the environment: PGlite
is ready, so that asking for a turn takes no time; the ROLLBACK of a teardown succeeds; a call reports a ReadyForQuery
after it last changed the transaction status; within a call no transaction is opened, and no portal left suspended,
after an idle status was reported; a bare Sync opens none and reports exactly once; an acquire that was resolved has
asked for its turn before a Sync of the same duplex is answered. Batches may be submitted while a recovery Sync waits,
runs or has just reported, and a Sync may be requested while a batch waits or runs. Of the callers it assumes one
thing: a batch that was sent before a recovery Sync of its duplex was answered with an idle status, and that has not
run by then, opens no transaction and, for what is said of portals, leaves none suspended. pg sends nothing but the
rest of the abandoned cursor then, whose portal the Sync has closed. Both are shown to be exactly what is needed.

`CopyInSql.dfy` follows section 4.1 of the PostgreSQL documentation with `standard_conforming_strings` on. What is
said of a Query's text is said of the decoded text: the bridge decodes as UTF-8 (`src/duplex/index.ts:739`), so it
assumes that PostgreSQL reads the bytes as UTF-8 too, and not in a client encoding with 0x5c as a trail byte. Its glue
rules leave out a literal glued to a number or to the end of a dollar quote, which no PostgreSQL statement contains.

## What is false, and when the code is right

- `cancel(id)` does not always leave `id` without the session: if `id` has acquired twice and is next in line, it
  becomes owner of what it cancels. `SessionLock.CancelForgets` gives the exact condition,
  `SessionLock.UndisciplinedCancelLeavesOwner` a run, and `SessionLock.DisciplinedCancelIsFinal` shows that callers
  with at most one outstanding acquire never meet it.
- Sessions are not isolated if a batch that was sent before its duplex's recovery Sync was answered opens a
  transaction: the Sync's idle status has handed the session on. `SharedSession.OrphansMustNotOpen` is such a run, with
  every turn in the order it was asked for. `SharedSession.OpenerOwnsIffOrderly` is the exact condition: in a run the
  opener of a transaction owns the session at every point if and only if no such batch opens one.
- Likewise a portal that such a batch leaves suspended is not protected (`SharedPortals.OrphansMustNotSuspend`), and
  `SharedPortals.SafeIffConsiderate` says that it takes such a batch.
- A RowDescription without payload at the very end of a response is passed on or leaves the framer waiting for more,
  depending on how the response was cut into chunks (`src/duplex/backend-framer.ts:244-252`).
  `BackendFilter.WaitsIffEmptyRowDescription` says for which responses this can happen, `BackendFilter.LastChunkDecides`
  that the last chunk decides (it is passed on exactly if that chunk has all five bytes), and
  `BackendFilter.EmptyRowDescriptionInOnePiece` and `BackendFilter.EmptyRowDescriptionCut` show both at one input.
  PostgreSQL always sends a field count, but nothing here assumes so: a duplex whose response is cut there is torn
  down (`DuplexAnswers.ResponseReachesClient`).
- Two generators collide if something else writes the namespace slot between them so that the namespaces given out
  after the write reach one given out before; junk reads as 0. `NameGenerator.OverwriteCollidesIff` is the exact
  condition for any number of generators before and after, `NameGenerator.OverwrittenSlotCollides` an instance.
- The three-way checksum comparison recognises a script whose line endings a checkout rewrote if the stored script had
  uniform line endings (`Migrations.LineEndingsDoNotMatter`), and with a collision-free checksum only then or if
  nothing was rewritten (`Migrations.MixedLineEndingsDoMatter`). A rewriting to LF also changes the LF form of a script
  with a carriage return before a CR LF; `Migrations.LfCheckoutMatchesIff` has the exact condition for it.
- The copy-in scanner divides some texts otherwise than PostgreSQL, and then it can forward a copy-in:
  - a line comment that ends at a carriage return goes on to the next line feed (`CopyInSql.CommentReadRightIff`);
    `CopyInMisreadings.CarriageReturnHides` is true of everything that may stand on the rest of the line, and
    `CopyInMisreadings.CommentHidesCopyIn` is one text;
  - a literal that continues an E'...' literal on the next line honours backslashes, which the scanner does not know
    (`CopyInSql.ContinuationReadRightIff`); `CopyInMisreadings.ContinuationHides` hides any simple copy-in behind one;
  - a dollar quote whose tag is not ASCII is not seen (`CopyInSql.DollarReadRightIff`), and a quote inside it can hide
    what follows (`CopyInMisreadings.AccentedTagHides`), although the comment at `src/duplex/copy-in.ts:129-132` says
    that this can never happen.

  On texts with none of the three (`CopyInSql.ReadRight`; a carriage return before nothing but white space does no
  harm) no statement that copies FROM STDIN is forwarded (`CopyInSql.CopyInIsNeverHidden`).
- On a text that is divided alike, the verdict is not always the documented one; `CopyInSql.SniffsAsPostgresIff` says
  when it is, `CopyInSql.SniffsAsPostgres` gives a condition on the words of the text, and `CopyInSql.ForwardedIff` says
  when a copy-in is forwarded.
  - FROM STDOUT, which PostgreSQL takes for FROM STDIN, is forwarded (`CopyInMisreadings.FromStdoutIsForwarded`).
  - A statement made of nothing but non-ASCII white space, such as U+00A0, is an identifier to PostgreSQL and nothing
    to the scanner, because `trim` removes it (`CopyInMisreadings.BlankWordIsMissed`).
  - FROM STDIN below the top level, as in COPY (SELECT * FROM stdin) TO STDOUT, counts although the comment at
    `src/duplex/copy-in.ts:152` says top-level (`CopyInMisreadings.NestedIsCaptured`).

## Model

| member | source | states |
|---|---|---|
| `RowDescription.GateIffRewriteChanges` | src/duplex/row-description.ts:21-91 | for every byte string, truncated or not, the gate is true exactly when the rewrite changes a byte |
| `RowDescription.RewriteTouchesOnlyQualifyingFields` | src/duplex/row-description.ts:47-91 | the rewrite keeps the length, sets OID and size of every qualifying field to 25 and -1, and changes no other byte |
| `RowDescription.RewriteClearsGate` | src/duplex/row-description.ts:58-91 | after a rewrite no field qualifies any more |
| `RowDescription.RewriteIsIdempotent` | src/duplex/row-description.ts:63-91 | a second rewrite changes nothing |
| `RowDescription.GateOfSlice` | src/duplex/row-description.ts:21-45 | gating part of a chunk agrees with gating a copy of that part |
| `RowDescription.RowDescriptionNeedsRewrite` | src/duplex/row-description.ts:21-45 | the walking loop decides whether any field of the frame qualifies |
| `RowDescription.RewriteRowDescriptionInPlace` | src/duplex/row-description.ts:63-91 | the loop turns the buffer into its rewritten form, in place |
| `RowDescriptionFields.RewritesTheFields` | src/duplex/row-description.ts:47-91 | for any list of fields, the rewrite of the printed frame is the print of the list in which exactly the fields of type 18 with a table OID above 0 and below 16384 have type 25 and size -1 |
| `RowDescriptionFields.GateIffCatalogChar` | src/duplex/row-description.ts:21-45 | the gate opens for a printed frame exactly if there is such a field |
| `BackendStream.RunFrame` | src/duplex/backend-framer.ts:130-177 | reading the bytes of one frame, wherever they are cut, has the effect of the frame |
| `BackendStream.RunChunks` | src/duplex/backend-framer.ts:94-299 | output, callbacks and pending state of the automaton depend on the bytes read, not on how they were cut |
| `BackendStream.OnlyTheEndDependsOnChunks` | src/duplex/backend-framer.ts:244-252 | of the framer itself nothing depends on the cutting but a RowDescription without payload at the very end, and that on the size of the last chunk only |
| `BackendFilter.ResponseIsFiltered` | src/duplex/backend-framer.ts:130-177 | a response of complete frames gives exactly the frames its mode keeps, RowDescriptions rewritten, callbacks in frame order |
| `BackendFilter.ErrorSeenIffErrorFrame` | src/duplex/backend-framer.ts:132-134 | the error callback fires exactly when the response has an ErrorResponse |
| `BackendFilter.WaitsIffEmptyRowDescription` | src/duplex/backend-framer.ts:244-252 | at the end of a response of complete frames something is still waiting exactly if rewriting is on and the last frame is a RowDescription without payload |
| `BackendFilter.LastChunkDecides` | src/duplex/backend-framer.ts:244-252 | such a response, however cut, can be flushed exactly if its last chunk has all five bytes of that frame |
| `BackendFilter.EmptyRowDescriptionInOnePiece` | src/duplex/backend-framer.ts:101-120 | 54 00 00 00 04 in one chunk comes out unchanged |
| `BackendFilter.EmptyRowDescriptionCut` | src/duplex/backend-framer.ts:301-304 | the same five bytes in two chunks, cut anywhere, end in the error for an incomplete message |
| `BackendFramer.WholeFrameRead` | src/duplex/backend-framer.ts:107-177 | taking a whole frame in one slice agrees with reading its bytes one by one |
| `BackendFramer.BadHeaderAtBoundary` | src/duplex/backend-framer.ts:121-129 | an impossible length found in the fast path is the one the slow path finds |
| `BackendFramer.BackendMessageFramer.Write` | src/duplex/backend-framer.ts:94-299 | fast and slow path together do exactly what the automaton does with the chunk, settled exactly if the chunk has a whole header; a thrown length error happens exactly when the automaton breaks, with the same callbacks |
| `BackendFramer.BackendMessageFramer.Flush` | src/duplex/backend-framer.ts:301-332 | a held ReadyForQuery is passed on or dropped; a stream that is inside a frame is an error and changes nothing |
| `BackendFramer.BackendMessageFramer.Reset` | src/duplex/backend-framer.ts:74-92 | after any prefix, also one that threw, the framer is in the state of a fresh one, whatever its scratch arrays hold |
| `FrontendBuffer.FrontendMessageBuffer.Push` | src/duplex/frontend-buffer.ts:17-21 | appends the chunk to the flat byte queue |
| `FrontendBuffer.FrontendMessageBuffer.ReadUInt32BE` | src/duplex/frontend-buffer.ts:30-74 | reads four bytes of the flat queue across chunk borders, or nothing if they are not there |
| `FrontendBuffer.FrontendMessageBuffer.Consume` | src/duplex/frontend-buffer.ts:76-127 | takes exactly the first bytes of the flat queue, or fails and changes nothing; counts the chunks it used up |
| `FrontendBuffer.FrontendMessageBuffer.CompactChunks` | src/duplex/frontend-buffer.ts:129-140 | keeps the contents, drops the dead prefix exactly when it is due, and copies as many slots as are left; in all never more than chunks were consumed |
| `DuplexProtocol.ChunksDoNotMatter` | src/duplex/index.ts:443-549 | calls, answers and state depend on the concatenated frontend bytes, not on how they arrive |
| `DuplexProtocol.DrainEarly` | src/duplex/index.ts:454-474 | draining before the rest has arrived changes nothing |
| `DuplexProtocol.NothingIsStranded` | src/duplex/index.ts:600-712 | the drain ends with no complete frame left waiting |
| `DuplexFraming.CutsExactlyMessages` | src/duplex/index.ts:601-621 | a message is taken off the input exactly when the input starts with the encoding of a legal one |
| `DuplexFraming.CutsExactlyPackets` | src/duplex/index.ts:517-542 | a startup packet is taken off the input exactly when the input starts with one of at least eight bytes |
| `DuplexFraming.MessagesAreHandledInTurn` | src/duplex/index.ts:600-713 | any number of messages that arrive in one piece are handled one after the other until the connection ends, and the incomplete rest is kept |
| `DuplexMessages.BatchIsOneCall` | src/duplex/index.ts:668-677 | Parse, Bind, Describe, Execute and Close messages, however many, go out with the Sync or Flush behind them as one call of exactly their bytes |
| `DuplexMessages.StandaloneIsOneCall` | src/duplex/index.ts:710-711 | a message of another type is one call of its own and leaves what is gathered alone |
| `DuplexMessages.TerminateEnds` | src/duplex/index.ts:625-642 | Terminate ends the connection wherever it comes, with a rollback exactly if the last status was T or E |
| `DuplexMessages.OthersBreakCopy` | src/duplex/index.ts:646-672 | during a captured COPY any message but CopyData, CopyDone, CopyFail and Terminate ends the connection |
| `DuplexMessages.StartupIsOneCall` | src/duplex/index.ts:542-548 | the startup packet is one call, and messages are read only after it succeeded |
| `DuplexMessages.ResponsesAreWhole` | src/duplex/index.ts:888-943 | a call that rejects, or answers with anything but whole legal frames, ends the connection |
| `DuplexAnswers.QueryIsJudged` | src/duplex/index.ts:685-741 | a Query is captured, refused or sent by the verdict on its text, which is the payload without its last byte |
| `DuplexAnswers.EmptyQueryIsJudged` | src/duplex/index.ts:734-741 | a Query without payload is sent |
| `DuplexLedger.EveryFrameIsPlacedOnce` | src/duplex/index.ts:600-713 | for every stream and backend: no byte is lost while the connection lasts, every frame is in one call, the pipeline, the capture or answered by one refusal, every call sends exactly its frames in order and in the shape of its mode, only multi-statement copy-ins and COPY conversations past the cap are refused, each by one error and one ReadyForQuery, and the output is the responses, prompts and refusals and nothing else |
| `DuplexLedger.TrackKeepsInv` | src/duplex/index.ts:625-711 | every single message keeps these books |
| `DuplexLedger.TrackEntersOnce` | src/duplex/index.ts:621-623 | each message is entered once, in order |
| `DuplexLedger.BatchCompleted` | src/duplex/index.ts:785-801 | a Sync or Flush takes along everything gathered before it and touches nothing else |
| `DuplexAnswers.CopyConversationOutcome` | src/duplex/index.ts:646-665 | a Query with a lone copy-in, CopyData frames and CopyDone or CopyFail: within the cap one call with exactly their bytes, past it no call and one error and one ReadyForQuery with the last status; first a CopyInResponse either way |
| `DuplexAnswers.CaptureAfter` | src/duplex/index.ts:715-730 | the capture holds the whole conversation so far, or nothing from the first breach on |
| `DuplexAnswers.MultiStatementIsRefused` | src/duplex/index.ts:700-707 | a Query whose text has a copy-in among other statements reaches nobody and gets one error 0A000 and one ReadyForQuery |
| `DuplexAnswers.RefusalFrames` | src/duplex/index.ts:751-770 | a synthesized refusal is an ErrorResponse with the fields S, V, C and M, each ended by a NUL, and a ReadyForQuery |
| `DuplexAnswers.PromptIsCopyInResponse` | src/duplex/index.ts:743-749 | the prompt of a captured COPY is a legal CopyInResponse |
| `DuplexAnswers.ResponseReachesClient` | src/duplex/index.ts:888-1008 | the client gets exactly the frames the mode keeps however the response was cut, and a RowDescription without payload that the last chunk cuts ends the connection; an error at a flush boundary causes one silent recovery Sync, and the end of the connection if that is rejected |
| `DuplexAnswers.RejectionEnds` | src/duplex/index.ts:911-916 | a call that rejects ends the connection, and nothing but a rollback is called any more |
| `DuplexAnswers.ConnectionsEndClean` | src/duplex/index.ts:1171-1202 | for every stream on a new connection, an open transaction is rolled back when the connection ends, at most once, and nothing is called afterwards |
| `DuplexCopyIn.NoCopyInReachesPGlite` | src/duplex/index.ts:679-711 | for every stream and backend: no Query that is sent on its own has a statement in its text that copies FROM STDIN, if the scanner divides that text as PostgreSQL does |
| `PGliteDuplex.PGliteDuplex.Write` | src/duplex/index.ts:353-364 | after any write the duplex stands for the reference state after those bytes |
| `PGliteDuplex.PGliteDuplex.Writev` | src/duplex/index.ts:366-379 | a corked batch is the concatenation of its chunks |
| `PGliteDuplex.PGliteDuplex.Drain` | src/duplex/index.ts:447-490 | the drain loop terminates in the reference state; an error destroys the connection |
| `PGliteDuplex.PGliteDuplex.ProcessPreStartup` | src/duplex/index.ts:517-549 | frames the startup packet by its own rules and streams it |
| `PGliteDuplex.PGliteDuplex.ProcessMessages` | src/duplex/index.ts:587-713 | handles every complete message as the reference does |
| `PGliteDuplex.PGliteDuplex.HandleMessage` | src/duplex/index.ts:625-711 | one message: Terminate, COPY, extended query, Sync or Flush, Query, anything else |
| `PGliteDuplex.PGliteDuplex.StreamProtocol` | src/duplex/index.ts:878-987 | one protocol call: the response read chunk by chunk through the framer is the reference response |
| `PGliteDuplex.PGliteDuplex.ConcatPipeline` | src/duplex/index.ts:803-812 | the joined buffer is the concatenation of the messages |
| `SessionLock.RunsKeepInv` | src/utils/session-lock.ts:63-183 | in every run a free lock has no waiters, each acquire settles once or still waits, and grants follow acquire order ahead of all who wait |
| `SessionLock.SettlementsAreExplained` | src/utils/session-lock.ts:63-183 | over every run, an acquire is admitted at once as owner, or granted when it is first in line and the owner gives up, or rejected by a cancellation of its own id |
| `SessionLock.OwnershipMoves` | src/utils/session-lock.ts:63-183 | a free session goes to whoever acquires or holds it; an owned one passes on exactly on its owner's idle status, release or cancellation, to the first in line |
| `SessionLock.CancelForgets` | src/utils/session-lock.ts:148-169 | after cancel no waiter of the id is left, and it owns the session exactly if it owned it and was also next in line |
| `SessionLock.DisciplinedCancelIsFinal` | src/utils/session-lock.ts:57-61 | with at most one outstanding acquire per id, a cancelled id neither owns nor waits |
| `SessionLock.UndisciplinedCancelLeavesOwner` | src/utils/session-lock.ts:148-169 | a run in which cancel leaves the cancelled id as owner |
| `SessionLock.SessionLock.Acquire` | src/utils/session-lock.ts:63-78 | takes a free session, readmits its owner, queues everyone else |
| `SessionLock.SessionLock.UpdateStatus` | src/utils/session-lock.ts:116-124 | only the owner's idle status changes anything |
| `SessionLock.SessionLock.Cancel` | src/utils/session-lock.ts:148-169 | rejects exactly the waiters of the id and keeps the others in order |
| `SharedSession.SessionsAreIsolated` | src/duplex/index.ts:297-307 | in every run of any number of duplexes, an open transaction's opener owns the session and no batch or Sync runs inside another's transaction |
| `SharedSession.NextKeepsInv` | src/duplex/index.ts:381-427 | every step keeps that, teardowns, queued calls and recovery Syncs that overlap batches included |
| `SharedSession.TeardownLeavesNoTransaction` | src/duplex/index.ts:1171-1202 | a duplex whose teardown is done has no transaction open and no batch at the backend, and none of its queued turns will reach it |
| `SharedSession.OrphansMustNotOpen` | src/duplex/index.ts:1079-1101 | a run in which a batch sent before the recovery Sync was answered opens a transaction and another duplex's batch runs inside it |
| `SharedSession.OrderlyIffOpenerOwns` | src/utils/session-lock.ts:11-26 | after any orderly run, the next step leaves an open transaction's opener as owner if and only if it is orderly |
| `SharedSession.OpenerOwnsIffOrderly` | src/utils/session-lock.ts:11-26 | in any run whatever, the opener owns the session in every state if and only if every step is orderly |
| `SharedPortals.PortalsAreProtected` | src/utils/session-lock.ts:14-19 | in every such run whose callers are considerate, a live duplex with a suspended portal owns the session, and nothing of another duplex is at the backend or will get there, until a status is reported or its teardown begins |
| `SharedPortals.SafeIffConsiderate` | src/utils/session-lock.ts:14-19 | over an orderly run that holds in every state if and only if no batch sent before a recovery Sync was answered leaves a portal suspended |
| `SharedPortals.OwnerKeepsOrPassesOn` | src/utils/session-lock.ts:11-19 | in any state, the owner keeps the session exactly until its own idle status, doomed call outside a transaction, or end of teardown, and then the first in line has it |
| `SharedPortals.OrphansMustNotSuspend` | src/duplex/index.ts:1079-1101 | a run in which such a batch leaves a portal suspended and another duplex's batch comes in between |
| `CopyIn.StripQuotedAndComments` | src/duplex/copy-in.ts:53-146 | the index loops strip as the reference does, a backslash before the end of the text included |
| `CopyIn.SkipBlockComment` | src/duplex/copy-in.ts:68-84 | the depth counter finds the end of a nested comment |
| `CopyIn.SkipQuoted` | src/duplex/copy-in.ts:89-106 | the loop finds the end of a quoted region with doubled quotes and backslashes |
| `CopyIn.IsCopyInStatement` | src/duplex/copy-in.ts:152-160 | the loop decides COPY first and FROM STDIN side by side after it |
| `CopyIn.SniffCopyIn` | src/duplex/copy-in.ts:164-173 | the verdict by number of statements and of copy-ins |
| `CopyInLexemes.StripPrinted` | src/duplex/copy-in.ts:35-146 | in every text printed from lexemes as the scanner divides them, each quoted region becomes one placeholder, each comment one space, and all else stays |
| `CopyInLexemes.CommentPrinted` | src/duplex/copy-in.ts:68-84 | a printed comment ends exactly one level, however deep it is nested |
| `CopyInLexemes.DollarPrinted` | src/duplex/copy-in.ts:126-141 | a dollar quote ends at its own closer |
| `CopyInLexemes.WordPrinted` | src/duplex/copy-in.ts:23-33 | inside a word neither an E-string nor a dollar quote starts |
| `CopyInVerdicts.SniffsTheLexemes` | src/duplex/copy-in.ts:148-173 | as the scanner divides a text, the verdict counts the non-empty statements between real semicolons and those whose words start with copy and contain from stdin |
| `CopyInVerdicts.CopyInIsSeen` | src/duplex/copy-in.ts:164-173 | as the scanner divides a text, no statement before or after hides a copy-in |
| `CopyInSql.CopyInIsNeverHidden` | src/duplex/copy-in.ts:9-12 | in every PostgreSQL text that the scanner divides alike, a statement that copies FROM STDIN makes the verdict something else than forward |
| `CopyInSql.SniffsSql` | src/duplex/copy-in.ts:53-173 | on such a text the verdict is that of PostgreSQL's statements and words |
| `CopyInSql.SniffsAsPostgresIff` | src/duplex/copy-in.ts:164-173 | on such a text the verdict is the documented one exactly if the scanner sees a copy-in where there is one and blank words do not hide that there are several statements |
| `CopyInSql.ForwardedIff` | src/duplex/copy-in.ts:164-173 | on such a text a copy-in is forwarded exactly if there is a FROM STDOUT and nothing that the scanner takes for a copy-in |
| `CopyInSql.SniffsAsPostgres` | src/duplex/copy-in.ts:152-173 | with ASCII words, and FROM STDIN side by side at top level wherever COPY comes first, the verdict is the documented one |
| `CopyInSql.CommentReadRightIff` | src/duplex/copy-in.ts:63-67 | a line comment ends for the scanner where it does for PostgreSQL exactly if that is not at a carriage return |
| `CopyInSql.ContinuationReadRightIff` | src/duplex/copy-in.ts:85-109 | a literal that continues an E'...' one ends for the scanner where it does for PostgreSQL exactly if no quote in it follows a backslash |
| `CopyInSql.DollarReadRightIff` | src/duplex/copy-in.ts:126-141 | a dollar quote is recognised exactly if its tag is ASCII |
| `CopyInSql.IdentifierIsOneToken` | src/duplex/copy-in.ts:148-150 | an ASCII identifier is one token, itself in lower case |
| `CopyInMisreadings.CarriageReturnHides` | src/duplex/copy-in.ts:63-67 | behind a comment that ends at a carriage return, whatever PostgreSQL sees on that line is forwarded |
| `CopyInMisreadings.CommentHidesCopyIn` | src/duplex/copy-in.ts:63-67 | a text that is one copy-in to PostgreSQL and none to the scanner |
| `CopyInMisreadings.ContinuationHides` | src/duplex/copy-in.ts:85-109 | SELECT E'' continued by a literal with an escaped quote hides the copy-in behind it |
| `CopyInMisreadings.AccentedTagHides` | src/duplex/copy-in.ts:126-141 | a quote in a dollar quote with an accented tag hides the copy-in behind it |
| `CopyInMisreadings.FromStdoutIsForwarded` | src/duplex/copy-in.ts:152-160 | COPY t FROM STDOUT is a copy-in and is forwarded |
| `CopyInMisreadings.BlankWordIsMissed` | src/duplex/copy-in.ts:166-172 | a copy-in behind a statement that is a no-break space is captured instead of refused |
| `CopyInMisreadings.NestedIsCaptured` | src/duplex/copy-in.ts:152-160 | COPY (SELECT * FROM stdin) TO STDOUT is no copy-in and is captured |
| `CopyInVerdicts.ContentsDoNotMatter` | src/duplex/copy-in.ts:14-18 | what the scanner takes for the contents of quoted regions and comments never changes the verdict |
| `CopyInVerdicts.TriviaDoesNotMatter` | src/duplex/copy-in.ts:41-44 | white space and comments around a text never change the verdict |
| `CopyInVerdicts.DollarQuotesHide` | src/duplex/copy-in.ts:126-141 | DO with a dollar-quoted body is never a copy-in, whatever the body says |
| `StatementNames.NamesAreMostRecent` | src/utils/statement-names.ts:81-114 | the name map never exceeds the capacity and is the recency order of the most recently named texts |
| `StatementNames.NamedExactlyWhileRecent` | src/utils/statement-names.ts:81-114 | a text has its name exactly while fewer than capacity distinct other texts were named since |
| `StatementNames.NameSurvives` | src/utils/statement-names.ts:81-88 | and keeps returning the same name |
| `StatementNames.GateRefusesThrash` | src/utils/statement-names.ts:54-58 | if every recurrence comes after at least capacity distinct other texts, nothing is ever named or evicted |
| `StatementNames.GateAdmits` | src/utils/statement-names.ts:89-114 | each text that may have a name (see `StatementNames.IssuedAreNameable`), seen minUsages times at close distance, is named by then |
| `StatementNames.IssuedAreNameable` | src/utils/statement-names.ts:76-80 | over every run, a text gets a name only if it has no semicolon and begins, behind JavaScript white space and in any casing, with select, insert, update, delete, with, merge or values as a whole word |
| `StatementNames.IssuedAfterSightings` | src/utils/statement-names.ts:89-102 | over every run, a text gets a name on its minUsages-th sighting at the earliest |
| `StatementNames.NameMeansOneText` | src/utils/statement-names.ts:60-66 | two calls that return the same name are for the same text |
| `NameGenerator.NameIsInjective` | src/utils/statement-names.ts:111-112 | a name tells its namespace and its serial number |
| `NameGenerator.NameIsSpelled` | src/utils/statement-names.ts:111-112 | a name is `ppb_`, the namespace, an underscore and the serial number, in decimal without leading zeros |
| `NameGenerator.GeneratorsNeverCollide` | src/utils/statement-names.ts:13-26 | no two generators of a process issue the same name, if nobody else writes the slot |
| `NameGenerator.OverwriteCollidesIff` | src/utils/statement-names.ts:17-24 | if somebody does, some later generator repeats a namespace exactly if the range given out after the write meets the range given out before; anything that is not a counter reads as 0 |
| `NameGenerator.OverwrittenSlotCollides` | src/utils/statement-names.ts:17-24 | junk in the slot after one generator makes the next issue the same names |
| `NameGenerator.NamesAreConserved` | src/pool/pg-bridge-client.ts:985-1005 | over every run each issued name is live, pending or closed and only one of these; none is closed twice |
| `NameGenerator.StatementNameGenerator.Next` | src/utils/statement-names.ts:75-115 | the closure's maps and counter after a call, the name it returns and the one it evicts |
| `NameGenerator.PgBridgeClient.NameFor` | src/pool/pg-bridge-client.ts:290-295 | an evicted name is queued for its Close |
| `NameGenerator.PgBridgeClient.FlushPendingCloses` | src/pool/pg-bridge-client.ts:998-1005 | sends one Close per queued name and forgets it in both caches |
| `Deallocate.DecodesTheGrammar` | src/pool/deallocate.ts:9-14 | a text is accepted with a result exactly when the grammar, in characters and keywords, derives that result |
| `Deallocate.GrammarIsUnambiguous` | src/pool/deallocate.ts:38-43 | no text has two derivations; PREPARE is never both keyword and target |
| `Deallocate.ParseIsComplete` | src/pool/deallocate.ts:191-232 | the derivation of every command is found |
| `Deallocate.PrepareIsTarget` | src/pool/deallocate.ts:218-227 | PREPARE with nothing but a trailer after it is the target |
| `Deallocate.CommandsStartWithD` | src/pool/deallocate.ts:196-198 | the early rejection by the first letter loses no command |
| `Deallocate.DecodeInvertsQuoteIdent` | src/utils/quote-ident.ts:2 | decoding a DEALLOCATE of a quoted name yields that name, in every casing, spacing, with or without PREPARE and with every trailer |
| `Deallocate.DecodeStatementCacheInvalidation` | src/pool/deallocate.ts:191-232 | the scanner over indices returns what the grammar derives |
| `Deallocate.MatchKeyword` | src/pool/deallocate.ts:97-111 | the loop matches a keyword in any ASCII casing up to a token boundary |
| `Deallocate.ScanDelimitedIdentifier` | src/pool/deallocate.ts:142-165 | the loop decodes doubled quotes and rejects empty and unterminated names |
| `Deallocate.ScanRegularIdentifier` | src/pool/deallocate.ts:122-140 | the loops take the longest identifier and fold its ASCII letters only |
| `Migrations.ValidatesConsistency` | src/schema/migrations.ts:233-287 | validation passes exactly the histories whose active rows are finished, unique, listed and unedited |
| `Migrations.StartedAtMostOnce` | src/schema/migrations.ts:289-350 | over any sequence of calls, whatever fails or stops, each script starts at most once |
| `Migrations.UnfinishedBlocks` | src/schema/migrations.ts:248-255 | an unfinished row blocks all later calls: nothing starts and the history stays |
| `Migrations.UnfinishedRefuses` | src/schema/migrations.ts:248-255 | a call is refused for unfinished rows exactly when there is one |
| `Migrations.BaselineRefusedIff` | src/schema/migrations.ts:305-315 | a call is refused for want of a baseline exactly if every row is rolled back and there are user tables; then the history stays and nothing starts |
| `Migrations.BaselineIsAwaited` | src/schema/migrations.ts:305-315 | and so for any number of such calls, whatever they list |
| `Migrations.RefusalsNameTheDefect` | src/schema/migrations.ts:240-287 | a refusal names all unfinished or all missing migrations, or one that is recorded twice or edited, and the first kind of defect there is |
| `Migrations.FailureBlocks` | src/schema/migrations.ts:333-342 | a failed script blocks all later calls |
| `Migrations.ReturnLeavesAllFinished` | src/schema/migrations.ts:318-349 | a call that returns leaves every listed migration finished and its checksum matching |
| `Migrations.RepeatAppliesNothing` | src/schema/migrations.ts:324-327 | repeating a call that returned applies nothing and skips everything |
| `Migrations.CleanStopResumes` | src/schema/migrations.ts:323-348 | a call stopped between two migrations and the next one do together what one call would have done |
| `Migrations.LineEndingsDoNotMatter` | src/schema/migrations.ts:201-205 | a script stored with uniform line endings is recognised in every text with the same LF form |
| `Migrations.MixedLineEndingsDoMatter` | src/schema/migrations.ts:201-205 | with a collision-free checksum, a text with the same LF form is recognised exactly if it is the script itself or the script had uniform line endings |
| `Migrations.LinesConverted` | src/schema/migrations.ts:201-205 | both conversions change the line endings of a text, whichever it has, and nothing else |
| `Migrations.CrLfCheckoutMatchesIff` | src/schema/migrations.ts:201-205 | a checkout with CR LF is recognised exactly if the script had uniform line endings |
| `Migrations.LfCheckoutMatchesIff` | src/schema/migrations.ts:201-205 | a checkout with LF is recognised exactly if the script had LF, or CR LF and no carriage return before one |
| `Migrations.ValidateHistory` | src/schema/migrations.ts:240-287 | the loops report the first defect in the order unfinished, duplicate, missing, modified |
| `Migrations.Database.ApplyMigrations` | src/schema/migrations.ts:296-350 | the loop over the migrations writes the history, starts the scripts and ends as specified |

## Left out

- PGlite, the WebAssembly module and Node's stream machinery: the backend is a function or a step of the environment, `runExclusive` a queue of turns, and `push` an append to an output.
- Asynchrony inside one duplex: `PGliteDuplex` finishes a write before it takes the next; a write that arrives in between is, by `DuplexProtocol.ChunksDoNotMatter`, the same as one that arrives after.
- The session lock inside `PGliteDuplex`, `_final`, portal suspension and the recovery Sync for abandoned portals: they are steps of `SharedSession`, which does not look into the bytes.
- BackendFramer.BackendMessageFramer.Write: after an impossible length it does not say how much of the frames before it in the same chunk was passed on, only that the output is a prefix of the automaton's, because the lazy forwarding of those frames is cut off there.
- PGliteDuplex.PGliteDuplex.Write: the same for the output of a duplex whose call failed.
- SharedSession.SessionsAreIsolated: is stated for orderly runs, because it is false of others; SharedSession.OpenerOwnsIffOrderly is the exact condition.
- The recorded transaction status is not reset after a teardown's ROLLBACK, since nothing reads it afterwards.
- Error texts and codes other than the two SQLSTATEs the duplex sends, telemetry, diagnostics channels, readiness timeouts and the protocol cleanup counters.
- COPY through the extended query protocol: the bridge looks for copy-in in simple Query messages only.
- The order between buffered extended messages and a standalone message that arrives before their Sync: the bridge sends the standalone one first, and so does the model; nothing more is claimed.
- Unicode case folding in the COPY scanner: letters are folded over ASCII, other units are opaque.
- Unterminated literals and comments have no lexeme, since PostgreSQL rejects the text; for them only the agreement of the loops with the reference scanner is proved.
- Views of a chunk that share memory with it (`subarray`) are values.
- SHA-256, the history table's DDL and the discovery of the migrations directory; names of listed migrations are distinct, as directory entries are.
- The `PgBridgeClient` submission chain, `FastQuery`, array parsing, query trail, statistics, snapshots, schema push, the socket server and the pool.
