# Voidbar, verified

Voidbar shows IRC networks to Discord clients. This project models its self-contained algorithms
in Dafny and proves what they are for. `dafny verify dfyconfig.toml` checks everything.

| files | part of the program |
|---|---|
| `MircScan`, `Markdown`, `MircTranslate`, `MircForms` | mIRC formatting to Markdown |
| `Multiline`, `MultilineLimits` | splitting a message into frames and batches, and joining frames |
| `Batches`, `BatchRuns`, `BatchContent`, `BatchNesting`, `BatchOrder`, `BatchForms`, `BatchSinks`, `BatchTargets` | incoming nested batches (IRCv3 `batch`, `draft/multiline`, `draft/chathistory`) |
| `PendingSends` | own sends and their echoes |
| `ReplayLog`, `SessionModel`, `GatewaySession`, `ResumeRuns`, `ReplayRace` | gateway sessions: sequence numbers, replay log, takeover, resume |
| `Snowflake`, `MintOrder` | id generation |
| `History`, `HistoryRows`, `Backfill`, `Scroll`, `ScrollPages` | applying history batches to the message buffer, and fetching older ones |
| `MessageKeys`, `MessageRing` | storage keys, the 500-message ring, paging |
| `SettingsProto`, `SettingsRecords` | splitting and merging protobuf settings (Protocol Buffers Encoding: Base 128 Varints, Message Structure, Last One Wins) |
| `MsgidRegistry` | the msgid table of a connection |
| `NetworkStore`, `ChannelIndex`, `AutoJoin`, `NetworkLife`, `NetworkJoins` | networks, memberships and channels |
| `ReadMarkers`, `Occupancy` | read state, coalesced member lists |
| `QueryString` | the tolerant query parser of connection strings |
| `Basics`, `Bytes`, `Ordered` | shared definitions |

Code that works step by step is a method, or a class with the fields it updates, proved against a
function of the old state; runs are sequences of operations folded by that function, and the
lemmas about runs are the main results. The translator's buffer and stack are local variables of
one call, so they are values there, with the token stream carried along as a ghost.

## Where the code is not what its text says

Each has its exact condition and an input at which it fails in the table below.

- "An empty span is cut out" (`format.go:65-68`): not if an enclosing format is switched off first (`MircTranslate.MircToMarkdown`, `EmptySpanSurvives`).
- "Six hex digits" (`format.go:164-165`): the code takes one to six (`MircScan.SixDigitsExactly`, `ThreeDigitsSkipped`).
- `eventsBytes` (`session.go:132-142`): the count trim does not subtract, so the byte budget shrinks for good (`ReplayLog.DriftExactly`, `SmallFramesDrift`).
- Time-anchored ids repeat once a full millisecond's counter was deleted (`Snowflake.RepeatsExactly`, `NoIdTwice`, `SaturatedRepeats`).
- `NewBelow` calls its 0 unreachable (`id.go:118-120`): messages dated before 2015, fetched below a row dated so too, reach it; two of them in a batch are stored as one, and the next fetch has no ceiling (`Backfill.NoIdExactly`, `BothGetNoId`, `Scroll.RoundKeeps`).
- Joining batch by batch does not give a message back if a batch starts in the middle of a line (`Multiline.PerBatchJoin`, `LongLineFallsApart`).
- A multiline batch closed after the history batch around it, and a reference opened again, lose their frames (`BatchRuns.LosesExactly`, `ReopenedLoses`, `ClosedLateLoses`).
- The frames of a history batch are not in wire order if one gets past those of a multiline batch still open in it (`BatchOrder.WireOrderExactly`, `OvertakenRun`).
- A backfill into a full channel leaves the buffer as it was, though its frames count as inserted (`Backfill.NewMessagesGrow`, `FullChannelStays`, `FullChannelCounts`).
- An alias registered again can be dropped with its first registration (`MsgidRegistry.RunRetains`, `SecondAliasLost`), and a row registered under a second anchor leaves the first in the table (`OldAnchorStays`, `RunStrays`, `TwoAnchorsLeak`).
- "Every channel registry entry" is deleted with a network (`networks.go:813-815`): not the record of a channel that lost its name to another (`ChannelIndex.NoResidue`, `TakenOverStays`).
- A channel renamed to its own name loses its history mark (`ChannelIndex.MarkFollows`, `SelfRenameForgets`).
- Ids "compare numerically" (`network.go:2428-2429`): not with leading zeros (`MessageKeys.NumericExactly`, `ReadMarkers.LeadingZeroMisleads`).

## Model

| member | source | states |
|---|---|---|
| MircScan.ScannedIsLongest | internal/irc/ircmanage/format.go:138-189 | a colour parameter scanned digit by digit is the longest one the text starts with, with and without a background part |
| MircScan.MircColorLen | internal/irc/ircmanage/format.go:140-162 | the length skipped is that of the longest "one or two digits, optionally a comma and one or two digits" at the front, 0 if there is none; a comma without digits after it is not skipped |
| MircScan.MircHexLen | internal/irc/ircmanage/format.go:166-189 | the same for hexadecimal colours, of one up to six digits as the code takes them |
| MircScan.SixDigitsExactly | internal/irc/ircmanage/format.go:163-189 | the length skipped is that of the six-digit colours the comment describes exactly if the foreground has no digits or six, and the background none or six |
| MircScan.ThreeDigitsSkipped | internal/irc/ircmanage/format.go:163-189 | three hexadecimal digits are skipped where six are asked for |
| Markdown.ReadPrefix | internal/irc/ircmanage/format.go:54-136 | token boundaries are byte boundaries: every prefix of a well-nested stream is one, and is written in a prefix of its bytes |
| Markdown.EmptySpanMeans | internal/irc/ircmanage/format.go:65-75 | a span was closed empty exactly if an opening delimiter is followed at once by its closing one |
| MircTranslate.MirrorsClose | internal/irc/ircmanage/format.go:76-79 | closing the top span keeps the stack equal to the open spans, codes distinct, positions rising, and changes no text already shown |
| MircTranslate.MirrorsCut | internal/irc/ircmanage/format.go:70-75 | cutting the top span back to its position removes just its opening delimiter and keeps the stack equal to the open spans |
| MircTranslate.EmptyTailTest | internal/irc/ircmanage/format.go:70-70 | the byte-length test for an empty span succeeds for the innermost span only, and exactly when nothing follows its opening delimiter, although delimiters share bytes |
| MircTranslate.EndsInside | internal/irc/ircmanage/format.go:70-70 | the test as the code makes it, on the buffer length |
| MircTranslate.OpenSpan | internal/irc/ircmanage/format.go:61-64 | an opened span is the innermost one, remembered with the buffer length before its delimiter |
| MircTranslate.CloseDownTo | internal/irc/ircmanage/format.go:76-79 | closes the spans from the top down to one, innermost first, showing the same text |
| MircTranslate.Reopen | internal/irc/ircmanage/format.go:80-86 | the spans above are open again in their old order, each remembered where the buffer now ends |
| MircTranslate.CloseAt | internal/irc/ircmanage/format.go:69-87 | one format is switched off and every other stays on, whatever its place in the stack; no character already written changes its formatting |
| MircTranslate.Toggle | internal/irc/ircmanage/format.go:88-96 | a format that is on goes off, one that is off goes on, no other changes, and the buffer stays well nested |
| MircTranslate.Reset | internal/irc/ircmanage/format.go:97-108 | after a reset nothing is open and all text is shown as before; spans without text are cut |
| MircTranslate.Step | internal/irc/ircmanage/format.go:109-133 | each round of the input loop consumes a control byte with its parameters or one text byte, and what is written plus what the rest gives stays what the whole text gives |
| MircTranslate.MircToMarkdown | internal/irc/ircmanage/format.go:54-136 | for every input: the output is well nested with nothing open at its end or across a newline; the text bytes and the formats around each are those of a plain per-line toggle interpreter; and an empty span is left exactly if a format below one that has no text yet is switched off |
| MircTranslate.EmptySpanSurvives | internal/irc/ircmanage/format.go:65-75 | the comment's promise that empty spans are cut out fails on "bold, italic, bold, x": the output has one |
| MircTranslate.InnermostIsCut | internal/irc/ircmanage/format.go:65-75 | and holds on "bold, italic, italic, x, bold": the output has none |
| MircTranslate.PlainIsKept | internal/irc/ircmanage/format.go:12-33 | text without control bytes goes through the translator unchanged |
| MircTranslate.ShortcutAgrees | internal/irc/ircmanage/format.go:12-33 | so the shortcut for plain lines gives what the translator would have given |
| MircTranslate.FormatIRC | internal/irc/ircmanage/format.go:12-33 | a plain line, an action (in italics), another CTCP message and a formatted line all give the translation of their text |
| MircForms.FiveFormats | internal/irc/ircmanage/format.go:37-136 | bold, italic, underlined, struck and monospace text comes out between `**`, `*`, `__`, `~~` and a backquote, as literal bytes for the five control bytes |
| MircForms.OneFormat | internal/irc/ircmanage/format.go:54-136 | however a format ends, by its own byte, a reset, a new line or the end of the text, its text stands between its delimiters and what follows stays plain |
| MircForms.ColoursDropped | internal/irc/ircmanage/format.go:97-133 | reversed text and colours with their parameters leave nothing but the text |
| MircForms.CtcpForms | internal/irc/ircmanage/format.go:12-33 | an action comes out in italics, another CTCP message as its payload |
| Multiline.AccLines | internal/irc/ircmanage/multiline.go:449-459 | the receiver's loop glues each concat frame to the line before it |
| Multiline.JoinConcat | internal/irc/ircmanage/multiline.go:449-459 | joining two stretches together gives what joining them apart gives, except that a continuation at the seam makes one line of two |
| Multiline.ChunkLen | internal/irc/ircmanage/multiline.go:196-208 | a chunk of a long line is never empty, at most the budget, and ends after the last space within the budget if there is one |
| Multiline.JoinUndoesSplit | internal/irc/ircmanage/multiline.go:181-215 | joining the frames of any lines gives the lines back, empty lines and lines of any length included |
| Multiline.StretchAllowed | internal/irc/ircmanage/multiline.go:216-240 | a part of a batch that meets the limits meets them |
| Multiline.GreedyStaysAhead | internal/irc/ircmanage/multiline.go:216-240 | cutting only the end of what greedy batches cover never takes fewer batches |
| Multiline.GreedyIsOptimal | internal/irc/ircmanage/multiline.go:216-240 | no order-preserving cut of the same frames into allowed batches has fewer batches |
| Multiline.PackFrames | internal/irc/ircmanage/multiline.go:216-240 | the packing loop keeps all frames in order, meets both limits (an over-long frame may stand alone) and starts a batch only when the one before had no room |
| Multiline.PlanMultiline | internal/irc/ircmanage/multiline.go:181-241 | the whole plan: glued together it is the message, every frame is within the line budget, every batch within the limits, and no plan for the same frames has fewer batches |
| Multiline.PerBatchJoin | internal/irc/ircmanage/multiline.go:216-240 | joined batch by batch the message comes back exactly if no batch after the first starts in the middle of a line |
| Multiline.ShortLinesJoinEach | internal/irc/ircmanage/multiline.go:188-240 | it does for every message whose lines fit one frame each |
| Multiline.LongLineFallsApart | internal/irc/ircmanage/multiline.go:188-240 | it never does for a longer line sent one frame to a batch |
| MultilineLimits.AllowedExactly | internal/irc/ircmanage/multiline.go:181-187 | a batch is allowed exactly if it has as many frames as negotiated and, unless it is one frame, says as many bytes, newlines included; a limit below 1 is one frame, or 350 bytes |
| MultilineLimits.PlanLimits | internal/irc/ircmanage/multiline.go:181-240 | every batch of a plan may be sent as negotiated and had no room for the next frame, and no frame is longer than 350 bytes |
| MultilineLimits.CutAtSpaces | internal/irc/ircmanage/multiline.go:188-215 | a line of up to 350 bytes is one frame; a longer one is cut behind the last space of its first 350 bytes, if there is one behind the first byte, else after 350 |
| Batches.MsgidsDistinct | internal/irc/ircmanage/multiline.go:419-444 | the ids of a batch are each listed once, none empty, and are just those of the opening line and the frames |
| Batches.BatchAnchorMsgid | internal/irc/ircmanage/multiline.go:405-415 | the anchor is the first of these ids in order of discovery |
| Batches.BatchExtraMsgids | internal/irc/ircmanage/multiline.go:419-444 | the others are the rest of them, in that order |
| Batches.JoinBatch | internal/irc/ircmanage/multiline.go:337-349 | a closed batch becomes one message: lines joined, first frame's author, anchor, further ids |
| BatchForms.IdsInOrder | internal/irc/ircmanage/multiline.go:419-444 | the ids are listed in the order they are first found, the opening line's first |
| BatchForms.AnchorAndRest | internal/irc/ircmanage/multiline.go:405-444 | the anchor, then the further ids, are all of them |
| BatchForms.LinesReadBack | internal/irc/ircmanage/multiline.go:337-349 | cut at its newlines a joined text gives its lines back |
| BatchForms.ControlForms | internal/irc/ircmanage/chathistory.go:78-125 | which BATCH lines open a multiline or a history batch, of which target, which close one, and which do neither |
| Batches.Conn.FlushLineBatch | internal/irc/ircmanage/multiline.go:337-399 | a closed multiline batch goes to its history batch, to the echo of an own send, or out as one message, and nowhere if it is empty |
| PendingSends.SendWaits | internal/irc/ircmanage/manager.go:2901-2910 | a send waits behind the earlier ones of its target and of no other; if 64 wait the oldest of them is forgotten |
| PendingSends.EchoPasses | internal/irc/ircmanage/manager.go:2913-2929 | an echo with an id takes the oldest send of its target, if there is one; one without an id, or of another target, takes none |
| PendingSends.NextPasses | internal/irc/ircmanage/manager.go:1168-1186 | no other event takes a send, and the echo of a joined batch takes one like any other |
| PendingSends.SendsAccounted | internal/irc/ircmanage/manager.go:2901-2929 | over every run the sends to a target are those its echoes took, those that wait, which are the latest, at most 64, and those forgotten |
| PendingSends.EchoesInOrder | internal/irc/ircmanage/manager.go:2896-2929 | the sends its echoes took, then those that wait, are all its sends in order exactly if none came while 64 waited; else some are missing |
| BatchSinks.TakesExactly | internal/irc/ircmanage/manager.go:2913-2929 | a step that is no send touches the waiting sends only if it is an echo with an id that leaves the connection, and then takes the oldest of its target |
| Batches.Conn.MultilineBatchControl | internal/irc/ircmanage/multiline.go:273-301 | an opening multiline batch remembers the innermost history batch; the line is taken exactly if it opens a multiline batch or closes an open one |
| Batches.Conn.ChatBatchControl | internal/irc/ircmanage/chathistory.go:78-125 | both shapes of an opening history batch; a closing one leaves to a waiting page fetch of its target or to the flush |
| Batches.Conn.OnBatch | internal/irc/ircmanage/manager.go:1090-1096 | the two together are one step of the batch machine |
| Batches.Conn.AwaitPage | internal/irc/ircmanage/chathistory.go:365-382 | a page fetch waits, unless another began less than ten seconds ago; then nothing changes |
| Batches.Conn.OnMessage | internal/irc/ircmanage/manager.go:984-998 | through both of its handlers a message goes to just one place: its open multiline batch, its open history batch, its echo, or the live relay |
| BatchForms.MessageGoes | internal/irc/ircmanage/manager.go:984-1009 | a message goes to the end of the open multiline batch of its tag, else of its open history batch, else it leaves as it came; nothing else changes |
| BatchForms.AsksAgain | internal/irc/ircmanage/chathistory.go:365-382 | a second page fetch is refused for ten seconds |
| BatchSinks.RelayedAsIs | internal/irc/ircmanage/manager.go:984-1009 | a message that is no echo and in no open batch is relayed as it is and takes no own send |
| BatchSinks.EchoesExactly | internal/irc/ircmanage/manager.go:984-1009 | over every run what leaves as a message is bound as an echo exactly if the first message behind it is one, and relayed otherwise |
| BatchSinks.PagesExactly | internal/irc/ircmanage/chathistory.go:100-125 | a closed history batch goes to the page fetch exactly if one waits for its target, which is not empty, and that fetch then waits no more; else to the history |
| BatchSinks.RunPages | internal/irc/ircmanage/chathistory.go:100-125 | over every run a page fetch gets one page at most, of a target asked for |
| BatchTargets.OpenIsAnchor | internal/irc/ircmanage/multiline.go:405-415 | a batch goes by the id of its opening line, if that has one |
| BatchTargets.RunAddresses | internal/irc/ircmanage/multiline.go:273-399 | over every run each message that left, alone or in a history batch, is to the target it was sent to or its multiline batch was opened for, and each history batch to the target it was opened for |
| BatchRuns.ArriveLists | internal/irc/ircmanage/manager.go:366-372 | a frame put at the end of a place's list is there once |
| BatchRuns.MoveKeeps | internal/irc/ircmanage/multiline.go:337-399 | a step that moves one place's frames behind another's keeps every frame at exactly one place |
| BatchRuns.StepKeeps | internal/irc/ircmanage/multiline.go:273-399 | every event keeps each frame at exactly one place and moves it only where the nesting says |
| BatchRuns.LosesExactly | internal/irc/ircmanage/manager.go:302-354 | an event loses frames exactly if it reopens an open reference that has frames, or closes a multiline batch after the history batch around it |
| BatchRuns.ReopenedLoses | internal/irc/ircmanage/manager.go:337-344 | a run in which a reference is opened again and its frame is lost |
| BatchRuns.ClosedLateLoses | internal/irc/ircmanage/manager.go:302-308 | a run in which the history batch closes first and the frame is lost |
| BatchRuns.RunAccounts | internal/irc/ircmanage/chathistory.go:78-162 | over every run each message that came in is in exactly one list, once |
| BatchContent.JoinedTells | internal/irc/ircmanage/multiline.go:337-349 | a joined message says what its frames said, in wire order, and carries all their ids |
| BatchContent.RunFaithful | internal/irc/ircmanage/multiline.go:273-399 | after every run each message that left or waits in a history batch says what the frames behind it said, in the order they came in |
| BatchNesting.StepMirrors | internal/irc/ircmanage/manager.go:273-344 | under well-nested events with unused references the tables and the stack hold just the open batches, each multiline batch with the innermost history batch around it |
| BatchNesting.NestedDropsNothing | internal/irc/ircmanage/multiline.go:273-399 | a well-nested event loses nothing, and a closing multiline batch goes to the innermost history batch around it or leaves |
| BatchNesting.NestedRun | internal/irc/ircmanage/multiline.go:273-399 | over every well-nested run no frame is lost |
| BatchNesting.AllClosed | internal/irc/ircmanage/chathistory.go:78-162 | once all batches of such a run are closed the tables and the stack are empty and each frame is in exactly one sink, once |
| BatchOrder.RunTidy | internal/irc/ircmanage/multiline.go:273-399 | over every run without overtaking the frames of every open batch and of every sink are in wire order |
| BatchOrder.OvertakingSpoils | internal/irc/ircmanage/multiline.go:337-357 | an event that puts a frame into a history batch past an earlier one of a multiline batch open in it spoils the order |
| BatchOrder.WireOrderExactly | internal/irc/ircmanage/multiline.go:273-399 | once all batches of a well-nested run are closed every sink is in wire order exactly if no event overtook |
| BatchOrder.OrderlyNeverOvertakes | internal/irc/ircmanage/multiline.go:273-399 | none does if each message carries the innermost open reference and no batch opens inside a multiline one |
| BatchOrder.OvertakenRun | internal/irc/ircmanage/multiline.go:273-399 | a well-nested run that closes all it opens, loses nothing and puts the later frame of a history batch first |
| ReplayLog.TrimBytesKeeps | internal/discord/gateway/session.go:135-138 | the byte trim drops no more than it must and never the newest frame |
| ReplayLog.RecordKeepsNewest | internal/discord/gateway/session.go:132-142 | recording keeps the log a suffix of the history, at most 256 frames and within the byte limit unless one frame is left, and keeps as many frames as fit |
| ReplayLog.RunKeepsNewest | internal/discord/gateway/session.go:122-145 | so does every run |
| ReplayLog.DriftGrows | internal/discord/gateway/session.go:139-141 | the byte counter gains exactly the bytes the count limit drops |
| ReplayLog.DriftNeverShrinks | internal/discord/gateway/session.go:133-142 | the byte budget lost that way is never regained |
| ReplayLog.KeepsWhatFits | internal/discord/gateway/session.go:132-142 | a log that has lost no budget keeps as many of the newest frames as fit both limits |
| ReplayLog.DriftExactly | internal/discord/gateway/session.go:132-142 | the counter is the retained size exactly if no 257 frames recorded one after another fitted the byte limit, the oldest of them with bytes |
| ReplayLog.SmallFramesDrift | internal/discord/gateway/session.go:139-141 | 257 frames of one byte lose a byte of the budget |
| GatewaySession.Session.Attach | internal/discord/gateway/session.go:70-80 | a new connection takes over: the displaced queue is closed, unchanged otherwise; on a new session this is where runs start |
| GatewaySession.Session.Detach | internal/discord/gateway/session.go:82-89 | only the connection that is attached detaches; for the client whose connection it was this is the Drop step of a run |
| GatewaySession.Session.SendFrame | internal/discord/gateway/session.go:147-158 | a frame is queued if there is room; a full queue is closed and the session goes offline |
| GatewaySession.Session.DispatchRaw | internal/discord/gateway/session.go:122-145 | a payload gets the next number, is recorded if asked, and queued: the Dispatch step of a run, overflow included; one that cannot be encoded changes nothing |
| GatewaySession.Session.Replay | internal/discord/gateway/session.go:180-191 | the queue gets the logged events above a number, in order, as far as there is room |
| GatewaySession.Session.Resume | internal/discord/gateway/server.go:400-406 | attach, replay and RESUMED, as one step: the Resume step of a run |
| GatewaySession.TakeIsRead | internal/discord/gateway/server.go:253-274 | a write the pump takes off the queue is what the client reads next |
| GatewaySession.TrySendIsAnswer | internal/discord/gateway/server.go:305-314 | a frame queued without a number, while there is room, is the Answer step |
| ResumeRuns.ReplayedIs | internal/discord/gateway/session.go:180-191 | what a resumed connection finds queued is the logged part of what its client has not seen, cut where the queue is full |
| ResumeRuns.LogReachesBack | internal/discord/gateway/session.go:122-145 | the log has every event the client has not seen exactly if it goes back that far |
| ResumeRuns.ResumeExactly | internal/discord/gateway/server.go:379-410 | a resume ends attached with every unseen event queued once and in order exactly if none of them was trimmed and the queue had room |
| ResumeRuns.AnyResumeExactly | internal/discord/gateway/server.go:379-410 | so does every resume after every run, whatever earlier resumes found |
| ResumeRuns.AwayTooLong | internal/discord/gateway/session.go:139-141 | more than 256 unseen events never are all in the log |
| ResumeRuns.RunKeeps | internal/discord/gateway/session.go:70-191 | over every run, resumes served or not, what the client reads next are the recorded events in order from the first it has not seen on, but for those that were gone from the log when its connection resumed |
| ResumeRuns.SkipsExactly | internal/discord/gateway/session.go:122-191 | every recorded event was got, is still to be read, or is one of the events skipped, and these are counted by what was gone from the log at the resumes the client read on from |
| ResumeRuns.ExactlyOnce | internal/discord/gateway/server.go:379-410 | from any point of any run on: what the client had not seen is what it has got since and what it has yet to see, in order and each once, exactly if it skipped nothing since |
| ResumeRuns.ServedOnward | internal/discord/gateway/server.go:379-410 | from the start, or from any resume on, while no unseen event is gone from the log at a resume, it reads exactly the recorded events above its number there, and all of them once its queue is drained |
| ResumeRuns.AtMostOnce | internal/discord/gateway/server.go:379-410 | over every run, whatever its resumes find, the client reads only recorded events, in the order recorded and none twice |
| ReplayRace.ReplayedExactly | internal/discord/gateway/session.go:180-191 | with the write pump reading while the replay writes, the client gets every event offered, once and in order, exactly if fewer writes waited than the queue takes whenever one was offered |
| ReplayRace.StillPump | internal/discord/gateway/session.go:180-191 | with the pump at rest the replay is the single step of the runs |
| ReplayRace.RoomForResumed | internal/discord/gateway/server.go:400-406 | a replay one event too long and the pump a moment late: RESUMED has room, and the last event is missing |
| Snowflake.IdFields | internal/util/id.go:28-136 | time, node and counter are read back from an id |
| Snowflake.IdOrder | internal/util/id.go:28-136 | ids of one node compare by time, then counter |
| Snowflake.NextRises | internal/util/id.go:28-43 | ids rise strictly for every clock trace, one that runs backwards included, and none is dated before its clock reading |
| Snowflake.IdBits | internal/util/id.go:28-136 | an id holds milliseconds since 2015, five bits of worker, five of process and twelve of counter, from the top down |
| Snowflake.NextIsLeast | internal/util/id.go:28-43 | the next id is the least of its node that is greater than the last and not dated before the clock |
| Snowflake.Generator.Next | internal/util/id.go:28-43 | each id is greater than the one before |
| Snowflake.Generator.NewAt | internal/util/id.go:58-76 | the minted id and the counters left are those of the search for a free millisecond upwards |
| Snowflake.Generator.NewBelow | internal/util/id.go:86-121 | the minted id and the counters left are those of the search downwards |
| Snowflake.MintAtIs | internal/util/id.go:58-76 | a time-anchored id lands on the first millisecond from its own on with a number left, and deletes just the used-up counters it passes |
| Snowflake.MintBelowIs | internal/util/id.go:86-121 | an id under a ceiling lands on the last millisecond up to its own with a number left below the ceiling; there is none exactly if no millisecond has one |
| Snowflake.ServedFinds | internal/util/id.go:58-121 | the id is the next one of the first millisecond from its own on with a number left, or of the last up to its own with one below the ceiling; there is none exactly if there is no such millisecond |
| Snowflake.RepeatsExactly | internal/util/id.go:58-121 | after any mix of requests the next id was given out before exactly if the millisecond found has given out its last number before |
| Snowflake.RetiredExactly | internal/util/id.go:68-109 | a millisecond has lost its counter exactly if some request met a used-up one on its way |
| Snowflake.NoIdTwice | internal/util/id.go:48-121 | while no request meets a used-up counter no id is given out twice |
| Snowflake.FewAreQuiet | internal/util/id.go:48-121 | 4095 requests, whatever they ask for, meet none |
| Snowflake.SaturatedRepeats | internal/util/id.go:68-74 | after 4096 ids of one millisecond the next one is its first again |
| MintOrder.LandsOn | internal/util/id.go:86-121 | where a backfilled message that meets no used-up counter lands: in its own millisecond, or, from the ceiling's on, in the ceiling's or the one before |
| MintOrder.SteadyBurst | internal/util/id.go:86-121 | with enough free slots below the ceiling ids minted in order of time rise |
| MintOrder.OverflowFallsBack | internal/util/id.go:86-121 | one late message more than free slots gets an id below its predecessor's |
| MintOrder.BackfillOrder | internal/util/id.go:86-121 | while none meets a used-up counter, ids minted in order of time rise exactly if the ceiling's millisecond has no free slot below the ceiling or enough for all messages from it on |
| MintOrder.BackfillBelow | internal/util/id.go:86-121 | in any case all of them are below the ceiling |
| MintOrder.PrefillOrder | internal/util/id.go:58-76 | without a ceiling they always rise and carry their own times, while none meets a used-up counter |
| History.ExchangeSort | internal/irc/ircmanage/chathistory.go:185-193 | the in-place exchange sort leaves the frames a permutation in order of time |
| History.ApplyFrame | internal/irc/ircmanage/chathistory.go:194-290 | one frame: skipped if its id is indexed already, else minted, stored under its own time, a future one under the present, and indexed under all its ids (spelled out in HistoryRows) |
| History.FlushChatBatch | internal/irc/ircmanage/chathistory.go:174-318 | the whole flush is the frames, sorted, applied one by one (what that stores is HistoryRows); a live one marks its target as fetched and sends out what it inserted, in that order, a silent one sends nothing |
| HistoryRows.StoredExactly | internal/irc/ircmanage/chathistory.go:194-290 | a message is stored exactly if its target resolves to a channel and it has no id or one not indexed by then; else nothing changes |
| HistoryRows.LiveBatchDates | internal/irc/ircmanage/chathistory.go:205-228 | every stored message of a live batch that meets no used-up counter gets, and is sent out under, an id that carries its own time in milliseconds; a future time is the present, one before 2015 its start |
| HistoryRows.BackfillDates | internal/irc/ircmanage/chathistory.go:205-228 | under a ceiling an id carries the message's own time, or an earlier one, unless it is 0 |
| HistoryRows.RowsStand | internal/irc/ircmanage/chathistory.go:228-290 | after a batch a row is the one there was before or that of the message last stored under its id, with what that says, its own time and its own id |
| HistoryRows.FoundUnder | internal/irc/ircmanage/chathistory.go:228-290 | a stored message with an id is found under its further ids, and under its own if its row is still there; no other id finds anything new |
| Backfill.BatchOrder | internal/irc/ircmanage/chathistory.go:174-318 | a backfilled batch gets ids below the ceiling that rise with time exactly under the condition of BackfillOrder |
| Backfill.PrefillBatchOrder | internal/irc/ircmanage/chathistory.go:174-318 | a live batch gets, and sends out, ids that rise with time and carry the frames' times, while none meets a used-up counter |
| Backfill.AppendBelow | internal/storage/messages.go:216-243 | a row below all others evicts none of them |
| Backfill.RowStays | internal/irc/ircmanage/chathistory.go:174-318 | a batch, whatever is in it, keeps every row of the channels it has no messages for, and under a ceiling every row not below it |
| Backfill.BackfillProtects | internal/core/network/network.go:807-825 | under a ceiling no row from the ceiling on is evicted or changed, in any channel, and only rows below it are added |
| Backfill.FullChannelKeepsNothing | internal/storage/messages.go:216-243 | below the floor a row is kept exactly if the channel is not full |
| Backfill.BatchAdds | internal/irc/ircmanage/chathistory.go:174-318 | after a batch a channel holds the 500 greatest of its ids and the new ones |
| Backfill.BatchCounts | internal/irc/ircmanage/chathistory.go:172-318 | below the floor the channel grows by the number of messages it was given exactly if these got distinct ids and fit the buffer |
| Backfill.CountIsGrowth | internal/irc/ircmanage/chathistory.go:172-318 | while no message meets a used-up counter the count returned is the number of new rows exactly if buffered and inserted messages fit the buffer together |
| Backfill.NewMessagesGrow | internal/irc/ircmanage/chathistory.go:172-318 | of messages of one channel not indexed before or by one another all count, and all are new rows exactly if the channel has room for as many |
| Backfill.FullChannelStays | internal/irc/ircmanage/chathistory.go:172-318 | a batch below a full channel leaves it as it was |
| Backfill.FullChannelCounts | internal/irc/ircmanage/chathistory.go:172-318 | and still counts each of its messages that is new |
| Backfill.NoIdExactly | internal/util/id.go:117-120 | a message gets id 0, which the code calls unreachable, exactly if no millisecond up to its own has a number left below the ceiling |
| Backfill.BothGetNoId | internal/util/id.go:100-120 | two messages dated before the epoch under its first id both get 0, both count, and the second is stored over the first |
| Backfill.NoMessageTwice | internal/irc/ircmanage/chathistory.go:194-290 | no sequence of frames adds a row for an id already indexed, in the batch or before it |
| Scroll.LowestId | internal/core/network/network.go:809-812 | the row a fetch goes below is the channel's lowest |
| Scroll.RoundKeeps | internal/core/network/network.go:807-825 | one round below that row, whatever the batch, keeps every row of the channel and of every channel it has no messages for, unless that row has id 0 |
| Scroll.ZeroIsNoCeiling | internal/util/id.go:86-115 | then there is no ceiling: a message gets the next id of its own millisecond |
| Scroll.AppendKeepsExactly | internal/storage/messages.go:216-243 | and an append keeps the rows of its channel exactly if it overwrites none with another and the channel has room or the new row is the lowest |
| Scroll.FetchOlderMessages | internal/core/network/network.go:791-827 | the rounds asked: at most three, each applying, sorted, what was answered, below the lowest row there is; buffer, index, counters and count are what these rounds make of them; a fetch ends early only if enough was inserted or a round inserted nothing. No message is stored twice, and nothing buffered is lost or changed unless a round goes below id 0, which none does while ids and messages are dated after the first three milliseconds of the epoch and no millisecond is used up |
| ScrollPages.FirstAnswerCounts | internal/core/network/network.go:807-825 | a page that is wanted is asked for, and a first answer of messages not buffered counts in full |
| ScrollPages.FirstAnswerArrives | internal/core/network/network.go:807-825 | in the end the channel has the 500 greatest of what it had and as many ids as that answer has messages |
| ScrollPages.StaysIn | internal/core/network/network.go:807-825 | what is in the channel after some round is there unchanged after all of them, unless a round goes below id 0 |
| MessageKeys.NumericOrder | internal/storage/messages.go:60-65 | padded numeric ids sort as numbers and only equal numbers share a key |
| MessageKeys.OtherIdsLast | internal/storage/messages.go:60-65 | any other id sorts after all of them under a key of its own |
| MessageKeys.GreaterIsNumeric | internal/core/network/network.go:2430-2435 | the read state's comparison is numeric on ids without leading zeros |
| MessageKeys.NumericExactly | internal/core/network/network.go:2428-2435 | an id made of digits compares as a number with all ids without leading zeros exactly if it has none itself |
| MessageRing.TopStep | internal/storage/messages.go:216-243 | keeping the k greatest at every insertion keeps the k greatest of all |
| MessageRing.Store.AppendMessage | internal/storage/messages.go:216-243 | listing the keys and deleting all but the last 500 is keeping the 500 greatest |
| MessageRing.Store.SetMessageMsgID | internal/storage/messages.go:109-131 | binds row and id both ways, or fails and changes nothing |
| MessageRing.Store.ChannelMessages | internal/storage/messages.go:322-374 | a page is the newest ids below a cursor, or the oldest above one |
| MessageRing.SeekDown | internal/storage/messages.go:322-374 | seeking to a cursor and skipping it reads just what is below it |
| MessageRing.WalkReadsAll | internal/storage/messages.go:322-374 | walking back page by page reads every row once, in descending order, for any limit |
| MessageRing.PagesExactly | internal/storage/messages.go:322-374 | a page has as many ids as asked for and at hand, one if less than one is asked for: the greatest below the cursor, falling, or the least above it, rising |
| MessageRing.RingKeepsGreatest | internal/storage/messages.go:216-243 | after any run of appends every channel holds exactly the 500 greatest ids ever appended to it |
| MessageRing.RingKeepsLast | internal/storage/messages.go:216-243 | and under each id the row appended last |
| SettingsProto.VarintRoundTrip | internal/discord/rest/settingsproto.go:29-71 | every 64-bit number is read back from its varint, whatever follows |
| SettingsProto.VarintFits | internal/discord/rest/settingsproto.go:29-71 | whatever is read as a varint fits in 64 bits |
| SettingsRecords.VarintIs | internal/discord/rest/settingsproto.go:29-71 | what is read is the number in base 128, lowest digit first, exactly if it has ten bytes at most and fits 64 bits |
| SettingsRecords.WrittenIs | internal/discord/rest/settingsproto.go:29-71 | a writer's varint is that number in base 128 |
| SettingsRecords.OnlyWay | internal/discord/rest/settingsproto.go:29-71 | and no other varint without needless zeros is |
| SettingsProto.RecordLocal | internal/discord/rest/settingsproto.go:29-71 | a record is decided by its own bytes |
| SettingsRecords.RecordRead | internal/discord/rest/settingsproto.go:29-71 | a record a writer makes, of any field number and any of the four types, is read as one record of that field and just its length, whatever follows |
| SettingsRecords.OtherTypes | internal/discord/rest/settingsproto.go:29-71 | groups and the two types there are none of are refused |
| SettingsRecords.CutShort | internal/discord/rest/settingsproto.go:29-71 | field number 0 and records cut short are refused, each with its own error |
| SettingsRecords.MessageSplit | internal/discord/rest/settingsproto.go:29-71 | a message of such records is split into just them |
| SettingsProto.SplitProtoFields | internal/discord/rest/settingsproto.go:29-71 | the loop cuts the blob into its records, or reports the error of the first malformed one |
| SettingsProto.JoinUndoesSplit | internal/discord/rest/settingsproto.go:29-71 | joining the records of an accepted blob gives it back |
| SettingsProto.SplitConcat | internal/discord/rest/settingsproto.go:29-71 | the records of a concatenation are those of its parts, one after the other |
| SettingsProto.SplitUndoesJoin | internal/discord/rest/settingsproto.go:29-71 | any list of well-formed records is split out of its concatenation |
| SettingsProto.LastWinsIsLast | internal/discord/rest/settingsproto.go:86-92 | a field's record is its last one |
| SettingsProto.MergeProtoFields | internal/discord/rest/settingsproto.go:77-103 | the merge as the code makes it, map, sort and append |
| SettingsProto.EncodeRoundTrip | internal/discord/rest/settingsproto.go:93-102 | a table written in ascending order is read back |
| SettingsProto.MergedFields | internal/discord/rest/settingsproto.go:77-103 | a merged blob splits into strictly ascending fields: the patch's last record, else the stored one |
| SettingsProto.MergeAssociative | internal/discord/rest/settingsproto.go:77-103 | merging is associative |
| SettingsProto.MergeIdempotent | internal/discord/rest/settingsproto.go:77-103 | applying a patch again changes nothing |
| MsgidRegistry.Conn.RegisterMsgid | internal/irc/ircmanage/manager.go:2738-2754 | the table after registering an anchor |
| MsgidRegistry.Conn.RegisterMsgidAlias | internal/irc/ircmanage/manager.go:2761-2777 | the table after registering an alias |
| MsgidRegistry.OwnIdIsNoAlias | internal/irc/ircmanage/manager.go:2761-2777 | a row's own id as its alias, or an empty one, changes nothing |
| MsgidRegistry.Conn.LookupMsgid | internal/irc/ircmanage/manager.go:2780-2785 | after any paired run a row answers with an id registered as its anchor, exactly while it is in the order list |
| MsgidRegistry.Conn.LookupRef | internal/irc/ircmanage/manager.go:2788-2793 | after any paired run an id finds the row last registered under it, if any |
| MsgidRegistry.Conn.RegisterBatch | internal/irc/ircmanage/multiline.go:372-381 | the table after all ids of a joined batch |
| MsgidRegistry.Conn.RefBySnowflake | internal/irc/ircmanage/manager.go:2796-2805 | a row found by its snowflake is that row, and it is found exactly while it is in the order list |
| MsgidRegistry.RunGood | internal/irc/ircmanage/manager.go:2738-2777 | over every run that pairs rows and anchors one to one the maps are inverse on anchors, and every id held is a held row's anchor or a listed alias and finds the row last registered under it |
| MsgidRegistry.Bounded | internal/irc/ircmanage/manager.go:2733-2754 | then the table never holds more than twice its cap |
| MsgidRegistry.OldAnchorStays | internal/irc/ircmanage/manager.go:2738-2754 | in a table as RunGood has it one more anchor leaves an id outside both lists exactly if it gives a held row another id than its own, which is no listed alias; just that own id is left |
| MsgidRegistry.RunStrays | internal/irc/ircmanage/manager.go:2738-2777 | the same after every paired run |
| MsgidRegistry.TwoAnchorsLeak | internal/irc/ircmanage/manager.go:2738-2754 | a run of two registrations that leaves one |
| MsgidRegistry.KeptSnoc | internal/irc/ircmanage/manager.go:2761-2777 | one more alias drops just the alias whose registration leaves the window |
| MsgidRegistry.RunRetains | internal/irc/ircmanage/manager.go:2738-2777 | the table holds the latest 4096 rows to enter, lists the latest 4096 aliases, and an alias finds its row exactly while none of its registrations has been dropped since its latest |
| MsgidRegistry.OnceIsKept | internal/irc/ircmanage/manager.go:2761-2777 | an alias registered once is found exactly while it is among the latest 4096 |
| MsgidRegistry.AgainMayBeLost | internal/irc/ircmanage/manager.go:2761-2777 | an alias registered again is lost with its earlier registration, however recent the later |
| MsgidRegistry.SecondAliasLost | internal/irc/ircmanage/manager.go:2761-2777 | a paired run in which an alias among the latest 4096 finds nothing |
| MsgidRegistry.Answers | internal/irc/ircmanage/manager.go:2779-2805 | what the lookups answer after any paired run |
| MsgidRegistry.BatchFinds | internal/irc/ircmanage/multiline.go:366-394 | after a joined batch is registered every id of it finds its row and the row answers with the anchor |
| NetworkStore.Store.EnsureChannel | internal/storage/networks.go:142-178 | the channel returned is the one the index now finds |
| NetworkStore.Store.EnsureSystemChannel | internal/storage/networks.go:102-138 | the same for the notices channel |
| NetworkStore.Store.RenameChannel | internal/storage/networks.go:769-811 | record, index entry and history mark after a rename; it fails exactly if the old name finds no channel |
| NetworkStore.Store.DeleteNetworkCascade | internal/storage/networks.go:817-878 | the keys a removed network takes along |
| ChannelIndex.EnsureFinds | internal/storage/networks.go:142-178 | ensuring a channel finds the one there is or makes one of that network and name, does nothing when repeated, and no other name finds anything else |
| ChannelIndex.ShownName | internal/storage/networks.go:142-178 | a new channel is shown under its IRC name without the hash |
| ChannelIndex.RunKeepsIndex | internal/storage/networks.go:102-178 | over every run of ensure, rename, history mark and removal each index entry finds a record with that network and name, and a record is out of reach exactly if another channel was renamed onto its name |
| ChannelIndex.CascadeLeaves | internal/storage/networks.go:817-878 | a removed network leaves of its channel records just those out of reach, with the rows of those that stay, and no membership or mark; every other network keeps all it had |
| ChannelIndex.NoResidue | internal/storage/networks.go:813-878 | so the promise to delete every channel record is met exactly if no channel of the network lost its name to another |
| ChannelIndex.TakenOverStays | internal/storage/networks.go:813-878 | two channels, one renamed onto the other, and the removed network leaves a record |
| ChannelIndex.MarkLostExactly | internal/storage/networks.go:799-833 | a history mark is lost exactly if its network is removed or its channel is renamed |
| ChannelIndex.RenameMoves | internal/storage/networks.go:764-811 | a rename keeps id and rows, frees the old name and changes no other name's channel |
| ChannelIndex.MarkFollows | internal/storage/networks.go:799-807 | the history mark goes along exactly if the two names differ |
| ChannelIndex.SelfRenameForgets | internal/storage/networks.go:799-807 | a marked channel that loses its mark that way |
| ChannelIndex.RenameBack | internal/storage/networks.go:769-811 | renaming back undoes a rename onto a free name |
| AutoJoin.MergeChannels | internal/core/network/network.go:619-639 | the merged list is the first spelling of each name in order |
| AutoJoin.DedupedLists | internal/core/network/network.go:619-639 | it lists every name in one spelling and nothing else |
| AutoJoin.DedupedStays | internal/core/network/network.go:619-639 | what is merged in only comes behind what is there, and a list without repetitions stays as it is |
| AutoJoin.ChangesExactly | internal/core/network/network.go:619-639 | it counts as changed exactly if a name was not listed before |
| NetworkLife.MergeKeys | internal/core/network/network.go:680-690 | channel keys after a re-join, and whether one changed |
| NetworkLife.Service.Join | internal/core/network/network.go:645-765 | the network, its credentials and the membership after a join |
| NetworkLife.Service.Leave | internal/core/network/network.go:1078-1094 | the membership goes, and the network if no member is left |
| NetworkJoins.JoinBrings | internal/core/network/network.go:645-725 | a new network is as the connection string says; a known one keeps id and name and takes a password, a SASL account with its password and channel keys if the string has them; other networks stay as they were |
| NetworkJoins.JoinEnrolls | internal/core/network/network.go:725-765 | a new member is called as the string says, or by the account, and joins its channels; one who is a member keeps name and channels, in their places, and gets the new ones behind them; no other membership changes |
| NetworkJoins.LeaveKeeps | internal/core/network/network.go:1074-1094 | leaving takes just the one membership; other networks and their members stay as they were |
| NetworkLife.NetworksAreKept | internal/core/network/network.go:645-765 | after every run of joins, leaves, channel registrations, renames and history marks a network is stored exactly if it has a member, no two share a connection id, and a connection id finds its network despite stale entries |
| NetworkLife.LastMemberRemoves | internal/core/network/network.go:1074-1094 | a leaving member takes the network along exactly if no other is left |
| NetworkLife.JoinTwice | internal/core/network/network.go:641-644 | joining with the same string again finds the same network and changes nothing |
| NetworkLife.JoinThenLeave | internal/core/network/network.go:1074-1094 | joining a new network and leaving it leaves nothing but the connection id's entry |
| ReadMarkers.GreaterTotal | internal/core/network/network.go:2430-2435 | the comparison of ids is total and the empty id is least |
| ReadMarkers.LeadingZeroMisleads | internal/core/network/network.go:2428-2435 | with leading zeros it is not numeric |
| ReadMarkers.Service.MarkChannelRead | internal/core/network/network.go:2440-2450 | the row after an acknowledgement, and the one returned |
| ReadMarkers.Service.AckGuild | internal/core/network/network.go:2456-2474 | the rows after a guild acknowledgement, and those returned |
| ReadMarkers.Service.OnMentionRelayed | internal/core/network/network.go:2478-2483 | one more mention, the marker unchanged |
| ReadMarkers.GuildAckedAt | internal/core/network/network.go:2456-2474 | it acknowledges just the guild's channels, each once |
| ReadMarkers.RunReads | internal/core/network/network.go:2437-2483 | after every run the marker is the greatest id ever acknowledged and the badge the number of mentions since the last acknowledgement that took effect |
| ReadMarkers.NeverBack | internal/core/network/network.go:2437-2474 | a marker never moves back, numerically for ids without leading zeros |
| Occupancy.Service.RefreshOccupancy | internal/core/network/network.go:1882-1905 | what is pending and armed after a change |
| Occupancy.Service.FlushOccupancy | internal/core/network/network.go:1911-1939 | the lists sent, in the order asked for, and what is left pending |
| Occupancy.FilteredExactly | internal/core/network/network.go:1907-1939 | the lists sent are those wanted, each as often as asked for and in that order |
| Occupancy.RunCoalesces | internal/core/network/network.go:1872-1939 | over every run the pending entry stands for the changes since the last flush and exactly one flush is armed for it |
| Occupancy.TouchesIsUnion | internal/core/network/network.go:1907-1939 | pending changes touch just the lists that one of the changes would rebuild on its own |
| Occupancy.FlushIsUnion | internal/core/network/network.go:1907-1939 | whenever a flush fires changes are waiting, and it sends just the lists at least one of them would have rebuilt |
| Occupancy.AlwaysArmed | internal/core/network/network.go:1900-1904 | no change is left without an armed flush, and no key has two |
| QueryString.ParseQueryTolerant | internal/irc/connstr/connstr.go:208-223 | the loop reads the parts one after the other, a part that starts no known pair going back to the value before it |
| QueryString.LeftAlone | internal/irc/connstr/connstr.go:227-232 | a text is left alone exactly if it has no percent sign or a malformed escape |
| QueryString.HexDigits | internal/irc/connstr/connstr.go:227-232 | each hexadecimal digit, large or small, has its value, and the characters next to them none |
| QueryString.UnescapeEscaped | internal/irc/connstr/connstr.go:227-232 | any bytes, each escaped by its two digits, are read back |
| QueryString.EscapedPairRead | internal/irc/connstr/connstr.go:208-223 | an escaped value comes back under its key whatever is in it, and so does what follows a raw `&` |
| QueryString.ReadIsClean | internal/irc/connstr/connstr.go:208-223 | without percent signs, no value read has an inner part that looks like a known pair |
| QueryString.RoundTrip | internal/irc/connstr/connstr.go:194-223 | pairs with distinct known keys and no percent signs, written and read, come back exactly if no value has an inner part that looks like a known pair |

## Left out

- GatewaySession.Session.Resume: attach, replay and RESUMED are one step, with the write pump at rest. The code takes the lock three times, and a dispatch in between can put a newer event first; and the pump reads while the replay writes, which ReplayRace has for one replay but the runs do not: a replay that overruns the queue can leave a hole and still find room for RESUMED.
- GatewaySession.Session.Attach: requires an open queue, and TrySend an open one; a send on a closed channel, a panic in the program, is not modelled.
- GatewaySession.Session.DispatchRaw: serialising a payload is the parameter `encode`; the flush barrier and the list of watched member lists are not modelled.
- Snowflake.Generator.Next: ids are unbounded integers; overflow of 64 bits is out of reach of the dates concerned. The clock is a parameter.
- Snowflake.RepeatsExactly: ids of `Next` against time-anchored ones, and a restart that loses the counters, are not compared; the code promises nothing there.
- MintOrder.BackfillOrder: for messages none of which meets a used-up counter, below a ceiling after the epoch's first millisecond; where one that does lands is MintBelowIs.
- History.FlushChatBatch: the channel a target resolves to, rendering, reply lookup and the clock (one reading per flush) are parameters; the payload of a live message and mention counting are left out; the connection's own table of ids is MsgidRegistry. A frame without a time is stamped when it comes in, so no frame has a zero time.
- MessageRing.Store.ChannelMessages: returns ids; reading rows behind keys, DeleteMessage, reactions and embeds are left out. Keys are (channel, number) pairs, justified by MessageKeys.NumericOrder.
- Scroll.FetchOlderMessages: rows of another channel a batch has messages for are not promised, as the ceiling is the floor of the channel asked for. What the network answers in each round is a parameter, an empty batch standing for every way a fetch can give nothing; the selector it is asked with is left out. A malformed cursor and a channel that is none of the network's, for which the code returns 0 before the first round, are outside the method.
- Batches.Conn.OnMessage: messages have a source and a parameter; the relay behind a sink (dispatch, notices, HistServ filter, query routing) is left out. Echoes take the sends of their target in order (PendingSends); that the send an echo takes is the one it echoes is not claimed, as it fails when a send makes several messages or is dropped.
- PendingSends.EchoesInOrder: every own send has a row, as the program gives it one before it sends.
- Batches.Conn.ChatBatchControl: a page fetch is the target it waits for and when it began; its five-second timeout, which leaves it waiting, is left out.
- BatchNesting.NestedRun: BATCH lines of other types are ignored by the code and by the model.
- MsgidRegistry.RunRetains: for rows and anchors that pair one to one and aliases that are no anchors.
- NetworkStore.Store.RenameChannel: topics, positions and creation times of channels are not modelled.
- NetworkLife.Service.Join: parsing is a parameter; each call is one step; spawning, restarting and dropping upstream connections is left out. Host, port and TLS of a network are its connection id.
- AutoJoin.MergeChannels: case is that of ASCII letters, here and wherever names are compared.
- ReadMarkers.Service.AckGuild: the guild's channels and the newest message of each are parameters; failed writes are not modelled.
- Occupancy.Service.FlushOccupancy: the lists asked for, channel names and which payloads can be built are parameters; without a gateway both operations do nothing.
- QueryString.RoundTrip: for values without percent signs; LeftAlone says what escapes do.
- The gateway server's session maps: adding sessions and reaping stale ones is bookkeeping with easy invariants.
- The rest of connection-string parsing, mention rewriting, DM channels, categories, pins, notes, attachments, avatars, users and settings defaults: shape-only code or foreign parsers.
- The key-value engine, IRC and websocket libraries, HTTP, JSON, TLS, zlib and encryption: foreign code. Sorting integers and reading a varint, from the standard library, are functions here.
