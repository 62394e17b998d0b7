# AntennaGuardianPiLite: a verified model

AntennaGuardianPiLite keeps a Flex radio from transmitting on the wrong antenna. It connects to
the radio, creates an antenna interlock, and tells the radio `ready` or `not_ready` as the radio
reports push-to-talk requests and changes of frequency and antenna. This project models that
program in Dafny 4.11 and proves what it promises. `dafny verify dfyconfig.toml` checks it all.

## What is modelled

| file | what it models |
|---|---|
| `Text.dfy` | C strings: searching, `strcasecmp`, `strtoul`, `%u`, the two `key=value` scanners |
| `Fields.dfy` | the writer's side of `key=value` payloads |
| `Policy.dfy` | the band table, band masks, the allow/block decision |
| `Config.dfy` | validation of a parsed configuration document and its compilation into masks |
| `Documents.dfy` | the writer's side of the configuration |
| `Framing.dfy` | the 8192-character receive buffer that turns chunks into lines |
| `Responses.dfy` | response lines and the eight-slot cache of responses |
| `StopSignal.dfy`, `Clock.dfy` | the stop flag that a signal handler sets, and the monotonic clock |
| `Session.dfy` | commands, status lines, and the session as a machine over observable events |
| `SessionSafety.dfy` | what holds of every accepted trace of that machine |
| `Statuses.dfy` | the radio's side of the status lines: what a line says as it is written, over whole runs |
| `Reassertion.dfy` | exactly when a line that calls for `not_ready` leads to such a frame |
| `Connection.dfy` | the session as the program runs it: an object updated in place |
| `AntennaList.dfy` | the antenna list of the create command |
| `Radio.dfy` | the client and a radio together, over FIFO channels both ways |
| `Guard.dfy` | the whole program from the configuration document to the radio |
| `Discovery.dfy` | VITA-49 announcements (ANSI/VITA 49.0, sections 6.1 and 6.2) and the wait for one |
| `Retry.dfy` | backoff and log throttling of the fixed-host mode |

## How the session proof is built

`Connection.Connection` has the fields of the program's connection struct and methods that call
each other as the C functions do: a status handler may send a command, which waits for its answer,
which reads lines, which calls the status handler again. While a command is outstanding the handler
must not send; it sets the pending flag, and the send routine drains it afterwards.

The object also carries a ghost trace of what has happened (frames written, lines heard, waits given
up, the stop flag found set, and so on). `Session` says which traces are possible (`Accepted`) and what state each leads to
(`Run`). Every method is proved to extend an accepted trace, to keep its fields equal to the
machine's state, and to keep the frame texts it wrote equal to those of the trace.
`Connection.RunSession` concludes this for whole sessions: every policy, every input, every timing.

The theorems are then about all accepted traces. The central one is
`SessionSafety.DeferralRefinesImmediateReaction`: what the client owes the radio, or else wrote last,
is always what a client that reacted to every line at once, and never deferred anything, would have
set last (`Wanted`). Fail-closed behaviour follows, because `Wanted` is `ready` only after a PTT
request in a context that has stayed allowed since.

`Radio` runs any accepted client against any radio that takes frames in order, answers those it has
taken at any later time and in any order, each at most once and under its own number, and reports
success only for a command it obeyed. It may reject commands, leave them unanswered, and interleave
any status lines. `Guard` ties both ends together.

Specification functions that the methods share (scanners, number parsing, status lines, granted IDs,
settings, packet headers, line endings, command texts) are pinned from the other side: by what a
writer wrote, by converses, and by tables of what the program's text says.

The stop signal, the passing of time and the success of `send` are nondeterministic. The socket's input is an
arbitrary finite sequence of wakeups, after which the connection counts as lost; the methods are
proved to terminate on every such input. `strtod` and the IPv4 syntax check are parameters.

## Where the documentation and the code differ

The README of the program says (lines 23-24) that unkey, forbidden context changes and out-of-policy
reports reassert `not_ready`. The model follows the code, which does so in part; `Reassertion` says
exactly when. A line that calls for `not_ready` leads to writing such a frame if and only if the
interlock ID had been recorded, the command that was outstanding did not fail, cleanup had not
begun, and the stop flag is not found set before the frame is due (`NotReadyIsReasserted`; when no
stop is requested at all, `NotReadyIsReassertedUnlessStopped`). This holds unless a later line calls
for another state first; then that state is the one that is written. The write itself may fail, as
any write may. `EarlyUnkeyIsForgotten` shows the failure at one line heard before the ID, and
`StopForgetsUnkey` in every armed session that is stopped while a command is outstanding. In a
session that ended with the removal of its interlock, every request is at least followed by that
removal, except those heard during cleanup (`RequestIsFollowedByRemoval`).

## Model

| member | source | states |
|---|---|---|
| Text.ScannersAgree | src/discovery.c:34-69 | where the strict scanner succeeds the lenient one gives the same value; it fails exactly when there is no value, an empty one, or one the lenient scanner cut |
| Text.NextToken | src/flex.c:410-431 | one scanner turn skips spaces and isolates the next space-separated token |
| Text.LenientField | src/flex.c:402-434 | returns the value of the first token whose text before its first `=` is the key, cut to the buffer |
| Text.StrictField | src/discovery.c:34-69 | the same lookup, but an empty or overlong value is a failure |
| Text.TokensOfJoined | src/discovery.c:43-67 | splitting on spaces undoes joining with single spaces |
| Text.StrtoulReadsDecimal | src/flex.c:227-236 | reading back a `%u` number gives the number and stops where its digits stop |
| Text.StrtoulReadsNumber | src/flex.c:227-236 | white space, a sign, for base 16 a `0x`, digits: the value of the digits, negated after a minus sign, overflow exactly if they do not fit 64 bits, and the end of the digits |
| Text.SixSpaces | src/flex.c:227-236 | the white space skipped is that of the C locale |
| Text.DigitsByPlace | src/flex.c:227-236 | digits count by their place, the first ones most |
| Text.DigitByAlphabet | src/flex.c:227-236 | a digit or letter is worth its place in the alphabets, anything else is no digit |
| Text.LowerByAlphabet | src/policy.c:39 | letter case by the alphabets: a capital becomes the letter at the same place, nothing else changes |
| Text.AlnumByAlphabet | src/config.c:97-127 | letters and digits are exactly those of the alphabets |
| Text.TokensSplit | src/flex.c:410-431 | a space separates: the tokens of two texts with a space between them are those of each |
| Policy.BandNameUnique | src/policy.c:11-23 | a band name refers to at most one row of the table, whatever its letter case |
| Policy.BandUnique | src/policy.c:11-23 | no frequency, edges included, lies in two bands |
| Policy.EdgesAreTheLiterals | src/policy.c:11-23 | names are those of the table, and every edge is the double nearest to the decimal literal there |
| Policy.BandIncludesItsEdges | src/policy.c:46-56 | a band holds exactly the finite frequencies that are neither below its lower nor above its upper edge |
| Policy.BandIndex | src/policy.c:35-44 | finds the row of a name, or proves there is none |
| Policy.BandForFrequency | src/policy.c:46-56 | finds the band that holds a frequency (never for NaN or an infinity), or proves there is none |
| Policy.OrAddsBand | src/config.c:335-341 | setting a band's flag adds that band to the mask, changes no other, and stays below 2^11 |
| Policy.FindAntenna | src/config.c:129-138 | finds the first entry that has the name in any letter case, or proves there is none |
| Policy.Evaluate | src/policy.c:58-89 | allows exactly if a frequency and an antenna are known, some band holds the frequency, and the antenna's entry has its bit; otherwise gives the reason that applies |
| Config.Config.constructor | src/config.c:355 | a fresh configuration is all zero: every field and every antenna entry |
| Config.RejectUnknownKeys | src/config.c:73-95 | accepts exactly the objects whose keys are all known and all different |
| Config.ItemIsFirst | src/config.c:165-167 | a lookup finds the value of the first member of that name, and nothing exactly if there is none |
| Config.IsValidAntennaId | src/config.c:97-111 | accepts exactly 1 to 31 letters, digits, `_` or `-` |
| Config.IsValidRadioSerial | src/config.c:113-127 | accepts exactly 1 to 63 letters, digits, `-`, `_` or `.` |
| Config.Config.ParseSelectors | src/config.c:165-208 | accepts exactly a lone host, or a serial number and/or an IPv4 address, and stores them |
| Config.Config.ParseTiming | src/config.c:210-253 | accepts exactly integer settings in range with initial delay at most the maximum, none of them together with discovery; stores them or their defaults |
| Config.Config.ParseRadio | src/config.c:140-254 | accepts exactly the well-formed radio sections, and loads what their members carry |
| Config.SelectorsAreLoaded | src/config.c:165-208 | host, serial number and address are the texts that the members of these names carry, or empty; exactly one way of selecting the radio is used |
| Config.TimingIsLoaded | src/config.c:210-253 | port, delays and log interval are the numbers that the members of these names carry, or the defaults; all in range, and set only beside a host |
| Config.Config.ParseAntennas | src/config.c:256-295 | accepts exactly lists of one to eight valid IDs that differ up to letter case, and stores them in order |
| Config.Config.CheckRowNames | src/config.c:311-323 | accepts exactly if every row belongs to a listed antenna and no two rows to the same one |
| Config.Config.CompileRow | src/config.c:328-342 | accepts exactly rows that name known bands, none twice; the mask then holds exactly those bands, below 2^11, as many bits as names; other entries are untouched |
| Config.Config.CompileRows | src/config.c:325-344 | compiles the row of every antenna in place, or rejects |
| Config.Config.ParsePolicy | src/config.c:297-346 | accepts exactly the policies whose rows and antennas are in bijection and well formed |
| Config.ConfigurationMeansWhatItSays | src/config.c:297-346 | for every frequency and antenna, the evaluator on the compiled masks answers what the document says |
| Config.Config.Load | src/config.c:348-374 | accepts exactly the well-formed documents; afterwards evaluation agrees with the document everywhere, every radio field carries what the member of its name carries or the default, IDs are well formed and different, and the delays are in range and ordered |
| Documents.DirectSectionIsOk | src/config.c:140-254 | every host of 1 to 255 characters and every setting within the documented ranges makes an acceptable section |
| Documents.DiscoverySectionIsOk | src/config.c:165-208 | so does every well-formed serial number with every IPv4 address |
| Documents.WrittenDocumentIsAccepted | src/config.c:256-346 | for every acceptable section, any one to eight different antenna names and any bands for each, the document that says so is accepted |
| Documents.WrittenDocumentAllows | src/config.c:297-346 | it allows an antenna, in any letter case, exactly the frequencies in the bands written for it |
| Framing.LinesOfSplit | src/flex.c:149-171 | text after a line boundary is split on its own |
| Framing.LinesOfWritten | src/flex.c:155-165 | lines written with a newline, or with a carriage return and a newline, are given back without their ending |
| Framing.SplitIsUnique | src/flex.c:149-171 | a text has only one split into complete lines and a rest without a newline |
| Framing.FragmentationIsInvisible | src/flex.c:149-218 | two readers of the same bytes, however they were cut and whatever else woke the readers up, deliver the same lines and come to the same end, with the same rest unless a line did not fit |
| Framing.TooLongMeansUnterminated | src/flex.c:182-186 | a text fails to fit exactly if some 8192 characters from the start of a line hold no newline |
| Framing.FittingLinesAreAllLines | src/flex.c:149-171 | what is delivered is a prefix of the newline-separated lines, and all of them if every line fits |
| Framing.ReadAll | src/flex.c:665-683 | for every input, reading until the connection is lost delivers exactly the lines of the bytes that arrived, up to the first that does not fit 8192 bytes, reports a full buffer exactly if there is one, and else is left with the text after the last newline |
| Framing.DeliveredIsPrefixOfStream | src/flex.c:149-218 | whatever the chunks, the lines delivered are the first lines of the stream |
| Framing.LineReader.Compact | src/flex.c:167-169 | the memmove drops exactly the used part of the buffer |
| Framing.LineReader.ExtractLine | src/flex.c:149-171 | takes the first line of the buffer, without newline and one CR; keeps received = consumed + buffered |
| Framing.LineReader.Recv | src/flex.c:200-213 | what does not fit stays on the socket; no byte is lost or reordered |
| Framing.LineReader.ReceiveLine | src/flex.c:200-216 | receives once, as much as fits, and finds a line exactly if there is one now |
| Framing.LineReader.ReadLine | src/flex.c:173-218 | the held text, or else the first wakeup that brings something, decides: which bytes are taken, a line exactly if there is a newline, a lost connection exactly at an error or end of stream, a full buffer exactly if it is unterminated |
| Responses.ParseAnswer | src/flex.c:220-244 | the answer a radio writes for a sequence number, with any code in hexadecimal digits, is read as that answer |
| Responses.ResponseShape | src/flex.c:220-244 | whatever is read as a response is `R` and three fields between bars, its body being the text after the second bar |
| Responses.SaveAddsToBag | src/flex.c:246-264 | saving adds one response to the bag of saved ones unless all slots are used |
| Responses.TakeRemovesFromBag | src/flex.c:266-283 | taking removes one response with the wanted number, and succeeds whenever there is one |
| Responses.SaveResponse | src/flex.c:246-264 | fills the first free slot in place, body cut to 255 characters |
| Responses.TakeResponse | src/flex.c:266-283 | frees the first slot with the wanted number and returns its response |
| Session.TextIsItsWords | src/flex.c:571-597 | the text of a command is the words of the protocol with single spaces between them |
| Session.FrameParts | src/flex.c:317 | a frame is `C`, the number up to the first bar, the command, and a newline |
| Session.CommandsAreUnambiguous | src/flex.c:377-400 | two commands with the same text are the same command |
| Session.FramesAreUnambiguous | src/flex.c:317 | the text of a frame determines its number and its command |
| Session.FrameIsOneLine | src/flex.c:317 | a frame is exactly one line if and only if what its command carries is on one line |
| Session.InterlockFrameFits | src/flex.c:377-391 | interlock and remove frames always fit the frame buffer |
| Session.ResponseIsNoStatus | src/flex.c:548-563 | a response line that reaches the status handler has no effect |
| Session.GrantedIdIsRead | src/flex.c:603 | the ID in a response body is what stands before the first bar, whatever follows |
| Session.PrefixAccepted | src/flex.c:633-690 | every initial stretch of a possible session is a possible session |
| SessionSafety.ReadyIsWantedOnlyForAllowedPtt | src/flex.c:474-546 | `ready` is wanted only after a PTT request and only while the context stays allowed |
| SessionSafety.HearEffect | src/flex.c:340-359 | a line has the same effect on context and interlock whether or not a command is waiting |
| SessionSafety.DeferralRefinesImmediateReaction | src/flex.c:385-398 | in every accepted trace, the state owed, or else the last one written, is the one an immediate client would have set |
| SessionSafety.FrameCarriesLatestRequest | src/flex.c:385-393 | every interlock frame carries the state wanted at that moment and the recorded ID |
| SessionSafety.ReadyFrameIsAllowedPtt | src/flex.c:458-516 | every `ready` frame is written in an allowed context, and the last request was a PTT request |
| SessionSafety.IdleClientHasToldTheRadio | src/flex.c:665-683 | when the client waits for a line, the last state written is the one wanted; it is `not_ready` in a forbidden context |
| SessionSafety.ForbiddenContextIsAnswered | src/flex.c:458-501 | in a forbidden context `not_ready` is owed or was written last |
| SessionSafety.NoMoreFramesThanRequests | src/flex.c:385-398 | interlock frames never outnumber the requests for them |
| SessionSafety.BurstCollapsesToOneFrame | src/flex.c:464-467 | after any burst of requests, at most one interlock frame is written before the next line is read |
| SessionSafety.BurstFrameCarriesLastRequest | src/flex.c:385-398 | that frame carries the last request of the burst |
| SessionSafety.EverySessionIsGrammatical | src/flex.c:565-631 | the commands attempted are a prefix of name, three subs and a create that lists the configured antennas; with an ID, then `not_ready` first, any interlock states, and at most one remove at the end; an observer sends only the first four |
| SessionSafety.EveryResponseIsAccountedFor | src/flex.c:246-283 | each response read while waiting is in the cache, was dropped by a full cache, or settled one command with its number |
| SessionSafety.EachCommandHasItsOwnResponse | src/flex.c:328-359 | settlements use distinct responses that were read, each with the number of its command; and as long as the session has not failed, every command but the one that waits has succeeded: its frame is on the wire and was answered under its own number with code 0 |
| SessionSafety.EverySessionIsCorrelated | src/flex.c:302-362 | in failed sessions too, no command is settled twice, the waiting command is the last frame on the wire, and a confirmed removal is the last command |
| SessionSafety.HistoryGrows | src/flex.c:302-362 | what was heard, written and settled is never taken back; a stop once seen stays seen |
| SessionSafety.UsableGrantIsArmed | src/flex.c:601-611 | an interlock that the radio granted under a usable ID is armed under that ID before cleanup begins, on every path |
| SessionSafety.AnswerArmsItsId | src/flex.c:601-609 | a create command answered with an ID and any tail after a bar is armed under exactly that ID |
| SessionSafety.RecordedIdHasNoBar | src/flex.c:603 | no recorded ID ever contains a bar |
| SessionSafety.FailureHasACause | src/flex.c:302-362 | a session fails exactly by a frame not written, an answer not waited for, or an answer with another code than 0 |
| SessionSafety.FramesAreCounted | src/flex.c:310 | frames are numbered one by one from 1 on 32 bits, and each bears its number on the wire |
| SessionSafety.EveryFrameIsOneLine | src/flex.c:317 | when no line heard and no antenna contains a newline, every frame of a session is exactly one line |
| SessionSafety.InvalidAntennaForgetsTheContext | src/flex.c:474-501 | after an INVALID antenna nothing is allowed until later lines supply a parseable frequency and a usable antenna |
| Statuses.TransmitIsRead | src/flex.c:474-494 | a transmit status is taken as it was written: the frequency is what `strtod` makes of the written value, the antenna the written value, cleared for INVALID or if too long, and what is not written stays |
| Statuses.TransmitAsks | src/flex.c:495-499 | it calls for `not_ready` exactly if the resulting context is forbidden |
| Statuses.InterlockIsRead | src/flex.c:503-546 | an interlock status calls, by the state that was written, for the verdict, for `not_ready`, or for nothing, and never changes the context |
| Statuses.OtherLinesAreIgnored | src/flex.c:548-563 | any other line changes nothing |
| Statuses.ContextIsLastReported | src/flex.c:474-494 | over whole runs, frequency and antenna are those of the last lines that carried them |
| Statuses.NothingIsKnownAtFirst | src/flex.c:639-647 | nothing is allowed before both a frequency and an antenna have been reported |
| Statuses.InterlockStatusSetsWanted | src/flex.c:503-546 | once the interlock exists, a PTT request makes the verdict on the context the state wanted, an unkey request or a forbidden transmission `not_ready`, and any other state leaves it |
| Statuses.TransmitStatusSetsWanted | src/flex.c:495-499 | a transmit status makes it `not_ready` exactly if its context is forbidden, and else leaves it |
| Statuses.PttIsAnswered | src/flex.c:503-516 | after an allowed PTT request that nothing replaced, the idle client has written `ready` and the radio's interlock is ready; after a forbidden one neither |
| Reassertion.NotReadyIsWrittenUnlessPending | src/flex.c:385-398 | unless a later request replaces it, a call for `not_ready` has been answered with a frame if and only if an ID was recorded and no update is pending |
| Reassertion.NotReadyIsReasserted | src/flex.c:385-398 | the same by what happens: if and only if an ID was recorded, the outstanding command did not fail, cleanup had not begun, and the stop flag is not found set before the frame is due |
| Reassertion.NotReadyIsReassertedUnlessStopped | src/flex.c:385-398 | in a whole session without a stop request: if and only if an ID was recorded, the outstanding command did not fail, and cleanup had not begun |
| Reassertion.PendingIsWrittenNext | src/flex.c:385-398 | once no command is outstanding, the pending state is the very next frame unless the stop flag is found set first |
| Reassertion.NoStateWhenOver | src/flex.c:385-398 | after a failed command, during cleanup, and once the stop flag was found set, no interlock state is written any more |
| Reassertion.EarlyUnkeyIsForgotten | src/flex.c:461-463 | an unkey request heard before the ID calls for `not_ready`, and its session may end without any interlock frame |
| Reassertion.StopForgetsUnkey | src/flex.c:385 | in every armed session, an unkey request heard during a command is still pending at cleanup if the stop flag is found set before that command is over |
| Reassertion.ArmedSessionExists | src/flex.c:565-615 | for every policy whose create frame fits there is such an armed session |
| Reassertion.RequestIsFollowedByRemoval | src/flex.c:617-631 | in a session that ended with its removal, a request is followed by the removal if and only if cleanup had not begun when it was heard |
| Connection.TruncationIsHarmless | src/flex.c:474-503 | cutting `tx_antenna` to 127 and `state` to 63 characters never changes what a handler does |
| Connection.Connection.constructor | src/flex.c:639-647 | a new connection is zeroed, with an empty trace |
| Connection.Connection.HandleStatus | src/flex.c:548-563 | applies exactly the status effect; during a command it neither fails nor sends, between commands nothing stays deferred unless stopping |
| Connection.Connection.HandleTransmit | src/flex.c:474-501 | the same, for a transmit status |
| Connection.Connection.UpdateContext | src/flex.c:478-494 | the context fields become what the line says |
| Connection.Connection.HandleInterlock | src/flex.c:503-546 | the same, for an interlock status |
| Connection.Connection.InterlockRequest | src/flex.c:507-545 | asks for exactly the state that the line calls for; in observe mode only for a PTT request |
| Connection.Connection.SetInterlock | src/flex.c:458-472 | defers during a command, else sends that very state; does nothing without an ID |
| Connection.Connection.AcceptResponse | src/flex.c:285-300 | succeeds exactly on code 0, with the body cut to its buffer |
| Connection.Connection.CheckStop | src/flex.c:313-315 | the answer is the stop flag, and finding it set is noted in the trace |
| Connection.Connection.Issue | src/flex.c:309-326 | uses up the next 32-bit number, and writes the frame with it exactly if it is the cleanup frame, or the program is not stopping and the frame fits |
| Connection.Connection.TakeCached | src/flex.c:335-337 | ends the wait with the first cached answer exactly if there is one, and frees its slot |
| Connection.Connection.TakeRead | src/flex.c:342-358 | reads one line and deals with it, or ends the wait because the reader has none to give |
| Connection.Connection.TakeTurn | src/flex.c:328-360 | one turn of the wait ends it, with `ok` exactly if this command was settled with code 0, or uses up input; without an answer it ends only when 4000 ms have passed or the reader has no line to give; cleanup included |
| Connection.Connection.TakeResponseLine | src/flex.c:350-356 | ends the wait exactly if the response bears the number of the command, and succeeds exactly on code 0; any other response goes to the first free slot |
| Connection.Connection.AwaitAnswer | src/flex.c:328-361 | waits until the command is settled, 4000 ms have passed, no line comes, or, outside cleanup, a stop is seen |
| Connection.Connection.SendCommandOnce | src/flex.c:302-362 | returns with no command waiting; succeeds, cleanup included, exactly if the frame with the next number was settled with code 0; fails without an answer only for a stop, an oversized frame, a failed write, a passed deadline, or a missing line |
| Connection.Connection.SendCommand | src/flex.c:364-400 | refuses nested calls; otherwise returns with the in-progress flag down; success, cleanup included, means that this command was settled with code 0, and then nothing is deferred unless stopping |
| Connection.Connection.SendPending | src/flex.c:386-397 | writes the state that is owed, whatever it was set to meanwhile |
| Connection.Connection.Drain | src/flex.c:385-399 | writes deferred updates until none is left; terminates on every finite input |
| Connection.Connection.JoinAntennas | src/flex.c:584-592 | builds the comma-joined list, or fails exactly if it does not fit |
| Connection.Connection.Arm | src/flex.c:584-614 | on success the ID is recorded and the next frame written was `not_ready`; without a failed command, it fails exactly if the list does not fit or the granted ID is unusable |
| Connection.Connection.InitializeSession | src/flex.c:565-615 | on success the observer is subscribed, or the protector is armed and has written `not_ready`, even if a stop was requested meanwhile; a failure is a failed command, a list that does not fit, or an unusable ID |
| Connection.Connection.MainLoop | src/flex.c:665-683 | ends with an error exactly if a command failed, stopped only on request, and disconnected only after every line that arrived and fits has been dealt with |
| Connection.Connection.RemoveInterlock | src/flex.c:617-631 | attempts the removal exactly if an ID was recorded, is never refused, and reports it as confirmed exactly if its frame was answered with code 0 |
| Connection.Connection.Serve | src/flex.c:655-685 | what each result means when cleanup begins: a stop was seen; the connection was lost after everything was dealt with; or a command failed, the list does not fit, or the ID is unusable. An update is then still pending only after a failed command or a stop |
| Connection.RunSession | src/flex.c:633-690 | every session is an accepted trace, never reaches the nested-command refusal, ends with the removal as last frame if an ID was recorded, and so whenever a usable one was granted, has written the frames of the trace, each one line, has heard an initial stretch of the lines of its input, and all that fit if it reports a lost connection, reports the removal as confirmed exactly if the radio did, and has seen a stop only if one was requested |
| AntennaList.SplitUndoesJoin | src/flex.c:584-592 | splitting the list at commas gives the IDs back in order |
| AntennaList.JoinedLength | src/flex.c:567 | eight IDs of 31 characters need exactly 255 characters, and no accepted list needs more |
| Radio.ClientTraceIsAccepted | src/flex.c:633-690 | whatever the radio does, the client's part of a run is an accepted trace |
| Radio.EveryReachableStateIsSound | src/flex.c:302-400 | stop-and-wait in every reachable state: before any failure at most one frame is under way, held by the radio, or answered, it is the awaited one, and otherwise the radio's interlock is the last state written |
| Radio.CacheNeverOverflows | src/flex.c:246-283 | the cache is empty until cleanup, after failures too, never holds more than one response, and never drops one |
| Radio.IdleRadioIsInPolicy | src/flex.c:364-400 | when the client waits for a line, the radio is in the state wanted, and ready only in an allowed context |
| Radio.NothingReadyBeforeTheFirstState | src/flex.c:565-615 | before the first interlock state is written the radio is not ready, and no frame on its way makes it so |
| Radio.ForbiddenContextIsCovered | src/flex.c:458-546 | until cleanup, after failures too, in a forbidden context `not_ready` is still owed and nothing else is read first, or it was written last and no `ready` is in flight, or no state has been written and the radio is not ready |
| Radio.AnswerIsNeverCached | src/flex.c:335-337 | with such a radio, late answers included, no command is ever answered from the cache |
| Radio.EveryReachableStateIsOrderly | src/flex.c:617-631 | numbers in flight never collide with the number of the removal |
| Radio.ConfirmedRemovalDisarms | src/flex.c:617-631 | once the removal is confirmed, as the program itself reports it, the radio's interlock is not ready and no frame is in flight |
| Guard.AcceptedAntennaListFits | src/flex.c:565-599 | for every accepted configuration the list and the create frame fit their buffers and the IDs can be recovered |
| Guard.ReadyOnlyWhenTheDocumentAllows | src/policy.c:58-89 | a `ready` frame is written only while the configuration document allows the reported frequency and antenna |
| Guard.ReadyRadioIsAllowedByTheDocument | src/flex.c:385-398 | when the client waits for a line and the radio is ready, the document allows what the radio reported |
| Guard.ConfirmedSessionDisarms | src/flex.c:617-631 | whatever radio a session ran against, if its removal was confirmed that radio's interlock is off |
| Guard.LoadAndRun | src/main.c:137-208 | the program from the parsed document on: malformed documents start no session; with any other, both promises above hold of the session, it writes single lines only, its create command names the document's antennas, a granted interlock is removed, and a confirmed removal means that it is off |
| Discovery.ParsePacket | src/discovery.c:71-141 | accepts exactly the announcements and returns the radio they describe; every read is inside the datagram, and the size limit never rejects one |
| Discovery.ParsePayload | src/discovery.c:123-140 | requires serial, address and port; model and name are optional, nickname before name |
| Discovery.ParsingIsLocal | src/discovery.c:86-121 | octets beyond the declared size never matter |
| Discovery.HeaderFields | src/discovery.c:87-112 | type, class bit, timestamp codes and size are read from the header as written |
| Discovery.PayloadRoundTrip | src/discovery.c:86-121 | for every timestamp combination and padding the payload is found again |
| Discovery.SurplusIsIgnored | src/discovery.c:86-121 | the same when more octets arrive than the packet declares |
| Discovery.AcceptedIsAnAnnouncement | src/discovery.c:86-121 | the converse: every accepted packet is the header, stream, class, timestamps, payload and padding of an announcement, and octets it does not declare |
| Discovery.WrittenPayloadDescribes | src/discovery.c:123-140 | what any written payload says: serial number, address and port are required, model and name optional, nickname before name |
| Discovery.PortRoundTrip | src/discovery.c:129-134 | a written number is a port exactly if it is between 1 and 65535 |
| Fields.LookupWritten | src/discovery.c:34-69 | looking a key up in a written payload gives the first value written for it |
| Discovery.AnnouncementRoundTrip | src/discovery.c:71-141 | parsing the announcement of any radio whose fields fit gives the same radio |
| Discovery.SelectorsArePinned | src/discovery.c:143-149 | an announcement is chosen exactly if every configured selector agrees with it |
| Discovery.Wait | src/discovery.c:182-209 | returns the first announcement that matches all configured selectors, having skipped only others; stops only if the stop flag is set or nothing arrives any more, and at once if it was set before |
| Retry.NextDelay | src/retry.c:3-10 | never exceeds the maximum and never shrinks a delay within it; no 32-bit overflow |
| Retry.BackoffIsExponential | src/retry.c:3-10 | after k failures the delay is min(first * 2^k, maximum) |
| Retry.WarningsAreSpaced | src/main.c:213-226 | under a monotone clock, warnings of one streak are at least the log interval apart |
| Retry.SilenceHasAReason | src/main.c:213-226 | an attempt that finds the radio unavailable and does not warn follows a warning of the same streak whose interval was not over |
| Retry.StreakIsTheRun | src/main.c:213-231 | a streak is the longest run of unavailable results before an attempt |
| Retry.Supervise | src/main.c:206-235 | warns exactly at the start of a streak and when the deadline has passed; sleeps for min(first * 2^k, maximum) after the k-th further failure of a streak, and for the first delay after any other outcome |

## Left out

- Session.FrameText: a frame whose write failed part-way counts as attempted and never reaches the modelled radio; what a radio makes of half a frame is not modelled.
- Policy.Double: the sign of zero, denormals and rounding inside `strtod` are not modelled; the band edges are the exact values of the program's literals.
- Text.Strtoul: `unsigned long` has 64 bits, as in the 64-bit releases; the 32-bit ARM release reports overflow earlier.
- Config.Json: reading the file, JSON lexing, and strings with embedded NULs; a number too large for a double is any number out of range.
- Discovery.Wait: creating and binding the socket; arrivals are a finite sequence, and when they run out the wait ends like a stop.
- Retry.Supervise: the `--once` option, the interruptible sleep itself, and the discovery-mode loop around sessions.
- Framing.Wakeup: time-outs of `poll` are part of the input and not tied to the clock. POLLIN together with POLLHUP is the failure case, as in the code, and its data is not looked at.
- Connecting, name lookup, socket options and send timeouts: a session starts connected or not connected.
- Log messages, including the decision log, error texts of the configuration loader, and the printed configuration summary.
- Command-line options, signals, packaging, the installer and the service unit.
