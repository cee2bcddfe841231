# Verified model of reckon-go

reckon-go is a Go client, and a command line tool, for the ReckonDB event store. Most of it hands
fields to gRPC. This project models the parts that decide something and proves what callers rely on:

- `Bridge.dfy`, `Pump.dfy`, `Errors.dfy`: the goroutine that turns a `Recv` loop into an event channel
  and an error channel, and the pump that turns the channels into NDJSON frames. Producer, consumer,
  canceller and server move in atomic steps with explicit channel state; a run is any sequence of
  enabled steps, so statements about runs are statements about every interleaving.
- `Consume.dfy`: consume sessions on top of that machine, with the three ack modes, the concurrent
  stdin reader and the checkpoint that survives from session to session.
- `Filters.dfy`, `DcbLog.dfy`, `DecisionLoop.dfy`: the tag-filter algebra and its wire form, an
  append-only log with any number of interleaved clients, the documented decision loop, and the two
  documented shortcuts that skip the re-read.
- `Base64.dfy`, `Events.dfy`, `Text.dfy`: events out as JSON and in again, NDJSON input, `splitCSV`.
- `Args.dfy`: flags mixed with positionals, and the repeated key=value flag.
- `WireTime.dfy`, `Snapshots.dfy`: times on the wire and time windows; `Latest` as a shortcut for replay.

`dafny verify dfyconfig.toml` checks everything.

## What is assumed of the other side

- Stream server: delivers its messages in order and then ends with EOF or an error; the open call and
  `Recv` may also fail, with any error, once the context is done.
- Subscription server: an RPC delivers in order the events that follow the checkpoint stored when it is
  opened, which the stdin reader may already have moved; an Ack that takes effect moves the checkpoint past
  the event it names and never back; a delivery's checkpoint is its own event number. An Ack may also fail.
- DCB server: append-only log, strictly increasing seqs; a read returns the lowest matching events in
  ascending order, possibly fewer than match; a conditional append is checked and applied in one step. A
  failed append may have been applied all the same, its reply lost.
- Temporal server: compares event milliseconds with the milliseconds it was sent.
- encoding/json: a value survives printing and parsing, and an array's text runs from `[` to `]`. Strings
  are valid Unicode, as JSON text is. Results about input typed without base64 also assume that a text and its
  UTF-8 bytes, and a raw value and its bytes, say the same.

## Where the code differs from what is written about it

The model follows the code.

- plans/DESIGN_RECKON_CLI.md (line 341) says auto mode acks after emitting a delivery. The code acks inside
  `frame`, before the line is written; `Consume.AutoSession` and `Consume.AutoCanLoseOne` give the exact loss.
- The same line promises "at-most-once for the consumer". The code ignores the result of an Ack, so the promise
  holds when every Ack takes effect (`Consume.AtMostOnceIfAcked`); an event already written can be written again
  exactly when no Ack at or above it took effect in its session (`Consume.WrittenAgainIff`).
- All three bridges promise the error "after" the event channel closes: "at most one error after events closes"
  (streams/streams.go:230), the same with deliveries (subscriptions/subscriptions.go:252), "exactly one error (or
  nil) after events closes, suitable for a single read after the events range" (stores/stores.go:160-161). The
  code keeps the reading of the last words: a caller that drains the events first finds the error, or the close,
  waiting (`Bridge.ErrsNeverBlocks`). It does not keep the reading that nothing arrives earlier: an error can be
  received before the close exactly from the put until the producer's last deferred close
  (`Bridge.ErrorBeforeCloseIff`, `Bridge.ErrorIsThereBeforeEventsClose`).
- temporal.Until promises the events at or before the cutoff. A cutoff whose millisecond count does not fit 64
  bits wraps; the promise then holds only by one coincidence (`WireTime.UntilExactIff`, `WireTime.UntilWitness`).
- dcb.Conflict suggests its MaxSeq as the cutoff of a retry. Without reading again the retry can commit,
  but never on the context its cutoff stands for (`DecisionLoop.BlindRetryIsNeverExact`; accepted in
  `DecisionLoop.BlindRetryWitness`).
- dcb.Committed suggests LastSeq as the next cutoff for an overlapping tag set. That is sound for every
  history exactly when the second filter implies the first (`DecisionLoop.FollowUpSoundIffImplies`); any
  of "a" followed by any of "a", "b" is not (`DecisionLoop.FollowUpWitness`).
- The loop in the dcb package documentation drops the error of `Read`. The zero result has MaxSeq 0, not
  -1, so the append after a failed read can miss a match of seq 0 (`DecisionLoop.FailedReadCutoff`,
  `DecisionLoop.FailedReadWitness`).
- temporal.Range promises [from, to]. It also selects the millisecond `from` falls into; the promise holds
  exactly when `from` is a whole millisecond or the interval sent is empty (`WireTime.RangeExactIffAligned`,
  `WireTime.RangeWitness`).

Consequences of the code that nothing written about it mentions:

- In stdin ack mode a JSON object without an `ack` key acks event 0 (`Consume.BareObjectAcksEventZero`), and a
  line read before the RPC is opened moves the start of the stream (`Consume.AckBeforeOpenSkips`).
- Flags are parsed again one token after `--`, so it makes positionals of everything behind it exactly when no
  token after the first looks like a flag (`Args.TerminatorHoldsIff`); `-- a -x` fails
  (`Args.TerminatorWitness`).

## Model

| member | source | states |
|---|---|---|
| Bridge.BridgeSafety | streams/streams.go:233-270 | in every interleaving: no send on or close of a closed channel, errs closed before events, at most one error put and that before either channel closes, delivered is a prefix of the server's messages, at most one received message missing and only after the select chose ctx.Done |
| Bridge.ErrorIsThereBeforeEventsClose | streams/streams.go:233-243 | when the open call fails its error sits in errs two steps later, both channels still open |
| Bridge.ErrorBeforeCloseIff | streams/streams.go:233-270 | in every reachable state an error can be received before the event channel closes iff one was put and the producer is between the put and its last deferred close |
| Bridge.CompletedPumpOutput | cmd/reckon/stream.go:16-38 | frame grammar of every completed pump: ready, a prefix of the messages in order, one terminal; eof iff no error was taken, and then the server said EOF and every message has its frame; client_eof iff the error is a cancellation or ctx was done at the switch; an error frame carries a server error met with ctx still live; nil returned exactly with an end frame |
| Bridge.TerminalByKind | cmd/reckon/output.go:29-64 | every completed pump by the literal kind of the error it took: eof for none, client_eof for context.Canceled, status 1 or a done ctx, otherwise an error frame and cliError with the name and exit code of the design's table and the error's own message |
| Bridge.UncancelledTerminalByKind | cmd/reckon/output.go:58-64 | without a cancellation the script decides: nil exactly when it ends in EOF, context.Canceled or status 1, else its own error is reported |
| Bridge.UncancelledPumpIsDeterministic | stores/stores.go:165-209 | without a cancellation every schedule gives the same output: all messages and the script's own ending |
| Bridge.EveryRunIsShort | subscriptions/subscriptions.go:260-303 | termination: no interleaving of bridge and pump takes more than 4n + 10 steps |
| Bridge.StuckExactlyWhen | streams/streams.go:260-265 | deadlock freedom as an exact condition: nothing can move only when both sides are finished, or the caller left and the producer is finished or parked in its select with a live ctx |
| Bridge.PumpCompletes | cmd/reckon/stream.go:21-38 | from any reachable state a pump runs to completion with no further cancellation and the producer has finished too |
| Bridge.DonePumpStops | streams/streams.go:233-270 | once ctx is done, from every reachable state both goroutines can finish with the server doing nothing more and nothing more delivered |
| Bridge.CancelStopsPump | cmd/reckon/stream.go:16-38 | every live pump can be cancelled, or time out, and then stop so |
| Bridge.EnabledIff | streams/streams.go:233-270 | exactly when each step can be taken: the select is free to choose when both cases are ready, a done ctx may fail the open call and Recv but need not, no put or close blocks |
| Bridge.ErrsNeverBlocks | streams/streams.go:235-264 | the one-slot buffer suffices: putting the error and the single receive after the range never block |
| Bridge.RunKeepsInv | streams/streams.go:233-270 | the inductive invariant behind the other statements holds along every run |
| Bridge.ReachableInv | streams/streams.go:233-270 | and so in every state reachable from the initial one |
| Pump.RunPump | cmd/reckon/stream.go:16-38 | the loop writes ready, each value, and the terminal the error and ctx call for; returns a cliError only for an error other than context.Canceled and status 1, with a live ctx, and then by the design's table with the error's own message |
| Pump.MachineRefinesPump | cmd/reckon/stream.go:21-37 | every completed interleaving writes what the sequential pump writes for the values delivered, the one error put, and ctx as it stood at the switch |
| Errors.MappedByTheTable | cmd/reckon/output.go:29-55 | RPC errors map to code name and exit code as the design's table says, anything else to internal and 1, always with the error's own message and status; exit code and code name determine each other |
| Consume.AutoSession | cmd/reckon/cmd_subs.go:228-233 | one auto session cut anywhere: Acks in delivery order without gaps, at most one ahead of the frames; an event moved over is unwritten iff it is that one and its Ack took effect |
| Consume.LosesAtMostOnePerCut | cmd/reckon/cmd_subs.go:217-255 | over any sequence of cut sessions in any modes, events covered by the checkpoint and never written number at most one per auto session cut between Ack and line, as long as the ack lines of stdin sessions keep the guard |
| Consume.AutoCanLoseOne | cmd/reckon/cmd_subs.go:228-233 | the bound is reached by a one-event session |
| Consume.WrittenAgainIff | cmd/reckon/cmd_subs.go:228-233 | in every mode: later sessions, in whatever modes, can write an event again iff no Ack at or above it took effect in the session that wrote it |
| Consume.AtMostOnceIfAcked | cmd/reckon/cmd_subs.go:217-255 | over any sequence of cut sessions in any modes no event is written twice, in one session or in two, when every Ack of the auto sessions takes effect and the others had all they wrote acked |
| Consume.AutoSettles | cmd/reckon/cmd_subs.go:228-233 | an auto session whose Acks all take effect leaves no written event unacked |
| Consume.NoAckLeavesCheckpoint | cmd/reckon/cmd_subs.go:204-233 | mode none makes no Ack call and leaves the checkpoint |
| Consume.WrittenIsBlock | subscriptions/subscriptions.go:246-248 | what a session wrote is an unbroken block from the checkpoint its RPC was opened at |
| Consume.AtLeastOnceIff | cmd/reckon/cmd_subs.go:221-255 | over any sequence of cut sessions in any modes, ack lines read before the RPC opens included, no event is lost beyond those already lost, in any state, iff every effective Ack that moves the checkpoint names an event already written |
| Consume.SessionExact | cmd/reckon/cmd_subs.go:221-254 | the same for every prefix of one session in any mode |
| Consume.StdinEndsOnce | cmd/reckon/cmd_subs.go:236-255 | stdin can end at any time of a session, once; that cancels the context and no line follows |
| Consume.StdinEofStops | cmd/reckon/cmd_subs.go:217-239 | after the end of stdin, from every state the session can be in, it can finish without the server and without another delivery |
| Consume.StdinEofEndsCleanly | cmd/reckon/cmd_subs.go:217-239 | a session still running when stdin ended finishes with an end frame and no error, whatever it meets |
| Consume.ReachableSub | cmd/reckon/cmd_subs.go:217-255 | the invariant these results assume of a subscription holds after every sequence of sessions: nothing is skipped beyond the checkpoint |
| Consume.BareObjectAcksEventZero | cmd/reckon/cmd_subs.go:242-253 | a line without an ack key acks event 0 and can lose it |
| Consume.AckBeforeOpenSkips | cmd/reckon/cmd_subs.go:221-227 | an ack line that takes effect before the RPC opens makes the stream start behind the event it names |
| Filters.ToProto | dcb/dcb.go:95-119 | toProto as it runs builds the compiled message, or panics on a nil |
| Filters.SubsToFilterList | dcb/dcb.go:121-127 | the loop compiles every sub-filter in order, or panics with the first nil |
| Filters.CompilesIffNoNil | dcb/dcb.go:57-127 | compilation succeeds iff no filter is nil at any depth |
| Filters.CompilePreservesMeaning | dcb/dcb.go:74-127 | at every depth the server's reading of the message matches exactly the events the filter describes |
| Filters.DecodeInvertsCompile | dcb/dcb.go:95-127 | a wire decoder gives the filter back |
| Filters.CompileInvertsDecode | dcb/dcb.go:95-127 | and every wire filter is the compilation of one |
| Filters.MoreTagsKeepMatching | dcb/dcb.go:74-93 | adding tags to an event never turns a match into a non-match |
| DcbLog.CommitIffContextExact | dcb/dcb.go:194-206 | in every reachable state of any number of clients an append under a read context commits iff that context is exactly the matching events at that moment |
| DcbLog.ReachableInv | dcb/dcb.go:194-206 | every state reachable from the empty log satisfies the invariant the other statements assume |
| DcbLog.ReadStep | dcb/dcb.go:240-265 | exactly which reads are possible in a reachable state, and that they change the reader's context only |
| DcbLog.AppendStep | dcb/dcb.go:194-206 | which appends under a context are possible, and that the batch is added iff the context is all that matches |
| DcbLog.OtherStep | dcb/dcb.go:184-206 | the same for any other filter and cutoff: added iff nothing above the cutoff matches |
| DcbLog.EveryRunIsSerializable | dcb/dcb.go:11-31 | every interleaving, capped reads included, leaves the log of the committed decisions run one after the other, each reading, deciding and appending atomically |
| DcbLog.CappedContextNeverCommits | dcb/dcb.go:240-246 | a context cut short by the batch size never commits |
| DcbLog.ConflictMeansForeignMatch | dcb/dcb.go:162-169 | a conflict after an uncapped read means a matching event was committed since, another client's unless the client itself appended a match since; the reported seq is such an event's and above the cutoff |
| DcbLog.FreshExactlyWhenComplete | genproto/gatewayv1/reckon_dcb_grpc.pb.go:52-66 | for any ascending prefix of the matches, the cutoff check passes iff the prefix is everything |
| DcbLog.ConflictAboveCutoff | dcb/dcb.go:162-169 | MaxSeq of a conflict is the newest match's seq, strictly above the cutoff |
| DcbLog.AtMostOneClaimCommits | dcb/dcb.go:48-51 | for every filter: in every run at most one append under it with cutoff -1 that writes a match commits, and none once a match is there |
| DecisionLoop.Decide | dcb/dcb.go:13-31 | the loop against interference: a commit wrote the decision on exactly the matching events (or the read of that very try failed and missed seq 0) and reports the seq of the last event it wrote; after an error the batch is in the log iff the server evaluated the append and accepted it; a panic or a spent budget wrote nothing; however the loop ends, every try that had read all that matched at its time lost to a foreign match that came in after its read, so the matches grew by as many, and the first such read that nobody writes after ended it; a nil filter is an error, one nested inside a panic |
| DecisionLoop.Try | dcb/dcb.go:15-30 | one iteration: what it saw, when it commits and when it conflicts (both directions), the seq it reports, what a failed call left in the log, the nil cases |
| DecisionLoop.Append | dcb/dcb.go:205-238 | one call: committed with the last seq or a conflict as the server finds the cutoff, an error if the call fails, and the log changed only by an accepted request that reached the server |
| DecisionLoop.Read | dcb/dcb.go:247-265 | one call: a prefix of the matches with its highest seq, all of them if the cap allows; the zero result if it fails |
| DecisionLoop.FailedReadCutoff | dcb/dcb.go:261-263 | exactly when the append after a failed read is accepted |
| DecisionLoop.FailedReadWitness | dcb/dcb.go:261-263 | a log whose one match has seq 0: the append decided on nothing is accepted |
| DecisionLoop.FollowUpSoundIffImplies | dcb/dcb.go:154-160 | LastSeq as the next cutoff is exact in every history iff the new filter implies the old |
| DecisionLoop.DecideThenFollowUp | dcb/dcb.go:154-160 | the loop, then an append under the LastSeq it returned: accepted iff nothing since the commit matches the new filter; if that filter implies the old one, context and own batch then hold all its matches |
| DecisionLoop.FollowUpWitness | dcb/dcb.go:154-160 | two overlapping filters for which it is not exact |
| DecisionLoop.BlindRetryIsNeverExact | dcb/dcb.go:162-169 | a retry under Conflict.MaxSeq without reading commits iff nothing more matched, and its context is never exact |
| DecisionLoop.BlindRetryWitness | dcb/dcb.go:162-169 | an accepted retry on an empty context while an event matches |
| DecisionLoop.Server.AppendIfNoTagMatches | genproto/gatewayv1/reckon_dcb_grpc.pb.go:50-66 | is the conditional append of the log machine: the batch under fresh seqs, or the log unchanged and a conflict naming the highest matching seq |
| DecisionLoop.Server.ReadDcbContext | genproto/gatewayv1/reckon_dcb_grpc.pb.go:67-77 | a read is a prefix of the matches with its highest seq |
| Base64.DecodeInvertsEncode | cmd/reckon/encode/encode.go:100-101 | decoding inverts encoding for every byte string, the empty one included |
| Base64.DecodableIff | cmd/reckon/input.go:166-169 | exactly what is accepted: whole quanta of the alphabet with at most two padding characters at the very end, line breaks apart |
| Base64.DigitsAreTheAlphabet | cmd/reckon/encode/encode.go:100-101 | the digits are Table 1 of RFC 4648 |
| Base64.PackWritesTheNumber | cmd/reckon/encode/encode.go:100-101 | four digits write the number that up to three bytes are, most significant first |
| Base64.UnpackReadsTheNumber | cmd/reckon/input.go:166-169 | and are read as that number, stray low bits dropped |
| Base64.BreakIsNothing | cmd/reckon/input.go:166-169 | a line break anywhere changes nothing |
| Events.EncodeEvent | cmd/reckon/encode/encode.go:50-66 | from the map that is filled in place every field of the event can be read back (stream, version, both times and hash included), and given to append as an input object at any index it proposes the event again |
| Events.EventReadsBack | cmd/reckon/encode/encode.go:50-66 | an independent reader of the printed object gives back every field of the recorded event, in both byte modes |
| Events.EventKeys | cmd/reckon/encode/encode.go:50-66 | the exact keys of the object, and when and with what value the decoded keys are there |
| Events.JsonObject.AddBytes | cmd/reckon/encode/encode.go:97-112 | the _b64 key decodes to the bytes, the plain key appears exactly in auto mode for non-empty JSON or text and holds it, every other key is unchanged |
| Events.EventsResult | cmd/reckon/cmd_streams.go:13-20 | the printed array of all events in order |
| Events.RoundTrip | cmd/reckon/input.go:90-178 | what eventsResult prints, readProposedEvents returns: every event in order with its type, bytes, tags and non-empty id and content types, in both byte modes |
| Events.ReadThenAppend | cmd/reckon/input.go:89-100 | the same for the methods as they run |
| Events.ByteFields | cmd/reckon/encode/encode.go:97-112 | the base64 keys carry the bytes whatever else the encoder added |
| Events.ScanProposedInputs | cmd/reckon/input.go:115-133 | the scanning loop returns what its lines specify, stopping at the first bad one |
| Events.NdjsonIsAllOrNothing | cmd/reckon/input.go:115-133 | success iff every line fits and is blank or an object; then one input for each non-blank line, in order |
| Events.BlankLineIsNothing | cmd/reckon/input.go:122-125 | a blank line anywhere, first and last included, never changes the outcome, errors included |
| Events.PaddedLineIsTheLine | cmd/reckon/input.go:122-131 | nor does white space around any one line, first and last included |
| Events.SameScanSameInputs | cmd/reckon/input.go:115-133 | two texts whose lines scan to the same objects and errors have the same outcome |
| Events.LayoutIsNothing | cmd/reckon/input.go:90-131 | any two inputs with the same non-blank lines, once trimmed, have the same outcome, errors included, when their lines fit the scanner |
| Events.SurroundingSpaceIsNothing | cmd/reckon/input.go:90-100 | nor white space around the input, in either form |
| Events.ToProposedEvents | cmd/reckon/input.go:135-162 | every input resolved in order, or the first failure with its index and field |
| Events.ReadProposedEvents | cmd/reckon/input.go:89-113 | trims, picks array or NDJSON, and resolves; an error in either step is the result |
| Events.InputMeans | cmd/reckon/input.go:76-87 | an object is accepted iff its typed keys have their types, and then proposes what it says: id or a fresh one, type, tags, content types or the default, and bytes from base64, a string's text, any other value's JSON, or none |
| Events.ReadMeans | cmd/reckon/input.go:89-178 | the whole result means what the input says, value by value and in order, in both forms; a failure is that of the first bad value |
| Events.ReadableIff | cmd/reckon/input.go:102-133 | exactly which inputs can be read |
| Events.TypedRoundTrip | cmd/reckon/input.go:164-178 | events typed without base64 come back in order: text exactly, JSON as the same value, a JSON string as its text, nothing for null and for bytes that are neither |
| Text.SplitCSV | cmd/reckon/cmd_streams.go:285-294 | the loop keeps the trimmed non-empty pieces in order |
| Text.SplitCSVInvertsJoin | cmd/reckon/cmd_streams.go:285-294 | splitting a comma-join gives back every list of trimmed, non-empty, comma-free strings |
| Text.SplitCSVIsClean | cmd/reckon/cmd_streams.go:285-294 | every result is such a list, so split, join, split is split |
| Text.SplitIsTheOnlyCut | cmd/reckon/input.go:115-118 | the pieces are the only separator-free list that joins to the text, so every text is the join of its lines |
| Text.SpaceIsWhiteSpace | cmd/reckon/input.go:122-125 | what is trimmed is Unicode white space |
| Args.FlagsThenArgs | cmd/reckon/main.go:128-145 | terminates with the specified flag values and positionals, or the first error |
| Args.InterspersedMeaning | cmd/reckon/main.go:128-145 | for every command line of well-formed flag groups and positionals the result is setting the flags in order and listing the positionals in order |
| Args.ItemsThenRest | cmd/reckon/main.go:128-145 | the same for a prefix of the command line, whatever tokens follow |
| Args.BadFlagStops | cmd/reckon/main.go:128-145 | the first unknown flag, or a last flag without its argument, ends the parse with the error that names it, the flags before it set |
| Args.MalformedFlagStops | cmd/reckon/main.go:128-145 | so does a token of three dashes or with an equals sign right after its dashes |
| Args.OrderAcrossKindsIsIrrelevant | cmd/reckon/main.go:128-131 | any two interleavings of the same flags and positionals are the same command |
| Args.TerminatorHoldsIff | cmd/reckon/main.go:128-145 | behind any well-formed flags and positionals, a terminator makes all further tokens positionals, the flags set as before, iff no token after the first begins with a dash and has something behind it |
| Args.KvFlag.Set | cmd/reckon/input.go:63-74 | stores the value after the first equals sign, refuses a string without one and then changes nothing |
| Args.LastValueWins | cmd/reckon/input.go:63-74 | repeated pairs fold to the last value of each key; other keys stay |
| WireTime.WireRoundTrip | schema/schema.go:152-170 | toProto after fromProto is the identity on every int64 time |
| WireTime.ToTicksIsFloor | schema/schema.go:152-153 | toProto floors, negatives included, iff the count fits 64 bits |
| WireTime.InstantRoundTrip | schema/schema.go:143-175 | fromProto after toProto is the latest wire instant not after the original |
| WireTime.SecondTripIsIdle | schema/schema.go:143-175 | a second trip changes nothing, for every instant |
| WireTime.ProtoRoundTrip | schema/schema.go:124-175 | whole events: sent back as read, or floored in both times |
| WireTime.ToProtos | schema/schema.go:124-128 | the request loop converts every event in order |
| WireTime.UntilIsExact | temporal/temporal.go:48-61 | Until selects exactly the events at or before the cutoff |
| WireTime.UntilExactIff | temporal/temporal.go:48-61 | for every cutoff time.Time can hold, Until is exact on all stored times iff the millisecond count fits 64 bits, or is too large and wraps to the largest one |
| WireTime.UntilWitness | temporal/temporal.go:48-61 | a cutoff beyond that range that leaves out an earlier event |
| WireTime.RangeIsExactButOneMilli | temporal/temporal.go:63-77 | Range selects all of the interval and besides only the millisecond from falls into |
| WireTime.RangeExactIffAligned | temporal/temporal.go:63-77 | the documented interval is selected iff from is a whole millisecond or the interval sent is empty |
| WireTime.RangeWitness | temporal/temporal.go:63-77 | an event one nanosecond before from is selected |
| Snapshots.Latest | snapshots/snapshots.go:113-132 | the first record of highest version, none for an empty list |
| Snapshots.Load | snapshots/snapshots.go:3-6 | loading from Latest and replaying later events is the full replay, for every fold; exactly the events after the highest listed version are replayed, so no listed snapshot leaves fewer |

## Left out

- gRPC, TLS, dialing, per-RPC deadlines: library code; only the contracts above are used.
- The goroutine of Watch and Subscribe as a Dafny loop: it is a set of steps with program counters, because its behaviour is the interleaving; the pump's loop appears in both forms.
- Write errors on stdout and the time stamp in the ready frame.
- The stream name of an Ack: one subscription has one checkpoint here, so the selector default of a stdin line is not represented; nor is the 64 KiB limit of the stdin scanner, which acts like end of input.
- fromGRPC for wrapped status errors, whose message would be the wrapper's.
- JSON text, RFC 3339 formatting, UTF-8 tables: parameters with the stated laws. Case-insensitive key matching of encoding/json plays no part because the encoder writes the exact keys.
- Scanner lengths count characters of the modelled text, not bytes of its encoding.
- genUUID: any string per event index.
- strconv and the typed flag values: what storing a flag value does is a parameter.
- CccReadByPayload, admin, health, stores listing, schema registration, enum maps and the command handlers: pass-through fields or single-branch switches.
- LastSeq of an empty batch: the contract does not say what it is; statements about LastSeq take a non-empty batch.
- Seqs above 2^63 - 1: MaxSeq and cutoffs are unbounded integers here.
