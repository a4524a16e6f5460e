# RYLR998 driver: a verified model

The model covers the protocol engine of the RYLR998 LoRa radio driver and the two host transports built on it.

* `Bytes`, `Types`, `Decimal` – fixed-width integers, the command, response and event vocabulary, and decimal text as
  the encoder prints it and as integer parsing reads it (optional plus sign, leading zeros, bounded range).
* `CommandLine`, `Encode` – the command lines, what can be recovered from them, and the bounded in-place encoder
  (`Writer` over a caller's array, with its digit loop). `Receiver` – a reader of command lines written independently of
  the encoder.
* `Unicode`, `Decode` – well-formed UTF-8, the reply and event parsers and the printers they invert.
* `Framing`, `Machine` – cutting the receive stream into lines, and the driver's fields as one value (`Core`) with what
  `submit`, `push_rx`, `ack_tx` and `poll` do to it. `Driver` is the same machine over fixed arrays updated in place;
  each method is proved to do to the fields what `Machine` says, and the object carries the log of its operations, so
  every theorem about runs holds of every object.
* `History` – all runs: conservation of bytes in both directions, refinement to a transition on whole lines that knows
  nothing of buffers, accounting of the command slot. `Discipline` – hosts that write and acknowledge what they are
  handed before polling again. `Abandoned` – what is left of the driver after a write that was never acknowledged.
  `Chunking` – independence of how reads are cut.
  `RxBound` – the longest event line that cannot overflow the receive buffer. `Correlation` – the driver composed with
  an abstract radio.
* `Radio` – the blocking radio over an arbitrary port and clock. `Actor` – the asynchronous radio as steps of client,
  task and port.

A panic of the program (a line over 288 bytes copied to the line buffer, a length field equal to `usize::MAX`) is an
explicit outcome, `Crash`; `PollCrashesExactly` says on which received bytes it happens. Strings are the bytes of the
`&str`, events and replies are values rather than borrows, `usize` has 64 bits.

## What does not hold, and exactly when it does

* Polling until the first `Idle` does not always empty the buffer, although the documentation of `Poll` says nothing is
  left to do: an event line that does not parse ends the loop early (`IdleMidBatch`; exact condition
  `PumpIsDrainExactly`).
* A command line can be told from its continuation except when a password contains CRLF (`SelfDelimitingExactly`).
* The first carriage return not followed by a line feed stops framing for good (`StuckExactly`); a complete line that
  nobody waits for blocks everything behind it (`UnclaimedLineBlocks`, `PollGetsNowhereExactly`).
* A stream of event lines cannot overflow the receive buffer of a reader that drains after every 256-byte read exactly
  when no line exceeds 255 bytes (`RxBoundExactly`). A 240-byte payload with long numeric fields makes a longer line.
* "Idle means nothing queued" is kept by every operation except one poll: `+READY` polled while a reset is handed out
  and not acknowledged (`PollKeepsTidyExactly`, `ReadyBeforeAck`).
* A driver that owes such an acknowledgement, or one for a write that failed, owes it for good and never waits for a
  reply again; while a command other than a reset is in its slot, every submit is refused (`StaleForever`). When the
  slot is free a later command is accepted, handed out and written, but its acknowledgement releases the old bytes
  first (`ServedCommandWaitsExactly`). The abandoned command or a later one can still be answered exactly when it is a
  reset and every line received so far, the unfinished one once it is completed, is an event or starts with `+RESET`,
  is at most 288 bytes long and has no overflowing length field, up to the first `+READY` (`Passable`,
  `AbandonedAnsweredExactly`, `LaterAnsweredExactly`); a late `+OK` in the buffer blocks even a reset
  (`LateReplyBlocksReset`). Neither transport hands its caller anything else from the radio once a write has failed
  (`Radio.Blocking.Call`, `Actor.FailedWriteIsFinal`).
* A reset refused for lack of room raises the flag all the same, and a `+READY` is then reported as the answer to a
  command that was never accepted (`RefusedResetHaunts`).
* The workspace README says the host methods do not return before their slot is clear. They do when the deadline
  passes or the port fails first: the slot is clear on return exactly when a reply, readable or not, has been taken
  meanwhile (`Radio.Blocking.Call`), and until then every submit is `Busy` (`ServedCommandWaitsExactly`,
  `Actor.BusyNeverStale`).
* The comment in the blocking `next_event` says it returns once the queue is non-empty. With an empty queue it returns
  only at the deadline, however many events arrive, unless the port fails or the receive buffer overflows
  (`Radio.Blocking.NextEvent`).
* The README of the asynchronous crate says events are dropped when the channel is full. The driver task waits for room
  instead, and `EventFifo` shows that nothing is lost.

## Model

| member | source | states |
|---|---|---|
| Decimal.ParseExact | rylr998-core/src/decode.rs:26-34 | Bounded integer parsing accepts exactly the spellings (plus sign, leading zeros) of the numbers in range |
| Decimal.ParseI16Exact | rylr998-core/src/decode.rs:144-147 | Signed 16-bit fields accepted are exactly the spellings (minus sign, optional plus sign, leading zeros) of the numbers in range |
| Decimal.ParseShowInt | rylr998-core/src/decode.rs:144-147 | Signed 16-bit fields are read back as printed, the minimum included |
| Decimal.ShowOfValue | rylr998-core/src/encode.rs:83-114 | The only digit string without leading zeros for a value is the canonical one the encoder prints |
| Decimal.SignsAndDigits | rylr998-core/src/encode.rs:83-114 | The bytes of the signs and of the ten digits are those of their characters |
| Unicode.Utf8Exactly | rylr998-core/src/decode.rs:26-38 | A byte string is accepted as UTF-8 exactly when it encodes a sequence of Unicode scalar values |
| CommandLine.LineInjective | rylr998-core/src/encode.rs:7-62 | No two commands, wrapped length fields included, have the same line |
| CommandLine.SelfDelimitingExactly | rylr998-core/src/encode.rs:7-62 | No other command line is a prefix of this one, exactly unless it sets a password containing CRLF |
| CommandLine.StreamDecodes | rylr998-core/src/encode.rs:7-62 | The bytes of a sequence of such commands determine the sequence |
| Receiver.CommandReadsBack | rylr998-core/src/encode.rs:7-62 | A reader that knows only the command set, with its names spelled out, understands every unwrapped line as the command it encodes |
| Encode.Writer.Write | rylr998-core/src/encode.rs:75-82 | A piecewise write is refused exactly when the total so far does not fit, and touches nothing behind the cursor |
| Encode.Writer.Digits | rylr998-core/src/encode.rs:83-114 | The digit loop stays within its slots and writes canonical decimal, or fails exactly when that does not fit |
| Encode.Encode | rylr998-core/src/encode.rs:7-62 | Encoding succeeds exactly when the line fits, writes exactly it and leaves the rest; on failure a prefix of it is left |
| Decode.SendReadsBack | rylr998-core/src/encode.rs:51-58 | A send line whose length field has not wrapped is read back by its length prefix, whatever bytes the payload holds |
| Decode.PrefixesExclusive | rylr998-core/src/decode.rs:11-24 | No line carries two of the prefixes |
| Decode.ParseByPrefix | rylr998-core/src/decode.rs:58-106 | The prefix alone decides how a reply is read, so the order of the branches is irrelevant |
| Decode.ResponseAcceptedExactly | rylr998-core/src/decode.rs:58-106 | A line is accepted as a reply exactly when it is the name of that reply, spelled out, and a field with that reading |
| Decode.ParseReplyText | rylr998-core/src/decode.rs:40-106 | Every reply a radio can send, four-field parameters and absent or 8-hex passwords included, parses to itself |
| Decode.CpinAcceptedExactly | rylr998-core/src/decode.rs:40-53 | Password fields accepted are exactly "No Password!" and eight characters out of 0-9, a-f and A-F that are not all 0 |
| Decode.ParamsAcceptedExactly | rylr998-core/src/decode.rs:68-86 | Parameter fields accepted are exactly four comma-free parts, each a byte |
| Decode.RcvAcceptedExactly | rylr998-core/src/decode.rs:108-156 | A +RCV line is accepted exactly when it splits into five fields whose second is the length of the third |
| Decode.RcvOneReading | rylr998-core/src/decode.rs:116-156 | The fields of an accepted line are determined by its text |
| Decode.ParseRcvText | rylr998-core/src/decode.rs:3-6 | Printing then parsing an event gives it back, commas in the payload included |
| Decode.ParseEventPanicsExactly | rylr998-core/src/decode.rs:128-133 | The length addition overflows exactly for a length field of usize::MAX |
| Framing.StuckExactly | rylr998-core/src/driver.rs:177-185 | Framing is stuck for every continuation exactly when the first CR is followed by another byte than LF |
| Framing.HeadLine | rylr998-core/src/driver.rs:177-191 | A line framed in a received prefix is the stream's first line, and draining it leaves the rest |
| Framing.OneCut | rylr998-core/src/driver.rs:177-185 | A stream has at most one cut into framable lines |
| Machine.PushKeepsWhatFits | rylr998-core/src/driver.rs:144-153 | Overflow is reported exactly when the bytes do not fit; the part that fits is kept |
| Machine.MatchedReplyAnswers | rylr998-core/src/driver.rs:193-209 | A line matched for a kind parses, if at all, to that kind's variant or an error code |
| Machine.EventOrReply | rylr998-core/src/driver.rs:245-272 | Exactly +READY, for an acknowledged command, is both an event and a matched reply |
| Machine.PacketReported | rylr998-core/src/driver.rs:228-265 | Every packet of up to 240 CR-free bytes at the head of the buffer is reported as that packet, in every state |
| Machine.UnreadableReplyFreesSlot | rylr998-core/src/driver.rs:268-283 | A matched reply that does not parse is taken, frees the slot and is answered by nothing |
| Machine.StrayResetFreesSlot | rylr998-core/src/driver.rs:199 | So is a +RESET line met by an acknowledged command other than a reset |
| Machine.AckOfOne | rylr998-core/src/driver.rs:160-175 | An acknowledged byte is released if one has been handed out |
| Machine.AcksAddUp | rylr998-core/src/driver.rs:160-175 | Acknowledging in parts is acknowledging at once |
| Machine.RefusedResetHaunts | rylr998-core/src/driver.rs:108-120 | A reset refused for lack of room has raised the flag all the same, so a +READY is then reported as its answer |
| Machine.PollGetsNowhereExactly | rylr998-core/src/driver.rs:221-287 | A poll changes nothing exactly when nothing is to be handed out and no complete line that somebody waits for is first |
| Machine.PollCrashesExactly | rylr998-core/src/driver.rs:228-265 | A poll panics exactly when all is handed out and the bytes received are swallowed +RESET lines and then a line over 288 bytes or a +RCV line with a length field of usize::MAX |
| Machine.FreshPanics | rylr998-core/src/driver.rs:228-265 | A receive buffer of 30 bytes on which a fresh driver panics |
| Machine.LongLinePanicsExactly | rylr998-core/src/driver.rs:228-240 | A line of n meaningless bytes makes a fresh driver panic exactly when n is over 288 |
| Machine.PollEats | rylr998-core/src/driver.rs:187-191 | What a poll consumes is whole CR-free lines off the front of the buffer |
| Machine.ResetCompletes | rylr998-core/src/driver.rs:240-257 | Any number of +RESET lines then +READY: one poll, one Ok, idle, exactly the bytes behind left |
| Driver.Driver.constructor | rylr998-core/src/driver.rs:84-95 | A fresh driver is empty and idle |
| Driver.Driver.Submit | rylr998-core/src/driver.rs:108-133 | The in-place submit does what the machine says, refusals included |
| Driver.Driver.PushRx | rylr998-core/src/driver.rs:144-153 | The in-place push does what the machine says |
| Driver.Driver.AckTx | rylr998-core/src/driver.rs:160-175 | The in-place acknowledgement shifts exactly the released bytes out and advances the slot |
| Driver.Driver.NextLineEnd | rylr998-core/src/driver.rs:177-185 | The scan finds the first CR and checks the next byte |
| Driver.Driver.DrainRxLine | rylr998-core/src/driver.rs:187-191 | Shifting a line out leaves exactly the bytes behind its terminator |
| Driver.Driver.Poll | rylr998-core/src/driver.rs:221-288 | The in-place poll does what the machine says, or panics exactly when the machine does |
| History.TxConservation | rylr998-core/src/driver.rs:108-175 | In every run the handed-out bytes then the rest, and the acknowledged bytes then the queue, are the accepted commands' lines |
| History.WireReadsBack | rylr998-core/src/driver.rs:222-226 | The handed-out bytes determine the commands accepted |
| History.RunRefinesLines | rylr998-core/src/driver.rs:144-287 | In every run the bytes accepted are the consumed lines then the buffer, slot and reports are those of a transition on whole lines, and no line is consumed that nobody waits for |
| History.ConsumedLinesComeFirst | rylr998-core/src/driver.rs:177-191 | However the received bytes are cut into lines, the consumed lines are the first of them |
| History.SlotAccounting | rylr998-core/src/driver.rs:108-288 | Accepted commands = answered + unreadably answered + 1 if not idle, in every run |
| History.RunReportsEvents | rylr998-core/src/driver.rs:245-265 | Events reported are exactly those of the parseable event lines consumed but for a +READY that answers a reset, in order |
| History.RunReportsPackets | rylr998-core/src/driver.rs:245-265 | Packets reported are exactly the parseable +RCV lines consumed, in order, whatever the command traffic |
| Discipline.HostRunClean | rylr998-core/src/driver.rs:108-288 | Under write-then-acknowledge, idle means nothing queued, pending or flagged |
| Discipline.PollKeepsTidyExactly | rylr998-core/src/driver.rs:250-257 | The one poll that breaks the slot invariant |
| Discipline.SubmitAcceptsExactly | rylr998-core/src/driver.rs:108-133 | A clean driver accepts exactly when idle and the line fits; a refusal leaves no trace |
| Discipline.IdleAcceptsAll | rylr998-core/src/driver.rs:6-133 | A clean idle driver has room for every command with a payload of at most 240 bytes and a password of at most 8 |
| Discipline.DisciplinedAccounting | rylr998-core/src/driver.rs:108-288 | Accepted commands = responses surfaced + unreadable replies + 1 if not idle |
| Discipline.ResponseSuits | rylr998-core/src/driver.rs:250-283 | Under the discipline a response is surfaced only to a command that is out |
| Discipline.ServedCommandWaitsExactly | rylr998-core/src/driver.rs:160-175 | A served command is written whole and blocks every next submit; the driver waits for its reply exactly when it owed no acknowledgement before |
| Discipline.WaryPoll | rylr998-core/src/driver.rs:221-287 | Whatever became of earlier writes, a response is surfaced only to a command in flight, suits it and frees the slot |
| Abandoned.AbandonedWriteIsStale | rylr998-std/src/radio.rs:91-95 | A failed write leaves its command handed out, in the slot and unacknowledged |
| Abandoned.StaleForever | rylr998-core/src/driver.rs:108-288 | Whatever a disciplined host does then, the acknowledgement stays owed, no reply is awaited and only Ok is surfaced; nothing at all, and no command accepted, while a command that is not a reset holds the slot |
| Abandoned.AbandonedAnsweredExactly | rylr998-core/src/driver.rs:221-287 | Whatever has been received, an abandoned command can be answered by some continuation exactly when it is a reset and no line received so far blocks the way to a +READY |
| Abandoned.LaterAnsweredExactly | rylr998-core/src/driver.rs:108-287 | The same of a command accepted by an idle driver that owes an acknowledgement |
| Abandoned.LateReplyBlocksReset | rylr998-core/src/driver.rs:268-286 | With a late +OK received first, an abandoned reset cannot be answered either |
| Abandoned.ReadyBeforeAck | rylr998-core/src/driver.rs:252-256 | A run that leaves an idle driver owing the acknowledgement of ten bytes |
| Chunking.ChunkingIndependence | rylr998-core/src/driver.rs:221-287 | Any two ways of cutting the same bytes into fitting, drained reads end alike and report alike, or both panic |
| Chunking.PumpIsDrainExactly | rylr998-std/src/radio.rs:89-104 | Stopping at the first Idle drains everything exactly when no unreadable line comes before more to take |
| Chunking.PumpIsDrain | rylr998-std/src/radio.rs:89-104 | If everything taken parses, the transports' loop is a full drain |
| Chunking.IdleMidBatch | rylr998-core/src/driver.rs:260-265 | Two event lines between which the loop stops |
| Chunking.UnclaimedLineBlocks | rylr998-core/src/driver.rs:268-286 | A complete line nobody waits for blocks everything behind it |
| RxBound.RxBoundExactly | rylr998-core/src/driver.rs:6-153 | 255 bytes is exactly the longest event line no cutting into 256-byte reads can overflow on |
| RxBound.ReadsFit | rylr998-std/src/radio.rs:105-109 | After each drained read at most one unfinished line and its CR are left |
| RxBound.CallersDrainEvents | rylr998-std/src/radio.rs:89-104 | For such streams the transports' loop is the drain the bound speaks of |
| Correlation.Correlated | rylr998-core/src/driver.rs:108-288 | In every interleaving with a radio the responses are its replies to the commands, one for one and of their variant; events are its packets in order |
| Correlation.ResponseMeetsItsCommand | rylr998-core/src/driver.rs:268-283 | A response is surfaced only after the radio answered the command in flight, and is that answer |
| Correlation.Delivered | rylr998-core/src/driver.rs:221-287 | Once all is read and a poll finds nothing to do, every answer given and every packet delivered has been surfaced |
| Correlation.NothingLost | rylr998-core/src/driver.rs:221-287 | With such a radio the driver never panics and is idle only when every answer has been surfaced |
| Radio.Blocking.DrainDriver | rylr998-std/src/radio.rs:89-104 | The inner loop ends with everything handed out, every event queued and every response offered; without an answer its last poll was idle; with nothing to write it is the loop that polls until the first idle; it panics only if a poll does |
| Radio.Blocking.ReadOnce | rylr998-std/src/radio.rs:105-115 | One read, pushed, then one look at the clock; only hard read errors, overflow and the deadline end the pumping |
| Radio.Blocking.PumpUntil | rylr998-std/src/radio.rs:84-119 | Pumping ends for every port behaviour once the clock passes the deadline, at the first look that shows it and not before, with as many reads as looks and all but the last polled; only unwanted responses are passed over |
| Radio.Blocking.Call | rylr998-std/src/radio.rs:132-267 | A refused command changes nothing; an accepted one has its line written and no other unless a write fails; it gives up only at its deadline of 1 or 4 seconds, on a port failure or an overflow; a value is of the command's variant; once answered the driver is idle; otherwise no response was swallowed; the slot is left exactly when the reply is taken, readable or not; after a failed write only a reset is answered |
| Radio.Blocking.NextEvent | rylr998-std/src/radio.rs:278-287 | A queued event is returned without touching the port; otherwise, unless the port fails, the deadline is awaited and the oldest event returned; no command is submitted and the slot keeps its command or is freed |
| Radio.NoEventMissed | rylr998-std/src/radio.rs:269-287 | Events returned then queued are those of the lines taken from the port, in order; packets are those of the +RCV lines |
| Radio.AllReadIsKept | rylr998-std/src/radio.rs:105-109 | Unless a read overflowed, the lines consumed and the bytes buffered are all the port gave |
| Radio.PortTookCommands | rylr998-std/src/radio.rs:91-95 | Unless a write failed, the port has taken the accepted commands byte for byte but for what is queued |
| Actor.DriverRuns | rylr998-tokio/src/lib.rs:478-566 | In every interleaving the driver of the task goes through a run and the events polled are those of the run, so what holds of every run holds of it |
| Actor.EventFifo | rylr998-tokio/src/lib.rs:478-525 | In every interleaving events returned, queued and being sent are those of the lines taken from the port, in order; at most 64 events and 8 jobs are queued, and senders wait exactly while there are |
| Actor.TaskKeepsUp | rylr998-tokio/src/lib.rs:487-566 | In every interleaving the driver task waits for a job or for bytes only when all bytes read have been polled and the last poll brought no event; it writes and sends exactly what the last poll gave |
| Actor.IdleEventReturned | rylr998-tokio/src/lib.rs:503-519 | An event that arrives while no job runs is polled, sent and returned to a client that asks |
| Actor.PortTookJobs | rylr998-tokio/src/lib.rs:543-548 | Unless a write failed, the port has taken the accepted commands byte for byte but for what is queued |
| Actor.JobFifo | rylr998-tokio/src/lib.rs:253-270 | Jobs run in order and each reply slot is filled at most once, by its own job |
| Actor.JobEndsExactly | rylr998-tokio/src/lib.rs:538-566 | What ends a job and which reply each way of ending leaves in its slot |
| Actor.OwnReply | rylr998-tokio/src/lib.rs:527-566 | A response handed to a job freed the slot of that job's own command, once, and is of its variant |
| Actor.OwnResult | rylr998-tokio/src/lib.rs:258-270 | Each request returns once, in order, with what its own slot was filled with or with a timeout; a response is of its variant |
| Actor.BusyNeverStale | rylr998-tokio/src/lib.rs:498-539 | A job after an unresolved one is refused as busy and cannot receive its reply; with a free slot only lack of room refuses it |
| Actor.LateReplyDropped | rylr998-tokio/src/lib.rs:503-519 | A reply after its job's deadline frees the slot and fills none |
| Actor.FailedWriteIsFinal | rylr998-tokio/src/lib.rs:543-551 | In every interleaving after a failed write no job is handed a response again, but for the Ok of a reset |
| Actor.StoppedForever | rylr998-tokio/src/lib.rs:503-506 | The end of input while no job runs stops the driver task for good |

## Left out

- The serial port's discovery, opening and configuration: foreign calls; the port is any sequence of read and write
  outcomes, the clock any sequence of times that passes every deadline.
- The command-line tool and the embedded transport: the latter repeats the same pump and drops events.
- The tables of radio error codes, `Display` and `defmt` output and the copies between owned and borrowed values.
- Progress after a lost reply, a lone carriage return or an unclaimed line: the code does not recover by itself.
- Correlation.Correlated: the radio sends CR-free lines of at most 288 bytes and no unsolicited `+READY`, since framing
  cannot cross a lone carriage return and an unsolicited `+READY` answers a reset in flight; passwords contain no CRLF.
- Radio.Blocking.Call: one method stands for the fifteen command methods, whose closures differ only in the variant
  they unwrap; the values stay wrapped in the response.
- Radio.Blocking.PumpUntil: one round, the inner loop, the write in it and the read after it are methods of their own.
- Encode.Writer.Digits: the 16-bit and 32-bit digit loops, which differ in their slots only, share one loop; `Field`,
  `Set16` and the like group writes that the program spells out one by one.
- The asynchronous runtime: fairness, wakers and cancellation; a step lasts from one await to the next, the client is
  alive and its event receiver open, and a client whose driver task has died simply gives up.
