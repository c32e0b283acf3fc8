# A verified model of the JSON-RPC to Modbus TCP middleware

The middleware takes JSON-RPC requests over TCP, turns them into Modbus operations on devices and streams what it
reads to SSE clients. This project models the parts of it that carry protocols or arithmetic and proves what they
are for, over every input and every interleaving:

- **Requests under load.** `RequestSystem` runs any number of requests through the capacity limiter
  (`OperationQueue`, `CasLimiter`), the connection pool (`ConnectionPool`) and the reply, one atomic access per step.
  The bound on open connections comes only from the combination: the pool itself never refuses to connect.
- **Framing.** `JsonFraming` proves the byte automaton of the read loop exact for every RFC 8259 object or array and
  every way to cut it into reads.
- **Latency monitoring.** `LatencyStatistics` and `LatencyMonitor` prove the sliding Welford update and its reverse
  equal to the batch statistics, and bound how many samples can lie above the 3-sigma threshold.
- **Signal groups.** `DataConversion`, `SignalGroups`, `WireFormat`, `RegisterAddress`, `DeviceConfig`,
  `DeviceControl`, `CoilGroups` and `MockDevice` follow field values to bytes, registers, a Modbus write, the tables of
  a device, a Modbus read and back, guarded by configuration validation; `WireFormat` says what is on the wire.
- **Configuration diff.** `ConfigDiff` proves the reported paths sound, complete, free of overlap and sufficient as a
  patch.
- **Delivery.** `HubSend`, `SseRegistry`, `SseRuns`, `StreamScheduler` and `Lifecycle` are the protocols around the
  hub, the SSE clients, the polling loop and the connection life cycle.

Objects whose methods change their fields are classes (`OperationQueue`, `ModbusConnectionPool`, `LatencyStats`,
`ConfigLoader`, `SseConnectionRegistry`, `ModbusWorkerState`, `TimeoutHandler`, `DataStreamWorker`,
`MockModbusState`); each method is tied to a function of the old state, and the laws are lemmas about that function.
Concurrent protocols are machines: a state, a total `Step` function (an action that is not due does nothing) and
`Run` over an arbitrary list of actions, so that a lemma about `Run` speaks of every schedule.

Choices made throughout:

- Statistics are computed over `real` in place of `f64`. The square root of the standard deviation is either given
  (`sd`, characterised by `IsStdDev`) or avoided by comparing squares.
- A field value is `NaN`, an infinity or a real; the sign of zero and the payload of a NaN are not told apart.
  Rounding to single precision and the bit patterns of both formats are the functions of a `FloatModel` with the
  laws `Lawful`; `LawfulModelExists` shows that the laws can be met.
- A critical section under a lock is one step.
- Counters that the program keeps in 64 bits (connection ids, sequence numbers) do not wrap here.

## What the model shows about the code

- The documentation of `src/data_conversion.rs` (line 20) says that a Bool is true when its register is non-zero; the
  decoder looks at the low byte only (`SignalGroups.BoolIsNonZeroUnless` has the exact condition).
- The documentation of `convert_byte_order` (src/data_conversion.rs:185) says that `MidBig` swaps words and then the
  bytes within each word; the code swaps the bytes only. The two agree exactly for bytes that swapping words leaves
  alone (`DataConversion.MidBigIsDocumentedExactly`, `DataConversion.MidBigIsNotDocumented`).
- `SignalGroup::validate` adds in 16 bits with saturation. A group of 65535 registers can have a field that ends
  behind it, and the encoder then indexes out of bounds (`SignalGroups.SaturationAdmitsTooLong`,
  `SignalGroups.CodecRoundTrip`, `DeviceControl.CompleteWriteCrashesExactly`).
- The registry's check and insertion are two steps: T threads can fill it with 99 + T clients and no more
  (`SseRuns.RegistryIsBounded`, `SseRuns.LimitIsOverrun`).
- The pool size bounds idle connections only; as many as there are concurrent operations can be open at once, and no
  more (`RequestSystem.OpenConnectionsAreBounded`, `RequestSystem.BoundIsReached`).
- After a timeout a client's next hub message can be sent, and acknowledged, before the one that timed out: exactly
  when that one has not been sent yet (`HubSend.TimedOutIsOvertakenExactly`).
- A second request on the connection hides the end of the first unless some read ends between the two; both then
  become one payload (`JsonFraming.PipelinedRequestIsHidden`).
- Dotted paths are ambiguous as soon as a key is empty or holds a dot (`ConfigDiff.ImproperKeyCollides`); among keys
  that hold the pieces of their keys that is the exact condition (`ConfigDiff.UnambiguousExactly`). The program does
  not meet it: it compares serialised `Config` values only, whose keys are field names, and there every string names
  one path (`ConfigDiff.RenderIsInjective`, `ConfigDiff.ReportsAreUnambiguous`).
- `Config::validate` itself panics when the first fault it comes to is an address that begins with a character of
  several bytes, for it slices off one byte (`DeviceConfig.PanicsExactly`, `RegisterAddress.AccentedAddressCrashes`).
- When the encoder panics on the thread of the worker, the request is never answered and its slot never given back,
  the same holds for tasks that the runtime drops with it, and no waiting request is looked at again
  (`RequestSystem.LostForGood`).
- Eviction looks at the front of the idle queue only, and times are those of the system clock, which can go back. It
  removes every connection that is too old, whatever the time and the interval, exactly when the queue is oldest first
  (`ConnectionPool.EvictionIsCompleteExactly`); a clock that goes back between two releases breaks that, in a run of
  two requests (`RequestSystem.ClockGoingBackIsReached`).
- A write to a group of coils keeps one bit of each register. What is read back is what was written exactly when every
  register of the encoding is 0 or 1, although validation accepts any field type there
  (`CoilGroups.WriteThenReadCoils`).

## Model

| member | source | states |
|---|---|---|
| RequestSystem.OpenConnectionsAreBounded | src/workers/modbus/client.rs:474-563 | in every run of any number of requests, idle, open and about-to-be-created connections together never exceed the concurrent operations; the creation counter equals idle plus held plus leaked and never goes below zero |
| RequestSystem.RunKeepsInv | src/workers/modbus/handler.rs:182-362 | every reachable state has exact slots, an exact count, the connection bound, a healthy idle queue that is ordered unless the clock has gone back, one answer per request that is done, a worker at one request at most, and no connection in two places |
| RequestSystem.StepKeepsInv | src/workers/modbus/handler.rs:182-362 | every single action keeps all of that |
| RequestSystem.LeaksNeedPanics | src/workers/modbus/client.rs:568-587 | without a panic on a held connection nothing leaks from the count |
| RequestSystem.LeakedIsLosses | src/workers/modbus/client.rs:568-587 | in every run the count is too high by exactly the number of panics on a held connection |
| RequestSystem.FinishedIs | src/workers/modbus/client.rs:536-563 | after a success the connection is the youngest idle one while there is room; in every other case the idle ones stay as they are, the count goes down by one and the connection is closed |
| RequestSystem.FailedIsNeverUsedAgain | src/workers/modbus/client.rs:537-587 | in every continuation a connection whose operation failed or panicked is never idle and never held again |
| RequestSystem.TakenIsFresh | src/workers/modbus/client.rs:484-523 | while the clock has never gone back, a task gets the oldest connection put back less than the check interval ago, if there is one; everything passed over was put back that long ago or longer, and nothing that old stays idle |
| RequestSystem.ClockGoingBackIsReached | src/workers/modbus/client.rs:363-381 | a run in which the clock goes back between two releases and a connection that is too old stays idle |
| RequestSystem.RefusedExactlyAtCapacity | src/workers/modbus/handler.rs:230-237 | a request that the worker looks at is refused exactly when as many as allowed hold slots |
| RequestSystem.EveryRequestIsAnsweredOnce | src/workers/modbus/handler.rs:193-391 | in every run no request has two answers and one that is done has exactly one; only once the worker has panicked are there unanswered ones, the one it panicked on and tasks dropped with the runtime, and when all are finished the slots in use are theirs |
| RequestSystem.FailureIsAnswered | src/workers/modbus/handler.rs:193-362 | whether there is no pool, the group is bad, no connection can be made, or the operation fails or panics: the request can then be answered once and its slot given back, with the idle connections as they were |
| RequestSystem.TurnedAwayIsAnswered | src/workers/modbus/handler.rs:193-237 | a request that needs no slot, or finds none, is answered at once, and nothing else changes |
| RequestSystem.LostForGood | src/workers/modbus/handler.rs:248-391 | a request on which the worker panics between slot and task, and a task dropped with the runtime, is never answered, its slot never given back, and no request that waits is ever looked at |
| RequestSystem.TenMovesAtMost | src/workers/modbus/handler.rs:182-362 | in every run, whatever the network, the device and the other requests do, a request does at most ten things |
| RequestSystem.SomeoneMoves | src/workers/modbus/handler.rs:182-362 | no reachable state is stuck: while a request is unfinished one can move, unless all that remain wait for a dead worker |
| RequestSystem.EverythingSettles | src/workers/modbus/handler.rs:182-391 | however the moves and their outcomes are chosen, as long as one is made while one can be, every request ends answered, forsaken by a dead worker, or waiting for one |
| RequestSystem.AllCanFinish | src/workers/modbus/handler.rs:182-362 | while the worker lives, from every reachable state every request can still be answered and every slot given back |
| RequestSystem.BoundIsReached | src/workers/modbus/client.rs:525-532 | whatever the pool size, some run has as many connections in use as concurrent operations are allowed |
| OperationQueue.OperationQueue.Push | src/workers/modbus/types.rs:155-157 | appends; what was pushed is what was popped and what is pending, in order |
| OperationQueue.OperationQueue.PopIfReady | src/workers/modbus/types.rs:159-182 | gives the oldest pending operation exactly when there is one and capacity for it, and otherwise changes nothing |
| OperationQueue.OperationQueue.TryAcquireAtomic | src/workers/modbus/types.rs:218-240 | succeeds exactly when capacity is left; the counter stays acquisitions minus completions |
| OperationQueue.OperationQueue.Complete | src/workers/modbus/types.rs:184-202 | gives one unit back, and does nothing at zero |
| CasLimiter.CasIsSafe | src/workers/modbus/types.rs:159-240 | with any number of threads the counter stays in bounds and equals successful acquisitions minus completions at every step, and a call gives up only after 100 changes by other threads during it |
| CasLimiter.StepKeepsInv | src/workers/modbus/types.rs:184-240 | every atomic access of any thread keeps the invariant behind that |
| CasLimiter.GivesUpAfterHundredChanges | src/workers/modbus/types.rs:218-240 | that bound is tight: with two threads and room for two, some schedule makes a call give up after exactly 100 changes by the other, with capacity left |
| CasLimiter.AloneTheFirstSwapSucceeds | src/workers/modbus/state.rs:213-222 | behind the mutex the first swap succeeds: a call changes the counter exactly when it is not at its bound |
| ConnectionPool.DropStaleIsExact | src/workers/modbus/client.rs:486-501 | in a queue ordered by time, dropping from the front drops every unusable connection and no other |
| ConnectionPool.FrontIsOldestUsable | src/workers/modbus/client.rs:486-523 | what is left starts with the oldest usable connection |
| ConnectionPool.ObtainedByAge | src/workers/modbus/client.rs:363-533 | in times: of the idle connections the first put back less than the interval ago is obtained and those behind it stay, or else a new one is asked for and none stays |
| ConnectionPool.EvictionIsCompleteExactly | src/workers/modbus/client.rs:363-501 | dropping from the front removes every connection that is too old, for all times and intervals, exactly when the queue is oldest first |
| ConnectionPool.OutOfOrderKeepsStale | src/workers/modbus/client.rs:379-381 | two connections out of order, anywhere in the queue, and the time and interval at which the older one stays |
| ConnectionPool.ModbusConnectionPool.EvictStale | src/workers/modbus/client.rs:486-501 | at any reading of the clock the loop leaves exactly the queue without its stale front, and keeps the count exact |
| ConnectionPool.ModbusConnectionPool.EvictAndTake | src/workers/modbus/client.rs:484-523 | hands out the front of what is left, or nothing when nothing is; while the clock has never gone back every connection that stays is usable |
| ConnectionPool.ModbusConnectionPool.AcquireConnection | src/workers/modbus/client.rs:474-533 | gives the oldest connection left, or else a new one, and says what stays idle |
| ConnectionPool.ModbusConnectionPool.CreateConnection | src/workers/modbus/client.rs:454-470 | counts a connection exactly when it was made |
| ConnectionPool.ModbusConnectionPool.ReleaseConnection | src/workers/modbus/client.rs:536-563 | a broken connection leaves the idle queue as it is and is taken off the count; a healthy one joins the end, last used now, exactly while there is room |
| ConnectionPool.ModbusConnectionPool.ExecuteOperation | src/workers/modbus/client.rs:568-587 | uses the oldest usable connection or a new one; on success exactly that one joins the end of the queue while there is room; after a failure or a panic the connection it used is neither idle nor handed out; a panic is lost from the count; nothing stays handed out |
| JsonFraming.ScanChunk | src/workers/rpc/connection.rs:51-75 | the flags and the 32-bit depth after a chunk are those of the automaton run over everything received; the depth cannot overflow |
| JsonFraming.ReadRequest | src/workers/rpc/connection.rs:20-92 | the loop stops at the first read that ends it, with the verdict on exactly the bytes received |
| JsonFraming.RunConcat | src/workers/rpc/connection.rs:24-28 | the automaton's state depends on the concatenation of the chunks only |
| JsonFraming.DepthBound | src/workers/rpc/connection.rs:67-74 | the depth never exceeds the number of bytes, up or down |
| JsonFraming.FramedIsUnique | src/workers/rpc/connection.rs:30-88 | the reads determine where the loop stops and with what |
| JsonFraming.EndsByEvent | src/workers/rpc/connection.rs:30-102 | a timeout or the end of the stream hands over all that was received, if anything was; an error or more than 1048576 bytes hand over nothing; any other read ends the loop only when the bytes look complete |
| JsonFraming.EveryTextIsTokens | src/workers/rpc/connection.rs:51-75 | any bytes are bytes outside quotes and quoted strings, and at the end perhaps a string that is still open |
| JsonFraming.LooksCompleteExactly | src/workers/rpc/connection.rs:51-80 | any bytes at all look complete exactly when outside quotes there is an opening bracket and there are as many closing brackets as opening ones |
| JsonFraming.ValueReturns | src/workers/rpc/connection.rs:51-75 | the text of any JSON value, strings with escapes included, leads the automaton back to the depth it started from and never below |
| JsonFraming.DoneExactlyAfterValue | src/workers/rpc/connection.rs:77-80 | of all prefixes of an object or array text exactly those that hold the whole value look complete |
| JsonFraming.ExactFraming | src/workers/rpc/connection.rs:20-92 | for every object or array of at most 1 MiB, with whitespace around it, and every cut into non-empty reads, the loop ends at the read that brings the last byte of the value and hands over exactly what was read |
| JsonFraming.StopsAtLastRead | src/workers/rpc/connection.rs:20-92 | without trailing whitespace that is the last read and no earlier one |
| JsonFraming.ScalarNeverCompletes | src/workers/rpc/connection.rs:77-80 | a text that is a single scalar never looks complete |
| JsonFraming.DoneBetweenOrBehind | src/workers/rpc/connection.rs:77-80 | of the prefixes of two requests exactly those look complete that end between the two or behind both |
| JsonFraming.PipelinedRequestIsHidden | src/workers/rpc/connection.rs:20-92 | two requests in any cut into non-empty reads: the first is handed over alone exactly when some read ends between them, at the first such read; otherwise both are handed over as one payload |
| LatencyStatistics.WelfordAdd | src/workers/latency_monitor.rs:63-68 | the update gives the batch mean and squared deviations of the longer window |
| LatencyStatistics.WelfordRemove | src/workers/latency_monitor.rs:40-53 | the reverse update gives those of the window without its oldest sample |
| LatencyStatistics.OutlierIsThreeSigma | src/workers/latency_monitor.rs:79-92 | comparing squares decides `x > mean + 3 * std_dev` |
| LatencyStatistics.AnomalyIsThreeSigma | src/workers/latency_monitor.rs:79-92 | a sample is anomalous exactly for a window of 10 samples or more and above its mean plus three standard deviations |
| LatencyStatistics.OutliersAreRare | src/workers/latency_monitor.rs:79-92 | fewer than one in ten samples of a window lie above its threshold |
| LatencyStatistics.SquaredDeviationsNonNegative | src/workers/latency_monitor.rs:71-77 | the maintained `m2` is a sum of squares, so the root is defined |
| LatencyMonitor.LatencyStats.RemoveSampleWelford | src/workers/latency_monitor.rs:40-53 | takes the oldest sample out of the statistics |
| LatencyMonitor.LatencyStats.AddSample | src/workers/latency_monitor.rs:55-69 | after any samples the window is the last 100 of them in order, and count, mean and m2 are its batch statistics |
| LatencyMonitor.LatencyStats.AnomalyThreshold | src/workers/latency_monitor.rs:71-85 | there is a threshold from 10 samples on, and exactly the anomalies exceed it |
| LatencyMonitor.LatencyStats.IsAnomaly | src/workers/latency_monitor.rs:87-92 | the test on the maintained numbers is the batch 3-sigma test on the window |
| LatencyMonitor.LatencyMonitor.ProcessLatencySample | src/workers/latency_monitor.rs:117-148 | an event is raised exactly when a sample is anomalous in the window of what its device sent before; the sample is then added to that device and to no other |
| DataConversion.CastTruncatesAndSaturates | src/data_conversion.rs:106-109 | a cast stays in range, moves towards zero and loses less than one unless it saturates |
| DataConversion.BigEndianRoundTrip | src/data_conversion.rs:84-98 | big-endian bytes read back as the number |
| DataConversion.ConvertIsInvolution | src/data_conversion.rs:186-214 | every byte order is its own inverse, on byte sequences of every length |
| DataConversion.OrdersFormGroup | src/data_conversion.rs:186-214 | on the field widths little-endian is the other two swaps in either order |
| DataConversion.BytesRoundTrip | src/data_conversion.rs:72-121 | in every byte order the bytes of a value read back as what its type can hold of it |
| DataConversion.MidBigIsDocumentedExactly | src/data_conversion.rs:178-213 | on the field widths the code does what is documented of `MidBig` exactly for the bytes that swapping words leaves alone |
| DataConversion.MidBigIsNotDocumented | src/data_conversion.rs:204-211 | the bytes 1 2 3 4 become 2 1 4 3, not the documented 4 3 2 1 |
| DataConversion.LawfulModelExists | src/data_conversion.rs:110-111 | the laws asked of the float model are consistent: a model of whole numbers of 32 and 64 bits meets them |
| WireFormat.OrderByIndex | src/data_conversion.rs:186-214 | where each byte comes from, in each order and at every length |
| WireFormat.NumberOnTheWire | src/data_conversion.rs:101-121 | what a device receives: a field of every type and order fills its registers with the 16-bit digits of its number (truncated and saturated to the range of the type, in two's complement, or the bit pattern of a float), each digit and each byte in the place that the order gives it |
| WireFormat.NumberOffTheWire | src/data_conversion.rs:72-99 | whatever registers a device sends: the parser gives the value of the number whose digits they are, for every type but Bool and every order |
| SignalGroups.ValidateGroup | src/config.rs:526-551 | accepts exactly unique names whose saturated ends fit |
| SignalGroups.AcceptedSpanFits | src/config.rs:539-547 | an accepted field lies inside the group, except where 16-bit saturation cut its end |
| SignalGroups.SaturationAdmitsTooLong | src/config.rs:540 | a group of 65535 registers with a field that ends behind it is accepted |
| SignalGroups.ValidEndsInside | src/config.rs:526-551 | in an accepted group every field ends inside, exactly unless the group has 65535 registers and a field ends behind them |
| SignalGroups.BytesToRegisters | src/workers/modbus/parsing.rs:298-311 | pairs bytes into registers, high byte first |
| SignalGroups.ExtractBytes | src/workers/modbus/parsing.rs:324-346 | the bytes of the registers of a field, or the low byte for a single one |
| SignalGroups.FieldBytesOfPacked | src/workers/modbus/parsing.rs:298-346 | what is packed for a field is extracted again |
| SignalGroups.LookupIsFind | src/workers/modbus/parsing.rs:65-109 | with unique names the table and the first match agree |
| SignalGroups.LookupIsLast | src/workers/modbus/parsing.rs:102-109 | of mappings with one name the table holds the last |
| SignalGroups.FindIsFirst | src/workers/modbus/parsing.rs:58-72 | of mappings with one name the single-field encoder takes the first |
| SignalGroups.EncodeFieldsForPartialWrite | src/workers/modbus/parsing.rs:102-146 | one piece for every entry with a mapping and a number, in order |
| SignalGroups.PieceIsSingleField | src/workers/modbus/parsing.rs:58-146 | with unique names each piece is what encoding its field alone gives |
| SignalGroups.EncodeFieldsToRegisters | src/workers/modbus/parsing.rs:257-295 | succeeds exactly when every entry fits, and is then the partial-write pieces laid over zeros; the first entry that does not fit decides the failure |
| SignalGroups.FittingPieces | src/workers/modbus/parsing.rs:102-146 | when every entry fits, every entry has a piece and every piece lies inside the group |
| SignalGroups.OverlayAllAt | src/workers/modbus/parsing.rs:288-291 | over disjoint pieces every register is the one of its piece, or zero |
| SignalGroups.EncodingIgnoresOrder | src/workers/modbus/parsing.rs:269-294 | with disjoint spans the result does not depend on the order of the entries |
| SignalGroups.UntouchedIsZero | src/workers/modbus/parsing.rs:267-294 | registers that no supplied field covers stay zero |
| SignalGroups.ParseSignalGroupFields | src/workers/modbus/parsing.rs:186-239 | one result for every field that fits the registers, in field order |
| SignalGroups.FullReadSkipsNothing | src/workers/modbus/parsing.rs:214-217 | when every field ends inside the registers none is skipped |
| SignalGroups.BoolReadsLowByte | src/workers/modbus/parsing.rs:333-335 | a Bool is decided by the low byte of its register |
| SignalGroups.BoolIsNonZeroUnless | src/data_conversion.rs:20 | "non-zero is true" holds exactly unless only the high byte is non-zero |
| SignalGroups.FieldRoundTrip | src/workers/modbus/parsing.rs:186-346 | a field that was supplied parses to the value its type can hold |
| SignalGroups.CodecRoundTrip | src/workers/modbus/parsing.rs:186-346 | for an accepted group with disjoint fields and a complete object: if no field ends behind the group, encoding succeeds and parsing gives every field in order, truncated and saturated, 0 or 1, rounded or unchanged; otherwise the encoder indexes out of bounds |
| SignalGroups.RoundTripExample | src/workers/modbus/parsing.rs:186-346 | the conditions of the round trip can be met: two fields given 70000.5 and 3.0 read back as 65535 and 1 |
| RegisterAddress.ParseDigitsIsDecimal | src/workers/modbus/operations.rs:107-109 | parsing with a check at every digit gives the decimal value exactly when all are digits and it fits |
| RegisterAddress.WideThenRangeIsNarrow | src/config.rs:708-722 | parsing in 32 bits with a range check accepts the same texts, with the same numbers, as parsing in 16 bits |
| RegisterAddress.AcceptedExactlyWhenParsed | src/workers/modbus/operations.rs:87-110 | validation accepts exactly the addresses that carry a prefix and that the handler parses, to the type of the prefix and the same number |
| RegisterAddress.OutOfRangeExactly | src/config.rs:708-715 | an address is out of range, and not malformed, exactly for prefixed numerals above 65535 that fit 32 bits |
| RegisterAddress.BareNumberIsOnlyParsed | src/workers/modbus/operations.rs:87-110 | the handler parses what validation does not accept exactly for 16-bit numerals without a prefix, and takes them for holding registers |
| RegisterAddress.SliceCrashExactly | src/config.rs:688-697 | validation's slice of one byte fails exactly when the trimmed address begins with a character of several bytes |
| RegisterAddress.AccentedAddressCrashes | src/config.rs:697 | the address é1 is one |
| RegisterAddress.ParsedExactlyWhenSpelled | src/workers/modbus/operations.rs:107-109 | a number is parsed from exactly its decimal numeral, perhaps behind zeros and a plus, and only when it is in range |
| RegisterAddress.ParsedExactly | src/workers/modbus/operations.rs:87-110 | the handler reads exactly the texts that hold, between blanks, the letter of a type in either case and the numeral of a 16-bit number, or a numeral alone for a holding register; and it reads that type and that number |
| RegisterAddress.VerdictExactly | src/config.rs:688-722 | validation accepts exactly a letter and a numeral of 16 bits, calls a larger one of 32 bits out of range, and fails in its slice exactly at a first character outside ASCII; everything else is malformed |
| RegisterAddress.EveryNumberHasItsAddress | src/workers/modbus/operations.rs:87-110 | for every letter and number: the letter and the numeral are parsed to them up to 65535, and accepted, out of range or malformed by size |
| DeviceConfig.CheckGroup | src/config.rs:687-728 | the outcome that the address and the fields of a group decide |
| DeviceConfig.GroupOutcomeIs | src/config.rs:687-728 | that outcome in terms of how the address is written: out of range with exactly that number, a panic, accepted or refused by the fields, or malformed with the trimmed text |
| DeviceConfig.Validate | src/config.rs:679-738 | accepts exactly the configurations with distinct device ids, good groups and streams of 5 to 5000 ms; otherwise the outcome is that of the first fault in the order in which validation looks |
| DeviceConfig.FirstFaultIsUnique | src/config.rs:679-738 | there is one first fault, so the configuration determines the outcome |
| DeviceConfig.PanicsExactly | src/config.rs:688-697 | validation panics exactly when the first fault it comes to is a group whose address begins with a character of several bytes |
| DeviceConfig.AcceptedConfigIsExecutable | src/config.rs:679-738 | the address of every accepted group is a letter and a numeral and is parsed to their type and number, and every field ends inside its group, exactly unless a 16-bit sum saturated |
| DeviceControl.ValidateFieldCompleteness | src/workers/modbus/handler.rs:364-382 | lists the fields that are missing, in field order |
| DeviceControl.NothingMissing | src/workers/modbus/handler.rs:364-382 | the list is empty exactly when every field is provided |
| DeviceControl.MissingAreInOrder | src/workers/modbus/handler.rs:364-382 | the list holds exactly the fields that no entry names, in the order of the group |
| DeviceControl.OperationToModbusOp | src/workers/modbus/handler.rs:78-179 | the operation that a request becomes: group, address, register type, encoded or raw values, or none |
| DeviceControl.WriteThenRead | src/workers/modbus/handler.rs:78-179 | in an accepted configuration a complete write of a holding group becomes one write; after a register file has carried it out, the read of the group parses to every field with the value its type can hold |
| DeviceControl.WriteThenReadOverTheWire | src/workers/modbus/handler.rs:78-179 | the same through the request, the device's answer and its frame, for groups of up to 123 registers, the most that one request carries |
| CoilGroups.WriteThenReadCoils | src/workers/modbus/handler.rs:108-142 | a complete write of a coil group becomes one write that sets exactly the coils of the registers that are not zero; after a device has carried it out, the read of the group gives every field back exactly when every register of the encoding is 0 or 1 |
| CoilGroups.GroupThroughCoils | src/workers/modbus/client.rs:673-680 | registers that went through coils parse to the values exactly when they are zeros and ones |
| CoilGroups.ReadsAsOwnEncoding | src/data_conversion.rs:72-121 | of the registers that hold only zeros and ones only its own encoding reads as a value |
| DeviceControl.CrashNeedsOverrun | src/workers/modbus/handler.rs:108-165 | the encoder panics only when a field ends behind its group |
| DeviceControl.CompleteWriteCrashesExactly | src/workers/modbus/handler.rs:108-165 | for a complete object in an accepted configuration it panics exactly then |
| DeviceControl.FindGroupIsFirst | src/workers/modbus/handler.rs:59-65 | of groups with one name the first is meant |
| DeviceControl.GroupIsReadFromItsTable | src/workers/modbus/handler.rs:78-107 | in an accepted configuration a read of a group of any kind becomes the request that a device answers, register by register or bit by bit, from the table named by the letter of the group's address, beginning at the number behind it |
| DeviceControl.RawWrite | src/workers/modbus/handler.rs:108-176 | raw values: the unsigned numbers among them, in order, into registers modulo 65536 and into coils as whether they are not zero; nothing into discrete inputs and input registers |
| DeviceControl.NothingElseIsDone | src/workers/modbus/handler.rs:78-179 | a read becomes a read and a write a write of the group's own kind; a write to a read-only kind, or without fields and values, becomes nothing |
| MockDevice.LoadedIsStored | tests/mock_modbus.rs:392-560 | a write reads back, and changes no other register |
| MockDevice.PackedBit | tests/mock_modbus.rs:583-604 | bit j of the packed bytes is the j-th bit, and the padding is zero |
| MockDevice.ReadRegisters | tests/mock_modbus.rs:392-476 | replies with the registers asked for, high byte first, or an exception |
| MockDevice.ReadBits | tests/mock_modbus.rs:562-662 | replies with the bits asked for, eight to a byte, lowest first, or an exception |
| MockDevice.MockModbusState.HandleWriteSingleRegister | tests/mock_modbus.rs:478-511 | stores one register and echoes the request |
| MockDevice.MockModbusState.HandleWriteMultipleRegisters | tests/mock_modbus.rs:513-560 | stores the registers when the byte count fits both count and data, and otherwise changes nothing |
| MockDevice.MockModbusState.HandleWriteSingleCoil | tests/mock_modbus.rs:664-691 | sets a coil exactly for the value 0xFF00 and echoes the request |
| MockDevice.MockModbusState.ProcessRequest | tests/mock_modbus.rs:342-390 | every function code changes exactly the table it names and is answered in its own frame; an unknown code and an empty request change nothing |
| MockDevice.WrittenBytesReadBack | tests/mock_modbus.rs:392-560 | a read of the span of a write replies with exactly the bytes written |
| MockDevice.RegistersOverTheWire | tests/mock_modbus.rs:342-560 | registers written in one request are found in the frame that answers the next |
| MockDevice.ReadCoilsReplyBits | tests/mock_modbus.rs:562-611 | every coil asked for is found at its bit of the reply |
| MockDevice.FrameReadsBack | tests/mock_modbus.rs:693-707 | a client that reads the header finds transaction, unit and exactly the data |
| MockDevice.RegistersAreRead | tests/mock_modbus.rs:392-476 | codes 3 and 4 are answered with up to 125 holding and input registers, high byte first; more are refused with code 3 |
| MockDevice.BitsAreRead | tests/mock_modbus.rs:562-662 | codes 1 and 2 are answered with up to 2000 coils and discrete inputs, eight to a byte, the first in the lowest bit; more are refused with code 3 |
| MockDevice.SinglesAreWritten | tests/mock_modbus.rs:478-691 | codes 5 and 6 change one coil, set by 0xFF00 only, and one holding register, nothing else, and echo the request |
| MockDevice.UnknownIsRefused | tests/mock_modbus.rs:342-390 | any other code changes nothing and is refused with code 1 |
| ConfigDiff.ConfigLoader.CollectDiffPaths | src/workers/config_loader.rs:52-87 | pushes the dotted forms of the changed paths, in key order, and nothing else |
| ConfigDiff.ConfigLoader.ReloadConfig | src/workers/config_loader.rs:32-50 | reports nothing exactly when the trees are equal, adopts the new tree otherwise, and keeps the old one when reading fails |
| ConfigDiff.DiffIsSound | src/workers/config_loader.rs:52-87 | the trees differ at every reported path |
| ConfigDiff.DiffIsComplete | src/workers/config_loader.rs:52-87 | wherever the trees differ a reported path lies at, above or below |
| ConfigDiff.EmptyDiffMeansEqual | src/workers/config_loader.rs:43-45 | no path is reported exactly when the trees are equal |
| ConfigDiff.DiffIsAntichain | src/workers/config_loader.rs:52-87 | no reported path extends another, and none is reported twice |
| ConfigDiff.DiffIsSufficient | src/workers/config_loader.rs:52-87 | replacing or removing in the old tree at exactly the reported paths gives the new tree |
| ConfigDiff.RenderIsInjective | src/workers/config_loader.rs:62-67 | with keys that are not empty and hold no dot, a dotted path names one path |
| ConfigDiff.ImproperKeyCollides | src/workers/config_loader.rs:62-67 | every key that is empty or holds a dot takes part in a collision with its own pieces |
| ConfigDiff.UnambiguousExactly | src/workers/config_loader.rs:62-67 | among keys that hold the pieces of their keys, dotted paths are unambiguous exactly when no key is empty or holds a dot |
| ConfigDiff.ReportsAreUnambiguous | src/workers/config_loader.rs:32-50 | between trees whose keys are neither empty nor hold a dot, as serialised records are, no string is reported twice |
| ConfigDiff.RenderIsDotted | src/workers/config_loader.rs:62-67 | a path is reported as its keys with dots between them, without the empty keys it begins with |
| ConfigDiff.LeqIsBefore | src/workers/config_loader.rs:55-61 | keys are visited in the order of a dictionary: at the first place where two differ the lower character, or the end, comes first |
| ConfigDiff.DiffIsInKeyOrder | src/workers/config_loader.rs:52-87 | the paths are reported in that order: of any two the earlier has, where they part, the key that comes first |
| HubSend.SentExactlyAsTold | src/hub_protection.rs:107-128 | in every run: after `Ok` the message is in the hub's log exactly once, after "queue full" never, otherwise at most once |
| HubSend.LogOnlyGrows | src/hub_protection.rs:51-55 | what was sent before a return stays sent |
| HubSend.OkMessagesAreInCallOrder | src/hub_protection.rs:107-128 | a call that begins after another returned `Ok` is behind it in the log, so one client's `Ok` messages are in call order |
| HubSend.UnsentAreBounded | src/hub_protection.rs:43-80 | accepted messages are sent, in a worker's hand or in the queue, and at most 512 + 16 are not yet sent |
| HubSend.UnsentBoundIsReached | src/hub_protection.rs:43-80 | that bound is tight: some run has 528 accepted messages not yet sent |
| HubSend.RefusedExactlyWhenFull | src/hub_protection.rs:107-119 | a call is refused exactly when 512 messages wait; otherwise its message joins the end of the queue |
| HubSend.ReturnsAsSignalled | src/hub_protection.rs:107-128 | a waiting call returns `Ok` exactly when it has been signalled and times out only when it has not |
| HubSend.TakenInCallOrder | src/hub_protection.rs:43-58 | in every run whatever a worker has in hand or has sent was called before everything that still waits, which is in call order |
| HubSend.AllAcceptedCanBeSent | src/hub_protection.rs:47-58 | from every reachable state the workers alone can send every accepted message, each exactly once |
| HubSend.StepKeepsInv | src/hub_protection.rs:43-128 | every step of a caller, a worker or a timeout keeps each message in exactly one place |
| HubSend.TimedOutIsOvertakenExactly | src/hub_protection.rs:107-128 | in every reachable state after a timeout some continuation sends and acknowledges the client's next message before the one that timed out, exactly when that one is not yet in the log |
| HubSend.SentIsNotOvertaken | src/hub_protection.rs:107-128 | what is in the log is not overtaken by a later call, in any continuation |
| HubSend.TimeoutCanComeFirst | src/hub_protection.rs:120-127 | a timeout can come before any worker has taken the message |
| SseRegistry.SseConnectionRegistry.Register | src/workers/sse_worker.rs:107-117 | refuses at 100 connections; otherwise inserts under a number never given out before |
| SseRegistry.SseConnectionRegistry.Unregister | src/workers/sse_worker.rs:119-121 | removes exactly that connection |
| SseRegistry.SseConnectionRegistry.FanOut | src/workers/sse_worker.rs:127-199 | run alone, in any order of visiting: the audience has the event where there was room, its dead connections are gone, all others are as before, and the result counts the deliveries |
| SseRegistry.SseConnectionRegistry.SendToSubscribers | src/workers/sse_worker.rs:127-172 | of the connections of the device and group the closed are gone, an open one with fewer than 100 waiting has the update at the end of its queue, a full one and all others are as before; the result counts those with room |
| SseRegistry.SseConnectionRegistry.SendHeartbeatToAll | src/workers/sse_worker.rs:174-199 | every closed connection is gone, every open one with fewer than 100 waiting has the heartbeat at the end of its queue, a full one is as before; the result counts those with room |
| SseRuns.EveryClientIsServed | src/workers/sse_worker.rs:127-172 | in every run, with clients joining and leaving in the middle of a fan-out, each client's channel took or skipped exactly the updates that concern it among those offered while it was registered, in order and once each, the client received a prefix of what was taken, and it is behind by no more than the update under way |
| SseRuns.SentIsCounted | src/workers/sse_worker.rs:133-171 | in every run the count of an update's fan-out is at every moment, and so when it is returned, the number of clients whose channel took the update, whoever joins, leaves or receives meanwhile |
| SseRuns.HeartbeatComesToEveryone | src/workers/sse_worker.rs:174-199 | whatever happens meanwhile, by the time a heartbeat's fan-out is over it has come to every client connected when it began: the heartbeat is then at the end of its queue if there was room, and a client that is gone is noted for removal |
| SseRuns.GapsOnlyWhenFull | src/workers/sse_worker.rs:142-160 | when the fan-out comes to a subscriber, the update passes it by exactly when 100 events wait, or when its client is gone, which is then to be removed |
| SseRuns.IdsAreNeverReused | src/workers/sse_worker.rs:114-115 | whatever follows, a number names the same client for good, what it took and received only grows, and once removed it is not connected again |
| SseRuns.RegistryIsBounded | src/workers/sse_worker.rs:107-117 | with T registering threads the registry holds at most 99 + T clients |
| SseRuns.LimitIsOverrun | src/workers/sse_worker.rs:108-115 | for every T that bound is reached |
| StreamScheduler.DataStreamWorker.constructor | src/workers/data_stream_worker.rs:27-179 | groups the streams and starts the timer of every group |
| StreamScheduler.GroupStreamsByInterval | src/workers/data_stream_worker.rs:36-47 | one non-empty group for every interval of an enabled stream, its members in configured order |
| StreamScheduler.GroupsPartition | src/workers/data_stream_worker.rs:36-47 | an enabled stream is in the group of its interval as often as configured and in no other; a disabled one is in none |
| StreamScheduler.EnabledIsInSomeGroup | src/workers/data_stream_worker.rs:36-47 | no enabled stream is lost |
| StreamScheduler.MembersAreInOrder | src/workers/data_stream_worker.rs:36-47 | the members of a group are the enabled streams of its interval, all of them and in configured order |
| StreamScheduler.RoundKeeps | src/workers/data_stream_worker.rs:196-237 | a round that starts when its timer has run out keeps every round of an interval that interval away from earlier ones and from resets |
| StreamScheduler.DataStreamWorker.ResetTimers | src/workers/data_stream_worker.rs:187-190 | starts the timer of every group anew |
| StreamScheduler.DataStreamWorker.CollectDue | src/workers/data_stream_worker.rs:196-219 | finds exactly the groups whose interval has passed since their timer was started, each once, with its members in order; a group without a timer only if its interval is zero |
| StreamScheduler.DataStreamWorker.RunRound | src/workers/data_stream_worker.rs:221-237 | polls each member once, in order, and restarts the timer at completion |
| StreamScheduler.DataStreamWorker.PollSignalGroup | src/workers/data_stream_worker.rs:49-144 | an answer, good or bad, is broadcast under the next sequence number, which is used up even if the hub does not take it; the other endings broadcast nothing |
| StreamScheduler.DataStreamWorker.Tick | src/workers/data_stream_worker.rs:183-238 | over any number of ticks and configuration updates a group is polled exactly when its interval has passed since its timer was started, once, every member by device and signal group; and a poll starts at least its interval after the previous one of that interval ended and after the last reset |
| Lifecycle.LifeCycle | src/workers/modbus/state.rs:91-165 | for every sequence of calls: the events are the failed attempts before the first success, that success, and nothing after; `Connecting` is never seen between calls; attempt k uses min(1000 * 2^k, 30000) ms and success restores 1000 ms |
| Lifecycle.TimeoutHandler.OnTimeout | src/workers/modbus/types.rs:114-116 | doubles the timeout up to 30 seconds |
| Lifecycle.ModbusWorkerState.UpdateConnectionState | src/workers/modbus/state.rs:91-114 | emits an event exactly on a change of state |
| Lifecycle.ModbusWorkerState.EnsureConnected | src/workers/modbus/state.rs:141-165 | changes what can be seen of the device as one step of the life cycle, and succeeds exactly when there is a pool |

## Left out

- ConnectionPool.ModbusConnectionPool.EvictAndTake: reads the clock once, where the loop reads it for every connection it looks at.
- RequestSystem.EveryRequestIsAnsweredOnce: a panic inside the sending of an answer, the process-wide panic hook of the framework, and the shutdown of the runtime without a panic are not steps.
- RequestSystem.OpenConnectionsAreBounded: the test connection that is opened and closed when the pool is made is not counted.
- LatencyMonitor.LatencyMonitor.ProcessLatencySample: the text of the event is not modelled.
- LatencyMonitor.LatencyStats.AddSample: over the reals, so it says nothing about the drift of repeated floating-point updates.
- DataConversion.BytesRoundTrip: IEEE 754 rounding and bit patterns are parameters with the stated laws.
- SseRegistry.SseConnectionRegistry.Register: runs alone on the object, as its `FanOut` does; registration with the check and the insertion apart, and fan-outs that are interrupted, are `SseRuns`.
- SseRuns.EveryClientIsServed: a client inserted during a fan-out may or may not be visited by it; the registry is not cleared at shutdown.
- HubSend.SentExactlyAsTold: `Hub.send` is an append to a log; a panic inside it, which ends a worker, is not modelled.
- StreamScheduler.DataStreamWorker.PollSignalGroup: how a poll ends is arbitrary, the values and the data cache are left out, and time may pass at every reading of the clock.
- MockDevice.ReadRegisters: requires that the addresses of a request that is carried out stay within 65536, where the double's 16-bit addition would overflow; so do the other span requests. Holding and input registers share it, as their handlers differ only in the map.
- MockDevice.ReadBits: coils and discrete inputs share it for the same reason.
- Lifecycle.ModbusWorkerState.EnsureConnected: the bounded event buffer that drops its oldest event, and the back-off object that is only reset here, are not modelled.
- ConfigDiff.ConfigLoader.ReloadConfig: reading, parsing and validating the file are one outcome; arrays and scalars are leaves compared as a whole.
- MockDevice.MockModbusState.ProcessRequest: without the custom handlers of the double, its delays, drops and simulated failures.
- The JSON shape of results, and the conversion of a device's answer from JSON values back to registers.
- Socket I/O, the RPC and HTTP servers, tracing, the file watcher, and TOML parsing.
- DeviceControl.WriteThenReadOverTheWire: the library that encodes operations as requests is foreign code; the requests are those of sections 6.3 and 6.12 of the MODBUS Application Protocol Specification V1.1b3. Groups above 123 registers do not fit one request and are covered by `DeviceControl.WriteThenRead` only.
- `ConfigUpdater`, `DeviceManager`, `Backoff`, correlation ids, the heartbeat round robin and the data cache: single-step facts.
