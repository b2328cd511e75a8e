# A verified model of fluent-agent-hydra

fluent-agent-hydra follows log files, cuts what is appended to them into lines, packs the lines of each
read into a record set, and forwards every record set as one MessagePack frame to one of several Fluentd
servers. It can also receive such frames from other agents, hold them in a bounded queue, and publish
statistics about all of it. This project models those parts in Dafny and proves what they promise, from a
single read of a file up to the whole agent with any number of files and a shutdown.

`dafny verify dfyconfig.toml` checks everything.

## How it is built

| file | what it models |
|---|---|
| `Prelude.dfy` | bytes, `int64` wrap-around, instants, sequence facts |
| `Lines.dfy` | `bytes.Split`, what the complete lines of a stream are, and the read loop's cutting as a function |
| `GoSlice.dfy` | Go slices: windows on a shared array, `append` in place or into a new array |
| `TailFile.dfy` | `File` of hydra/file.go on the heap: read buffer, carried fragment, record sets that are windows on blocks |
| `TailRun.dfy` | following one path while the environment appends, renames, recreates and truncates: a transition system |
| `Msgpack.dfy` | the hand-written MessagePack writer |
| `MsgpackDecode.dfy` | a reader of all MessagePack formats, written from the format specification ("Formats") |
| `PackedForward.dfy` | `DecodeEntries` and the round trip with the writer (Fluentd Forward Protocol Specification v1, "PackedForward Mode" and "EventTime Ext Format") |
| `Buffer.dfy` | the receiver's bounded queue |
| `Sender.dfy` | round robin, ordered failover, retry until accepted |
| `Reconnect.dfy` | one server connection shared with background reconnectors: a transition system |
| `Monitor.dfy` | statistics as a fold over events |
| `Receiver.dfy` | connection handlers, feeder and statistics around the queue: a transition system |
| `UnixTime.dfy` | decimal seconds to instants |
| `Ltsv.dfy` | the LTSV encoder against the LTSV record builder |
| `Convert.dfy` | column types and time keys |
| `Pipeline.dfy` | all file tailers, the message channel, the sender and the shutdown together: a transition system |

Code that works by assignment is modelled by methods over classes and arrays. Each such method is tied by
its contract to a function on values, and the theorems are about those functions. Protocols are transition
systems: a state, the steps that the program and its environment can take, and theorems over every finite
sequence of steps. The network, the file system and the clock appear as steps or as arguments whose values
nothing restricts.

The main results are these.

- *Reading* (`Lines`, `TailFile`): however a byte stream is cut into reads, the records are its complete
  lines, in order, one per newline, and the carried fragment is the rest. The heap version proves it for the
  real three-branch loop over the shared read buffer, and that later reads never change a record set that
  was already handed out.
- *Following* (`TailRun`): over every run, `Position` is the descriptor's offset, and without truncation
  each opening reads its file once and in order; a rotation that drains to the end loses only the
  unterminated last line.
- *Frames* (`Msgpack`, `MsgpackDecode`, `PackedForward`): decoding a packed record set gives back exactly
  what was sent if and only if everything fits its length and time field.
- *Delivery* (`Sender`, `Pipeline`): in every interleaving nothing is sent on the closed channel, and when
  the sender exits, what the servers accepted is exactly what the tailers sent, each set once and in order,
  and holds exactly the complete lines of the bytes each tailer read.
- *Receiving* (`Buffer`, `Receiver`, `Monitor`): no record leaves the accounts, whatever the order of
  events.
- *Statistics* (`Monitor`, `Pipeline`): the messages counted for a tag are the lines read under that tag.

## Where the code does not do what one would expect

For each of these there is an input or a run that shows it, and a theorem that says exactly when the code
does what is expected.

- *A file read twice.* A file that is opened again is read again from its start, and its lines are sent
  again. There are two ways to it. One is that a handle is given up while its file still has the path: two
  quick rotations do it (`RapidRotationRereads`: the second rename event is delivered to the file that has
  already replaced the first one), and so does an error of a stat or a read. The other is that a file which
  was rotated away and given up is renamed back (`MovedBackRereads`). After a handle was given up, its file
  can be opened again without being renamed back if and only if it still had the path at that moment; renamed
  back, it can be opened at once (`ReopenedIff`). In runs with neither, no file is opened twice
  (`InOrderReadsOnce`).
- *Truncation.* The rewind keeps the carried fragment, which ends up in front of the first new line
  (`TruncationGluesLines`). It does no harm exactly when the fragment is empty or no newline follows
  (`StaleFragment`, `RewindKeepsStaleCarry`). A truncation is noticed exactly when the file is shorter than
  the position at the next check (`NoticedIff`); a file that has grown back by then is not read from its
  start (`RegrownIsNotRead`).
- *A nil connection.* A failed `RefreshConnection` starts a reconnector without setting the flag. A second
  reconnector can then run beside it and take away the connection that `Send` is about to use
  (`OverlapDropsConnection`). Between two sends, this can follow without another failed refresh if and only
  if a reconnector runs with the flag clear, or two run (`NilConnectionIff`); every failed refresh leaves
  such a state behind (`FailedRefreshIsLoose`), and without one it is never reached
  (`NilConnectionNeedsFailedRefresh`). The flag itself never gets stuck (`FlagIsNeverStuck`).
- *A shutdown while reconnecting* cancels the reconnectors only if the flag is set. One that runs with the
  flag clear goes on dialing until it connects (`ShutdownEndsIff`).
- *Negative decimal times.* `-1.5` becomes -0.5: the fraction counts upwards. The result is right exactly
  when the fraction has no nanoseconds (`NegativeExactIff`).
- *Fractions that are not digits.* `1.-5` becomes 0.95, `1.+5` becomes 1.05 and `1.5x` becomes 1
  (`OddFractions`). Any fraction is accepted; a sign in front of it is obeyed and costs a digit, and other
  characters among the first nine make it zero (`ConvertFraction`). The digits are read as they stand if and
  only if the first nine characters are all digits, or the digits come to no nanosecond (`FractionExactIff`).
- *Times in frames.* An int64 time loses its nanoseconds and an EventTime its seconds beyond 32 bits
  (`RoundTripExactIff`).
- *The backlog shown by the monitor* is set to zero by every connection event (`BacklogHidden`); that is right
  exactly when the queue holds no record (`ConnectionEventHidesBacklog`). After any event it is right exactly
  when as many records came in since the length was read as went out (`ShownBacklogIff`). A connection in the very first event
  would be missed (`ReceiverTotals`); the receiver sends its address first, so it never is
  (`MonitorAccounts`).
- *Type conversion* done twice differs from done once, for some data, exactly when a key has a float
  converter under the integer type. `NewConvertMap` never builds such a map (`IdempotentIff`).
- *A time key with a type.* A time that the data hold as a string gets into the record if and only if no
  converter takes the string first (`TimeUsedIff`). A unix time key that is also configured as an integer
  loses whole seconds and keeps times with a fraction (`IntegerTimeKey`).
- *Documentation.* The repository's README names the type `interger`; the code accepts only `integer`, and
  the model follows the code.

## Model

| member | source | states |
|---|---|---|
| Lines.SplitJoin | hydra/hydra.go:75 | Splitting loses nothing (joining gives the input back) and no part holds the separator, for every byte string |
| Lines.JoinSplit | hydra/hydra.go:75 | Separator-free parts, joined, are split into exactly those parts again |
| Lines.LastIndex | hydra/file.go:108 | The last position of the byte, or -1: nothing behind it is that byte |
| Lines.LinesUnique | hydra/hydra.go:73-85 | Complete lines and fragment are the one way to cut a stream into newline-free pieces of which all but the last are ended by a newline |
| Lines.ConsumeLines | hydra/file.go:101-124 | One turn of the read loop emits exactly the lines that the read completes and carries exactly the rest, which has no newline |
| Lines.ConsumeResumes | hydra/file.go:101-124 | The same against the whole stream read so far, of which only the fragment was kept |
| Lines.ChunkingIndependence | hydra/file.go:92-128 | For every stream and every way of cutting it into non-empty reads, the records are the complete lines of the stream, as many as newlines were read, and the carry is its newline-free rest |
| Lines.SameStreamSameRecords | hydra/file.go:92-128 | Two ways of cutting one stream give the same records and the same carry |
| Lines.ResumeLines | hydra/file.go:101-124 | Reading on from the fragment alone gives the lines and the fragment of the whole stream |
| Lines.StaleFragment | hydra/file.go:84-88 | A fragment kept in front of unrelated bytes leaves their lines right if and only if it is empty or no newline follows; otherwise it is glued to the first line |
| GoSlice.Append | hydra/file.go:101-120 | `append`: the contents are extended; the old array is written only while the capacity lasts, otherwise the result is in a new array |
| TailFile.NewFluentRecordSet | hydra/hydra.go:73-85 | One record per part of the block, in order, with the given tag, key and time; every message is a window on the block's own array and none is copied |
| TailFile.File.constructor | hydra/file.go:39-75 | A new file starts with no carry, at the end or at the start as asked, with a buffer of its own |
| TailFile.File.Restrict | hydra/file.go:77-90 | Position goes to 0 exactly when the file is shorter than it; the carry stays |
| TailFile.File.TailAndSend | hydra/file.go:92-128 | After any reads the record sets handed out hold, now, exactly the complete lines of all bytes read since opening, the carry is the fragment, Position moved by the bytes read, and no array handed out before was changed; the sets sent are one for each read that held a newline, under the file's tag and field name, with the clock's value at that read |
| TailFile.File.Iterate | hydra/file.go:92-128 | The same for one read: it sends nothing if it holds no newline, and otherwise one set, under the file's tag and field name and the time of the read |
| TailFile.File.Cut | hydra/file.go:101-124 | The three branches over the shared arrays compute the value-level step: block and carry have its contents, and the block lies in a new array that shares nothing with the carry |
| TailFile.File.CutAtEnd | hydra/file.go:101-107 | Block is carry plus buffer without its final newline; the carry is emptied |
| TailFile.File.CutInside | hydra/file.go:113-123 | Block is carry plus buffer up to its last newline; the carry is a new array with what follows it |
| TailFile.File.Block | hydra/file.go:100-107 | The carried fragment and the front of the read buffer, in an array of their own |
| TailFile.File.Emit | hydra/file.go:125-126 | The record set of the block is sent once, with the file's tag, field name and the time given, and all messages handed out so far are those before plus the lines of the block |
| TailRun.EveryRun | hydra/in_tail.go:179-274 | Every reachable state: Position is the descriptor's offset; carry and emitted lines are those of the bytes read; without truncation those bytes are the file's own from the start position, once and in order; every opening but the first starts at 0; all lines sent are those of the openings in order |
| TailRun.StepKeeps | hydra/in_tail.go:179-274 | Each step of environment or tailer keeps that invariant |
| TailRun.ReadHandle | hydra/file.go:93-126 | A read extends histories, carry and offset consistently and adds exactly the lines it completes |
| TailRun.AbandonKeeps | hydra/in_tail.go:248-252 | Dropping a file, drained or after an error, keeps the invariant, with the file's contents at that moment on record |
| TailRun.ClosedStep | hydra/in_tail.go:179-274 | A handle is given up by exactly four things: a drained rename or remove, a failed stat, a failed read, the shutdown; all but the last lead to opening the path again, from its start |
| TailRun.FirstOpeningStarts | hydra/in_tail.go:170-238 | In every run the first opening starts at the size that the file has at that step, if no open failed before it, and at 0 if one did |
| TailRun.NothingOldIsRead | hydra/file.go:39-75 | With no failed open before it, and without truncation, the first opening reads what was appended after it and no byte that the file held then |
| TailRun.RotationLosesOnlyTheFragment | hydra/in_tail.go:248-252 | When a rename or remove was drained to the end, the file from its start position is the emitted lines, newline-ended, followed by the dropped carry |
| TailRun.RewindKeepsStaleCarry | hydra/file.go:84-88 | After a rewind in any run, the lines read next are right if and only if the carry was empty or no newline follows |
| TailRun.TruncationGluesLines | hydra/file.go:84-88 | A run in which a file is truncated with a fragment carried: `ab` is sent, a line that was never in the file |
| TailRun.NoticedIff | hydra/file.go:84-88 | In any run a check goes back to the start if and only if the file is then shorter than what was read of it, and otherwise stays where it is |
| TailRun.RegrownIsNotRead | hydra/file.go:84-88 | A run in which a truncated file grows back before the check: its new line is never read, with nothing carried |
| TailRun.ReopenedIff | hydra/in_tail.go:191-203 | In any run, a handle given up after a drained rename or an error is followed, in some continuation that does not rename its file back onto the path, by another opening of that file if and only if the file still has the path at that moment; then, or else after renaming it back, the tailer can open it at 0 at once |
| TailRun.InOrderReadsOnce | hydra/in_tail.go:179-274 | In every run where no handle is given up while its file has the path, and no file that was given up gets the path back, all openings are of different files |
| TailRun.RapidRotationRereads | hydra/in_tail.go:191-203 | A run without truncation or read error, with two quick rotations, in which one line is sent twice |
| TailRun.MovedBackRereads | hydra/in_tail.go:191-203 | A run without truncation or error in which a file is rotated away, drained, renamed back, opened a second time, and its line sent twice |
| Msgpack.BigEndianTruncates | fluent/msgpack.go:50-52 | Reading back a number written in w bytes gives it modulo 256^w |
| Msgpack.BigEndianDigit | fluent/msgpack.go:50-52 | Byte k of the number is v / 256^(width - 1 - k) mod 256: the most significant byte comes first |
| Msgpack.MsgpackBuffer.WriteTime | fluent/msgpack.go:54-66 | Appends exactly the EventTime extension or the int64 form of the instant |
| Msgpack.MsgpackBuffer.WriteMpStringHead | fluent/msgpack.go:68-82 | Appends exactly the str head of the length's class |
| Msgpack.MsgpackBuffer.WriteMpBytesHead | fluent/msgpack.go:84-96 | Appends exactly the bin head of the length's class |
| Msgpack.ToMsgpackTinyMessage | fluent/msgpack.go:98-115 | The sequence of writes produces the array of the time and a one-entry map, for which the decoding lemmas below hold |
| Msgpack.ToMsgpackRecordSet | fluent/msgpack.go:130-143 | The sequence of writes produces the array of the tag and the body, both as str |
| Msgpack.PackAsPackedForward | fluent/server.go:153-163 | The frame holds the packed records one behind the other, in order |
| MsgpackDecode.DecodeMore | fluent/server.go:303-314 | Whatever decodes from some bytes decodes the same with any bytes behind it, which are left over: every MessagePack format is self-delimiting |
| MsgpackDecode.DecodeStr | fluent/msgpack.go:68-82 | A packed string of any length is read back as its first (length mod 2^32) bytes with the rest left over, across all length classes: all of it exactly below 2^32 |
| MsgpackDecode.DecodeBin | fluent/msgpack.go:84-96 | The same for the bin heads |
| MsgpackDecode.DecodeTime | fluent/msgpack.go:54-66 | A packed instant is read back as int64 seconds, or as 32-bit seconds and nanoseconds, with nothing else consumed |
| MsgpackDecode.SelfDelimiting | fluent/msgpack.go:98-115 | A packed message followed by any bytes decodes to that message with exactly those bytes left |
| MsgpackDecode.OversizeShows | fluent/msgpack.go:98-115 | With strings of any length, a packed message that decodes at all gives the right time and visibly shortened strings |
| PackedForward.DecodeRecordSet | fluent/server.go:209-241 | Entry by entry: the first bad entry fails the set with its own error, otherwise one record per entry in order |
| PackedForward.ReadEntries | fluent/server.go:302-314 | The decode loop over the body ends with all entries or with an error |
| PackedForward.CoerceSettles | fluent/server.go:198-207 | Coercion leaves no raw value at any depth it reaches, keeps the keys, and changes a value exactly when there was one |
| PackedForward.ExtArrives | fluent/server.go:188-196 | Eight bytes of EventTime give back seconds below 2^32 and nanoseconds |
| PackedForward.ExtOfAnyLength | fluent/server.go:188-196 | A shorter EventTime payload leaves zeros, surplus bytes are ignored |
| PackedForward.DecodeRecordsIff | fluent/server.go:209-241 | A set is decoded if and only if every entry is an array of a time and a map, to one record each in order; otherwise the first bad entry's error is returned |
| PackedForward.EntryTimes | fluent/server.go:216-235 | An entry is decoded if and only if its first element is a time; integers and floats give whole seconds, EventTime itself, and every value is coerced under its own key |
| PackedForward.DecodeOkIff | fluent/server.go:243-324 | Whatever the bytes, a message is accepted if and only if it is an array with a raw tag and then good entries, or a raw body of good entries, or a time and a map |
| PackedForward.ForwardMode | fluent/server.go:290-301 | The same messages in a plain array decode to the same record set as in a packed body |
| PackedForward.MessageMode | fluent/server.go:256-289 | A tag, a time and a map decode to that one record; an option behind them is ignored |
| PackedForward.BodyArrives | fluent/server.go:302-314 | The body of any list of messages decodes to one entry per message, in order, each with its carried time and its single field |
| PackedForward.RoundTrip | fluent/server.go:153-163 | Decoding a packed record set with fields below 2^32 bytes gives the same tag and the same list of (time, {field: message}), times as the format carries them |
| PackedForward.BodyFaithful | fluent/server.go:302-314 | Conversely, records that come back as sent, even from a cut body, were all within the limits, and the body was not cut |
| PackedForward.RoundTripExactIff | fluent/server.go:243-324 | The round trip is exact, to the nanosecond, if and only if tag, strings and body are below 2^32 bytes and every time is expressible: whole seconds in int64 mode, seconds in [0, 2^32) in EventTime mode |
| Buffer.MakeRoomLeast | hydra/buffer.go:40-45 | The disposal loop drops the shortest prefix that leaves room, or everything |
| Buffer.EnqueueMinimal | hydra/buffer.go:35-49 | What remains is the longest suffix that fits beside the new set, which is always queued at the back; afterwards the records are within the limit or one single set is queued |
| Buffer.EveryQueueRun | hydra/buffer.go:35-62 | Over every sequence of operations: removed then queued sets are the enqueued ones in order, the counter is the exact total, enqueued = disposed + dequeued + queued, the bound holds, and the reset on an empty Dequeue changes nothing |
| Buffer.DequeueTakesFront | hydra/buffer.go:51-62 | A Dequeue takes exactly the front set out of the list, its size off the counter, and counts it as dequeued; on an empty queue it does nothing |
| Buffer.GivenAndReturned | hydra/buffer.go:35-62 | In every run the accounts are about what the Enqueues were given and what the Dequeues returned, each in order: given = disposed + returned + queued |
| Buffer.Perform | hydra/buffer.go:35-62 | Any sequence of operations on the object returns exactly those sets |
| Buffer.MessageQueue.Enqueue | hydra/buffer.go:35-49 | The least front part of the list that makes room is dropped, the set stands at the back, and the number of records dropped is returned |
| Buffer.MessageQueue.Dequeue | hydra/buffer.go:51-62 | The front set is returned and is no longer in the list, and the counter drops by its size; an empty queue returns nothing |
| Buffer.MessageQueue.Len | hydra/buffer.go:68-72 | The cached counter is the number of records in all queued sets |
| Sender.OutForward.BuildOrder | hydra/out_forward.go:80-89 | The order of the pass is the rotation by sent mod n, or the list order; the configured loggers stay as they were |
| Sender.OutForward.Rotate | hydra/out_forward.go:83-84 | The `append` onto a slice without spare capacity copies: the rotation is built and the shared array is untouched |
| Sender.OutForward.OnePass | hydra/out_forward.go:90-113 | Reconnecting loggers are skipped, the first to accept ends the pass, and exactly the loggers asked up to there were sent to |
| Sender.OutForward.OutForwardRecieve | hydra/out_forward.go:67-123 | The set is accepted by the first logger in order of the first pass in which anyone accepts; one statistics event and one count follow, and neither before; every pass sent to exactly the loggers it should |
| Sender.AskedOnce | hydra/out_forward.go:90-113 | The loggers sent to in a pass are those asked and not reconnecting, none of them twice |
| Sender.OrderIsPermutation | hydra/out_forward.go:80-89 | The order of every pass holds every logger exactly once |
| Sender.RotationIsCyclic | hydra/out_forward.go:81-84 | Place d of the order holds logger (sent + d) mod n |
| Sender.FailoverIsCyclic | hydra/out_forward.go:78-122 | The delivery in closed form: the first accepting logger in cyclic order from sent mod n, in the first pass in which any of the n accepts |
| Sender.DeliveredBy | hydra/out_forward.go:90-113 | Asking one logger at a time, round the order until one accepts, makes exactly the delivery that fits the answers |
| Sender.FirstTakesIt | hydra/out_forward.go:90-111 | When all accept, the first in order takes the set in the first pass, and only it |
| Reconnect.FlagIsNeverStuck | fluent/fluent.go:164-226 | In every reachable state, overlapping reconnectors included, a set flag means that a reconnector is running, and none returns without clearing it |
| Reconnect.NilConnectionNeedsFailedRefresh | fluent/fluent.go:164-226 | In runs without a failed refresh there is at most one reconnector, the flag tells exactly whether it runs, and the sender never uses a nil connection |
| Reconnect.NilConnectionIff | fluent/fluent.go:164-226 | From any state between two sends, a continuation without another failed refresh uses a nil connection if and only if a reconnector runs with the flag clear, or two run |
| Reconnect.FailedRefreshIsLoose | fluent/fluent.go:196-203 | After every failed refresh of every run such a state is reached, and a nil connection can be used |
| Reconnect.RefreshedIff | hydra/out_forward.go:106-109 | In every run a write is followed by a refresh if and only if it succeeded and is the hundredth, two hundredth, ... of the run; a failed one leaves no connection |
| Reconnect.RefreshReplaces | fluent/fluent.go:196-203 | A refresh leaves a connection if and only if its dial succeeded, and one more reconnector if and only if it reported an error, with the flag as it was |
| Reconnect.DialOutcomes | fluent/fluent.go:132-157 | A reconnector's dial ends its work if and only if it reported no error; an address that cannot be looked up leaves the connection as it was |
| Reconnect.SendWithoutConnection | fluent/fluent.go:205-214 | A send without a connection starts one reconnector, sets the flag, and does not write |
| Reconnect.ShutdownEndsIff | fluent/fluent.go:103-108 | After a shutdown a reconnector that has not connected can end without connecting if and only if the flag was set at the shutdown |
| Reconnect.OverlapDropsConnection | fluent/fluent.go:164-226 | A run with a failed refresh in which two reconnectors overlap and the sender uses a nil connection |
| Monitor.Stats.ApplySent | hydra/monitor.go:76-86 | After every event each tag's object holds the sums of all that tag's events, although the first event's own object is the accumulator |
| Monitor.Stats.ApplyReceiverStat | hydra/monitor.go:88-104 | The first event's own object becomes the record and stays it; later events are added to it and are not changed |
| Monitor.RunReceiver | hydra/monitor.go:113-118 | Any sequence of distinct receiver events is folded in order into the first one's object |
| Monitor.Stats.Run | hydra/monitor.go:113-118 | Any sequence of distinct new event objects is folded in order, each with the numbers it was made with |
| Monitor.ReceiverTotals | hydra/monitor.go:88-104 | Messages and disposed are the sums over all events; current connections are the open ones if and only if the first event carried none, and total connections are those opened after it; limit and address are the first event's and the last one named |
| Receiver.HandleMessage | hydra/in_forward.go:118-130 | All record sets of a message are enqueued, in order; the counts reported are the records received and the records disposed for them |
| Receiver.EveryRunInv | hydra/in_forward.go:43-131 | Every reachable state, any number of handlers: every record enqueued or disposed is in an event or still held by a handler, and no prefix of the events closes more connections than it opened |
| Receiver.DecodedAndFed | hydra/in_forward.go:80-131 | In every run the sets enqueued are those decoded, in order, as many were dequeued as the feeder took, and there is one handler and one connection counted per accept |
| Receiver.ReportsBacklog | hydra/in_forward.go:84-89 | The backlog that the feeder reports is the total queued at the moment it asked |
| Receiver.ReportsCounts | hydra/in_forward.go:118-130 | A handler reports what it counted, with the total queued at the moment it asked |
| Receiver.MonitorAccounts | hydra/in_forward.go:43-131 | At every moment 0 <= current <= total connections are shown; once all is applied, current is the open ones, total the accepted ones, messages the records decoded, and messages - disposed = records fed on + records queued |
| Receiver.ShownBacklogIff | hydra/monitor.go:98-104 | In any run the backlog shown is the total of an earlier queue, that of the last event applied; it is right if and only if as many records came in since then as were disposed or fed on |
| Receiver.ConnectionEventHidesBacklog | hydra/in_forward.go:67-69 | Right after a connection event the backlog shown is 0: correct if and only if nothing is queued |
| Receiver.BacklogHidden | hydra/in_forward.go:67-69 | A run in which one record is queued and shown, until someone connects and none is shown |
| UnixTime.ConvertDecimal | hydra/fileformat.go:79-100 | For digits s and f of any length, `s.f` is value(s) seconds and floor(value(f) * 10^9 / 10^len(f)) nanoseconds |
| UnixTime.NanosFloor | hydra/fileformat.go:89-95 | Padding or cutting to nine digits computes that floor, which is in [0, 10^9) |
| UnixTime.ParseIntIff | hydra/fileformat.go:71-73 | An integer is parsed if and only if the string is digits, with a sign or without, and what they denote is an int64, to just that |
| UnixTime.ConvertFailsIff | hydra/fileformat.go:81-87 | The conversion fails if and only if what stands before the first dot denotes no int64 |
| UnixTime.NegativeExactIff | hydra/fileformat.go:79-100 | `-s.f` is -value(s) seconds plus the fraction: the number written, cut to nanoseconds, if and only if the fraction has none |
| UnixTime.ConvertFraction | hydra/fileformat.go:79-100 | Whole seconds that parse, with any bytes as a fraction, are converted: the fraction adds its first nine characters if they are digits, the signed last eight if they are a sign and digits, and nothing otherwise |
| UnixTime.FractionExactIff | hydra/fileformat.go:89-98 | What a fraction adds is what its digits denote if and only if the first nine characters, padded, are digits, or the digits come to no nanosecond |
| UnixTime.OddFractions | hydra/fileformat.go:89-98 | `1.-5` gives 0.95, `1.+5` gives 1.05 and `1.5x` gives 1 second |
| UnixTime.ConvertInvertsPrint | hydra/fileformat.go:79-100 | Converting what is printed with nine fraction digits gives back every int64 instant, those before the epoch included |
| UnixTime.ConvertMonotone | hydra/fileformat.go:79-100 | A larger non-negative decimal number never gives an earlier instant, however many digits either has |
| Ltsv.EscapeRefined | ltsv/ltsv.go:12-24 | The three replacements in turn equal the simultaneous one on every byte string, and no tab, newline or CR is left |
| Ltsv.EscapeIdentityIff | ltsv/ltsv.go:12-24 | Escaping changes nothing if and only if there is nothing to escape |
| Ltsv.CollectKeys | ltsv/ltsv.go:40-43 | Whatever the map order, exactly the keys, each once |
| Ltsv.Encode | ltsv/ltsv.go:34-76 | The columns in key order, tab-separated, and a newline; a writer that fails after some bytes has got exactly that many of them, and the error is returned if and only if the line did not fit |
| Ltsv.OneEncoding | ltsv/ltsv.go:40-44 | There is one such line for a record, whatever the map order |
| Ltsv.SortedKeysUnique | ltsv/ltsv.go:40-44 | There is only one sorted order of the keys, so the output does not depend on the map order |
| Ltsv.LessIff | ltsv/ltsv.go:44 | The order is that of Go strings: a proper front part comes first, otherwise the first differing byte decides |
| Ltsv.NewFluentRecordLTSV | hydra/hydra.go:115-132 | A key has a value if and only if the last column that sets the key sets it to that: `key:value`, the key being what stands before the first colon, or, without a colon and not empty, the field name to the whole line |
| Ltsv.ParsedAsSet | hydra/hydra.go:115-132 | The same of the line as a function |
| Ltsv.LineRoundTripIff | hydra/hydra.go:115-132 | A written line is read back as the record, values escaped, if and only if keys have no colon or tab and rendered values no tab |
| Ltsv.LtsvRoundTripIff | ltsv/ltsv.go:34-76 | n >= 1 records, encoded one after the other and read as a block, come back as those n records if and only if keys have no colon, tab or newline and rendered values no tab or newline |
| Ltsv.UnescapedIff | ltsv/ltsv.go:12-24 | The values read back are the original ones if and only if no string held a tab, newline or CR |
| Convert.NewConvertMap | hydra/fileformat.go:173-197 | Both internal maps have exactly the keys that some definition sets, with the type of the last one that does, and agree |
| Convert.DefinitionIff | hydra/fileformat.go:177-194 | A definition sets a key if and only if it is the key, a colon, and `bool`, `integer` or `float`, each to its own type and converter |
| Convert.ConvertTypes | hydra/fileformat.go:199-228 | For every iteration order, kind by kind: a string becomes the int64 that it denotes, or what ParseBool or ParseFloat say, or stays; floats under the integer type become their truncation, ints the same number; everything else, and every unconfigured key, stays |
| Convert.IdempotentIff | hydra/fileformat.go:199-228 | Conversion is idempotent on all data if and only if no key has a float converter under the integer type, which holds for every map whose two parts agree |
| Convert.Modify | hydra/fileformat.go:118-132 | Data are converted in that way; the timestamp is the time that the data carried before the conversion, if parsing is on and no converter takes it |
| Convert.PlainTimeKey | hydra/fileformat.go:118-132 | With no types configured the time is what the string under the key says, as unix time or in the configured layout, and there is none without parsing, key or string |
| Convert.TextAfterConversion | hydra/fileformat.go:118-132 | After conversion the time key holds a string if and only if it held one before that no converter takes, and then the same one |
| Convert.TimeUsedIff | hydra/fileformat.go:118-132 | Converting first and reading the time key afterwards finds the time that the data carried before; one held as a string is found if and only if types are not configured, or not for that key, or its converter fails on the string |
| Convert.IntegerTimeKey | hydra/fileformat.go:118-132 | With the time key configured as integer and the unix format, every whole second is lost and every time with a fraction is used |
| Pipeline.EveryRun | hydra/hydra.go:224-229 | Every reachable state of all tailers, channel, sender and shutdown: what was sent is what was accepted, then what is in hand, then what is in the channel, in order; each tailer's sets are those sent and the one pending; after the close all tailers have stopped |
| Pipeline.EndToEnd | hydra/hydra.go:224-229 | No tailer ever sends on the closed channel; when the sender has exited, the accepted sets are exactly those sent, once each and in order, and per tailer they hold exactly the complete lines of the bytes it read, opening by opening |
| Pipeline.ShutdownDelivers | hydra/hydra.go:224-229 | When `Shutdown` has returned, every tailer has stopped, the channel is empty, and every set that was built has been accepted; the channel never exceeds its bound |
| Pipeline.ShutdownPossible | hydra/hydra.go:224-229 | No deadlock: from every reachable state, if the servers accept, there is a way to the end of the shutdown |
| Pipeline.ServersInTurn | hydra/out_forward.go:78-122 | In every run of the whole agent the k-th accepted set, after r refusals, is with server (k + r) mod n under round robin and r mod n otherwise |
| Pipeline.DeliveredInRun | hydra/out_forward.go:78-122 | In every run each accepted set is the one delivery, in the sense of the sender's own specification, that fits all answers the loggers gave: pass r / n, position r mod n after r refusals; a network with those answers exists |
| Pipeline.RoundRobinFair | hydra/out_forward.go:80-111 | In every round-robin run of the whole agent in which no logger refused, each of the n servers has accepted floor(m/n) or ceil(m/n) of the m sets accepted |
| Pipeline.StatisticsEndToEnd | hydra/out_forward.go:99-104 | When the sender has exited, the messages its events add up to for a tag are exactly as many as the complete lines that the tailers with that tag read, and the sents and bytes are those of the frames accepted under it |
| Pipeline.FilesArrive | hydra/file.go:92-128 | For files never truncated those are the complete lines of the stretches of file on disk, and a generation closed by a drained rename was read to its end |
| Pipeline.AcceptedFramesDecode | hydra/out_forward.go:67-123 | Every accepted frame within the length limits decodes to the tag of the tailer it came from and to the records, with that tailer's field name, it was built from |
| Pipeline.RecordTimes | hydra/hydra.go:73-85 | In every run the records of the j-th set that a tailer built carry the clock's value at the j-th step in which it cut a block |
| Pipeline.ArrivalTimes | hydra/out_forward.go:67-123 | An accepted frame decodes to entries with the time at which its tailer cut that block, as the format carries it |
| Pipeline.LinesArrive | hydra/out_forward.go:54-123 | When the sender has exited, the messages decoded from a tailer's accepted frames, in order, are exactly the complete lines of the bytes that it read |

## Left out

- Sockets, DNS, fsnotify, timers, logging and HTTP handlers: they are steps or arguments that may take any value, not models of their own.
- `Shutdown` is shown to be safe, and never to be cut off from its end (`ShutdownPossible`); that it does complete is not, as servers may refuse for ever and the directory watcher, which is not modelled, can block on an event channel. Its being called when a receiver runs is not modelled either, because the feeder is not waited for.
- The agent with no server configured, or with one that could not be created, is not modelled in `Pipeline`.
- `Pipeline` asks loggers one by one with any answer; the connection behind an answer is the separate model `Reconnect`.
- The ugorji codec is represented by a reader written from the MessagePack specification. Left open are which error it reports for input that ends inside a value, its accepting a map or nil where a slice is expected, and whether the version in use takes the EventTime extension for `time.Time`.
- PackedForward.DecodeEntries: a message with too few elements (one, or two with a number or time second) makes the original index out of range and panic; the model returns an error there and does not model what the panic stops.
- PackedForward.Timestamp: floating-point timestamps go through an arbitrary function to whole seconds.
- `PackAsForward`, and records packed by the codec (`TinyFluentRecord` maps), have no round trip here.
- `encoding/json`, `regexp`, `time.Parse`, `ParseBool`, `ParseFloat` and float truncation are arbitrary functions or absent; so are the JSON and regexp file formats.
- `TailStdin` is not modelled: it passes the scanner's buffer without copying it, so records are not stable there.
- TailFile.File.TailAndSend: `FileStat` events are not modelled, and the reads and clock values of a call come as arguments.
- TailRun.EveryRun: files are values with a history; the same loop on the heap is `TailFile`. Links are not modelled.
- Receiver.HandleMessage: record sets are values. The loop variable whose address the source queues is shared between iterations, which could matter only for a message with several sets, and `DecodeEntries` returns exactly one.
- Monitor.Stats.ApplyReceiverStat: the missing lock is not modelled; events are applied one after the other.
- Reconnect.FlagIsNeverStuck: the connection is shared by interleaved atomic steps; Go's memory model and the backoff times are not modelled.
- UnixTime.ConvertMonotone: stated for non-negative numbers; with a minus sign the fraction counts upwards, as `NegativeExactIff` shows.
- Ltsv.Encode: data that are no map, which are an error, are not modelled, and values other than strings and bytes are represented by the text that `fmt` prints.
- Counters, positions and sizes are unbounded integers: the wrap-around of an int64 counter is not modelled. The contents of instants and of packed numbers are bounded as in Go.
- `GetData`, `GetAllData`, configuration defaults, command-line programs and enum printing would only add easy members.
