# A verified model of the sponge substrate

The repository holds the lower half of a user-space TCP stack: an event loop over
`poll(2)`, a flow-controlled byte stream, the Internet checksum, descriptors that write
lists of buffers, reference-counted strings, and integers in network byte order. Two
algorithms of its test programs belong to the same layer: the rewriting of a captured TCP
checksum, and the online comparison of two streams of segments. This project models these
parts in Dafny and proves what their documentation and tests promise. Where the code falls
short of a promise, the code is kept as it is and a lemma says exactly when the promise holds.

| file | models |
|---|---|
| `EventTrace.dfy` | histories of an event loop and what follows from a legal one |
| `EventLoop.dfy` | `EventLoop::wait_next_event`: its two passes as functions, the class with its loops, the invariant of all runs |
| `EventLoopRuns.dfy` | the guarantees of every call and of every run |
| `EventLoopBits.dfy` | what becomes of every rule for every answer of poll, in the numbers of its bits |
| `EventLoopDocs.dfy` | the results of a call against the documentation |
| `ByteStream.dfy` | the ring buffer behind a bounded queue |
| `ByteStreamAsWritten.dfy` | the same code with the three lines that do not do their job |
| `Checksum.dfy` | `InternetChecksum` against RFC 1071 |
| `TcpFixup.dfy` | the pseudo-header fix-up |
| `FileDescriptor.dfy` | `FileDescriptor::write` and `read` against an adversarial kernel |
| `Buffer.dfy` | `Buffer`, `BufferList`, `BufferViewList` |
| `Parser.dfy` | `NetParser`, `NetUnparser` |
| `EquivalenceChecker.dfy` | `SendEquivalenceChecker` |
| `Bytes.dfy` | octets, 16-bit words, concatenation |

How the outside is modelled:

- **Event loop.** Callbacks, descriptors and `poll` form an environment (`Env`): arbitrary
  functions over an arbitrary state of the world, which sees every call and may change the
  world as it likes. Every theorem is for all environments. The environment cannot reach
  the list of rules: a callback that calls `add_rule` would make `pollfds[idx]`
  (eventloop.cc:110) run past its end, so this is a demand on callers. A throw is a result
  value. `nextId` only gives rules the identity that list nodes have in C++.
- **Kernel.** `writev` answers by an arbitrary function of the call number and records
  what it took. `SystemCall` throws for every failure (errno is never 0 after one). Its
  parameter is an int (util.cc:42), so the counts of `writev` are those that fit one; a
  kernel keeps below 2^31 of itself.
- **Integers.** The checksum accumulator wraps at 2^32, the indices and counters of the
  byte stream are 32-bit ints, `_parse_int` shifts in the width of its type, and the slots
  of `ByteStreamAsWritten` are as many as an int can count. Sizes of type `size_t` and
  the service counters are unbounded.
- **Shifts and masks** on values known to be disjoint or non-negative are written as
  `*`, `/`, `%` and `-`; the poll bits are bit vectors.

## Where code and documentation disagree

- `buffer_size()` computes the fill level and returns 0 (byte_stream.cc:103-111), so
  `peek_output` copies nothing, `pop_output` moves nothing and `write` always sees an empty
  ring; `peek_output` also only reserves its string (61-72), and the constructor leaves the
  two counters unset (19). `ByteStreams` repairs these three points and keeps all index
  arithmetic; `ByteStreamAsWritten` keeps the code. `AgreesIff` says exactly on which runs
  the operations still answer like the queue, `ObserversIff` for each of the six observers
  exactly when it does, `IndistinguishableIff` on which runs nobody can tell, `NothingLostIff`
  when the ring holds all that was accepted, and `SizeRightIff` when the size of 0 is right.
  `WrittenIsUnreadable`, `EofNeverComes` and `LooksEmpty` are concrete failures.
- The ring needs `capacity < 2^30`: `PopIndexExact` shows that this is the exact bound of
  the int arithmetic in `pop_output`. The counters are right until they leave the range of
  an int: `CounterExact`, `CounterDifference`.
- An error of `poll` other than a signal is not thrown but swallowed (eventloop.cc:101-105
  against 46): `PollErrorSwallowed`.
- `Result::Success` does not mean that a rule was triggered (eventloop.hh:44). `IdleCallIff`
  says exactly which calls return it and have called nobody back, `SuccessfulCall` gives the
  callbacks of the others, and `HangupSpins` is a loop that never blocks and never does anything.
- `Result::Exit` is promised whenever the list becomes empty (eventloop.cc:48), but a second
  pass that cancels the last rule ends in Success. `EmptiedExitIff` says exactly when the
  promise holds, `EmptiedWithSuccess` is a call that breaks it, and `ExitIff` says when Exit
  is returned.
- The checksum is right for every input up to 131074 octets and for longer input exactly
  when `ValueExact` says so.

## Model

| member | source | states |
|---|---|---|
| EventLoopRuns.EveryRun | libsponge/util/eventloop.cc:67-142 | over any sequence of add_rule, wait_next_event and outside changes, on every exit: the list is the added rules in order without the cancelled ones, cancel ran once for a rule that is gone and never for one that is there, and a cancelled rule is never called in any way again |
| EventLoopRuns.EveryCallOfEveryRun | libsponge/util/eventloop.cc:61-145 | in every reachable state: at most one callback per rule and call, only after reported interest in that call, and busy wait thrown exactly for an unserved callback |
| EventLoopRuns.EveryCall | libsponge/util/eventloop.cc:82-88 | the same for callbacks of one call, with the first pass as a prefix of its history |
| EventLoopRuns.ThrowsBusyWaitIff | libsponge/util/eventloop.cc:131-138 | the busy-wait exception is thrown if and only if some callback neither changed its service count nor ended its interest |
| EventLoopRuns.SuccessfulCall | libsponge/util/eventloop.cc:109-144 | after Success exactly the rules whose event came were called back, once each; exactly the defunct ones are gone; no entry had an error |
| EventLoopRuns.ReadyWasReported | libsponge/util/eventloop.cc:82-88 | an entry can be ready only if its rule reported interest in the first pass |
| EventLoopRuns.FirstPassReports | libsponge/util/eventloop.cc:82-88 | the k-th poll entry asks for 0x01 if the k-th kept rule waits for input, 0x04 if for output, if that rule reported interest, and otherwise for nothing |
| EventLoopBits.CallByBits | libsponge/util/eventloop.cc:96-144 | for every answer of poll, bit by bit: the kept rules meet their fates in order and nothing else happens after the poll; readable or writable rules are called back even at a hang-up, rules with a lone hang-up are cancelled, the first error or unserved callback ends the call with its exception |
| EventLoopBits.SecondPassByBits | libsponge/util/eventloop.cc:109-142 | the same for the second pass: exactly which rules are called back or cancelled, in order, where it stops, and what is left of the list |
| EventLoopBits.ServeByBits | libsponge/util/eventloop.cc:110-139 | one rule, for every revents: 0x08 or 0x20 throws; else what was asked for is called back, also with 0x10; else 0x10 cancels what asked; else nothing happens |
| EventLoopRuns.SecondPassCallbacks | libsponge/util/eventloop.cc:129-139 | each ready rule is called back exactly once if the pass finishes, at most once otherwise, and no other rule is |
| EventLoopRuns.SecondPassKeeps | libsponge/util/eventloop.cc:112-127 | a finished pass keeps exactly the rules without a lone hang-up, in order; an error is thrown only if some entry has one |
| EventLoopRuns.FirstPassVisits | libsponge/util/eventloop.cc:67-89 | every rule is dealt with once, in order; it is cancelled exactly if it is then at eof for reading or closed, and asked otherwise |
| EventLoopRuns.SecondPassThrowsAt | libsponge/util/eventloop.cc:112-139 | on a throw, the defunct rules before the culprit are gone, all others stay, and the culprit has the error or was called back |
| EventLoopRuns.BusyWaitIff | libsponge/util/eventloop.cc:129-139 | the busy-wait outcome is equivalent to an unserved callback in the pass |
| EventLoopRuns.RunReachable | libsponge/util/eventloop.cc:23-29 | every operation on a loop keeps the invariant that ties the list to the history |
| EventLoopRuns.Drive | libsponge/util/eventloop.hh:49-57 | the class, driven by any sequence of operations, makes the run that the theorems speak of |
| EventLoopDocs.EmptiedExitIff | libsponge/util/eventloop.cc:48-142 | a call that leaves no rule returns Exit, as documented, exactly unless poll answered a lone hang-up for every rule; what it returns otherwise is Success |
| EventLoopDocs.EmptiedWithSuccess | libsponge/util/eventloop.cc:121-144 | a call that cancels its only rule, leaves the list empty and returns Success |
| EventLoopDocs.SecondPassEmptiesIff | libsponge/util/eventloop.cc:109-142 | the second pass empties the list exactly if every entry holds a lone hang-up, and does not throw then |
| EventLoopDocs.ExitIff | libsponge/util/eventloop.cc:91-105 | Exit is returned exactly if no rule reported interest or a signal came, Timeout exactly if poll timed out, and neither changes the list further |
| EventLoopDocs.IdleCallIff | libsponge/util/eventloop.hh:42-47 | a call returns Success without having called anybody back exactly if poll answered or failed and no entry has what it asked for, or an error |
| EventLoopDocs.IdleSuccessIff | libsponge/util/eventloop.cc:109-144 | a second pass, on any poll list that obeys poll(2), finishes without calling or cancelling anything exactly if every entry is empty or an unasked hang-up |
| EventLoopDocs.PollErrorSwallowed | libsponge/util/eventloop.cc:96-105 | a failing poll that was not interrupted gives Success and leaves everything as it was after the first pass |
| EventLoopDocs.HangupSpins | libsponge/util/eventloop.cc:85-86 | a concrete loop for which every call returns Success at once and does nothing |
| EventLoopDocs.CallChain | libsponge/util/eventloop.cc:61-145 | the world changes only by the recorded calls, in their order, each finding what the one before left |
| EventLoops.EventLoop.WaitNextEvent | libsponge/util/eventloop.cc:61-145 | list, world, history and result are those of the two passes in sequence; the list invariant holds on every exit |
| EventLoops.EventLoop.SetUp | libsponge/util/eventloop.cc:62-89 | the erasing loop leaves the rules and the poll list of the first pass |
| EventLoops.EventLoop.HandleResults | libsponge/util/eventloop.cc:107-142 | with idx and it apart after erasures, idx stays in bounds and each rule is served with its own poll entry |
| EventLoops.EventLoop.VisitRule | libsponge/util/eventloop.cc:68-88 | one rule of the first pass |
| EventLoops.EventLoop.ServeRule | libsponge/util/eventloop.cc:110-139 | one rule of the second pass, with both throws |
| EventLoops.EventLoop.AddRule | libsponge/util/eventloop.cc:23-29 | the new rule goes to the end and is a new one |
| EventLoops.FirstPassPairs | libsponge/util/eventloop.cc:67-89 | the k-th poll entry was made for the k-th rule that is left, asks for nothing or the bit of its direction, and has empty revents |
| EventLoops.WaitKeepsReachable | libsponge/util/eventloop.cc:61-145 | on every exit the list is what a legal history leaves |
| EventTrace.LiveInOrder | libsponge/util/eventloop.hh:39 | in a legal history the live rules are the added ones in order minus the cancelled, each cancelled once or still live |
| EventTrace.NothingAfterCancel | libsponge/util/eventloop.cc:71-79 | in a legal history nothing concerns a rule after its cancellation |
| ByteStreams.RunConserves | libsponge/byte_stream.cc:24-93 | over every run, removed followed by buffered is the concatenation of the accepted prefixes, within the capacity |
| ByteStreams.RunDelivers | libsponge/byte_stream.hh:61-67 | without blind pops, the strings that reads returned are exactly what was removed |
| ByteStreams.ReaderGetsWhatWasWritten | libsponge/byte_stream.hh:11-15 | the reader gets a prefix of what the writer was told it wrote, and at eof all of it |
| ByteStreams.ErrorFreezes | libsponge/byte_stream.cc:25-29 | once the error flag is set no operation moves an octet or a counter |
| ByteStreams.FlagsIff | libsponge/byte_stream.cc:25-29 | over every run, the input has ended exactly if end_input came, and the stream failed exactly if set_error came or a write came after end_input |
| ByteStreams.WriteSplit | libsponge/byte_stream.hh:36-39 | writing in two pieces is writing once |
| ByteStreams.ReadSplit | libsponge/byte_stream.hh:61-67 | reading in two pieces is reading once |
| ByteStreams.WriteChunks | libsponge/byte_stream.hh:36-39 | a series of writes accepts, in all, the longest prefix of the joined data that fits, and leaves the stream one write would |
| ByteStreams.ReadChunks | libsponge/byte_stream.hh:61-67 | a series of reads returns, joined, the front of the summed length, and leaves the rest |
| ByteStreams.PopIndexExact | libsponge/byte_stream.cc:88-91 | one conditional subtraction wraps correctly in every state exactly for capacities below 2^30 |
| ByteStreams.CounterExact | libsponge/byte_stream.cc:119-121 | for which totals an int counter is reported correctly |
| ByteStreams.CounterDifference | libsponge/byte_stream.cc:119-121 | written minus read equals buffered exactly while both counters have wrapped equally often |
| ByteStreams.ViewPut | libsponge/byte_stream.cc:37-41 | a slot written at head, with the wrap of the index, appends to the contents unless the ring is full |
| ByteStreams.ViewDrop | libsponge/byte_stream.cc:88-91 | moving the tail by n drops the first n octets |
| ByteStreams.Execute | tests/byte_stream_test_harness.cc:56-80 | any run on the ring gives the states and answers of the bounded queue |
| ByteStreams.ByteStream.constructor | libsponge/byte_stream.cc:19-22 | an empty stream of the given capacity |
| ByteStreams.ByteStream.Write | libsponge/byte_stream.cc:24-47 | appends the longest prefix that fits; on a closed or failed stream sets the error instead |
| ByteStreams.ByteStream.Accept | libsponge/byte_stream.cc:31-46 | as much as there is room for goes to the end of the contents; the counter keeps its total in an int |
| ByteStreams.ByteStream.PutAll | libsponge/byte_stream.cc:35-43 | the copying loop appends its data around the end of the ring |
| ByteStreams.ByteStream.PeekOutput | libsponge/byte_stream.cc:50-75 | the front of the contents, nothing after an error |
| ByteStreams.ByteStream.PopOutput | libsponge/byte_stream.cc:78-93 | removes the front of the contents, nothing after an error |
| ByteStreams.ByteStream.AdvanceTail | libsponge/byte_stream.cc:88-91 | the int arithmetic drops exactly the first octets of the contents |
| ByteStreams.ByteStream.Read | libsponge/byte_stream.hh:63-67 | returns the front and removes it |
| ByteStreams.ByteStream.BufferSize | libsponge/byte_stream.cc:103-111 | the number of buffered octets |
| ByteStreams.ByteStream.BufferEmpty | libsponge/byte_stream.cc:113-115 | head equals tail if and only if nothing is buffered, so a full ring never looks empty |
| ByteStreams.ByteStream.RemainingCapacity | libsponge/byte_stream.cc:123-126 | capacity minus buffered, never negative |
| ByteStreams.ByteStream.Eof | libsponge/byte_stream.cc:117 | closed and empty; then all that was accepted has been removed |
| ByteStreamAsWritten.AgreesIff | libsponge/byte_stream.cc:24-93 | over a run, the operations (not the observers) of the code as written answer like the queue exactly if no read asks for buffered octets and no write needs their room |
| ByteStreamAsWritten.WrittenIsUnreadable | libsponge/byte_stream.cc:50-75 | for every capacity of at least 1: write an octet, peek, and get nothing |
| ByteStreamAsWritten.ObserversIff | libsponge/byte_stream.cc:103-126 | after any run, for each of the six observers, exactly when it answers like the queue: sizes while the queue is empty, buffer_empty and eof when the accepted total is a multiple of the slots just if the queue is empty, counters by what they started with |
| ByteStreamAsWritten.RunMovesHead | libsponge/byte_stream.cc:37-41 | over every run, the head is at the accepted total modulo the number of slots |
| ByteStreamAsWritten.EofNeverComes | libsponge/byte_stream.cc:113-117 | all operations answered right, all was popped, the input has ended, and eof is false |
| ByteStreamAsWritten.LooksEmpty | libsponge/byte_stream.cc:113-115 | buffer_empty is true with an octet unread, once the head has come round |
| ByteStreamAsWritten.IndistinguishableIff | libsponge/byte_stream.cc:19-126 | even with counters that start at 0, every operation and every observer answers like the queue all along a run exactly if the capacity is 0 or nothing is written before the end or an error |
| ByteStreamAsWritten.NothingLostIff | libsponge/byte_stream.cc:31-43 | the ring still holds all accepted octets exactly if their total fits the capacity |
| ByteStreamAsWritten.SizeRightIff | libsponge/byte_stream.cc:103-111 | the size returned is written minus read exactly on runs that write nothing before the input ends |
| Checksum.InternetChecksum.Add | libsponge/util/util.cc:89-98 | sum modulo 2^32 and parity after adding data, odd lengths included |
| Checksum.InternetChecksum.Value | libsponge/util/util.cc:100-108 | the complement of the folded sum, after at most two rounds |
| Checksum.FoldMeaning | libsponge/util/util.cc:103-105 | the folded sum is the one value up to 0xffff congruent to the sum modulo 0xffff that is 0 only for 0 |
| Checksum.FoldStep | libsponge/util/util.cc:103-105 | a round keeps the folded value and is enough after two |
| Checksum.ChunkingIrrelevant | libsponge/util/util.cc:89-98 | any cutting of the data into calls gives the same state, also when the accumulator wraps |
| Checksum.OnesSumIsFold | libsponge/util/util.cc:72-86 | the ones' complement sum of RFC 1071 section 1 is the folded exact sum |
| Checksum.ValueExact | libsponge/util/util.cc:87-108 | the code returns the RFC 1071 checksum if and only if the number of wraps is a multiple of 65535 and they did not end on 0 |
| Checksum.ValueIsRfcChecksum | libsponge/util/util.cc:87-108 | below the first wrap it always does |
| Checksum.RfcExample | libsponge/util/util.cc:87-108 | the worked example of section 3 of RFC 1071 |
| Checksum.NoWrapThreshold | libsponge/util/util.cc:89-98 | no data of a length wraps exactly for lengths up to 131074 |
| Checksum.ThresholdWitness | libsponge/util/util.cc:89-108 | 131074 octets of 0xff reach 2^32 - 1 and one more gives a wrong value |
| Checksum.ByteOrderIndependence | libsponge/util/util.cc:89-108 | RFC 1071 section 2(B) for all data of even length |
| Checksum.ByteOrderIndependenceOfCode | libsponge/util/util.cc:89-108 | the same for the returned values while neither sum wraps |
| Checksum.VerifiesExactly | libsponge/util/util.cc:77-83 | data verifies for exactly the computed word in an aligned slot, and for 0xffff if that word is 0 |
| Checksum.SelfVerification | tests/ipv4_parser.cc:39-42 | zero an aligned slot, store the value there: the whole verifies |
| Checksum.ErrorDetection | libsponge/util/util.cc:89-108 | a change of one aligned word goes unnoticed exactly if it swaps 0x0000 and 0xffff in data not otherwise zero |
| TcpFixup.FixUp | tests/tcp_parser.cc:159-173 | only the checksum field changes, to the folded sum of itself and the pseudo-header |
| TcpFixup.FixUpSound | tests/tcp_parser.cc:162-173 | the fixed-up segment alone has the value of the original under the pseudo-header seed |
| TcpFixup.FixUpVerifiesIff | tests/tcp_parser.cc:162-176 | it verifies with seed 0 exactly if the captured segment verifies with the pseudo-header of RFC 793 section 3.1 |
| TcpFixup.FixUpOfFrame | tests/tcp_parser.cc:152-176 | for a frame made of 14 octets of link header, an IPv4 header of 4 * ihl octets and a TCP segment: the segment handed on differs in octets 16 and 17 only, and its value is the RFC 1071 checksum of the segment behind the pseudo-header |
| TcpFixup.Layers | tests/tcp_parser.cc:157-166 | in such a frame, segment and pseudo-header are where RFC 791 and RFC 793 put them |
| TcpFixup.HeaderLengthMeaning | tests/tcp_parser.cc:152 | the low nibble counts 32-bit words, whatever the version |
| TcpFixup.PseudoSumIsHeaderSum | tests/tcp_parser.cc:163-166 | the added fields are the sum of the 12 octets of the pseudo-header |
| FileDescriptors.FileDescriptor.Write | libsponge/util/file_descriptor.cc:79-102 | for every kernel: it took exactly the first octets of the content, in order and as many as the run says; outcome, kernel calls and write counter are those of the run |
| FileDescriptors.FileDescriptor.WriteRounds | libsponge/util/file_descriptor.cc:83-99 | the loop makes progress in every round but the last, and what the kernel took over all rounds is a prefix of the content |
| FileDescriptors.WriteSafe | libsponge/util/file_descriptor.cc:79-102 | whatever the answers, the returned total is what the kernel took, all of it with write_all; only a call that makes it throw goes uncounted; there are at most as many calls as octets, and one |
| FileDescriptors.WriteAllReturnsIff | libsponge/util/file_descriptor.cc:85-99 | write_all returns if and only if the answers are counts that make progress and add up to the size |
| FileDescriptors.ThrowReason | libsponge/util/file_descriptor.cc:85-92 | which exception ends a run, by the last answer and the sum of all answers |
| FileDescriptors.FileDescriptor.Read | libsponge/util/file_descriptor.cc:52-67 | the octets read, the limits, and eof set for good exactly by an empty read with a positive limit |
| Buffers.Buffer.RemovePrefix | libsponge/util/buffer.cc:5-13 | drops n octets, or throws and changes nothing exactly if there are fewer; the last octet gone, the storage is released |
| Buffers.BufferList.RemovePrefix | libsponge/util/buffer.cc:51-65 | drops n octets of the concatenation, or throws exactly beyond the end leaving the list empty; other lists stay |
| Buffers.BufferList.Append | libsponge/util/buffer.cc:15-19 | appends fresh copies that share the storage of the other list's Buffers |
| Buffers.BufferList.Concatenate | libsponge/util/buffer.cc:34-41 | the concatenation of the Buffers |
| Buffers.BufferList.Size | libsponge/util/buffer.cc:43-49 | the length of the concatenation |
| Buffers.BufferViewList.FromList | libsponge/util/buffer.cc:67-71 | the views are the Buffers' strings in order |
| Buffers.BufferViewList.RemovePrefix | libsponge/util/buffer.cc:73-87 | as for lists |
| Buffers.BufferViewList.Size | libsponge/util/buffer.cc:89-95 | the length of the concatenation |
| Buffers.DropMeaning | libsponge/util/buffer.cc:51-87 | removing from fragments is dropping from the concatenation, defined exactly up to its size |
| Buffers.DropFragments | libsponge/util/buffer.cc:51-87 | which fragments are left: no more are popped than necessary, and the first is trimmed only if something remains of it |
| Buffers.DropTwice | libsponge/util/buffer.cc:51-87 | removing m, then n is removing m + n, fragment by fragment |
| Buffers.ViewCommutesWithRemove | libsponge/util/buffer.cc:51-87 | viewing and removing commute, entry by entry, with the same success or failure |
| Buffers.ConsumeJoined | libsponge/util/buffer.hh:51-55 | consuming a list that another was appended to leaves the appended one unchanged |
| Parser.RunConsumesLongestPrefix | libsponge/util/parser.cc:20-51 | a schedule consumes exactly the longest prefix of operations that fits; later operations return 0 and consume nothing |
| Parser.FittingIsLongest | libsponge/util/parser.cc:20-24 | that prefix fits and one operation more does not |
| Parser.RunReads | libsponge/util/parser.cc:34-42 | the operations that fit read their own part of the data, most significant octet first |
| Parser.ErrorSticks | libsponge/util/parser.cc:30-32 | after any error nothing is consumed and every read is 0; the error becomes PacketTooShort exactly if some length exceeds the rest |
| Parser.ParseUnparse | doctests/parser_example.cc:6-28 | parsing any mix of unparsed integers and skipped stretches yields the integers and leaves exactly the trailing octets |
| Parser.TruncatedFails | libsponge/util/parser.cc:20-24 | parsing anything less than the whole of it ends in PacketTooShort |
| Parser.StepHead | libsponge/util/parser.cc:26-51 | a read takes as many octets off the front as it is wide, a skip exactly as many as it says |
| Parser.StepFails | libsponge/util/parser.cc:20-51 | with fewer octets both set PacketTooShort and leave them |
| Parser.BigEndian | libsponge/util/parser.cc:34-38 | the values of 1, 2 and 4 octets, spelled out |
| Parser.UnparseParse | libsponge/util/parser.cc:26-60 | from the integers and skipped stretches of any successful parse, unparsing reproduces what it consumed |
| Parser.DecodeEncode | libsponge/util/parser.cc:53-60 | decoding an encoded value that fits returns it |
| Parser.EncodeDecode | libsponge/util/parser.cc:34-38 | encoding a decoded string returns it |
| Parser.NetParser.ParseInt | libsponge/util/parser.cc:26-43 | one read: value, rest and error, for 1, 2 and 4 octets |
| Parser.NetParser.RemovePrefix | libsponge/util/parser.cc:45-51 | one skip |
| Parser.NetParser.CheckSize | libsponge/util/parser.cc:20-24 | the error becomes PacketTooShort exactly if the size exceeds the rest |
| Parser.UnparseInt | libsponge/util/parser.cc:53-60 | the octets of the value, most significant first, are appended |
| Parser.Parse | libsponge/util/parser.cc:20-51 | the class, driven by any schedule of reads and skips, makes the run that the theorems speak of |
| Parser.UnparseAll | libsponge/util/parser.cc:53-60 | unparsing field after field, raw octets in between, appends the encodings in order |
| Parser.RoundTrip | doctests/parser_example.cc:6-28 | both classes at work: the fields written are read back and the rest of the buffer is exactly the trailing octets |
| EquivalenceChecker.PassesIff | tests/send_equivalence_checker.cc:12-68 | no submission throws and check_empty passes exactly if the streams are equally long and the segments at each index have equivalent headers and equal payloads |
| EquivalenceChecker.VerdictIff | tests/send_equivalence_checker.cc:12-68 | for every interleaving and each of the five verdicts, exactly when it is given: by header or payload of the first pair that differs, else by the longer side |
| EquivalenceChecker.JustifiedOnce | tests/send_equivalence_checker.cc:12-68 | two streams justify one verdict, at one place |
| EquivalenceChecker.ThrowChangesNothing | tests/send_equivalence_checker.cc:29-49 | after a throw the queues are as the submission that threw found them, and it was the first to throw |
| EquivalenceChecker.OnlineIsOffline | tests/send_equivalence_checker.cc:12-68 | for every interleaving the checker throws exactly what comparing the two complete streams would: the fault of the first differing pair, else the side with unmatched segments |
| EquivalenceChecker.RunInvariant | tests/send_equivalence_checker.cc:29-49 | no throw exactly while the streams agree as far as both go; the queues then hold copies of what one is ahead |
| EquivalenceChecker.OneQueueEmpty | tests/send_equivalence_checker.cc:29-49 | at most one queue is ever non-empty |
| EquivalenceChecker.CheckStreams | tests/send_equivalence_checker.cc:29-68 | driving the class over a whole sequence of submissions gives that verdict |
| EquivalenceChecker.SendEquivalenceChecker.SubmitA | tests/send_equivalence_checker.cc:29-38 | matches with the other queue's front or queues a copy; a mismatch changes nothing |
| EquivalenceChecker.SendEquivalenceChecker.SubmitB | tests/send_equivalence_checker.cc:40-49 | the same from the other side |
| EquivalenceChecker.SendEquivalenceChecker.CheckEmpty | tests/send_equivalence_checker.cc:51-68 | which side has unmatched segments, if any |

## Left out

- Exceptions thrown by the user's own callbacks inside the event loop: a cancel that throws would leave its rule in the list.
- Callbacks that add rules, or destroy the loop, during wait_next_event: undefined in the code.
- ByteStreamAsWritten is on values: it has the slots and the loop of write, but no object and no mutable array.
- ByteStreams.ByteStream.constructor: capacities from 2^30 on are excluded, since the int arithmetic of the code is wrong for them (PopIndexExact).
- Checksum.SelfVerification: limited to 131074 octets, since beyond them the accumulator of the code can wrap (NoWrapThreshold).
- TcpFixup.FixUp: the frame is taken to have passed the checks before it and to be long enough for the fields read; the code does not check the latter.
- TCPSegment and its header, which are not part of this model: the equivalence checker takes equality of headers and the copy made by serializing and parsing as given functions, the former an equivalence, the latter equivalent to its argument.
- Buffers.BufferList.Append: a list appended to itself, which the code would iterate while growing it.
- The conversion of a BufferList to a single Buffer, Buffer::at and copies to strings: direct readings of the contents.
- Memory: reference counts, lifetime of string views, pointers in iovecs; sharing is modelled by object identity only.
- FDWrapper::close, sockets, addresses, TUN devices, fcntl: thin wrappers around system calls.
- The limit on the number of iovecs of writev: the kernel may answer with a failure at any time.
- Wrap-around of the read and write counters that the event loop compares.
- hexdump, the random generator, timestamps and the test harness's own messages.
