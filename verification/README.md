# The byte pipeline of sponge, modelled and proved in Dafny

The repository is a TCP teaching stack. This project models the part of it that is implemented and
hard to get right: the path that bytes take from a writer to the kernel and onto the wire.

- `Checksum.dfy`, `ChecksumLaws.dfy`: the Internet checksum of sections 1 and 2 of RFC 1071, with its
  32-bit wrap-around modelled and its laws proved from it.
- `Buffers.dfy`, `SharedPool.dfy`, `SharedPoolLaws.dfy`: buffers, buffer lists and view lists over shared
  immutable storage, the theorem that the sharing cannot be observed, and what each operation does to the
  flat texts.
- `ByteStreams.dfy`, `ByteStreamLaws.dfy`: the flow-controlled stream as a class on a buffer list, the
  flat bounded queue it refines, and what every finite run of calls promises.
- `Parsing.dfy`, `ParsingLaws.dfy`: the network-order parser with its error state and the unparser,
  round trips over arbitrary schemas, and the tie between parsed words and the checksum.
- `FileDescriptors.dfy`, `WriteLaws.dfy`: the partial-write loop against an arbitrary kernel.
- `EventLoops.dfy`, `EventLoopLaws.dfy`, `EventLoopRuns.dfy`: one call of `wait_next_event` against
  arbitrary user functions and an arbitrary `poll`, and whole runs of calls that add rules and wait.
- `MachineTypes.dfy`: bytes, machine integers, exceptions as values, flattening of pieces.

Classes carry the fields of the C++ classes and are proved against functions on plain values; the laws
are lemmas about those functions. A C++ exception is a `Threw` result. The kernel and the user's
callbacks are methods whose outcome is not determined. Each run records what they answered and what
they left behind: the bytes and replies of the kernel, and after every event of the loop the state of
every descriptor. The laws hold for every such record.

## What was found

The code departs from its documentation, or from what one expects of it, in these places. For each, the
lemmas named give an input and say exactly when the expectation holds.

- The system-call wrapper takes its value as an `int` (`libsponge/util/util.cc:42`). Every normal return of
  `write` reports the right count, and has sent the right bytes, exactly when the contents have at most
  2^32 bytes (`CountRightExactly`, `SendRightExactly`): a larger reply is read as negative or as no
  progress up to that size, and as a small count beyond it. On a kernel that never fails the call cannot
  throw exactly when the contents fit an `int` (`NeverFailsExactly`). `LargeWriteMiscounted` and
  `LargeWriteFails` are inputs, and `ReturnedCountExact` says which runs go wrong. Linux caps a single
  `writev` below these limits; POSIX does not.
- A failure of `poll` other than an interruption is caught and dropped (`libsponge/util/eventloop.cc:97-105`),
  although the comment at line 46 says that the call throws. `PollFailureReturnsSuccess` is an input,
  `PollFailureIsSwallowed` covers every failure that leaves the results untouched, and `ThrowsExactly` says
  when a call throws.
- The comment at `libsponge/util/eventloop.cc:48-49` promises `Exit` when the rule list becomes empty. A call
  whose last rules hang up returns `Success` (`EmptyWithoutExit`); a call that leaves no rule returns `Exit`
  exactly when the first pass left none (`EmptyExitsExactly`). `Exit` when rules remain but none is
  interested is what `libsponge/util/eventloop.hh:46` documents (`ExitsExactly`).
- `ByteStream::write` ignores `end_input`, although the header says that no more bytes can be written;
  `eof` can be taken back (`EofTakenBack`, `EofIsFinalExactly`).
- `pop_output` past the end discards bytes without counting them as read (`PopPastEndUnbalances`,
  `AccountingExact`).
- A short packet overwrites an earlier, different parse error (`ShortPacketOverwrites`, `ErrorsAreSticky`).
- The order of the bytes does matter once carries of the 32-bit sum are lost (`WrapBreaksByteOrder`,
  `ByteOrderExact`), and so do deferring the carries (`WrapBreaksCarry`, `DeferredCarryExact`) and moving a
  pseudo-header sum into the field (`WrapBreaksPseudoHeader`, `PseudoHeaderExact`).

Two promises turned out stronger than stated: filling in and verifying a checksum (`FillThenVerify`) and
detecting a changed byte (`SingleByteErrorDetected`) hold at every length, even after the 32-bit sum has
wrapped.

## Model

| member | source | states |
|---|---|---|
| Checksum.InternetChecksum.Add | libsponge/util/util.cc:89-98 | one call adds the exact weighted total of its bytes, wrapped to 32 bits, and flips the parity once per byte |
| Checksum.InternetChecksum.GetValue | libsponge/util/util.cc:100-108 | the folded value is the complement of the residue modulo 0xffff, with 0 only for a zero sum, and two rounds of folding suffice |
| Checksum.FoldKeepsResidue | libsponge/util/util.cc:103-105 | a round of folding keeps the residue modulo 0xffff, including the special case of zero, and shrinks any sum that exceeds 16 bits |
| ChecksumLaws.AddSplits | libsponge/util/util.cc:89-98 | two calls reach the sum and parity of one call on the joined bytes, odd lengths and wrapping included |
| ChecksumLaws.ChunkingIsInvisible | libsponge/util/util.cc:89-98 | however the data is cut into pieces, only the concatenation matters |
| ChecksumLaws.DeferredCarryExact | libsponge/util/util.cc:87-108 | the value is the complement of the eagerly carried word-by-word one's-complement sum if and only if the number of lost 32-bit carries is a multiple of 0xffff without a spurious zero |
| ChecksumLaws.DeferredCarry | libsponge/util/util.cc:87-108 | without wrapping, deferred and end-around carries agree for every initial sum and every sequence of calls |
| ChecksumLaws.NoWrapBound | libsponge/util/util.cc:87-98 | no data of a given length wraps the accumulator if and only if the worst case does not |
| ChecksumLaws.LongestSafeData | libsponge/util/util.cc:89-98 | from sum 0, all data of length n is summed exactly over any calls if and only if n is at most 131074 |
| ChecksumLaws.WrapBreaksCarry | libsponge/util/util.cc:89-108 | from 131075 bytes of 0xff on, until a second carry is lost, the lost carry makes the value wrong |
| ChecksumLaws.FillThenVerify | libsponge/util/util.cc:77-83 | with a zeroed field, the fields that make a fresh checksum 0 are the computed value and, in one described case, 0xffff; for all data, initial sums and lengths |
| ChecksumLaws.PseudoHeaderExact | tests/tcp_parser.cc:162-173 | for every sum and segment, the fix-up keeps the checksum if and only if both ways lose the same number of carries modulo 0xffff and both sums or neither wrap to 0 |
| ChecksumLaws.PseudoHeaderRemoval | tests/tcp_parser.cc:162-173 | when nothing wraps, folding the pseudo-header sum into the field gives the segment without the pseudo-header the same checksum, so that it passes exactly when the original does |
| ChecksumLaws.WrapBreaksPseudoHeader | tests/tcp_parser.cc:162-173 | a concrete segment that passes with a pseudo-header sum that makes the total wrap, and fails after the fix-up |
| ChecksumLaws.ByteOrderExact | libsponge/util/util.cc:72-108 | for all data, byte-swapped words give the byte-swapped value if and only if the lost carries on both sides are in the ratio of the swap modulo 0xffff and both sums or neither wrap to 0 |
| ChecksumLaws.ByteOrderIndependence | libsponge/util/util.cc:72-73 | byte-swapped words give the byte-swapped value as long as nothing wraps |
| ChecksumLaws.WrapBreaksByteOrder | libsponge/util/util.cc:89-108 | from 131076 bytes of 0xff on, until a second carry is lost, swapping the bytes gives a wrong value |
| ChecksumLaws.SingleByteErrorDetected | libsponge/util/util.cc:89-108 | changing one byte always changes the value |
| ChecksumLaws.ReorderingUndetected | libsponge/util/util.cc:89-98 | rearranging bytes among offsets of equal parity never changes the accumulator |
| Buffers.Buffer.At | libsponge/util/buffer.hh:38-39 | the byte at an index, or an exception past the end |
| Buffers.Buffer.RemovePrefix | libsponge/util/buffer.cc:5-13 | drops a prefix in place or throws unchanged, and gives up the storage exactly when nothing is left |
| Buffers.Buffer.CopyOf | libsponge/util/buffer.hh:15-22 | a copy is a second handle on the same bytes of the same storage |
| Buffers.BufferList.Append | libsponge/util/buffer.cc:15-19 | the views and the contents of the other list follow the old ones |
| Buffers.BufferList.ToBuffer | libsponge/util/buffer.cc:21-32 | a list of one buffer becomes a second handle on that buffer's bytes in the same storage, an empty list becomes an empty buffer; any other throws |
| Buffers.BufferList.Concatenate | libsponge/util/buffer.cc:34-41 | the flat contents |
| Buffers.BufferList.Size | libsponge/util/buffer.cc:43-49 | the length of the contents as a 64-bit size |
| Buffers.BufferList.RemovePrefix | libsponge/util/buffer.cc:51-65 | drops exactly n bytes of the contents, or throws with the list empty; terminates with empty buffers present |
| Buffers.BufferViewList.FromList | libsponge/util/buffer.cc:67-71 | the views of a list are the views of its buffers, in order |
| Buffers.BufferViewList.RemovePrefix | libsponge/util/buffer.cc:73-87 | drops exactly n bytes of the viewed contents, or throws with no view left |
| Buffers.BufferViewList.Size | libsponge/util/buffer.cc:89-95 | the length of the viewed contents as a 64-bit size |
| Buffers.BufferViewList.AsIovecs | libsponge/util/buffer.cc:97-104 | one vector for each view, in order |
| Buffers.DropPiecesIsFlat | libsponge/util/buffer.cc:51-65 | dropping from a list of texts, piece by piece, is dropping from their concatenation, and too much empties it |
| Buffers.DropPrefixIsFlat | libsponge/util/buffer.cc:51-65 | dropping from a list of views is dropping from its flat text, and too much empties it |
| Buffers.DropPrefixTwice | libsponge/util/buffer.cc:51-65 | two removals discard what one removal of the sum does |
| Buffers.RemoveInLockstep | libsponge/util/buffer.cc:51-87 | a list and the views of it stay views of each other under equal removals |
| SharedPool.Pool.Perform | libsponge/util/buffer.cc:5-65 | one operation answers, returning or throwing, and changes the texts as it would with private copies; every handle stays the same object in its place |
| SharedPool.Pool.PerformAll | libsponge/util/buffer.hh:52-56 | over every finite run on any number of handles, each call returns or throws, and each handle reads, as with private copies; every handle stays in its place |
| SharedPoolLaws.OthersUntouched | libsponge/util/buffer.cc:5-65 | an operation changes the text of no handle but its target, and shifts none |
| SharedPoolLaws.UntouchedOverRun | libsponge/util/buffer.cc:5-65 | over any run a handle that is nobody's target keeps its text |
| SharedPoolLaws.AppendJoins | libsponge/util/buffer.cc:15-19 | after an append the list reads as its old text followed by the text of the other list |
| SharedPoolLaws.TrimListDrops | libsponge/util/buffer.cc:51-65 | trimming a list leaves its text from n on, or throws and leaves it empty |
| SharedPoolLaws.TrimBufferDrops | libsponge/util/buffer.cc:5-13 | trimming a buffer leaves its text from n on, or throws and leaves it as it was |
| SharedPoolLaws.NewHandleReadsAsSource | libsponge/util/buffer.hh:15-22 | the handle that an operation adds reads as the text, buffer or list that it was made from |
| ByteStreams.ByteStream.Write | libsponge/byte_stream.cc:17-22 | accepts exactly what fits, at the end of the queue, and counts it |
| ByteStreams.ByteStream.PeekOutput | libsponge/byte_stream.cc:25-40 | the first bytes of the queue, which the caller must not exceed |
| ByteStreams.ByteStream.PopOutput | libsponge/byte_stream.cc:43-46 | removes and counts the first bytes, or throws with the queue emptied and nothing counted |
| ByteStreams.ByteStream.Read | libsponge/byte_stream.cc:51-56 | returns, removes and counts as many bytes as there are, up to the request |
| ByteStreams.ByteStream.Inspected | libsponge/byte_stream.cc:62-74 | every getter reports the flat queue |
| ByteStreams.ByteStream.Perform | libsponge/byte_stream.hh:30-90 | any public call is one step of the flat queue |
| ByteStreams.Run | libsponge/byte_stream.cc:15-74 | any finite run of calls answers exactly as the flat bounded queue |
| ByteStreamLaws.FirstInFirstOut | libsponge/byte_stream.hh:7-11 | one append-only string of the accepted bytes and two cursors explain every answer of every run from a new stream |
| ByteStreamLaws.RunIsExplained | libsponge/byte_stream.cc:15-74 | the same from any reachable state |
| ByteStreamLaws.AccountingExact | libsponge/byte_stream.cc:43-46 | written less read equals the buffer size in 64-bit arithmetic after any run if and only if pops past the end discarded nothing modulo 2^64 |
| ByteStreamLaws.NothingDiscardedExactly | libsponge/byte_stream.cc:43-46 | nothing is discarded if and only if every pop asked for at most what was buffered, or nothing was |
| ByteStreamLaws.PopPastEndUnbalances | libsponge/byte_stream.cc:43-46 | a concrete run after which the counters and the buffer disagree |
| ByteStreamLaws.EofIsFinalExactly | libsponge/byte_stream.cc:58-68 | once reached, eof lasts through a run if and only if no later write brings a byte or the capacity is zero |
| ByteStreamLaws.EofTakenBack | libsponge/byte_stream.cc:17-22 | a concrete run in which eof is taken back |
| Parsing.NetParser.CheckSize | libsponge/util/parser.cc:20-24 | a request beyond the input sets the short-packet error over any other |
| Parsing.NetParser.ParseInt | libsponge/util/parser.cc:26-43 | without error, the big-endian number of the next bytes, as many as the type has, which are consumed; otherwise 0 and nothing consumed |
| Parsing.NetParser.RemovePrefix | libsponge/util/parser.cc:45-51 | skips bytes, or does nothing but record the error |
| Parsing.UnparseInt | libsponge/util/parser.cc:53-60 | appends exactly the bytes that spell the value in network order, as many as the type has |
| Parsing.ShiftIn | libsponge/util/parser.cc:34-38 | shifting in a byte never overflows the type being parsed |
| Parsing.BigEndianInjective | libsponge/util/parser.cc:53-60 | the bytes of a value at a given width are unique |
| ParsingLaws.ReadsU8 | libsponge/util/parser.cc:26-66 | a u8 is the next byte, and a short packet if there is none |
| ParsingLaws.ReadsU16 | libsponge/util/parser.cc:26-66 | a u16 is 256 times the next byte plus the one after it, and a short packet on fewer than two bytes |
| ParsingLaws.ReadsU32 | libsponge/util/parser.cc:26-66 | a u32 is the next four bytes from the highest to the lowest, and a short packet on fewer than four |
| ParsingLaws.WritesU8 | libsponge/util/parser.cc:53-72 | a u8 is unparsed as one byte |
| ParsingLaws.WritesU16 | libsponge/util/parser.cc:53-72 | a u16 is unparsed as two bytes, the high one first |
| ParsingLaws.WritesU32 | libsponge/util/parser.cc:53-72 | a u32 is unparsed as four bytes, the highest first |
| ParsingLaws.ParseFields | libsponge/util/parser.cc:62-66 | a sequence of calls on the parser object is the run of the parser as a value |
| ParsingLaws.UnparseFields | libsponge/util/parser.cc:68-72 | a sequence of unparser calls appends the encodings in order |
| ParsingLaws.RoundTrip | doctests/parser_example.cc:6-33 | unparsing any in-range values after any prefix, then skipping and parsing, gives the values back without error and leaves only what followed |
| ParsingLaws.UnparseUndoesParse | libsponge/util/parser.cc:26-60 | parsing enough bytes and unparsing the values reproduces the bytes consumed |
| ParsingLaws.ParsedValuesHold | libsponge/util/parser.cc:26-43 | every parsed value is below 2^8, 2^16 or 2^32 as its type says, whatever the input and the error state |
| ParsingLaws.TruncatedCalls | libsponge/util/parser.cc:20-51 | on any input and any mix of fields and skips the calls that fit are served from their own bytes, all later fields are 0, nothing more is consumed, and the error is set exactly when some call did not fit |
| ParsingLaws.TruncatedParse | libsponge/util/parser.cc:20-43 | the same for a schema of fields alone |
| ParsingLaws.ErrorsAreSticky | libsponge/util/parser.cc:20-51 | from an error no call consumes, yields or clears; the error becomes a short packet exactly when some call asks for too much |
| ParsingLaws.ShortPacketOverwrites | libsponge/util/parser.cc:20-24 | a concrete parse after which a bad checksum is reported as a short packet |
| ParsingLaws.ParserAndChecksumAgree | libsponge/util/parser.cc:26-43 | the words read by any schema of 16- and 32-bit fields add up to the accumulator on the same bytes, wrapping included |
| ParsingLaws.UnparserFillsField | libsponge/util/util.cc:81-83 | writing the value into the zeroed field with the unparser makes the checksum 0 |
| FileDescriptors.Kernel.Writev | libsponge/util/file_descriptor.cc:83-85 | the kernel receives the first bytes of the vectors it is handed, in order, and answers anything that POSIX permits |
| FileDescriptors.FDWrapper.WriteOnce | libsponge/util/file_descriptor.cc:83-98 | one turn of the loop is one step of the write session for the reply received, and the kernel receives exactly the bytes that the session counts as sent |
| FileDescriptors.FDWrapper.Write | libsponge/util/file_descriptor.cc:79-102 | the call returns, throws and counts writes as the session does on the kernel's replies, each of which it waited for, and the kernel has received exactly the bytes that the session counts as sent, in order |
| WriteLaws.NarrowIsCongruent | libsponge/util/util.cc:42 | the int read for a reply is the one that agrees with it modulo 2^32 |
| WriteLaws.TurnOutcomes | libsponge/util/file_descriptor.cc:82-99 | which exception a turn throws, or what it leaves, totals and counts, for every reply of the kernel |
| WriteLaws.WritesAreCounted | libsponge/util/file_descriptor.cc:82-99 | over a run the write count is incremented once for each reply but a last one that failed or was rejected |
| WriteLaws.NothingLostOrDuplicated | libsponge/util/file_descriptor.cc:79-102 | for replies that fit an int, the bytes sent followed by the remaining views are the contents at every turn, removal never throws, and a normal return with write_all has sent everything |
| WriteLaws.ReturnedCountExact | libsponge/util/util.cc:42-48 | a run that returns normally reports what the kernel accepted if and only if every reply fitted an int, and else too few |
| WriteLaws.CountRightExactly | libsponge/util/file_descriptor.cc:79-102 | for any contents, every normal return on a truthful kernel reports what it accepted if and only if the contents have at most 2^32 bytes, or too many to be written at all |
| WriteLaws.SendRightExactly | libsponge/util/file_descriptor.cc:79-102 | the same condition decides whether every normal return has sent the first bytes of the contents once and in order, as many as reported, and all of them with write_all |
| WriteLaws.LargeWriteMiscounted | libsponge/util/util.cc:42-48 | a concrete write that is reported as 5 bytes |
| WriteLaws.LargeWriteFails | libsponge/util/util.cc:42-48 | a concrete write that the kernel accepts in full and the loop takes for a failure |
| WriteLaws.NeverFailsExactly | libsponge/util/file_descriptor.cc:85-92 | on a kernel that never fails the call cannot throw if and only if the contents fit an int |
| WriteLaws.EndsInTime | libsponge/util/file_descriptor.cc:82-99 | whatever the replies, the loop ends within one turn per byte, and at least one |
| EventLoops.EventLoop.AddRule | libsponge/util/eventloop.cc:23-29 | a new rule goes to the end of the list and shares the descriptor |
| EventLoops.NowShowsFields | libsponge/util/eventloop.cc:13-15 | a recorded world holds the eof and closed flags and the read and write counts that the descriptors had |
| EventLoops.EventLoop.FirstPass | libsponge/util/eventloop.cc:66-89 | cancels and erases each rule whose descriptor is closed, or at its end while the rule reads, when the pass gets there, and asks each other rule and builds one request for it |
| EventLoops.EventLoop.ServeReady | libsponge/util/eventloop.cc:129-139 | calls the rule, asks for its interest exactly if the descriptor's read count, for a rule that reads, or write count is what it was before the call, and is busy if the answer is yes |
| EventLoops.EventLoop.SecondPass | libsponge/util/eventloop.cc:109-142 | serves each rule by the entry built for it and by the service counts before and after its callback, despite erasures, until an exception or the end |
| EventLoops.EventLoop.WaitNextEvent | libsponge/util/eventloop.cc:61-145 | the rules left, the actions done and the outcome of a whole call, from the state of the descriptors when it starts, for every behaviour of the environment |
| EventLoopLaws.RulesAreConserved | libsponge/util/eventloop.cc:67-142 | in every outcome the rules kept are an order-preserving part of the old ones, kept and cancelled rules together are the old ones, and callbacks run in list order at most once |
| EventLoopLaws.CancelledExactlyOnce | libsponge/util/eventloop.cc:67-142 | each removed rule is cancelled exactly once and no kept rule is |
| EventLoopLaws.LeavesExactly | libsponge/util/eventloop.cc:67-89 | the first pass cancels a rule exactly when, as the events before it left the descriptor, it is closed, or at its end while the rule reads; it asks every other rule |
| EventLoopLaws.CancelledFirstExactly | libsponge/util/eventloop.cc:67-89 | in the log of any call, event k concerns rule k and is a cancellation exactly when the descriptor is then closed, or at its end while the rule reads |
| EventLoopLaws.FirstPassComesFirst | libsponge/util/eventloop.cc:66-105 | the log of a call is the first pass, followed by poll exactly if some rule is interested |
| EventLoopLaws.RequestsStayAligned | libsponge/util/eventloop.cc:67-89 | the rules kept are the live ones at increasing positions of the list, and each request has the descriptor of the rule at its position and POLLIN, POLLOUT or nothing as its direction and answer say |
| EventLoopLaws.CalledOnlyWhenWanted | libsponge/util/eventloop.cc:82-139 | a rule is called only if it was alive and interested in the first pass, and the entry at its own index reports POLLIN, for a rule that reads, or POLLOUT, and no error |
| EventLoopLaws.SuccessServesAll | libsponge/util/eventloop.cc:109-144 | on success the rules left are exactly those whose entry was not hung up, the rules called are exactly the ready ones, those cancelled late exactly the hung-up ones, and each call moved the count of its direction or ended the interest |
| EventLoopLaws.AskedAgainExactly | libsponge/util/eventloop.cc:129-139 | read off the log of any call: a rule is asked again after its callback exactly if the count of its direction stood still, and a positive answer ends the call with an exception |
| EventLoopLaws.SuccessMeansProgress | libsponge/util/eventloop.cc:129-139 | read off the log alone: on success, around every callback the read or write count of its direction moved, or the next event is its answer that it is not interested any more |
| EventLoopLaws.ThrowsExactly | libsponge/util/eventloop.cc:112-138 | a call throws a runtime error if and only if an entry it reached reports POLLERR or POLLNVAL, or a callback left the count of its direction as it was and the rule is still interested |
| EventLoopLaws.ThrowStopsThere | libsponge/util/eventloop.cc:109-142 | a call that throws has served the entries before the one at fault as a successful call does, and has left the rule at fault and all later ones in the list |
| EventLoopLaws.ExitsExactly | libsponge/util/eventloop.cc:91-105 | a call exits if and only if poll failed with EINTR or no rule is both alive and interested when the first pass gets to it |
| EventLoopLaws.TimesOutExactly | libsponge/util/eventloop.cc:97-100 | a call returns a timeout if and only if it polled and poll answered 0 |
| EventLoopLaws.EarlyReturnKeeps | libsponge/util/eventloop.cc:91-105 | a call that exits or times out leaves the rules of the first pass and has called nobody and cancelled nobody since |
| EventLoopLaws.EmptyExitsExactly | libsponge/util/eventloop.cc:48-144 | a call that leaves no rule exits if and only if the first pass left none, and otherwise returns success |
| EventLoopLaws.EmptyWithoutExit | libsponge/util/eventloop.cc:117-124 | a concrete call in which a hangup empties the list and the call returns success |
| EventLoopLaws.PollFailureIsSwallowed | libsponge/util/eventloop.cc:97-105 | a failed poll with untouched results returns success and calls nobody |
| EventLoopLaws.PollFailureReturnsSuccess | libsponge/util/eventloop.cc:97-105 | a concrete run in which poll fails for want of memory and the call returns success |
| EventLoopRuns.WaitSettles | libsponge/util/eventloop.cc:61-145 | within a call no rule is asked, called or cancelled after its cancellation, no kept rule is cancelled, and only rules of the list are touched |
| EventLoopRuns.RunKeepsAll | libsponge/util/eventloop.cc:23-145 | over any sequence of additions and waits, exceptions included, all rules ever in the list are either left, in order and without repetition, or cancelled |
| EventLoopRuns.CancelledOnceInRun | libsponge/util/eventloop.cc:23-145 | over any run each rule ever in the list is still there, or was cancelled exactly once |
| EventLoopRuns.CancelledForGood | libsponge/util/eventloop.cc:23-145 | over any run nothing is done to a rule after its cancellation, and it never comes back |
| EventLoopRuns.RunAll | libsponge/util/eventloop.cc:23-145 | any sequence of requests to a loop object is such a run, and adds no rule twice |

## Left out

- `StreamReassembler` (`libsponge/stream_reassembler.cc`): a stub without an algorithm.
- Sockets, TUN devices, addresses, `FileDescriptor::read`, `close` and `set_blocking`: thin wrappers of system calls.
- `hexdump`, timestamps, random generators, error texts, `as_string`: output, clock, randomness and string tables.
- Reference counts and the moment at which storage is freed: storage is an immutable object that lives as long as needed, so dangling views are not modelled.
- Appending a `BufferList` to itself: undefined in the source, excluded by a precondition.
- `PeekOutput`: peeking past the end reads foreign memory in the source, so it has a precondition; whole runs answer `Misused` there without making the call.
- Callbacks that add or remove rules, or throw, during `wait_next_event`: callbacks may change every descriptor but not the rule list.
- Poll masks: only the five flags that the loop looks at, as a set rather than a bit mask.
- `FDWrapper`'s destructor and its exception for a negative descriptor number: descriptors are natural numbers.
- ByteOrderIndependence: requires that neither sum wraps, as RFC 1071 does; `ByteOrderExact` covers the rest.
- PseudoHeaderRemoval: requires that the sum with the pseudo-header does not wrap, as the fix-up in the test does; `PseudoHeaderExact` covers the rest.
