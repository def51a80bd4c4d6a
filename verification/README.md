# A verified model of the proxy kit

This project models the two demanding parts of the Go repository and proves what they promise.

**The pool** (`proxypool`, `internal/lineindex`) turns an immutable file into lines. It permutes regions by a coprime
stride and by shard, rotates the blocks of a region, and permutes the lines of a block. A line belongs to the block that
holds its first byte; a load reads past its block to complete the last line, remembers the blocks inside that line so as
to skip them, and carries one byte to the next block. Batches take over the storage of a block. The model keeps this
form: `Pools.Pool`, `Batches.Batch` and `Aheads.Ahead` are classes over arrays and slots with the source's fields. Reads
may fail or come back short at any time, the source may change under the pool, and a block may come from a read that was
started ahead. A ghost counter, raised only by a failing read or a failing check of the source, ties every other error
to the state: without a fault a load fails exactly if the block owns a line over the limit, and so does a run.

The invariant `Pool.Valid` holds in every state a caller can see. It says that what was handed out followed by what
is pending is the sequence of the cycles begun so far (`Layout.Stream`), that storage stays within its limits, that the
carried byte is the file's, that no line starts in a skipped block, and that an error that sticks means what it says.
`Runs.dfy` draws the conclusions for whole runs; `Runs.ShardsShareFile` states the promise of the shard options over
the options themselves, and `Runs.Drain` says how a run ends. The specification of a file's lines is `Text.Lines`.

**The parser** (`proxyparser`, `internal/structuralindex`, `proxy.go`) has word-parallel fast paths that each replace a
loop over bytes. Each validator of `proxy.go` is a loop proved against a grammar; each fast path is proved to agree with
the validator or to decline; `Parsers.ParseInto` concludes that the fast paths and the index never change an outcome.
The two strict formats with parsers of their own accept what a compiled plan of the same format accepts, so that
`StrictFormats.StrictFormatSpells` covers every strict format.
Word tests are proved lane by lane on 64-bit vectors, where the lowest bad byte is marked whatever carries above it;
arithmetic on big-endian words and on bitmaps is proved on natural numbers.

| files | subject |
|---|---|
| `Modular`, `Sequences`, `Text` | exact modular arithmetic, rearrangements, lines of a text |
| `Layout`, `Schedule` | the schedule of a pool as a value, and stepping through it |
| `Bitmaps`, `Words`, `LineIndex`, `Kernels` | line ends, 64 bytes or one line at a time |
| `Blocks`, `Loading` | one loaded block: cutting, trimming, limits, continuation, carried byte |
| `Pool`, `Batch`, `ReadAhead`, `Opening`, `Runs` | the pool, batches, reads in flight (module `Aheads`), options, whole runs |
| `Swar`, `StructuralIndex`, `BigEndian`, `Ipv4Words` | word tests, bitmaps, addresses from two words |
| `Strings`, `Validation`, `HostPort`, `StrictParse`, `FastPath` | searches, scalar validators, fast paths |
| `Parser`, `Formats`, `StrictFormats` | the parsing loop, compiling formats, what a strict parse reads |

Where code and documentation differ: the hint of `Ends` may by its documented contract be false when a carriage return
ends the whole blocks and a line feed begins the tail; the kernels report every carriage return they examine, and
`Kernels.Ends` relies on that.

## Model

| member | source | states |
|---|---|---|
| Runs.ShardsShareFile | proxypool/proxypool.go:111-118 | Pools opened with the same source, block size, region size, nonzero seed and shard count, one per shard index, that all ran to the end have together handed out the multiset of the file's lines, for any content, sizes and mixture of calls; their line limits may differ |
| Runs.ShardedRun | proxypool/proxypool.go:111-118 | The same over effective options: the shards' histories flatten to a rearrangement of the file's lines |
| Runs.SequentialRun | proxypool/proxypool.go:462-525 | A sequential pool at its end has handed out exactly the file's lines, in order |
| Runs.OneSequence | proxypool/proxypool.go:413-460 | Any two runs over the same source and options are prefixes of one sequence, however `Next`, `NextBatch` and `Reset` are mixed and whether or not blocks come from reads ahead; so a pool after `Reset` repeats what a fresh one returns |
| Runs.Drain | proxypool/proxypool.go:413-460 | Calling `Next` until it fails on a pool that does not start over: at the end of the file exactly what was pending has been returned; without a fault the run ends there if and only if no pending line is over the limit, and otherwise fails with the too-long error |
| Runs.FreshRun | proxypool/proxypool.go:413-480 | The run of a fresh pool, with or without reads ahead; without a fault and with no line of the file over the limit it returns exactly the lines of the first cycle and then the end of the file |
| Layouts.ShardsCoverFile | proxypool/proxypool.go:854-864 | In every cycle the shards' lines are together a rearrangement of the file's lines: no line lost, none twice |
| Layouts.SequentialInOrder | proxypool/proxypool.go:834-853 | A sequential cycle is the file's lines in file order |
| Layouts.ShardsPartitionRegions | proxypool/proxypool.go:1049-1054 | The shards' region sequences together hold every region exactly once |
| Layouts.PicksPartition | proxypool/proxypool.go:1049-1054 | Shard i of n with `shardItemCount` positions i, i+n, i+2n, ...: the shards' positions partition those of the walk |
| Layouts.LastPick | proxypool/proxypool.go:1049-1054 | `shardItemCount` counts exactly the positions of a shard that lie below the total |
| Layouts.RegionBlocksPermute | proxypool/proxypool.go:527-532 | A rotated region visits each of its blocks exactly once |
| Layouts.BlockOrderPermutes | proxypool/proxypool.go:671-677 | The shuffled order of a block is a rearrangement of its lines |
| Layouts.BlocksYieldLines | proxypool/proxypool.go:587-599 | Line ownership partitions the file: the lines that start in blocks 0 to n-1, in order, are the lines that start before the end of block n-1 |
| Layouts.ShardBlocksDistinct | proxypool/proxypool.go:482-525 | A shard reads no block twice in a cycle |
| Layouts.LimitIrrelevant | proxypool/proxypool.go:834-865 | The line limit decides nothing about which lines a cycle hands out or in which order |
| Opening.OpensValid | proxypool/proxypool.go:302-407 | What `Open` accepts meets every size and shard condition the pool's theorems ask for |
| Opening.OpensExactly | proxypool/proxypool.go:302-407 | `Open` accepts exactly the options with a known mode, a shard in range, one shard where sequential or reused, sizes that fit 32 bits and the native integer, and a region no smaller than a block; its overflow check on the region size can never fire |
| Modular.AddModuloExact | proxypool/proxypool.go:1021-1029 | Exact modular addition on 64-bit words, never wrapping, for every modulus |
| Modular.MultiplyModulo | proxypool/proxypool.go:1031-1047 | Exact modular multiplication on 64-bit words for every modulus; no intermediate value wraps |
| Modular.GreatestCommonDivisor | proxypool/proxypool.go:1006-1011 | The loop computes Euclid's greatest common divisor |
| Modular.Bezout | proxypool/proxypool.go:1006-1011 | The greatest common divisor is an integer combination of its arguments, which makes coprime strides cancel |
| Modular.PermutationStep | proxypool/proxypool.go:992-1004 | The step is below the count and coprime to it |
| Modular.PermutationParams | proxypool/proxypool.go:992-1004 | The upward search with wrap-around ends at a coprime step (it passes 1 at the latest), and the start is in range |
| Modular.VisitInjective | proxypool/proxypool.go:854-864 | A walk of `count` steps with a coprime stride visits no position twice |
| Schedules.ChooseRegions | proxypool/proxypool.go:834-865 | The first region and the advance of a cycle are those of the shard's walk, for both modes and every region count |
| Schedules.NextOfShard | proxypool/proxypool.go:519-519 | Advancing by step times shard count leads from the shard's k-th region to its next one |
| Schedules.BlockOfRegion | proxypool/proxypool.go:485-489 | The block computed from base, rotation and position is that element of the rotated region |
| Schedules.IndexUpdate | proxypool/proxypool.go:471-472 | The branch-free update of a line index, the line count masked by the sign of the difference, is addition of the step modulo the line count |
| Bitmaps.MaskSelects | proxypool/batch.go:47-48 | The mask `n & (x >> 63)` adds n exactly to the negative 64-bit numbers |
| Text.LinesSplit | proxypool/proxypool.go:476-478 | The reference: a text splits at its first line feed, one carriage return before it is dropped, an unterminated last line is kept verbatim |
| Text.LinesInConcat | proxypool/proxypool.go:634-646 | Cutting an interval of the file cuts its lines: a line belongs to the part that holds its first byte |
| Text.NoLinesWithin | proxypool/proxypool.go:656-661 | Nothing starts strictly inside a line |
| Blocks.TrimIsContent | proxypool/proxypool.go:475-478 | The trimming of `Next` yields the line's content, also when the carriage-return hint is false |
| Blocks.UnguardedTrim | proxypool/batch.go:158-163 | Trimming without a guard for empty lines is right, because the byte before a line start is a line feed |
| Blocks.LimitIsOnContent | proxypool/proxypool.go:977-990 | A raw line exceeds the limit exactly when the line without its ending is longer than it |
| Blocks.IsLastLine | proxypool/proxypool.go:706-716 | An unterminated last line that got a made-up ending is still returned verbatim, even when it ends in a carriage return |
| Blocks.UnendedIsLong | proxypool/proxypool.go:718-768 | A line with no line feed in its first limit + 2 bytes is too long however it ends |
| Blocks.NoStart | proxypool/proxypool.go:634-644 | A block without a line feed before its last byte owns no line |
| Blocks.IndexedExtended | proxypool/proxypool.go:645-669 | A block whose last line was completed in a longer buffer is cut into exactly the lines that start in it, all within the limit |
| Blocks.IndexedLong | proxypool/proxypool.go:693-704 | A line that fails the limit test starts in the block and is over the limit |
| Loading.BlockReadRange | proxypool/proxypool.go:587-599 | The range stays within the file and the buffer limit, starts one byte before the block, covers it, and skips that byte only for block 0 or when it is known |
| Loading.ContinuationSkippable | proxypool/proxypool.go:656-661 | No line starts in a block of the continuation interval computed from a line's end |
| Loading.NextCarried | proxypool/proxypool.go:627-627 | The byte carried to the next block is the file byte before it |
| Loading.ByteBefore | proxypool/proxypool.go:621-626 | With `skip` set, the byte the pool puts first is the file's byte before the block, or a line feed before block 0 |
| Loading.LongLineIsOwned | proxypool/proxypool.go:881-883 | The offset of a too-long error is the start of a line that the block owns and that is over the limit |
| Pools.Pool.constructor | proxypool/proxypool.go:302-407 | A fresh pool is valid, has handed out nothing, and has the whole first cycle pending; no fault and no read ahead |
| Pools.Pool.OpenPrefetch | proxypool/proxypool.go:562-570 | Whether opening sets up reads in flight or not, the pool remains freshly begun |
| Pools.Pool.Next | proxypool/proxypool.go:413-460 | Returns the first pending line, or after a reusing pool's cycle the first line of the next; errors stick; history grows by exactly that line; every state reached is valid; without a fault the only new errors are the end of the file, with nothing pending, and the too-long error, with a line over the limit ahead |
| Pools.Pool.NextLine | proxypool/proxypool.go:462-480 | The line is taken off the front of what is pending and never longer than the limit; end of file only with nothing pending, and with reuse only for an empty file; any other error has a fault or a long line behind it |
| Pools.Pool.LoadNextBlock | proxypool/proxypool.go:482-525 | Terminates in every reachable state; on success a line is loaded and nothing pending was lost; end of file only at the end of a cycle, and with reuse only for an empty file; any other error has a fault or a line over the limit behind it |
| Pools.Pool.Advance | proxypool/proxypool.go:482-525 | One step of the schedule keeps what is pending and decreases a lexicographic measure over cycle restarts, regions and blocks; it fails only as `LoadNextBlock` may |
| Pools.Pool.VisitBlock | proxypool/proxypool.go:484-502 | Loading a block, or skipping it inside the continuation interval, keeps what is pending; it fails only with a fault or a pending line over the limit |
| Pools.Pool.LoadBlock | proxypool/proxypool.go:601-678 | On success the loaded lines are exactly those that start in the block, in the cycle's order; without a fault it succeeds if and only if all of them are within the limit, and fails only with the too-long error, which names an owned line over the limit; the continuation interval stays skippable, the carried byte right and the storage bounded |
| Pools.Pool.FetchBlock | proxypool/proxypool.go:601-627 | The buffer views the file from one byte before the block on, with the carried byte or a line feed in front, whether the bytes were read now or ahead; fails only with a fault |
| Pools.Pool.ReadBlock | proxypool/proxypool.go:602-619 | The bytes come from a read ahead or from the file, and are the same; a short or failing read is an error, the source being checked first; no error without a fault |
| Pools.Pool.TakeAhead | proxypool/ahead.go:58-76 | Bytes that were read ahead and adopted are the bytes the load wants, in storage within the limit |
| Pools.Pool.IndexBlock | proxypool/proxypool.go:680-691 | Every line end of the block is found; room for progress is never lacking, so the loop ends |
| Pools.Pool.CheckLineLimit | proxypool/proxypool.go:693-704 | Reports a line over the limit exactly when the cut holds one, though it measures only the widest gap first |
| Pools.Pool.ExtendLine | proxypool/proxypool.go:718-768 | Reads on until the line ends; on success the buffer ends with the complete line within the limit, the too-long error means that line is over it, and any other error has a fault behind it |
| Pools.Pool.Terminate | proxypool/proxypool.go:706-716 | Appends the ending that hides nothing and keeps the bytes before it |
| Pools.Pool.Resized | proxypool/proxypool.go:778-804 | Storage of at least the asked size within the limit, with the used prefix kept |
| Pools.Pool.GrowOffsets | proxypool/proxypool.go:813-832 | Afterwards 64 slots are free or the storage has its final size; the offsets are kept |
| Pools.Pool.StartCycle | proxypool/proxypool.go:834-865 | A new cycle has the shard's whole schedule ahead, nothing loaded and an empty continuation interval |
| Pools.Pool.TakeBlock | proxypool/proxypool.go:485-490 | Takes the next block of the schedule off its front |
| Pools.Pool.EnterNextRegion | proxypool/proxypool.go:517-523 | Moving to the next region leaves the blocks still to visit unchanged |
| Pools.Pool.Reset | proxypool/proxypool.go:887-904 | Succeeds exactly if the check of the source does; then history is empty and the first cycle is pending in full, whatever buffers, carried byte and reads in flight survive; a changed source is reported and sticks |
| Pools.Pool.Close | proxypool/proxypool.go:950-975 | Afterwards the pool is closed for good |
| Pools.Pool.UpcomingBlocks | proxypool/proxypool.go:534-560 | Writes, without repetition, the first blocks still to visit that the continuation interval does not cover, as many as fit |
| Pools.Pool.NextBatch | proxypool/batch.go:175-220 | Success exactly when the batch got at least one line; the batch's lines are the front of what was pending; pool and batch swap storage and share none; foreign storage over the limits is let go; without a fault it fails only at the end of the file or with a line over the limit ahead |
| Pools.Pool.HandOver | proxypool/batch.go:212-218 | The batch takes the loaded lines in their order and position, the pool the batch's storage |
| Batches.Batch.Next | proxypool/batch.go:40-53 | Returns the remaining lines one by one from the front |
| Batches.Batch.Lines | proxypool/batch.go:55-142 | Stopped after any number of lines, it has visited exactly the front of what remained, and the rest remains; if the loop body panics instead, the batch keeps its position; so it mixes freely with `Next` |
| Batches.Batch.Strided | proxypool/batch.go:98-141 | Two positions, each jumping two steps, visit the walk in order for every step and count, however often it is stopped or interrupted |
| Batches.Batch.Consecutive | proxypool/batch.go:68-97 | Consecutive lines that share boundaries are visited as `Next` would return them |
| Batches.Batch.Rest | proxypool/batch.go:32-34 | As many lines remain as `remaining` says |
| Pools.Pool.ReadAhead | proxypool/ahead.go:10-56 | The reads in flight become those of the pool's next blocks: the due reads are submitted in order, up to the first that is refused, which turns prefetching off; nothing of what is pending changes |
| Aheads.Ahead.StartReads | proxypool/ahead.go:17-54 | Submits exactly one read for each next block that is not being read, in order and each as its load will want it if the blocks before it are loaded first, up to the first refusal; the blocks read afterwards are the next ones that were read before and those whose read started |
| Aheads.SlotIsFree | proxypool/ahead.go:29-29 | After stale reads are settled, a next block that is not being read leaves a slot idle |
| Aheads.Ahead.Adopt | proxypool/ahead.go:58-76 | Adopts exactly if a read of the block was in flight, arrived whole and is the one the load wants; the bytes are those of the file; every other read in flight stays |
| LineIndex.NewlineWord | internal/lineindex/swar.go:18-22 | Bit i of the gathered word says whether byte i is a line feed, for every word |
| LineIndex.Ends | internal/lineindex/swar.go:24-89 | Stores the ascending positions just past each line feed of the bytes consumed; the hint is true if one follows a carriage return and false if there is no carriage return; stops early only for lack of room; holds across all switches of mode |
| LineIndex.BlockEnds | internal/lineindex/swar.go:56-83 | All line ends of a 64-byte block, lowest first, though two stores are made before the count is known |
| LineIndex.MaxGapWords | internal/lineindex/swar.go:91-102 | Four running maxima give the widest of the gaps they cover, and leave fewer than four |
| LineIndex.MaxGap | internal/lineindex/lineindex.go:67-76 | The widest gap between neighbouring offsets |
| Kernels.Ends | internal/lineindex/lineindex.go:18-59 | The documented contract also holds when a kernel handles whole blocks and the tail is padded with zeros, including a carriage return and line feed split between the two |
| Bitmaps.LowestBit | internal/lineindex/swar.go:60-76 | Counting trailing zeros finds the lowest bit, and `w & (w - 1)` removes it and nothing else |
| StructuralIndex.IsHostName | internal/structuralindex/swar.go:25-39 | Accepts exactly the letter-digit-hyphen names of 1 to 63 bytes with no empty label and no label that begins or ends with a hyphen, by overlapping words with carries |
| StructuralIndex.IsPrintable | internal/structuralindex/swar.go:43-53 | Accepts exactly the texts of bytes 0x20 to 0x7E, of any length |
| StructuralIndex.PaddedWord | internal/structuralindex/swar.go:86-96 | The padded load of a short text is the word of the text with letters behind it |
| Swar.NameWord | internal/structuralindex/swar.go:55-62 | One word passes the name test exactly when its bytes are name bytes, no dot is beside a dot or hyphen, and the marked ends are neither |
| Swar.UnprintableWord | internal/structuralindex/swar.go:67-69 | A borrow or carry cannot hide an unprintable byte: if no lane is marked, all eight bytes are printable |
| Swar.PrintableWord | internal/structuralindex/swar.go:67-69 | Printable bytes mark no lane |
| StructuralIndex.Index.NextIs | internal/structuralindex/structuralindex.go:103-109 | The first position of a class at or after a position, or none, for any index that describes the text |
| StructuralIndex.RangeBit | internal/structuralindex/structuralindex.go:119-121 | A range holds exactly the positions from start up to end |
| StructuralIndex.NameInRangeIs | proxyparser/fastpath.go:221-225 | The name test on bitmaps and the one on bytes accept the same names |
| StructuralIndex.PrintableRange | proxyparser/fastpath.go:80-81 | No unprintable bit in a range exactly when all its bytes are printable |
| Validation.ParseScheme | proxy.go:118-149 | A scheme is recognised exactly when its lower-case form is canonical, and that form is returned |
| Validation.IsValidPort | proxy.go:523-539 | Accepts exactly the digit sequences with a value from 1 to 65535, leading zeros included (section 3.2.3 of RFC 3986) |
| Validation.IsIPv4Literal | proxy.go:667-692 | Accepts exactly four octets with dots between, no leading zero, each at most 255 |
| Validation.IsName | proxy.go:613-653 | Accepts exactly the names of well-formed labels whose last label is all digits only in an IPv4 address (section 2.1 of RFC 1123) |
| Validation.IsValidHost | proxy.go:613-653 | Decides hosts: literals, names up to 253 bytes, or 254 with the root dot (section 11 of RFC 2181) |
| Validation.IsValidIpLiteral | proxy.go:569-594 | Decides IPv6 literals with an optional nonempty zone |
| Validation.ValidateHostnamePort | proxy.go:493-521 | Returns the verdict, with the reason, that the grammar of host and port gives |
| Validation.AcceptedExactly | proxy.go:493-567 | A text is accepted exactly when it is a host without colon, or a bracketed literal, then a colon and a valid port |
| Validation.IsValidCredentialsFor | proxy.go:725-746 | Decides credentials for a scheme: lengths, printable bytes, no colon in an HTTP user name, no SOCKS4 password, no password without user name |
| Validation.Validate | proxy.go:457-471 | The first failure in the order scheme, host and port, credentials |
| Ipv4Words.IsIPv4Exact | proxyparser/fastpath.go:228-266 | The two-word test accepts exactly what the byte-wise test does, for every byte string, including lengths out of range, missing dots, empty fields and bytes from 0x80 up |
| Ipv4Words.OctetIs | proxyparser/fastpath.go:264-266 | One unsigned comparison of big-endian ASCII decides an octet of one to three digits |
| Ipv4Words.NoOctet | proxyparser/fastpath.go:228-266 | A field whose length is not one to three is never taken for an octet, though lengths and shifts wrap around |
| Ipv4Words.WindowDots | proxyparser/fastpath.go:246-252 | The marks locate the first two dots from either end, 8 standing for none |
| HostPorts.PortWordIs | proxyparser/fastpath.go:192-202 | For up to five digits, comparing the word with "65535" and masking nibbles decides the port |
| HostPorts.AsciiOrder | proxyparser/fastpath.go:192-202 | Digit sequences of one length compare as big-endian ASCII as their values do |
| HostPorts.IsNumeric | proxyparser/fastpath.go:207-216 | Decides whether the last label is all digits |
| HostPorts.IsHostPort | proxyparser/fastpath.go:178-226 | Accepts one set of endpoints, the same with and without an index |
| HostPorts.FastIsAccepted | proxyparser/fastpath.go:178-226 | Every endpoint the fast test accepts passes the scalar validation |
| FastPaths.ScanCredentials | proxyparser/fastpath.go:154-176 | Finds the first colon and the first at sign after it exactly, calls the span printable only if it is, and always if the whole input is |
| FastPaths.ScanWord | proxyparser/fastpath.go:159-170 | The masked zero-byte test finds the first delimiter at or after a position of the window |
| FastPaths.IndexSchemeSeparator | proxyparser/fastpath.go:121-132 | The first separator, by bitmap or by search |
| FastPaths.IndexByteFrom | proxyparser/fastpath.go:134-142 | The first occurrence of a byte, by bitmap or by search |
| FastPaths.SchemeRecognized | proxyparser/fastpath.go:46-58 | Every input that begins with a canonical scheme and its separator is recognised by its first word |
| FastPaths.SchemeFound | proxyparser/fastpath.go:46-58 | A recognised scheme is the one the scalar parser finds |
| FastPaths.ParseStrictFast | proxyparser/fastpath.go:42-98 | What it handles has the scalar parser's outcome, error included. Without credentials it handles exactly canonical schemes with a fast endpoint; with credentials exactly canonical schemes where a delimiter lacks, or a credential pair the scheme takes is followed by a fast endpoint, except that an unprintable byte can make it decline the latter |
| FastPaths.IsValidFast | proxyparser/fastpath.go:100-119 | Accepts exactly canonical schemes with valid credentials and a fast endpoint, with and without index or alias, and only proxies that validation accepts |
| FastPaths.IsValidPair | proxyparser/fastpath.go:105-111 | The fast credential test accepts exactly what the scalar one does |
| Parsers.ParseInto | proxyparser/proxyparser.go:276-492 | For every parser, strictness and input, proxy and error are the same with the fast paths on or off and with or without an index |
| Parsers.TakeStep | proxyparser/proxyparser.go:322-460 | One turn of the loop over the plan gives the same step with and without an index |
| Parsers.Finish | proxyparser/proxyparser.go:461-492 | The checks after the loop give the same verdict with and without the fast validation |
| Parsers.StepOk | proxyparser/proxyparser.go:322-460 | Every turn moves forward in the plan and keeps positions, captured host and alias within the input |
| StrictParsers.ParseSchemeHostPort | proxyparser/proxyparser.go:494-511 | The outcome for `%t://%h:%d`, the reference for the fast parser and the partner of the compiled plan |
| StrictParsers.ParseFullCredentials | proxyparser/proxyparser.go:513-544 | The outcome for `%t://%u:%p@%h:%d`, the reference for the fast parser and the partner of the compiled plan |
| Formats.New | proxyparser/proxyparser.go:149-237 | Fails exactly for formats that are too long, end in a percent sign or hold an unknown verb, with the first such fault; otherwise each verb knows the first literal and the first at sign after it |
| Formats.CountFormatOps | proxyparser/proxyparser.go:595-616 | Finds the first fault, or counts the operations |
| Formats.LinkOps | proxyparser/proxyparser.go:204-229 | The backward pass gives every verb the literals that follow it in the format |
| Formats.PlanIsValid | proxyparser/proxyparser.go:149-237 | Every compiled plan meets what the parsing loop relies on |
| Formats.StrictParseSpells | proxyparser/proxyparser.go:297-491 | A strict parse that succeeds has read its input as the format's literals and captures concatenated in order; scheme, user name, password and host come from those captures, and no host or port is empty |
| Formats.StrictRun | proxyparser/proxyparser.go:322-464 | The same from any point of a run on |
| StrictFormats.HostPortAgrees | proxyparser/proxyparser.go:494-511 | The parser of `%t://%h:%d` accepts exactly what strict parsing with a compiled plan of that format accepts, with the same proxy |
| StrictFormats.CredentialsAgree | proxyparser/proxyparser.go:513-544 | The parser of `%t://%u:%p@%h:%d` accepts exactly what strict parsing with a compiled plan of that format accepts, with the same proxy |
| StrictFormats.EndpointRun | proxyparser/proxyparser.go:322-464 | A strict plan that ends in `%h:%d` accepts exactly if validation accepts the rest of the input as the host, brackets and zones included |
| StrictFormats.StrictFormatSpells | proxyparser/proxyparser.go:149-237 | Whatever the format and whichever parser it gets, a strict parse that succeeds has read its input as the format's literals and captures in order, and the proxy holds those captures |

## Left out

- Modular.PermutationStep: `mix64` is a parameter of every schedule, so nothing is said about how random an order is.
- Pools.Pool.Next: returns a value; `NextBytes`, which copies the same line into a caller's buffer, and nil receivers are not modelled.
- Pools.Pool.ReadAt: the operating system is nondeterministic: a read delivers a true prefix of what was asked and may fail; hints and buffered readers are left out.
- Pools.Pool.TakeAhead: the pool, the batch and the slots of reads in flight pass storage around; here adopted bytes land in new storage within the limits, and slots hold requests only.
- Aheads.Ahead.Adopt: unbuffered reads with page rounding and buffer alignment are not modelled.
- Pools.Pool.NextBatch: the nil batch is not modelled.
- Batches.Batch.Lines: the loop body is a number of lines after which it stops or panics; the call counter that makes it panic when the body reuses the batch is not modelled.
- Pools.Pool.UpcomingBlocks: the read-ahead advice of `prefetchNextLocked` is not modelled.
- Kernels.EndsBlocks: a byte loop stands for the assembly kernels; their instructions and the CPU detection are not modelled.
- StructuralIndex.Build: whether a kernel exists is nondeterministic; the bitmaps are the documented ones.
- Validation.IsValidIpLiteral: which texts are IPv6 addresses is a parameter; both tiers of the parser ask the same function.
- Ipv4Words.IsIPv4: shifts and masks by whole bytes are quotients and remainders of big-endian numbers, and counting trailing zeros in eights is a search for the lowest byte.
- Parsers.ParseInto: the proxy is a value that the loop replaces instead of a destination updated in place; whether the host aliases the input is an offset or -1.
- StrictFormats.StrictFormatSpells: says nothing about lenient parsing, whose outcome is the function `Parsers.GenericOutcome` that the loop is proved to compute.
- The cursor of a pool is unbounded here and 64 bits wide in the source.
- Locks, finalizers and concurrent calls: every method of the source runs under one lock.
- Error texts, statistics, getters, setters, logging, default ports and URL conversion: easy members only.
