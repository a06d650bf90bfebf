# 56VFS in Dafny

This project models the parts of 56VFS, a file distribution system, whose behaviour is hardest to see from
reading one function, and proves what they are for. Every file holds one module, or two that belong
together. `dafny verify dfyconfig.toml` checks all of it.

- **Redis replies and commands** (`resp_*.dfy`, `bytes.dfy`). The streaming reply reader of hiredis, with its
  nine-frame task stack, its buffer and its trim, and the command formatters. `RespSpec` is the reader as a
  machine over values; `RespReader.Reader` updates `pos`, `len`, `ridx` and the frames in place and is proved
  to take exactly its steps. Chunk independence, the exact condition for safety of the stack, and that printing
  and reading invert, are proved about the machine for every stream and every reply tree. Numbers are those of
  the machine (`machine_ints.dfy`): a long long wraps, and array counts are narrowed to int.
- **Shared-memory counters** (`shm_*.dfy`, `nm_shm.dfy`). A hash table in one flat array, whose
  reallocation can nest, refines a map; two of them behind a flipping index conserve every key's sum, modulo
  2^32, over every interleaving of increments and reads exactly as long as no read begins inside another.
- **File transfer** (`mybuff.dfy`, `protocol.dfy`, `transfer*.dfy`). Two peers, their buffers and the bytes in
  flight. `TransferSpec` is one end as a machine over values, `Transfer.Conn` the fields and buffers that take
  its steps, and `TransferRun` whole runs of partial sends, deliveries and partial or failing writes, in which
  either side may close, and files that are completed over several connections.
- **The hash table and the strings of hiredis** (`dict*.dfy`, `sds*.dfy`). Heap-linked buckets that double
  refine a map, over runs and under iteration with deletions; growing byte strings, splitting by a separator,
  quoting and the tokenizer.
- **MD5 and HMAC** (`words.dfy`, `md5*.dfy`). The streaming context and the 64 unrolled steps against
  RFC 1321, sections 3.1 to 3.5, and the HMAC functions against RFC 2104, section 2. Words are integers below
  2^32 with bitwise operations defined bit by bit; that definition agrees with a second one on bit vectors for all
  blocks (`MD5Bits`), on which the digests of the empty message and of "abc" are computed (`MD5Vectors`).
- **The cache of recent tasks** (`lists.dfy`, `dup_*.dfy`). Records threaded through two intrusive circular
  lists. Addresses are indices, so that `list_entry` is the arithmetic that it is in C.
- **Base64** (`base64.dfy`), computed from bit offsets, against section 4 of RFC 4648.

Where a natural claim is false of the code, the code is kept, and the exact limit is proved as an equivalence or
by a lemma for each side of it:

- replies: array counts that the conversion to int does not keep (`RespSafety.RunsAreSafe`), integers of 2^63 and
  more (`RespRoundTrip.ReadDecimal`), more than eight array levels (`RoundTrip`), status text with a CRLF
  (`StatusLine`), 2^31 bytes held (`RespReader.LineIsLost`);
- commands of 2^31 - 1 bytes and more (`RespFormat.FormatCommandArgv`, `FourGigabytes`);
- shared memory: tables of fewer than five nodes (`ShmTable.GrowthSum`, `NeverRoom`), memory of 2^31 bytes
  (`ShmTable.LastGrowth`, `ShmRun.Run`, `QuarterHeads`), counters that leave the range of an int
  (`DoubleBuffer.Conservation`, `OverflowIsDelivered`), a read that begins inside another (`ExactlyWhenIdle`);
- transfer: streams of 2^31 bytes or more (`TransferRun.SenderVerdict`, `LateAccept`), failing writes
  (`WriteFailure`, `StarvedForever`), bodies of 4096 bytes (`Protocol.ParseFrame`), 2^31 bytes held
  (`Protocol.DrainedExact`, `TransferRun.StuckBeforeHead`);
- strings: bytes printed in hexadecimal (`SdsQuote.RoundTrip`), lengths of 2^31 (`Sds.LengthIsKept`), more than
  5 * 2^28 tokens (`Sds.SplitLen`);
- others: Base64 of 2^28 bytes and more (`Base64.RoundTrip`), hash tables of more than 2^31 slots
  (`Dict.SlotsAreInts`) and their iteration (`DictIter.Sweep`), entries behind younger ones
  (`DupRun.DropIsKeep`) and times of 2^32 and more (`DupRun.StampsAreShort`).

In three places the code does not do what its own text says, and the model follows the code. The comment
before `sdssplitargs` says that it parses what `sdscatrepr` prints and gives `\xff` as an example, but it does
not read hexadecimal escapes (`SdsQuote.RoundTrip`). `svc_recv` means to close the connection when a write
fails, but keeps the result in an unsigned variable (`TransferRun.WriteFailure`). `MD5Final` means to clear the
context, but clears only as many bytes as a pointer has (`MD5Context.Context.Final`, `NeverCleared`).

## Model

| member | source | states |
|---|---|---|
| `RespChunks.ChunkIndependence` | cdc/redis/lib/hiredis/hiredis.c:585-665 | Main result: from any reader that has been drained, feeding a stream in any pieces and draining after each gives the same replies, in the same order, and the same final state (unread bytes, stack, error) as feeding it whole |
| `RespChunks.SameStreamSameReplies` | cdc/redis/lib/hiredis/hiredis.c:617-665 | Two ways of cutting one stream cannot be told apart by the replies or by the state of a fresh reader |
| `RespChunks.DrainMore` | cdc/redis/lib/hiredis/hiredis.c:617-665 | Asking for replies before or after more bytes arrive gives the same sequence: a suspended reply resumes to what it would have been with all bytes at hand |
| `RespChunks.ItemMore` | cdc/redis/lib/hiredis/hiredis.c:507-554 | One item: a complete one does not look at later bytes, a protocol error stays, and a suspended one continues to the same result |
| `RespSpec.ItemConsumes` | cdc/redis/lib/hiredis/hiredis.c:507-554 | Each successful processItem makes the unread bytes fewer, so that the item loop ends |
| `RespSpec.LoopConsumes` | cdc/redis/lib/hiredis/hiredis.c:642-644 | The item loop never adds unread bytes, and a finished reply has used at least one |
| `RespSafety.ItemKeepsOk` | cdc/redis/lib/hiredis/hiredis.c:507-554 | Every item keeps: at most nine frames, every idx inside the array below it, the tree with exactly the slots that the frames say; a store through a parent without a slot is a fault. Frames stay non-empty and the slots before the next idx complete if and only if the item reads no array count that the conversion to int does not keep |
| `RespSafety.GetReplyKeepsOk` | cdc/redis/lib/hiredis/hiredis.c:617-665 | Across a request from a good state: a reply is handed out without an empty slot, or the state stays good, if and only if every array count that the request read is one that the conversions keep |
| `RespSafety.RunsAreSafe` | cdc/redis/lib/hiredis/hiredis.c:330-353 | Main result: over every stream and every way of feeding it, every reply is complete and both asserts of moveToNextTask and every store through a parent have their slot, if and only if the array counts read on the way, except those of a request that ends in a protocol error, are kept by their conversion to int: -1, or positive before and after it, or not positive before and 0 after it. Otherwise an empty slot is handed out, or the reader is left with a frame without slots |
| `RespCounts.RootHeader` | cdc/redis/lib/hiredis/hiredis.c:442-505 | What an array header at the root does, for every long long count: one frame with the count converted to int, and as many slots, or none |
| `RespCounts.NegativeCount` | cdc/redis/lib/hiredis/hiredis.c:463-488 | Every count below -1 is answered at once by an array reply; it is complete if and only if the conversion to int is 0 |
| `RespCounts.LostCount` | cdc/redis/lib/hiredis/hiredis.c:474-488 | Every positive count whose conversion to int is not positive leads to a store without a slot at the next item |
| `RespCounts.NoSlotNoReply` | cdc/redis/lib/hiredis/hiredis.c:330-353 | A reader with such a frame never finishes a reply from it, whatever follows |
| `RespCounts.CountsThatFail` | cdc/redis/lib/hiredis/hiredis.c:447-488 | The counts 2^32, 1 - 2^32 and -2 and what they lead to: a store without a slot, an array of one empty slot, an array of size 2^64 - 2 without slots |
| `RespCounts.LostCountDropped` | cdc/redis/lib/hiredis/hiredis.c:447-526 | A count that leads to a frame without slots does no harm when a byte that is no type follows it |
| `RespLines.UnknownType` | cdc/redis/lib/hiredis/hiredis.c:512-535 | A byte other than $, *, +, - and : where a type is expected gives no reply, and leaves the reader in the protocol error that names the byte, with nothing buffered |
| `RespLines.SignedNumber` | cdc/redis/lib/hiredis/hiredis.c:288-313 | An integer line with + gives the number below 2^63, with - its negation, and without a digit 0; the bytes behind stay unread |
| `RespLines.NotANumber` | cdc/redis/lib/hiredis/hiredis.c:300-308 | An integer line with any byte that is no digit behind the optional sign gives -1 |
| `RespRoundTrip.RoundTrip` | cdc/redis/lib/hiredis/hiredis.c:389-505 | Main result: a printed reply tree, with integers of magnitude below 2^63 and counts and lengths below 2^31, followed by any bytes is read back as that tree with exactly those bytes unread if it has at most eight array levels; with more levels the reader always ends in the depth error and gives no reply |
| `RespRoundTrip.NinthLevel` | cdc/redis/lib/hiredis/hiredis.c:442-454 | An array type at the ninth level is the depth error whatever follows it |
| `RespRoundTrip.StreamRoundTrip` | cdc/redis/lib/hiredis/hiredis.c:617-665 | Any sequence of printed replies with at most eight array levels is drained as that sequence, and the reader ends as it began |
| `RespRoundTrip.StatusLine` | cdc/redis/lib/hiredis/hiredis.c:355-387 | A status line of any text comes back as that text with the following bytes unread exactly when the text holds no CRLF |
| `RespRoundTrip.SeekLine` | cdc/redis/lib/hiredis/hiredis.c:260-284 | The newline scan finds the end of a line exactly when the line holds no CRLF itself |
| `RespRoundTrip.ReadDecimal` | cdc/redis/lib/hiredis/hiredis.c:288-313 | Reading an integer printed in decimal gives it modulo 2^64, and so gives it back if and only if it fits a long long |
| `RespRoundTrip.NoOverflow` | cdc/redis/lib/hiredis/hiredis.c:288-313 | The accumulation of a printed integer stays within a long long if and only if its magnitude is below 2^63; -2^63 overflows although its value fits |
| `RespRoundTrip.TwoTo63IsNegative` | cdc/redis/lib/hiredis/hiredis.c:288-313 | The integer 2^63 is read as -2^63 |
| `RespReader.Reader.SeekNewline` | cdc/redis/lib/hiredis/hiredis.c:260-284 | The scanning loops find the first CRLF of up to 2^31 bytes, or report that there is none; in more bytes, up to 2^32, the int length finds nothing |
| `RespReader.LineIsLost` | cdc/redis/lib/hiredis/hiredis.c:260-284 | A complete line is no longer found when 2^31 more bytes are held behind it |
| `RespReader.Reader.ParseLongLong` | cdc/redis/lib/hiredis/hiredis.c:288-313 | The digit loop computes the number of the line in 64 bits, and -1 for an unexpected byte |
| `RespReader.Reader.MoveToNextTask` | cdc/redis/lib/hiredis/hiredis.c:330-353 | The loop over ridx leaves the stack that the machine's MoveNext gives, with both asserts of the original holding on the way |
| `RespReader.Reader.ProcessLineItem` | cdc/redis/lib/hiredis/hiredis.c:355-387 | Takes the machine's step for integer, status and error lines |
| `RespReader.Reader.ProcessBulkItem` | cdc/redis/lib/hiredis/hiredis.c:389-440 | Takes the machine's step for bulk strings; suspends until the whole string and its CRLF are there |
| `RespReader.Reader.ProcessMultiBulkItem` | cdc/redis/lib/hiredis/hiredis.c:442-505 | Takes the machine's step for array headers: depth error, nil, positive counts pushed after their conversion to int, others closed; false also when the reply has no slot to go to |
| `RespReader.Reader.ProcessItem` | cdc/redis/lib/hiredis/hiredis.c:507-554 | Takes the machine's step for one item, and the protocol error for an unknown type byte |
| `RespReader.Reader.Feed` | cdc/redis/lib/hiredis/hiredis.c:585-615 | Appends the bytes to the unread ones, as long as the buffer stays below 2^31 bytes; a reader in an error state refuses them; dropping an oversized empty buffer changes nothing |
| `RespReader.Reader.Trim` | cdc/redis/lib/hiredis/hiredis.c:650-656 | Discarding 1024 or more consumed bytes changes neither the unread bytes nor the stack |
| `RespReader.Reader.GetReply` | cdc/redis/lib/hiredis/hiredis.c:617-665 | The in-place reader refines the machine: same reply, same state; from a good state the reply has no empty slot if and only if every array count read is one that the conversions keep |
| `RespReader.Reader.Session` | cdc/redis/lib/hiredis/hiredis.c:585-665 | Feeding any pieces and draining after each yields exactly the replies of the whole stream, while what is held between two calls, with each piece, stays in the range of an int; all are complete and the reader stays good if and only if the counts are kept |
| `RespFormat.ReadCommand` | cdc/redis/lib/hiredis/hiredis.c:939-971 | Formatted commands and the reader invert: a command of fewer than 2^31 - 1 bytes followed by any bytes is read as the array of its arguments, the bytes behind it unread |
| `RespFormat.CommandInjective` | cdc/redis/lib/hiredis/hiredis.c:939-971 | Different argument lists never give the same command, whatever bytes follow |
| `RespFormat.IntLen` | cdc/redis/lib/hiredis/hiredis.c:668-679 | The division loop counts exactly the characters of the decimal form of every int, the least one included, whose negation is itself |
| `RespFormat.BulkLen` | cdc/redis/lib/hiredis/hiredis.c:682-684 | The precomputed length is that of the bulk string header, its body and both line ends, with the digits counted of the length converted to int |
| `RespFormat.Build` | cdc/redis/lib/hiredis/hiredis.c:878-891 | Writing into a block of the precomputed size: the block holds the command, with a NUL behind it, and the length is right, if and only if the command is shorter than 2^31 - 1 bytes; otherwise the block is refused or overrun |
| `RespFormat.FormatCommandArgv` | cdc/redis/lib/hiredis/hiredis.c:939-971 | Main result: for every argument vector, with or without lengths, totlen computed in an int and the block of totlen + 1 bytes are right if and only if the command is shorter than 2^31 - 1 bytes; when the block is refused, and how much too small it is otherwise, is stated |
| `RespFormat.ArgvDenotes` | cdc/redis/lib/hiredis/hiredis.c:946-960 | Without lengths an argument is the bytes before its first NUL, with lengths so many bytes |
| `RespFormat.TotLenExact` | cdc/redis/lib/hiredis/hiredis.c:943-951 | The length computed in an int is that of the command if and only if that is below 2^31 |
| `RespFormat.FourGigabytes` | cdc/redis/lib/hiredis/hiredis.c:943-954 | Four arguments of 2^30 bytes: the command has 2^32 + 64 bytes, and the computed length is 64 |
| `RespFormat.FormatCommand` | cdc/redis/lib/hiredis/hiredis.c:686-895 | The same for the format loop. A format of words without NUL, % or space, separated by single spaces, gives the command of exactly these words; one whose words also contain %s, %b and %% gives the command of the words with the bytes before the first NUL, the counted bytes and one percent sign put in. In general there is one argument for each template |
| `RespFormat.FormatMeans` | cdc/redis/lib/hiredis/hiredis.c:704-746 | Main result: the strings that any format of words made of bytes, %s, %b and %% denotes are these words with the variable arguments put in one after another, whatever the arguments contain |
| `RespFormat.PlainFormat` | cdc/redis/lib/hiredis/hiredis.c:704-725 | Words without NUL, % or space, separated by single spaces, are the strings of their format |
| `RespFormat.CountedWord` | cdc/redis/lib/hiredis/hiredis.c:742-747 | With %b for one of the words, that string is the counted bytes, and the others are unchanged |
| `RespFormat.TextWord` | cdc/redis/lib/hiredis/hiredis.c:736-741 | With %s for one of the words, that string is the bytes before the first NUL of the argument |
| `RespFormat.PercentWord` | cdc/redis/lib/hiredis/hiredis.c:748-750 | With %% inside one of the words, that string has one percent sign there |
| `RespFormat.FormatsInUse` | cdc/redis/lib/cdc_redis_api.c:14-29 | The formats "SELECT 3" and "GET %b" in literal bytes: SELECT and 3; GET and the key |
| `RespFormat.CountedFormatIsArgv` | cdc/redis/lib/hiredis/hiredis.c:742-746 | A format of %b directives separated by spaces gives the same command as the argument vector, whatever the arguments contain, empty ones included |
| `RespFormat.ArgumentsDoNotSpill` | cdc/redis/lib/hiredis/hiredis.c:706-858 | What a formatted command is read back as has one string per template of the format, each with its own arguments: no argument text adds a string or reaches another one |
| `ShmTable.Table.Find` | 3rdlib/TShmBuffer.h:203-228 | Following the chain of the bucket finds a key exactly when the table's map holds it, at the node with the map's value |
| `ShmTable.Table.Add` | 3rdlib/TShmBuffer.h:153-201 | A key that is absent is added to the map and nothing else changes, also when the overflow area is full and the table is reallocated, which may nest; the recursion ends. It grows to the first size that has room for the keys, and fails only where the bucket and the overflow area are full and no size that reallocations reach below 2^31 bytes has room for the keys |
| `ShmTable.Table.Realloc` | 3rdlib/TShmBuffer.h:327-376 | Leaves the map unchanged, nested reallocations of its own Adds included, and makes the table strictly larger when it has five nodes or more; fails exactly when the new size in bytes does not fit an int, there or further on, and then the memory is gone |
| `ShmTable.Table.LastInChain` | 3rdlib/TShmBuffer.h:160-174 | The walk to an insertion place ends at an empty node of the bucket's chain or at its last node |
| `ShmTable.Table.Erase` | 3rdlib/TShmBuffer.h:230-251 | Removes the key from the map and reports whether it was there; every chain stays as it is |
| `ShmTable.Table.Store` | 3rdlib/TShmBuffer.h:206-214 | Writing through the place that Find returned updates that key only |
| `ShmTable.Table.Clear` | 3rdlib/TShmBuffer.h:253-258 | Leaves an empty map |
| `ShmTable.Table.Next` | 3rdlib/TShmBuffer.h:282-302 | After Begin every live key is visited exactly once, with its value, and then the end is reported |
| `ShmTable.FillWf` | 3rdlib/TShmBuffer.h:164-196 | Reusing an erased node adds the key and keeps every used node on exactly one chain and every key in exactly one node |
| `ShmTable.AppendWf` | 3rdlib/TShmBuffer.h:185-196 | Linking a fresh node behind the last one adds the key and keeps the same invariant |
| `ShmTable.EraseWf` | 3rdlib/TShmBuffer.h:236-242 | Emptying a node removes exactly its key and keeps the same invariant |
| `ShmTable.GrowthExact` | 3rdlib/TShmBuffer.h:333-337 | The 12/10 scaling enlarges the overflow area exactly when hash_size % 5 + data_size >= 5, which data_size >= 5 always gives |
| `ShmTable.NoGrowth` | 3rdlib/TShmBuffer.h:333-337 | A table of fewer than five nodes in all keeps its sizes, so that its reallocation cannot make room |
| `ShmTable.GrowthSum` | 3rdlib/TShmBuffer.h:333-337 | The scaling enlarges the table as a whole if and only if it has five nodes or more |
| `ShmTable.NeverRoom` | 3rdlib/TShmBuffer.h:327-376 | Below five nodes no number of reallocations makes room: keys in any such table are keys that fit the first one, so that Add's condition is exact |
| `ShmTable.UsedCoversNeed` | 3rdlib/TShmBuffer.h:153-201 | Every well-formed table uses at least one overflow node for each key that shares its bucket with an earlier one |
| `ShmTable.GrownBytes` | 3rdlib/TShmBuffer.h:121-134 | The new sizes of a table whose bytes fit an int are computed without overflow, and their bytes are negative as an int exactly when they do not fit |
| `ShmTable.LastGrowth` | 3rdlib/TShmBuffer.h:327-349 | A table of integers can be reallocated if and only if it has at most 149130806 nodes |
| `ShmRun.SetValue` | 3rdlib/TNmShm.cpp:105-122 | Find, then overwrite or add, stores the value for the key; it fails if and only if the key is new, its place is full, and no reallocation makes room within the range of an int |
| `ShmRun.Run` | 3rdlib/TShmBuffer.h:153-258 | Main result: any run of stores, erasures, clearings and lookups on positive keys answers as a map does and ends in that map, whatever reallocations it causes. It stops only at a store into a table that holds the map of that moment and cannot take the key: absent, its chain and the overflow area full, no room within the range of an int. It does not stop if there are overflow nodes for all its stores, here, or for all its keys and stores at some later size that fits an int |
| `ShmRun.QuarterHeads` | 3rdlib/TNmShm.cpp:15-30 | An integer table with at most a quarter of its nodes as heads, as the program allocates it, takes every run that leaves it with no more than 111848106 keys and stores together |
| `ShmRun.FewKeysHaveRoom` | 3rdlib/TShmBuffer.h:327-349 | There is room for as many keys as the next size has overflow nodes, if it fits |
| `ShmRun.ManyKeysHaveNone` | 3rdlib/TShmBuffer.h:327-349 | There is no room for more keys than 2^31 bytes have nodes |
| `ShmRun.FindsLastStored` | 3rdlib/TShmBuffer.h:203-258 | From an empty table a lookup answers exactly the value stored last for the key and not removed since |
| `DoubleBuffer.Conservation` | 3rdlib/TNmShm.cpp:74-103 | Main result: over every run of increments and reads in which no read begins inside another, for every key the increments equal what was delivered, what a read that ended early dropped, what is still due, and what the int counters lost by wrapping around |
| `DoubleBuffer.SumConserved` | 3rdlib/TNmShm.cpp:74-103 | With reads that go to the end the increments equal deliveries plus what the two tables store: modulo 2^32 always, and exactly when no counter leaves the range of an int |
| `DoubleBuffer.SmallSums` | 3rdlib/TNmShm.cpp:174-182 | No counter leaves the range of an int while the amounts are not negative and their sum is below 2^31 |
| `DoubleBuffer.OverflowIsDelivered` | 3rdlib/TNmShm.cpp:90-103 | The increments 2^31 - 1 and 1 of one key are delivered as -2^31 |
| `DoubleBuffer.NothingDropped` | 3rdlib/TNmShm.cpp:90-103 | A run whose reads all go to the end drops nothing |
| `DoubleBuffer.SecondBeginLoses` | 3rdlib/TNmShm.cpp:74-88 | From every state with a read open, for every key and amount, a second begin has a continuation, with every read going to the end, whose account misses exactly that amount |
| `DoubleBuffer.ExactlyWhenIdle` | 3rdlib/TNmShm.cpp:74-103 | Main result: beginning a read keeps the account of every key in every continuation balanced modulo 2^32 if and only if no read is open |
| `NmShm.Counter.Inc` | 3rdlib/TNmShm.cpp:174-190 | Find, then add to the int or store it, is one increment of the current table; it fails exactly when the table cannot take a new key |
| `NmShm.Counter.BeginRead` | 3rdlib/TNmShm.cpp:74-81 | Flips the index by complement and starts with every key of the table written so far pending |
| `NmShm.Counter.ReadNext` | 3rdlib/TNmShm.cpp:90-103 | Delivers a pending key with its value once, and reports the end exactly when none is pending |
| `NmShm.Counter.EndRead` | 3rdlib/TNmShm.cpp:83-88 | Empties the table that was read |
| `MyBuff.Buff.SetData` | network/mybuff.c:23-47 | Appends the bytes to the queue, whether or not the block had to grow |
| `MyBuff.Buff.SkipData` | network/mybuff.c:57-68 | Drops the given number of bytes from the front, or all, by moving the rest down |
| `MyBuff.Buff.SkipFile` | network/mybuff.c:87-99 | Moves the file range on by the bytes sent, and closes it when nothing is left |
| `Protocol.CreateSigMsg` | lib/protocol.c:33-50 | Writes the frame of the message and returns its length |
| `Protocol.ParseSigMsg` | lib/protocol.c:17-31 | Decides between missing head, missing body, an oversized body and the message, for the number of bytes it is told |
| `Protocol.ParseHeldIs` | lib/protocol.c:17-31 | Fewer than 2^31 bytes are parsed as they are; from there to 2^32 the head counts as missing |
| `Protocol.DrainedExact` | network/data/vfs_data.c:161-188 | A stream that does not make the receiver close is parsed to its end if and only if fewer than 2^31 bytes are held |
| `Protocol.ParseFrame` | lib/protocol.c:17-50 | A frame followed by any bytes is parsed back exactly when its body is shorter than MAX_SIG_BODY; otherwise the connection is closed |
| `Protocol.NetworkOrder` | lib/protocol.c:17-50 | The frame is the high-order and the low-order byte of the body length, the command, the status and the body, in literal bytes, and is parsed back from them if the length is below 4096 |
| `Protocol.ParsePrefix` | lib/protocol.c:19-26 | No proper prefix of a frame is taken for a message |
| `Protocol.ChunksDecodeAlike` | network/data/vfs_data.c:161-188 | Parsing and consuming after each arrival gives what parsing the whole stream gives, for arrivals that leave the bytes held in the range of an int |
| `Protocol.StreamRoundTrip` | network/data/vfs_data.c:161-188 | Main result: messages with bodies shorter than MAX_SIG_BODY, sent as frames and delivered in any pieces of up to 2^31 - 4100 bytes, come out completely, in order, with nothing left over |
| `Protocol.PrefixRoundTrip` | network/data/vfs_data.c:173-178 | From an incomplete stream only a prefix of the messages comes out, and the connection is never closed |
| `TransferRun.RunKeepsInv` | network/data/vfs_data.c:190-281 | Main result: after any run of partial sends, deliveries, partial writes, closes of either side and losses after a close, bytes consumed ++ received ++ in flight are a prefix of the head frame ++ source[offsize..fsize), and with the unsent ones all of it while the sender is open; what is written is a prefix of the slice, and an accepted file is the slice |
| `TransferRun.StepKeepsInv` | network/data/vfs_data.c:190-281 | One step keeps this, and the receiver checks the file only when exactly the slice is written |
| `TransferRun.Start` | network/data/vfs_data.c:173-187 | Delivering the request to a peer that can send the file, while the receiver waits for the answer, establishes the invariant, for any request and either setting of continue_flag |
| `TransferRun.RequestIsAnswered` | network/data/vfs_data_sub.c:34-43 | Main result: in every state but that of receiving a file, a whole request of literal bytes in the buffer is consumed and answered with EPOLLOUT: head, status and base image are queued behind what was there. When the file can be sent the status is 0x81, the peer is SENDFILEING, and source[offsize..fsize) is queued behind the head; otherwise the status is 0x86 or 0x87 and no file is queued. Which base image travels is decided from the bytes of the request and the settings |
| `TransferRun.AnswerIsTaken` | network/data/vfs_data_task.c:33-82 | A whole answer of literal bytes that reaches the waiting receiver is consumed; status 0x81 starts receiving with the own base image if both MD5 texts are the same, otherwise with the one that came, offset cleared unless transfers are continued; any other status ends the task |
| `TransferRun.OthersClose` | network/data/vfs_data.c:161-188 | Any other command, a body that is not of the size of the base image, and an answer that was not waited for are taken and close the connection; a body length of 4096 or more closes it and nothing is taken |
| `TransferRun.FileFinished` | network/data/vfs_data.c:211-258 | The write that completes the file: with the right content the task is over, the peer IDLE, and the connection is closed only with a proxy; with wrong content the connection is closed and the error recorded |
| `TransferSpec.Int64Is` | network/data/vfs_data_task.c:57-61 | offsize and fsize are read from the image low-order byte first, negative when the highest bit is set |
| `TransferRun.DoSendMoves` | network/vfs_so.c:157-251 | What leaves is taken off the front of buffer ++ file range, buffered data first; a verdict comes only when both are empty |
| `TransferRun.HeadArrives` | network/data/vfs_data.c:161-188 | The receiver waits until the whole head has come, and the number of bytes held says so as an int, and then takes exactly the head |
| `TransferRun.RecvFileMoves` | network/data/vfs_data.c:199-261 | One write moves what it took from the buffer to the file; the check runs exactly when the slice is complete; lastlen stays below processlen until then |
| `TransferRun.SvcRecvMoves` | network/data/vfs_data.c:190-281 | The whole receive handler keeps the stream in order and never checks an incomplete file |
| `TransferRun.SenderVerdict` | network/data/vfs_data.c:291-321 | When the sender gives its verdict, head and slice have left its buffers completely; the verdict is OVER_OK exactly when their length is below 2^31, because send_len is an int |
| `TransferRun.LateAccept` | network/vfs_so.c:136-251 | When the stream has 2^31 bytes or more the sender reports failure and closes, and the receiver still takes the head and accepts the file with one more delivery and one write, unless it holds 2^31 bytes in front of the head |
| `TransferRun.StuckBeforeHead` | network/data/vfs_data.c:173-178 | A receiver that holds from 2^31 to 2^32 bytes before the head was taken takes nothing |
| `TransferRun.NothingLeft` | network/data/vfs_data.c:229-258 | When nothing is left anywhere and both sides are open, a non-empty slice has been accepted |
| `TransferRun.EmptySliceStalls` | network/data/vfs_data.c:211-215 | An empty slice is never completed: the receiver waits for a byte |
| `TransferRun.WriteFailure` | network/data/vfs_data.c:217-229 | A write keeps the received bytes in order if and only if it does not fail; a failing one is not noticed, drops the whole buffer and takes one off lastlen |
| `TransferRun.FailureStarves` | network/data/vfs_data.c:217-229 | A failed write of a non-empty buffer leaves the receiver counting too few bytes for all that can still come |
| `TransferRun.StarvedForever` | network/data/vfs_data.c:217-229 | Main result: after that, in every run, failing writes and closes included, the file is never completed and never reported on, and the receiver does not close by itself |
| `TransferRun.StarvedOffset` | network/data/vfs_data.c:366-377 | The offset with which such a task is queued again is before the end of what is written |
| `TransferRun.RequeuedOffset` | network/data/vfs_data.c:366-377 | Without failed writes it is exactly the old offset and the bytes written |
| `TransferRun.Continued` | network/data/vfs_data.c:344-381 | Main result: after any number of aborted attempts, continued or started anew, the temporary file is the beginning of the source, and a file that is accepted in the end is the whole of it |
| `TransferSpec.ZeroOffsizeIsZero` | network/data/vfs_data_task.c:57-58 | Resetting offsize in the base image leaves file size and MD5 as they are |
| `TransferSpec.SkipShorter` | network/data/vfs_data.c:263-280 | The message loop of svc_recv goes round only into receiving the file, with fewer bytes buffered |
| `Transfer.Conn.DoSend` | network/vfs_so.c:157-251 | The in-place send takes the machine's step: same event, same fields, same bytes out |
| `Transfer.Conn.SvcSend` | network/data/vfs_data.c:291-321 | The in-place verdict takes the machine's step |
| `Transfer.Conn.DoSendTask` | network/data/vfs_data_task.c:84-147 | Answering a request takes the machine's step on all its branches |
| `Transfer.Conn.DoRecvTask` | network/data/vfs_data_task.c:33-82 | Handling the answer takes the machine's step on all its branches |
| `Transfer.Conn.CheckReq` | network/data/vfs_data.c:161-188 | Parsing, handling and consuming one message takes the machine's step |
| `Transfer.Conn.RecvFile` | network/data/vfs_data.c:199-261 | Writing received bytes and checking the file takes the machine's step |
| `Transfer.Conn.SvcRecv` | network/data/vfs_data.c:190-281 | The receive handler takes the machine's step |
| `Transfer.Conn.DoRecv` | network/vfs_so.c:253-300 | Buffering what has arrived and handling it is the receiver's step of a run |
| `Transfer.Conn.SvcFiniconn` | network/data/vfs_data.c:344-381 | Closing reports a failed sending task, and hands a receiving task back with the offset to continue from |
| `Dict.NextPower` | cdc/redis/lib/hiredis/dict.c:306-316 | The doubling loop gives the least power of two, from 4 up, that is not below the size |
| `Dict.Dict.IndexIsSlot` | cdc/redis/lib/hiredis/dict.c:331-331 | Masking the 32-bit hash with sizemask is the remainder modulo the size |
| `Dict.Push` | cdc/redis/lib/hiredis/dict.c:147-149 | Linking an entry in front makes it the head of its chain and leaves every other chain as it is |
| `Dict.PlacedPush` | cdc/redis/lib/hiredis/dict.c:147-149 | The new entry is in the bucket of its hash, once, and every other entry stays where it was |
| `Dict.Unlink` | cdc/redis/lib/hiredis/dict.c:192-201 | Unlinking behind the previous entry or at the head takes exactly that entry out of its chain |
| `Dict.PlacedUnlink` | cdc/redis/lib/hiredis/dict.c:192-201 | After it every other entry is still in the bucket of its hash, once |
| `Dict.Dict.MoveEntry` | cdc/redis/lib/hiredis/dict.c:112-124 | One relinking step: the entry leaves the old chains and is in its new bucket, and used goes down by one |
| `Dict.Dict.AllMoved` | cdc/redis/lib/hiredis/dict.c:103-126 | When the moving loops end, by index or because used is 0, every entry has moved, so that the assert at line 126 holds |
| `Dict.Dict.Expand` | cdc/redis/lib/hiredis/dict.c:88-132 | Growing keeps every entry and the map; it fails exactly when more entries are in use than the size asked for, and then changes nothing |
| `Dict.Dict.ExpandIfNeeded` | cdc/redis/lib/hiredis/dict.c:295-303 | Afterwards there is a free place: the size is 4 for an empty table, doubled for a full one, and otherwise unchanged |
| `Dict.Dict.Find` | cdc/redis/lib/hiredis/dict.c:243-256 | The entry that the map has for the key, or NULL |
| `Dict.Dict.Search` | cdc/redis/lib/hiredis/dict.c:324-336 | The walk along a chain stops at the entry of the key, with the entry before it, or at the end |
| `Dict.Dict.KeyIndex` | cdc/redis/lib/hiredis/dict.c:320-338 | -1 for a key that is there, otherwise the slot of its hash after growth, converted to int; the map is unchanged |
| `Dict.SlotsAreInts` | cdc/redis/lib/hiredis/dict.c:320-338 | Every hash keeps its slot in the conversion to int if and only if the table has at most 2^31 slots |
| `Dict.Dict.Add` | cdc/redis/lib/hiredis/dict.c:135-154 | Adds the key if it is new and otherwise changes nothing, with growth at any point; a new key whose slot is 2^32 - 1 is refused, because that is -1 as an int |
| `Dict.Dict.Replace` | cdc/redis/lib/hiredis/dict.c:160-179 | Sets the value of the key and reports whether the key was new, whenever the slot of a new key fits an int |
| `Dict.Dict.Delete` | cdc/redis/lib/hiredis/dict.c:182-210 | Removes exactly the key, reports whether it was there, and takes one entry out of one chain |
| `DictRun.UsedIsCount` | cdc/redis/lib/hiredis/dict.c:135-210 | Entries and keys are one to one, so that used is the number of keys |
| `DictRun.Run` | cdc/redis/lib/hiredis/dict.c:135-256 | Main result: any run of add, replace, delete and find answers as a map does and ends in that map, whatever growth it causes, while the table has at most 2^31 slots or when the hashes are below 2^31 |
| `DictIter.Iterator.Next` | cdc/redis/lib/hiredis/dict.c:268-286 | Returns what is first of the entries still to come and leaves the rest of them to come; NULL exactly when there is none |
| `DictIter.DeletedCurrent` | cdc/redis/lib/hiredis/dict.c:278-282 | Deleting the entry just returned leaves what is still to come as it was |
| `DictIter.FlatIsAll` | cdc/redis/lib/hiredis/dict.c:268-286 | The order of the iteration holds every entry exactly once |
| `DictIter.Sweep` | cdc/redis/lib/hiredis/dict.c:258-286 | Main result: while any chosen ones of the returned entries are deleted on the way, the iteration returns every entry of the table as it was, and the map loses exactly the chosen keys; from 2^31 slots on it returns none, because the size is converted to int |
| `DictIter.DroppedAll` | cdc/redis/lib/hiredis/dict.c:258-286 | Over a whole table these are all the chosen keys of the map |
| `SdsQuote.CatRepr` | cdc/redis/lib/hiredis/sds.c:380-406 | Appends the quoted form, byte by byte, to strings that stay below 2^31 bytes |
| `SdsQuote.ReadToken` | cdc/redis/lib/hiredis/sds.c:430-486 | The token loop ends, and reads the argument that the definition of a token gives, or fails where it does |
| `SdsQuote.SplitArgs` | cdc/redis/lib/hiredis/sds.c:420-503 | The whole tokenizer terminates and gives the arguments of the line, or fails exactly where quotes are unbalanced or a closing quote is followed by a non-blank |
| `SdsQuote.ReadsEscape` | cdc/redis/lib/hiredis/sds.c:437-452 | Reading one printed byte gives the byte, or, for a byte printed in hexadecimal, the letter x and its two digits |
| `SdsQuote.SplitJoined` | cdc/redis/lib/hiredis/sds.c:420-503 | For any strings, joining their quoted forms with spaces and splitting succeeds with as many arguments, each the string with its hexadecimal bytes spelled out |
| `SdsQuote.RoundTrip` | cdc/redis/lib/hiredis/sds.c:380-503 | Main result: the list comes back unchanged if and only if all its bytes are printable or one of the five lettered escapes |
| `SdsQuote.HexIsNotRead` | cdc/redis/lib/hiredis/sds.c:397-400 | The string of the byte 1 comes back as the three characters x01 |
| `SdsQuote.QuoteAndSplit` | cdc/redis/lib/hiredis/sds.c:380-503 | The two functions one after the other, as the code runs them, for lines below 2^31 bytes |
| `SdsQuote.UnquotedLine` | cdc/redis/lib/hiredis/sds.c:420-503 | Words without quotes split into themselves, whatever blanks stand before, between and behind them; space, tab, newline and carriage return end a word, vertical tab and form feed are only skipped before one |
| `SdsQuote.UnquotedLines` | cdc/redis/lib/hiredis/sds.c:430-486 | Two literal lines: "foo\tbar\r\n", and one with leading blanks and a backslash, which is kept |
| `SdsQuote.EscapedBytes` | cdc/redis/lib/hiredis/sds.c:383-398 | In literal bytes: the letters that the five control bytes are quoted as, the escaped quote and backslash, and the space |
| `SdsQuote.HexBytes` | cdc/redis/lib/hiredis/sds.c:398-402 | In literal bytes: hexadecimal for the other blanks and for 0, 31, 127 and above; 126 is printed as it is |
| `Sds.RangedKeeps` | cdc/redis/lib/hiredis/sds.c:220-249 | sdsrange for all indices: ranges inside the string, ends behind it, empty ranges, negative indices, which count from the end, and those before the beginning, which stand for the first byte |
| `Sds.Str.MakeRoomFor` | cdc/redis/lib/hiredis/sds.c:88-106 | Afterwards enough is free and the contents are the same; the block moves only when it has to grow, to twice what is needed; the free length is right also where it wraps around in its int |
| `Sds.LengthIsKept` | cdc/redis/lib/hiredis/sds.c:127-139 | The length is found again in the int of the header if and only if it is below 2^31 |
| `Sds.Str.CatLen` | cdc/redis/lib/hiredis/sds.c:127-139 | Appends the bytes, with a NUL behind them |
| `Sds.Str.GrowZero` | cdc/redis/lib/hiredis/sds.c:110-125 | Pads with zeros up to the length and never shortens |
| `Sds.Str.Range` | cdc/redis/lib/hiredis/sds.c:220-249 | Keeps exactly the bytes between the two indices, moved to the front of the same block |
| `Sds.SplitLen` | cdc/redis/lib/hiredis/sds.c:291-356 | The search loop gives the tokens between separators, none for the empty string, and no result without a separator or when the slots cannot be doubled in an int: for more than 5 * 2^28 tokens, or that many with a last one in which a separator is still looked for |
| `Sds.TokensAreClean` | cdc/redis/lib/hiredis/sds.c:303-340 | Every token ends where the separator first occurs in the rest of the string |
| `Sds.SplitInverts` | cdc/redis/lib/hiredis/sds.c:291-356 | Gluing the tokens with the separator gives the string back, and strings that are glued come back as the same tokens if and only if the separator first occurs where each of them ends |
| `MD5Transform.FunctionsAgree` | lib/md5.c:156-162 | The optimized F1 to F4 are the functions F, G, H, I of section 3.4 of RFC 1321 on all words |
| `MD5Transform.StepIsOp` | lib/md5.c:164-166 | The macro step with its constant added to the word is one operation of RFC 1321 |
| `Word32.RotateLeftIs` | lib/md5.c:164-166 | Rotating x to the left by s gives x * 2^s modulo 2^32, plus x / 2^(32 - s) |
| `MD5Transform.Transform` | lib/md5.c:173-254 | The 64 unrolled steps, with their words, constants and shifts, are the compression of one block |
| `MD5Bits.CompressAgrees` | lib/md5.c:156-254 | Main result: for every block of bytes and every state, the compression on numbers is the one computed with the shifts, adders and bitwise operators of 32-bit machine words, with constants, word order and distances written out a second time |
| `MD5Bits.TurnAgrees` | lib/md5.c:164-166 | Rotation of numbers is (x << s) | (x >> (32 - s)) on machine words |
| `MD5Bits.AddAgrees` | lib/md5.c:164-166 | Addition modulo 2^32 is the addition of machine words |
| `MD5Bits.WordsAgree` | lib/md5.c:156-162 | And, or and exclusive or of numbers are those of machine words, at every width up to 32 |
| `MD5Context.CountBits` | lib/md5.c:73-76 | Carry and len >> 29 make the two words the 64-bit sum of the old count and 8 * len |
| `MD5Context.BufferedBytes` | lib/md5.c:78-78 | Bits 3 to 8 of the low word are the length modulo 64, whatever wrapped around |
| `MD5Context.Context.Update` | lib/md5.c:67-109 | After any update the context stands for the concatenation: hash of the whole blocks, rest buffered, bits 8 times the length modulo 2^64 |
| `MD5Context.Context.Pad` | lib/md5.c:120-143 | Pads to the place of the length, hashing one block more exactly when fewer than eight bytes are left |
| `MD5Context.PaddedBlocks` | lib/md5.c:120-150 | The hash of the padded message is reached in one block more, or two |
| `MD5Context.Context.Final` | lib/md5.c:115-154 | The digest is the MD5 of everything that was fed; of the context only the first two words of the hash are cleared, the other two and the last block of the padded message stay |
| `MD5Context.NeverCleared` | lib/md5.c:115-154 | What stays in the block is never zero throughout, so that there is no message after which the context is cleared |
| `MD5Hmac.DigestOfPieces` | lib/md5.c:48-154 | Main result: for every message and every split into updates the digest is the MD5 of RFC 1321, sections 3.1 to 3.5 |
| `MD5Vectors.EmptyDigest` | lib/md5.c:48-154 | MD5 of the empty message is d41d8cd98f00b204e9800998ecf8427e, as section A.5 of RFC 1321 says |
| `MD5Vectors.AbcDigest` | lib/md5.c:48-154 | MD5 of "abc" is 900150983cd24fb0d6963f7d28e17f72 |
| `MD5Hmac.Pads` | lib/md5.c:292-308 | The two pads of a key of any length |
| `MD5Hmac.MD5HMAC` | lib/md5.c:281-319 | Equals H(K xor opad, H(K xor ipad, text)) of section 2 of RFC 2104 for keys and texts of any length |
| `MD5Hmac.MD5HMAC2` | lib/md5.c:321-361 | Equals the HMAC of the concatenated texts |
| `MD5Vectors.HmacBytes` | lib/md5.c:293-308 | For every key of up to 64 bytes, each byte of the key filled up with zeros is combined by the machine operator ^ with 0x5c for the outer and 0x36 for the inner hash |
| `Word32.MaskIsLow` | cdc/redis/lib/hiredis/dict.c:117-117 | Masking with 2^k - 1 takes the remainder modulo 2^k |
| `Lists.InsertLinked` | lib/list.h:40-49 | Linking a new address between two neighbours puts it into the circle there, in both directions |
| `Lists.RemoveLinked` | lib/list.h:83-87 | Unlinking joins its neighbours, in both directions |
| `Lists.AddWf` | lib/list.h:40-49 | Every other list over the same addresses stays as it is |
| `Lists.RemoveWf` | lib/list.h:105-109 | The same for unlinking, after which the link points to itself |
| `Lists.Links.AddHead` | lib/list.h:58-61 | The list gets the address in front |
| `Lists.Links.AddTail` | lib/list.h:71-74 | The list gets the address at the end |
| `Lists.Links.DelInit` | lib/list.h:105-109 | The address leaves its list and is on none; harmless when it was on none |
| `DupCache.FreeAll` | network/cdc_http/cdc_http_dup.c:41-48 | After initialisation every record is on the free list only |
| `DupCache.RecordedOk` | network/cdc_http/cdc_http_dup.c:63-70 | Recording keeps every record on the free list only, or in the bucket of its first hash and on the time list |
| `DupCache.ReleasedOk` | network/cdc_http/cdc_http_dup.c:106-108 | Releasing keeps the same |
| `DupCache.BucketHasKnown` | network/cdc_http/cdc_http_dup.c:83-93 | Searching the bucket of the first hash is searching all live entries |
| `DupCache.DupCache.Add` | network/cdc_http/cdc_http_dup.c:52-75 | The new entry is the last of the live ones; refused exactly when all 1000000 records are in use |
| `DupCache.DupCache.Check` | network/cdc_http/cdc_http_dup.c:77-95 | Succeeds exactly when a live entry has the same three hashes |
| `DupCache.DupCache.ClearExpired` | network/cdc_http/cdc_http_dup.c:97-113 | The live entries lose exactly their longest prefix aged 86400 seconds or more, and the safe iteration never follows a removed link |
| `DupRun.DropIsKeep` | network/cdc_http/cdc_http_dup.c:102-112 | Clearing removes all aged entries and only these if and only if no aged entry is behind a younger one |
| `DupRun.LiveIsRecent` | network/cdc_http/cdc_http_dup.c:52-113 | Main result: in every run whose clock does not go back, the live entries are the accepted ones that had not aged at the last clearing, and the accepted ones are in order of time |
| `DupRun.KnownAfterClear` | network/cdc_http/cdc_http_dup.c:52-113 | In every run whose clock does not go back, a check after a clearing is answered with true if and only if the run added the same three hashes less than 86400 seconds before, and that addition was not refused |
| `DupRun.RefusedWhenFull` | network/cdc_http/cdc_http_dup.c:52-75 | In every run a task is refused if and only if 1000000 tasks are recorded, and there are never more |
| `DupRun.SetBackClockKeepsAged` | network/cdc_http/cdc_http_dup.c:102-112 | A run in which the clock is set back by one day leaves a task known after a clearing, a day after it was accepted |
| `DupRun.StampsAreShort` | network/cdc_http/cdc_http_dup.c:52-112 | A clearing treats a task as the 86400 seconds demand if and only if it was accepted before 2^32 or 86400 seconds ago |
| `DupRun.LateClockForgets` | network/cdc_http/cdc_http_dup.c:97-113 | From a day after 2^32 on, every clearing forgets all tasks, in every run |
| `DupRun.Replay` | network/cdc_http/cdc_http_dup.c:24-113 | The cache as it is written gives the answers and the live entries of the run |
| `Base64.OffsetsAreGroups` | lib/common.c:180-190 | The sextet computed from byte and bit offsets is the one of the three-byte group |
| `Base64.Encode` | lib/common.c:172-197 | The output loop and the padding loop write as many letters of the encoding as the int computation of their number says |
| `Base64.LetterIs` | lib/common.c:174-190 | The letter for each of the 64 sextets is the character of the literal alphabet |
| `Base64.Vectors` | lib/common.c:172-197 | Four vectors of section 10 of RFC 4648, and the login "a:?", which is YTo/ |
| `Base64.LetterCounts` | lib/common.c:177-177 | The number of letters is right below 2^28 bytes; from there on it is not positive, or that of the bytes above a multiple of 2^29 |
| `Base64.RoundTrip` | lib/common.c:172-197 | Main result: the output is the encoding of section 4 of RFC 4648, and is read back as the input, if and only if there are fewer than 2^28 bytes |
| `Base64.NothingWritten` | lib/common.c:177-196 | For 2^28 bytes nothing is written |
| `Base64.EncodedReadsBack` | lib/common.c:172-197 | The encoding by groups is read back as every input; padded text has four letters for every three bytes begun |

## Left out

- ShmTable.Table.Add: needs a key that is absent, a positive key, and that the keys fit (`Fits`), which says nothing of tables of five nodes or more; in a smaller one where they do not fit the original does not end (`NeverRoom`). Its callers look with Find first.
- ShmTable.Table.Realloc: shared memory is granted for every size that is not negative as an int, and the copy that the original keeps in a second segment is a value.
- NmShm.Counter.Inc: its tables have five nodes or more. Each call is one atomic step; races between reading the index and writing the table, other processes attached to the same memory, and keys added to a table while it is read, are not modelled.
- RespReader.Reader.ParseLongLong: a number that does not fit a long long is taken to wrap in two's complement, as the machine does it; the C language leaves it undefined (`RespRoundTrip.NoOverflow` says when).
- RespReader.Reader.Feed: the buffer stays below 2^31 bytes, as the lengths of its header are int (`Sds.LengthIsKept`, `RespReader.LineIsLost`); RespChunks and RespSpec are about the machine, which holds any number.
- RespFormat.FormatCommand: is about formats of text, %s, %b and %%; for printf-like directives it says nothing, and single arguments of 2^31 bytes, which an sds string does not hold, are only known not to give a command.
- TransferRun.RunKeepsInv: is about one connection with one transfer on it (`Continued` joins several); the source file does not change while it is sent, and `0 <= offsize <= fsize <=` its length. It takes from the code that is not modelled that lastlen is 0 when the answer arrives (network/data/vfs_data_base.c:314). That writes do not fail is required because it is false otherwise (`WriteFailure`, `StarvedForever`).
- Transfer.Conn.DoSendTask: getting a task, reading a file's attributes and opening it are results that a parameter gives; a failed attribute lookup leaves the request as it was.
- Dict.Dict.Add: a slot that is below -1 as an int is outside the array, and what the code does then is undefined, so a new key has none; Replace needs the slot of a new key to be 0 or more. Fewer than 2^62 entries are in use, as the address space gives, so that the branch of `_dictNextPower` for sizes of LONG_MAX and more is out of reach.
- Dict.Dict.Replace: keys and values are copied as they are and compared by equality; duplication, comparison and destructor callbacks are not modelled. The hash is any function to 32-bit words.
- MD5Context.Context.Update: words are stored low-order byte first as on a little-endian machine; byteReverse for other machines is not modelled.
- DupCache.DupCache.Add: takes the three hashes and the time as parameters; the text that is hashed is not modelled.
- Sds.Str.CatLen: strings stay below 2^31 bytes (`Sds.LengthIsKept`), and so do those of Sds.Str.GrowZero, SdsQuote.CatRepr, SdsQuote.SplitArgs and SdsQuote.QuoteAndSplit.
- Base64.Encode: the output is returned, without the terminating NUL; its length argument is an int, so that 2^31 bytes and more cannot be asked for.
- Sockets, epoll, retries after EINTR, shmget and shmat, local files and the MD5 check of a received file: their results are parameters of the steps.
- Reply objects are a tree of values; storing through a parent pointer replaces a subtree. Freeing replies and custom reply functions are not modelled.
- Memory that runs out: every allocation succeeds whose size is not negative as an int where the code computes it in one.
- The other operations of sds.c (copying, trimming, comparing, case), which would add only easy members.
- DupRun.LiveIsRecent: is about times that fit 32 bits, as is KnownAfterClear, because both are false for later ones (`StampsAreShort`).
- The task queues, choosing a peer and reconnecting, the tracker, configuration, logging, timers, the HTTP handlers, hex coding and the asynchronous client.
- Timestamps of the shared memory and the string tables, which work as the integer ones do.
