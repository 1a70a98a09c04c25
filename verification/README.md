# fkvs: a verified model

fkvs is a key-value server in C with a binary protocol, per-key deadlines and an io_uring event
loop. This project models its stateful parts in Dafny and proves what they promise, over every
input and every run. Each part that the program updates in place is a class here, proved equal to
a specification on values; the larger properties are then proved about the specifications.

- **Hash table** (`Dictionary*`, `SubTables`, `HashTables`). Two chained bucket arrays, one of which
  drains into the other a bucket at a time. `Dictionary` is the table as a value, `HashTables` the
  same table as linked nodes. Every run of it is a run of a plain map, migration only relinks nodes,
  and resizes keep up with growth.
- **Store with deadlines** (`Decimal`, `Store*`, `Database`, `Traces`, `Sweeping`, `ExpirySweep`,
  `Rounds`, `Walks`, `Listing`, `KeysCommand`). Two tables kept consistent by the handlers, by lazy
  expiry and by a rolling sweep. Sweeps do not change any reply, a round of sweeps covers everything
  even with commands in between, SET is all-or-nothing, counters are exact, KEYS lists each live key
  once. `StoreLaws` says what commands promise each other: what SET stored is what GET, TTL, the
  counters and KEYS find, until its time is up, over any run.
- **Wire path** (`Protocol`, `Responses`, `Builders`, `Framing`, `WriteQueues`, `Server`,
  `Connections`, `Pipelines`, `Service`). Codecs, frame splitter, response queue, and a connection
  from bytes received to bytes sent, with adversarial reads and sends on both ends. `Service` goes
  from the client's builder to the client's decoder.
- **Event loop** (`ClientLists`, `Dispatcher`). One-shot poll operations against the live clients,
  where the kernel may complete any outstanding operation and refuse any submission. A client leaves
  exactly by the end of its stream, an error, a failed write or a frame too large.
- **All clients together** (`Histories`, `ClientSets`). Connections that come, read, write and go over
  one database, with sweeps in between: each stays in step with its own stream, and all that they do
  is one history of the database.
- **Latency histogram** (`HistogramBuckets`, `HistogramSamples`, `Histograms`). Logarithmic buckets
  with their relative error, and percentile scans against the sorted samples.

Allocation results, clock readings, the outcomes of system calls and signals are parameters: every
theorem quantifies over them.

Where a property is false of the code, the condition under which it holds is proved, exactly in all
but the last of these cases:

- A decimal bound below nine in size lets texts past the overflow check, because the bound minus the
  digit wraps. For every pair of bounds the parser is exact if and only if no such bound is in use,
  or the other bound does not reach what those texts are read as. All callers use larger bounds.
- EXPIRE, PERSIST and SET do not check for expiry. A sweep just before a command is visible if and
  only if the command is an EXPIRE or PERSIST on a key past its deadline, or a SET that finds room
  in such a key where the memory for a new one is refused.
- A SET EX that fails while storing the deadline leaves the store as it was if and only if the
  snapshots and the rollback writes found memory. That failure is only possible when the key had
  no deadline before, since a deadline is overwritten in place.
- Rounding a table size up to a power of two wraps to zero above half the word range, and nowhere
  else.
- The queue depth exceeds the operations outstanding for up to 32765 clients, and with a timer no
  further: its headroom of eight is capped away above that.
- A request whose core is exactly 65535 bytes can be built, but the splitter refuses its frame.
- The counter commands create a missing key as "0" before the amount is read. A refused one leaves
  the store unchanged if and only if it could not copy the amount, or found the key live, or could
  not create it.
- A full round of sweeps with commands in between covers every key past its deadline that they leave
  alone while the deadline table is not resizing. During a resize it need not: a command about
  another key can move the one bucket not yet visited to one already visited.

## Model

| member | source | states |
|---|---|---|
| Bits.NextPow2Least | src/core/hashtable.c:25-39 | In words of any width, rounding up gives the least power of two that holds the request if and only if the request is at most half the word range; beyond that it wraps to zero. |
| Dictionary.FoldIsModulo | src/core/hashtable.c:19-22 | On a power-of-two table the mask is the remainder, so the private fold and the public hash function agree. |
| Dictionary.HashIsPolynomial | src/core/hashtable.c:9-16 | The hash of a key is 5381 followed by its bytes as digits in base 33, modulo 2^64. |
| Dictionary.SkipEmpty | src/core/hashtable.c:152-158 | The cursor stops at the first non-empty bucket, at the end, or after ten empty buckets, and skips nothing else. |
| Dictionary.RehashStepKeepsValid | src/core/hashtable.c:147-180 | A migration step keeps the invariant (every key in one chain at its folded hash, usage counters exact, drained buckets empty) and every lookup and the number of entries. |
| Dictionary.MoveBucketKeeps | src/core/hashtable.c:165-176 | Moving one bucket keeps the invariant and every lookup. |
| Dictionary.FinalizeKeeps | src/core/hashtable.c:133-143 | Promoting table 1 once table 0 has drained keeps the invariant and every lookup. |
| DictionaryRuns.CreateIsEmpty | src/core/hashtable.c:57-79 | A new table is valid and stands for the empty map. |
| DictionaryRuns.AsMapLookup | src/core/hashtable.c:205-223 | The map a table stands for holds exactly the answers of a lookup through both tables. |
| DictionaryRuns.SetRefinesMap | src/core/hashtable.c:225-289 | In every resize phase and under any allocation failure, a set either updates exactly one key of the map or fails and leaves the map unchanged; it fails exactly when the memory it needs is refused. |
| DictionaryRuns.DeleteRefinesMap | src/core/hashtable.c:291-324 | A delete answers whether the key was in the map and removes exactly that key. |
| DictionaryRuns.RunRefinesMap | src/core/hashtable.c:133-368 | Over every run of set, delete, lookup and get, in any resize phase and under any allocation failures, the answers and the final contents are those of a plain map. |
| DictionaryGrowth.LiveIsMapSize | src/core/hashtable.c:225-324 | The two usage counters together count the keys of the map. |
| DictionaryGrowth.SetKeepsPace | src/core/hashtable.c:225-289 | A set keeps the pace invariant that ties the migration cursor to the sets seen and to the room left. |
| DictionaryGrowth.ReachableOnPace | src/core/hashtable.c:184-202 | In every reachable state a resize in flight has room to spare and is younger than the old table is long; if no bucket array was ever refused, live keys never exceed the newest table and every resize exactly doubles. |
| DictionaryGrowth.ResizeFinishes | src/core/hashtable.c:147-180 | A resize of S buckets is finished by the time S sets were made since it started, despite the ten-empty-bucket early return. |
| DictionaryWalk.DeleteInBucket | src/core/hashtable.c:291-324 | A delete takes one entry out of one chain of the two-table bucket space and touches no other chain. |
| DictionaryWalk.DeleteKeepsPos | src/core/hashtable.c:291-324 | A delete leaves every other key in its bucket. |
| DictionaryWalk.SetKeepsPos | src/core/hashtable.c:225-289 | Without a resize in flight, a set leaves every stored key in its bucket. |
| DictionaryWalk.SetMovesBucket | src/core/hashtable.c:147-180 | During a resize, a set takes the keys of the bucket at the cursor to the other table, when that bucket is not empty and not the last one, and the sizes stay. |
| DictionaryGrowth.SetCalm | src/core/hashtable.c:184-202 | A set on a table that is not resizing and has room for one more key starts no resize and keeps the size. |
| SubTables.ComputeHash | src/core/hashtable.c:9-16 | The byte loop computes DJB2 in 64-bit arithmetic. |
| SubTables.SubTable.Find | src/core/hashtable.c:214-220 | Walking the links of a bucket finds the node of a key, or none when the chain lacks it. |
| SubTables.SubTable.Push | src/core/hashtable.c:279-282 | Linking a node at the head prepends its entry to the chain and counts it. |
| SubTables.SubTable.Absorb | src/core/hashtable.c:165-174 | Relinking a chain node by node into another table gives the migrated chains and exactly the union of the nodes. |
| SubTables.SubTable.MoveBucketTo | src/core/hashtable.c:165-176 | One bucket moves over: contents and counters as specified, and the node set of the two tables together is unchanged. |
| SubTables.SubTable.Overwrite | src/core/hashtable.c:242-262 | A new value is stored in the existing node; chains and nodes stay. |
| SubTables.SubTable.Remove | src/core/hashtable.c:299-320 | The node of a key is unlinked, from the head or from its predecessor, and nothing else changes. |
| HashTables.CreateHashTable | src/core/hashtable.c:57-79 | A created table is empty and its size is the least power of two that holds the request, or it has no buckets when the request exceeds half the word range; it is null exactly for size zero or a refused allocation. |
| HashTables.HashTable.RehashFinalize | src/core/hashtable.c:133-143 | The table in place does what its specification says and keeps its nodes. |
| HashTables.HashTable.SkipEmpties | src/core/hashtable.c:152-158 | The cursor loop is the specified skip, and reports whether it gave up after ten. |
| HashTables.HashTable.MigrateBucket | src/core/hashtable.c:165-176 | Moving a bucket in place only relinks: same nodes, same values. |
| HashTables.HashTable.RehashStep | src/core/hashtable.c:147-180 | A migration step in place is the specified one, keeps the same set of nodes and changes no value. |
| HashTables.HashTable.FindEntry | src/core/hashtable.c:205-223 | The node found is the one that holds the key, in the table that holds it; none is found exactly when the key is absent. |
| HashTables.HashTable.LookupValue | src/core/hashtable.c:359-368 | A lookup is a lookup in the plain map. |
| HashTables.HashTable.GetValue | src/core/hashtable.c:326-357 | A copied read is a lookup in the plain map, or nothing when the copy cannot be allocated. |
| HashTables.HashTable.MaybeStartRehash | src/core/hashtable.c:184-202 | Starting a resize doubles until twice the entries fit, or leaves the table alone when the array is refused; the nodes stay. |
| HashTables.HashTable.OverwriteEntry | src/core/hashtable.c:242-262 | Storing into an existing node is the specified overwrite and keeps the nodes. |
| HashTables.HashTable.InsertEntry | src/core/hashtable.c:265-288 | One new node goes to the newest table, every other node stays with its value, and a resize starts at load factor one. |
| HashTables.HashTable.SetValue | src/core/hashtable.c:225-289 | The heap table refines the plain map: on success exactly one key is set, on failure the map is unchanged. No node is lost, only a new key brings a new one, and no other key's node changes its value. |
| HashTables.HashTable.DeleteValue | src/core/hashtable.c:291-324 | The heap table refines the plain map; on success exactly one node of one chain is gone. |
| Decimal.ParseI64 | src/numeric_parse.c:14-60 | The 64-bit digit loop computes the wrapped scan for every text and every pair of bounds, and where the bound used for the sign is at least nine its answer is the exact one. |
| Decimal.ParseIsExact | src/numeric_parse.c:14-60 | When the bound used for the sign is at least nine, the parser accepts a text if and only if it is an optionally signed digit string with its value in range, for any length, and never a minus sign when no negative number is allowed. |
| Decimal.ParserExact | src/numeric_parse.c:14-60 | For every pair of bounds, the parser is right on every text if and only if no bound in use is under nine in size, or the opposite bound does not reach what a text that slips past is read as; the reach is given for each limit from zero to eight. |
| Decimal.SmallScan | src/numeric_parse.c:39-48 | With a limit under nine the loop refuses no text within the limit, lets through only values all of whose digits but the first exceed it, and never wraps. |
| Decimal.SlipsPastUpper | src/numeric_parse.c:45-59 | For each upper bound under nine, the largest text the loop lets through is accepted as a negative number when the lower bound allows it. |
| Decimal.SlipsPastLower | src/numeric_parse.c:45-59 | For each lower bound above minus nine, the mirror text is accepted as a positive number when the upper bound allows it. |
| Decimal.ParseDeadlineMs | src/numeric_parse.c:62-76 | A deadline is accepted if and only if the text is a decimal without minus sign and now plus a thousand times its value fits int64; it is then that sum. |
| Decimal.PrintThenParse | src/utils.h:107-116 | Reading back a printed integer gives the integer. |
| Decimal.ValueIffSpelled | src/numeric_parse.c:14-60 | A text has the value n if and only if it is an optional sign, any number of zeros and the printed digits of n, with a minus sign exactly in front of negative numbers or of zero. |
| Decimal.IntTextLength | src/utils.h:107-116 | A printed int64 takes at most twenty characters. |
| Store.DeadlineRoundTrip | src/ttl.c:5-35 | Every deadline, written as eight big-endian bytes, decodes to the number written. |
| Store.SetStepSound | src/commands/server/server_command_handlers.c:125-220 | SET and SET EX keep the store sound, even when the rollback itself runs out of memory. |
| Store.CounterStepSound | src/commands/server/server_command_handlers.c:260-348 | The counter commands keep the store sound. |
| Store.StepSound | src/commands/server/server_command_handlers.c:163-855 | Every command, under any memory, keeps the store sound: each deadline belongs to a stored key and is eight bytes, and each value marked as an integer parses as int64. |
| Traces.ReachableSound | src/commands/server/server_command_handlers.c:163-855 | Every database state reachable by commands, under any memory, and by sweeps is sound. |
| StoreRuns.SetAllOrNothing | src/commands/server/server_command_handlers.c:125-220 | A SET that replies error left both tables unchanged if and only if it did not fail while storing the deadline, or its snapshots and rollback writes found memory. |
| StoreRuns.FailedSetLosesKey | src/commands/server/server_command_handlers.c:170-215 | A SET EX of a stored key, refused the snapshot of its value and the memory for the deadline, replies error and the key is gone. |
| StoreRuns.GuardsAreExact | src/commands/server/server_command_handlers.c:430-465 | The overflow guards accept an amount if and only if the exact result is an int64, and then give that result. |
| StoreRuns.GuardsDoNotOverflow | src/commands/server/server_command_handlers.c:430-465 | The guards' own arithmetic stays within int64. |
| StoreRuns.CounterStepExact | src/commands/server/server_command_handlers.c:260-348 | A counter command that does not find the key past its deadline answers the exact new value or refuses, touches no other key and no deadline; with memory, it refuses only if there is no exact new value. |
| StoreRuns.LapseRestarts | src/commands/server/server_command_handlers.c:287-308 | A counter command that finds the key past its deadline does what it would do had the key never been. |
| StoreRuns.RefusalLeavesStore | src/commands/server/server_command_handlers.c:398-442 | A refused counter command leaves the store unchanged if and only if it gave up before looking at the key, or found it live, or found nothing and could not create it; otherwise the expired key is gone, or the key is there as 0. |
| StoreRuns.RefusedAmountCreatesKey | src/commands/server/server_command_handlers.c:404-442 | INCRBY by a text that is no number, on the empty database, replies error and creates the key as 0. |
| StoreRuns.CounterRun | src/commands/server/server_command_handlers.c:260-756 | Over any run of INCR, DECR, INCRBY and DECRBY on a key, with any clock and any memory, the stored text is the canonical decimal of the start plus the net sum of the accepted amounts; the first command past the deadline restarts the count at zero, without a deadline. |
| StoreRuns.NoNumberRun | src/commands/server/server_command_handlers.c:310-330 | On a key that holds no number, every counter command is refused and changes nothing up to the first call past the key's deadline; from there on they count from zero. |
| Database.Database.IsExpired | src/ttl.c:43-50 | The check in place is the specified comparison of the stored deadline with the clock. |
| Database.Database.CheckAndExpire | src/commands/server/server_command_handlers.c:20-28 | A key past its deadline leaves both heap tables; otherwise nothing changes. |
| Database.Database.Set | src/commands/server/server_command_handlers.c:125-220 | SET and SET EX on the heap tables are the specified step on maps, reply included. |
| Database.Database.SetWithDeadline | src/commands/server/server_command_handlers.c:170-215 | Storing value and deadline, and undoing both, ends in the specified maps in each failure case. |
| Database.Database.RollBack | src/commands/server/server_command_handlers.c:194-207 | The rollback restores from the snapshots that could be taken and deletes otherwise. |
| Database.Database.Get | src/commands/server/server_command_handlers.c:222-258 | GET on the heap tables is the specified step, reply included. |
| Database.Database.Count | src/commands/server/server_command_handlers.c:260-348 | The four counter handlers on the heap tables are the specified step, reply included, with the key created as 0 before the amount is read. |
| Database.Database.AdvanceCounter | src/commands/server/server_command_handlers.c:310-344 | Rewriting an existing counter is the specified step. |
| Database.Database.Delete | src/commands/server/server_command_handlers.c:762-788 | DEL removes the key from both tables and always replies OK. |
| Database.Database.Expire | src/commands/server/server_command_handlers.c:790-855 | EXPIRE stores the deadline of an existing key, without an expiry check, or replies error and changes nothing. |
| Database.Database.Ttl | src/commands/server/server_command_handlers.c:857-900 | TTL drops a key past its deadline, then replies its remaining seconds, -1 without a deadline, or -2 without the key. |
| Database.Database.GetTtl | src/ttl.c:52-63 | Remaining whole seconds, zero once due, -2 without a deadline. |
| Database.Database.Persist | src/commands/server/server_command_handlers.c:902-927 | PERSIST removes the deadline, without an expiry check, and always replies OK. |
| StoreLaws.SetAnswers | src/commands/server/server_command_handlers.c:125-220 | SET answers the value given if and only if its time to live is accepted and there is memory, and an error otherwise. |
| StoreLaws.SetThenRead | src/commands/server/server_command_handlers.c:125-258 | After a SET that was answered, GET finds exactly the bytes given and TTL the whole seconds left: at any time without a time to live (TTL -1), and with one of n seconds until 1000 n milliseconds later, when the key is gone (TTL -2). |
| StoreLaws.SetThenCounter | src/commands/server/server_command_handlers.c:164-168 | SET stores a number if and only if its bytes are the text of an int64. |
| StoreLaws.SetThenCount | src/commands/server/server_command_handlers.c:260-756 | A counter command on what SET stored answers the sum of the two numbers, and an error if and only if one of them is none or the sum is no int64. |
| StoreLaws.ExpireThenRead | src/commands/server/server_command_handlers.c:790-900 | EXPIRE answers OK if and only if the key is stored, the time is accepted and there is memory; until the time is up GET still finds the value and TTL the whole seconds left, and from then on the key is gone. |
| StoreLaws.PersistThenRead | src/commands/server/server_command_handlers.c:902-927 | After PERSIST a stored key is never due: GET finds it at any time and TTL answers -1. |
| StoreLaws.DelThenRead | src/commands/server/server_command_handlers.c:762-788 | After DEL, GET fails and TTL answers -2. |
| StoreLaws.KeysListsWhatGetFinds | src/commands/server/server_command_handlers.c:929-1030 | KEYS lists a key if and only if GET finds it at that time. |
| StoreLaws.StepOthers | src/commands/server/server_command_handlers.c:49-1030 | A command leaves value and deadline of every key it does not name; only KEYS removes some, past their deadline, from both tables. |
| StoreLaws.LastSetIsRead | src/commands/server/server_command_handlers.c:125-258 | After a SET that was answered and any run of commands on other keys and of sweeps, GET answers exactly the bytes given and TTL the seconds left, as long as the time is not up. |
| Traces.StepAgrees | src/commands/server/server_command_handlers.c:49-1030 | On two databases that agree on live keys, under any memory, a command that makes nothing of a key past its deadline replies alike and leaves them agreeing. |
| Traces.RollingSweepIsSweep | src/ttl.c:65-109 | The rolling sweep removes from both tables keys past their deadline and nothing else, so it is one of the sweeps a trace may contain. |
| Traces.SweepsInvisible | src/ttl.c:65-109 | Two runs that serve the same requests at the same times and with the same memory, whatever it refuses, with any sweeps in between, give the same replies, KEYS as a set, when no command makes something of a key past its deadline: no EXPIRE, no PERSIST, and no SET that finds memory only because the dead key is still there. |
| Traces.SweepsUnseenIffNotDisturbing | src/commands/server/server_command_handlers.c:790-927 | Under any memory, every sweep just before a command goes unseen if and only if the command is not an EXPIRE with a valid time, a PERSIST, or a SET that needs the dead key's memory, on a key past its deadline. |
| Traces.SweepSeen | src/commands/server/server_command_handlers.c:829-924 | For EXPIRE and PERSIST on a key past its deadline, the sweep of that one key is seen. |
| Traces.RecyclingSeen | src/commands/server/server_command_handlers.c:181-211 | A SET that can only store into the dead key replies error once that key is swept. |
| Sweeping.RoundCovers | src/ttl.c:78-107 | With commands between the sweeps, enough sweeps to reach the bucket of a key past its deadline remove it from both tables, when the commands leave its bucket and deadline alone. |
| Sweeping.FullRound | src/ttl.c:65-109 | Sweeps that together visit as many buckets as there are remove, from both tables, every key past its deadline when the round began that the commands in between left alone, wherever the cursor stood. |
| Sweeping.OpLeavesAlone | src/core/hashtable.c:225-324 | Outside a resize, any operation on another key of the deadline table leaves a key's bucket and deadline alone. |
| Sweeping.RoundMisses | src/ttl.c:65-109 | During a resize, a set of another key between the last two sweeps of a round moves the bucket not yet visited to one already visited: the full round misses a key past its deadline. |
| Sweeping.RoundSpares | src/ttl.c:96-100 | No sweep of a run touches a key that is before its deadline or has none. |
| Sweeping.CountsAddUp | src/ttl.c:96-108 | The counts returned add up to the deadlines that are gone. |
| Walks.Drop | src/ttl.c:84-104 | Deleting the entry under a chain walk whose successor was remembered leaves the walk where it was: the entries behind it still follow, the survivors before it stay, no other bucket changes. |
| ExpirySweep.ExpirySweep.SweepBucket | src/ttl.c:79-104 | Walking a chain while deleting from it removes exactly its overdue entries, from both tables, and counts them. |
| ExpirySweep.ExpirySweep.SweepWindow | src/ttl.c:78-105 | One more bucket of the window removes exactly the keys past their deadline there. |
| ExpirySweep.ExpirySweep.Sweep | src/ttl.c:65-109 | A sweep of the heap tables is the specified one: the window from the cursor on, across both sub-tables, wrapping, with the count of deletions. |
| ExpirySweep.ExpirySweep.SweepRound | src/ttl.c:65-109 | Sweeps of the heap tables in a row, from any cursor: keys not due are untouched, the counts add up to the deadlines gone, and once as many buckets were visited as there are, every key past its deadline at the start is gone from both tables. |
| Rounds.ServeRound | src/io/event_dispatcher_io_uring.c:315-346 | Commands and sweeps of the heap tables in any order end in what they make of the database one after the other; while the deadline table is not resizing and has room, once as many buckets were visited as there are, every key past its deadline at the start that no command named is gone from both tables. |
| Listing.FitsByLength | src/commands/server/server_command_handlers.c:982-989 | Whether a listing fits depends only on which keys are listed, not on their order. |
| Listing.TooLong | src/commands/server/server_command_handlers.c:985-989 | A partial listing that overflows shows that the whole listing does not fit. |
| Listing.TextEnumerates | src/commands/server/server_command_handlers.c:1009-1014 | Byte by byte: behind the entries before it, entry i of the text is the digits of i + 1, a parenthesis, a blank and exactly the i-th key; a newline follows every entry but the last, where the text ends. |
| KeysCommand.AddLine | src/commands/server/server_command_handlers.c:972-1014 | A numbered line is appended if and only if the text stays within 65500 bytes, and the buffer then has room. |
| KeysCommand.ListBucket | src/commands/server/server_command_handlers.c:963-1018 | One bucket is listed and cleaned while its chain is being walked, and no other bucket changes. |
| KeysCommand.ListKeys | src/commands/server/server_command_handlers.c:929-1030 | KEYS lists every live key exactly once, even in a resize and while deleting dead entries, and fails if and only if the text would exceed 65500 bytes; the text returned enumerates the keys, entry by entry. |
| Protocol.SetRoundTrip | src/commands/server/server_command_handlers.c:65-161 | The SET handler recovers key, value and optional time of a built request, and never confuses SET with SET EX. |
| Protocol.RequestRoundTrip | src/commands/server/server_command_handlers.c:49-938 | Each handler recovers exactly the fields given to the builder of its request. |
| Protocol.RequestLayout | src/commands/common/command_defs.h:4-16 | A request on the wire is the length of the rest in network byte order, then the number of its command. |
| Builders.WriteField | src/commands/common/command_parser.c:27-34 | A field is written behind its two-byte length and nothing else changes. |
| Builders.Build | src/commands/common/command_parser.c:9-347 | A builder writes, byte by byte into a fresh buffer, exactly the frame of its request, or returns null when the buffer is refused. |
| Responses.EncodeResponse | src/commands/common/command_registry.c:149-289 | A response is one frame of three to 65537 bytes. |
| Responses.ResponseRoundTrip | src/commands/client/client_command_handlers.c:620-686 | The client decodes kind and payload of every frame the server writes, and reads a failure exactly when the payload cannot be framed. |
| Responses.ResponseFrameLength | src/commands/common/command_registry.c:149-289 | The length prefix of a response counts the rest of the frame. |
| Responses.ResponseLayout | src/commands/common/command_registry.c:149-289 | A response on the wire is the length of the rest in network byte order, then 0 for a failure, 1 for a success, or the number of the command for PING, INFO and KEYS. |
| Framing.SplitResumes | src/networking/networking.c:161-215 | The frames of a stream do not depend on how it is cut into reads, up to the first oversize header. |
| Framing.OversizeStays | src/networking/networking.c:178-184 | An oversize header stops the split for good, whatever follows. |
| Framing.SplitIsComplete | src/networking/networking.c:169-209 | Frames and remainder together are the stream. |
| Framing.BuiltFrameSplits | src/networking/networking.c:175-187 | A built request is the next frame of the stream if and only if its core is under 65535 bytes; at 65535 the splitter refuses it. |
| WriteQueues.EagerTakesAll | src/commands/common/command_registry.c:103-123 | A socket that takes something on every send takes at least as many bytes as there are sends. |
| WriteQueues.WriteQueue.Drain | src/commands/common/command_registry.c:103-123 | Whatever sends take, bytes sent followed by bytes still queued stay the bytes queued; exactly as many are sent as the socket takes, or all; it fails if and only if the socket breaks first. |
| WriteQueues.WriteQueue.Flush | src/commands/common/command_registry.c:95-130 | Flushing and compacting keeps sent ++ buffered equal to everything queued; the bytes sent are those queued up to what the socket takes, so a socket that takes them all leaves the queue empty; it fails if and only if the socket breaks first. |
| WriteQueues.WriteQueue.Reserve | src/commands/common/command_registry.c:27-83 | On success the room is there and the capacity at most 1 MiB; it fails only for a broken socket, a refused allocation or a queue over 1 MiB, and then the connection is marked failed. |
| WriteQueues.WriteQueue.Append | src/commands/common/command_registry.c:85-93 | Data is queued whole, or the queue is marked failed. |
| WriteQueues.WriteQueue.SendResponse | src/commands/common/command_registry.c:149-289 | A response frame is queued whole, header and payload, or not at all: frames are never torn. |
| Server.RunCommand | src/commands/server/server_command_handlers.c:49-1030 | Running a command on the heap tables is the specified step, rendered as a response. |
| Server.ServeFrame | src/commands/common/command_registry.c:132-147 | One frame is parsed and run against the database, and its exchange recorded is correct for the bytes received. |
| Server.OneResponse | src/commands/common/command_registry.c:132-147 | A frame gets a response, exactly one, if and only if it names a registered command. |
| Connections.Connection.NextFrame | src/networking/networking.c:170-187 | The header at the cursor gives the frame length, or shows that no complete frame is left, with or without an oversize header. |
| Connections.Connection.ServeAll | src/networking/networking.c:169-200 | The cursor loop serves exactly the frames of the split, up to an oversize header, in order, each on the database its predecessor left; a failed write alone stops it earlier. |
| Connections.Connection.Finish | src/networking/networking.c:202-215 | The remainder is at the front and the responses are flushed: a socket that takes what it is given has been sent everything. |
| Connections.Connection.TryProcessFrames | src/networking/networking.c:161-215 | While no write fails, all complete frames before any oversize header are served in order and the responses queued are exactly theirs; it succeeds if and only if there is no oversize header either, and then the remainder is at the front. |
| Connections.Connection.Receive | src/io/event_dispatcher_io_uring.c:372-407 | Over any sequence of reads, while no write fails, the frames served are exactly the frames of the whole stream up to the first oversize header, on the database from its first to its last state, and the responses queued are theirs in order; it succeeds if and only if no write failed and no header is oversize, and then the buffer has free space; a socket that takes what it is given has been sent all responses. |
| Framing.LargestPingRefused | src/commands/common/command_parser.c:148-167 | The largest PING that can be built is refused by the splitter as too large. |
| Pipelines.Receiver.Parse | src/commands/client/client_command_handlers.c:554-579 | The client consumes exactly the complete frames at the front, up to the number asked for. |
| Pipelines.Receiver.Fill | src/commands/client/client_command_handlers.c:584-599 | A read adds bytes behind those buffered; there is always room for one. |
| Pipelines.Receiver.ReceiveResponses | src/commands/client/client_command_handlers.c:549-603 | However reads cut the stream, the frames received are its first ones; fewer than asked for come only after an oversize header, or after a failed read with no complete frame left in the buffer, and none is missed while reads keep delivering. |
| Pipelines.ResponsesSplit | src/commands/common/command_registry.c:149-289 | The client sees one frame per response of the server if and only if none exceeds its buffer. |
| Service.EchoAnswered | src/commands/common/command_registry.c:132-147 | From builder to decoder, PING is answered by exactly its payload and INFO by the report; neither touches the database. |
| Service.CommandAnswered | src/commands/common/command_registry.c:132-289 | From builder to decoder, a command is run on the database and the client reads its reply: a failure if and only if the command replied error or its payload fits no frame, the exact bytes of a value, and for KEYS a text that enumerates the keys. |
| Service.Unreadable | src/commands/common/command_registry.c:132-147 | A frame that its handler cannot read is answered by a failure, one for no handler by nothing; neither touches the database. |
| Service.SetThenGet | src/commands/server/server_command_handlers.c:65-258 | Once a client read its value as the answer to a SET, any client's GET is answered by exactly those bytes, whatever commands on other keys and sweeps come in between, as long as the time to live is not up. |
| ClientLists.ClientList.AddToTail | src/core/list.c:50-72 | Appending relinks the tail both ways and adds the value at the end. |
| ClientLists.ClientList.AddToHead | src/core/list.c:38-48 | Prepending relinks the head both ways and adds the value in front. |
| ClientLists.ClientList.Delete | src/core/list.c:109-128 | Deleting a node relinks its neighbours or the ends and removes exactly that element. |
| ClientLists.ClientList.Find | src/core/list.c:130-142 | The first node with the value from the start on, or null exactly when there is none. |
| ClientLists.ClientList.Remove | src/server_lifecycle.c:58-72 | Dropping a client removes its first occurrence and answers whether there was one. |
| Dispatcher.ReadsAreSplit | src/io/event_dispatcher_io_uring.c:372-419 | A client is dropped if and only if a read before the one that would block meets the end of the stream, an error or a failed write, or the bytes taken announce a frame too large; otherwise it is left with the incomplete frame at the end of the stream. |
| Dispatcher.TakesAll | src/io/event_dispatcher_io_uring.c:372-419 | When no read delivers more than was asked for, the bytes taken are all the bytes delivered, and the same holds in terms of those. |
| Dispatcher.QueuedIsLast | src/io/event_dispatcher_io_uring.c:385-404 | The response bytes queued for a client are those the last chunk left. |
| Dispatcher.DepthIsLeast | src/io/event_dispatcher_io_uring.c:67-83 | The queue depth is the least one from 256 to 32768 that leaves a headroom of eight beside the clients, or 32768. |
| Dispatcher.Dispatcher.constructor | src/io/event_dispatcher_io_uring.c:497-509 | Before the first submissions nothing is tracked and no client is listed. |
| Dispatcher.Dispatcher.Submit | src/io/event_dispatcher_io_uring.c:135-171 | A successful submission tracks exactly one more operation. |
| Dispatcher.Dispatcher.Untrack | src/io/event_dispatcher_io_uring.c:93-106 | A completed operation is taken off the list, and only its slot is left without one; a client named by it is listed. |
| Dispatcher.Dispatcher.Rearm | src/io/event_dispatcher_io_uring.c:173-204 | Rearming listener or timer makes the outstanding operations complete again. |
| Dispatcher.Dispatcher.RearmClient | src/io/event_dispatcher_io_uring.c:348-355 | A client is armed for writing and flagged so exactly when responses are queued, else for reading. |
| Dispatcher.Dispatcher.Unlist | src/server_lifecycle.c:58-82 | The client leaves list, count and table, no one else does, and the saturating count of disconnects goes up. |
| Dispatcher.Dispatcher.DropClient | src/server_lifecycle.c:48-85 | Dropping a client whose operation completed leaves exactly the operations owed and no trace of the client. |
| Dispatcher.Dispatcher.Admit | src/io/event_dispatcher_io_uring.c:278-306 | A connection is listed and armed if and only if there is room and memory; one turned away for want of room counts as a disconnect; other clients keep their state. |
| Dispatcher.Dispatcher.HandleAccept | src/io/event_dispatcher_io_uring.c:255-313 | Accepting in a loop and rearming keeps the invariant and every existing client; new clients start out fresh, and as many are listed as were accepted with memory, up to the maximum. |
| Dispatcher.Dispatcher.HandleTimer | src/io/event_dispatcher_io_uring.c:315-346 | The timer is rearmed, so the invariant holds. |
| Dispatcher.Dispatcher.TakeChunk | src/io/event_dispatcher_io_uring.c:385-404 | A chunk leaves the client with the remainder of the split, or asks for a drop exactly on a failed write or an oversize header. |
| Dispatcher.Dispatcher.RoomToRead | src/io/event_dispatcher_io_uring.c:373-381 | A client about to read always has free buffer space, so the drop for a full buffer is unreachable. |
| Dispatcher.Dispatcher.HandleRead | src/io/event_dispatcher_io_uring.c:357-426 | A readable client ends as specified by its reads, kept or dropped, is armed again if kept, and no other client changes. |
| Dispatcher.Dispatcher.HandleWrite | src/io/event_dispatcher_io_uring.c:428-455 | A writable client is dropped exactly on failure, keeps its input, and is armed for what it needs. |
| Dispatcher.Dispatcher.HandleCqe | src/io/event_dispatcher_io_uring.c:457-484 | A read completion keeps its client, listed, armed and with the rest of all bytes heard from it, if and only if it did not fail, no read met the end of the stream, an error or a failed write, and no frame too large was announced; otherwise it drops it. A write completion keeps it, with its input, if and only if neither it nor the flush failed. No other client changes. A timer completion changes no client, and an accept completion only adds some. |
| Dispatcher.Dispatcher.CompleteRead | src/io/event_dispatcher_io_uring.c:357-426 | The part of a read completion, with the client accounted for. |
| Dispatcher.Dispatcher.CompleteWrite | src/io/event_dispatcher_io_uring.c:428-455 | The part of a write completion, with the client accounted for. |
| Dispatcher.Dispatcher.Start | src/io/event_dispatcher_io_uring.c:511-515 | Arming the listener, and the timer if there is one, establishes the invariant. |
| Dispatcher.Dispatcher.Consequences | src/io/event_dispatcher_io_uring.c:518-536 | The invariant means: one accept, one timer if there is one, one operation per listed client and none for others; list length is the client count and at most the maximum; a client waits to write iff it has responses queued iff it is flagged so, and holds no complete frame unserved. |
| Dispatcher.Dispatcher.Run | src/io/event_dispatcher_io_uring.c:518-536 | At every loop head of every run, whatever completes and in whatever order, the invariant holds while the loop is running; every completion is handled; a client ever admitted has left if and only if it met the end of its stream, an error, a failed write or a frame too large; and the loop goes on unless something fails or a signal comes. |
| Dispatcher.FillToCapacity | src/io/event_dispatcher_io_uring.c:67-83 | With a timer, the server filled to its maximum has fewer operations outstanding than the queue is deep if and only if that maximum is at most 32765. |
| Histories.Extends | src/networking/networking.c:169-200 | The exchanges of one read extend the common history, and the log of that client alone. |
| Histories.HistoryIsTrace | src/io/event_dispatcher_io_uring.c:457-484 | The database is at all times what the requests of all clients and the sweeps, in the order they happened, make of the first one, and it is sound. |
| ClientSets.ClientSet.Receive | src/io/event_dispatcher_io_uring.c:372-407 | A read of one client leaves every other client in step with its own stream; the frames served go into the one history, each on the database the event before left. |
| ClientSets.ClientSet.OnReadable | src/io/event_dispatcher_io_uring.c:357-426 | After a read, whatever it brought, all clients that are left are in step; the client is dropped if and only if a header is oversize or a write failed. |
| ClientSets.ClientSet.Flush | src/io/event_dispatcher_io_uring.c:428-455 | A flush sends more of what one client is owed and changes nothing for the others. |
| ClientSets.ClientSet.Sweep | src/io/event_dispatcher_io_uring.c:315-346 | A sweep leaves every client in step and is one event of the history: the keys it took were past their deadline. |
| ClientSets.ClientSet.Attach | src/io/event_dispatcher_io_uring.c:278-306 | A new client starts in step with an empty stream and log; the others stay as they are. |
| ClientSets.ClientSet.Detach | src/server_lifecycle.c:48-85 | Dropping a client, failed or not, leaves all others in step, and the history. |
| ClientSets.ClientSet.InOneOrder | src/io/event_dispatcher_io_uring.c:518-536 | All clients see one database in one order: it is what their requests and the sweeps made of the first one, every client's bytes split into the frames of its part of the history, and what it was sent is the beginning of their responses. |
| HistogramBuckets.InOwnBucket | src/fkvs-benchmark.c:235-275 | Every value lies in the bucket of its index: at or above the value reported for it and below that plus the width. |
| HistogramBuckets.BucketsAbut | src/fkvs-benchmark.c:265-275 | The next index starts where a bucket ends. |
| HistogramBuckets.BucketIsInterval | src/fkvs-benchmark.c:235-275 | An index holds exactly the values of one interval, and the value reported for an index has that index. |
| HistogramBuckets.IndexMonotone | src/fkvs-benchmark.c:235-246 | Indexing is monotone and never negative. |
| HistogramBuckets.IndexInRange | src/fkvs-benchmark.c:254-256 | Every value up to the highest has an index inside the counts, so no sample is dropped. |
| HistogramBuckets.RelativeError | src/fkvs-benchmark.c:213-227 | A bucket is one unit wide, and the unit at most the lowest value, or its width times 10^sig is at most any value in it. |
| HistogramBuckets.ReportedIsClose | src/fkvs-benchmark.c:265-275 | A reported value is below the recorded one by less than the lowest value, or by less than one part in 10^sig. |
| Histograms.FiveDigitsFit | src/fkvs-benchmark.c:213-233 | Up to five significant digits no field overflows, whatever the highest value. |
| Histograms.IPow10 | src/fkvs-benchmark.c:191-197 | The loop computes the power of ten. |
| Histograms.BucketsNeeded | src/fkvs-benchmark.c:199-211 | The doubling loop with its overflow guard finds the number of powers of two that reach the highest value, without leaving int64. |
| Histograms.Histogram.constructor | src/fkvs-benchmark.c:213-233 | A histogram starts with no samples in the specified configuration, or without counts when memory is refused. |
| Histograms.Histogram.Record | src/fkvs-benchmark.c:248-263 | Recording adds the value itself when it is in range, zero when it is negative, and the highest value when it is above; counts, total, minimum and maximum stay exact. |
| Histograms.Histogram.RecordAll | src/fkvs-benchmark.c:248-263 | Recording values in range one after the other adds exactly those. |
| Histograms.Histogram.TotalIsSum | src/fkvs-benchmark.c:257-258 | The total is the sum of the counts and the number of samples recorded. |
| HistogramSamples.RankIndex | src/fkvs-benchmark.c:286-291 | The cumulative scan stops at the index of the k-th smallest sample. |
| HistogramSamples.ExtremesBound | src/fkvs-benchmark.c:257-263 | Least and greatest are samples, and all samples lie between them. |
| Histograms.Histogram.ValueAtRank | src/fkvs-benchmark.c:284-292 | For rank k the scan returns r with r <= x < r + bucket width, where x is the k-th sample in ascending order; past the total it returns the maximum, and zero when nothing was recorded. |
| Histograms.Histogram.ValueAtPercentile | src/fkvs-benchmark.c:277-293 | Over exact arithmetic, the rank of a percentage is that share of the total rounded to the nearest, at least one and never past the total, so the value reported is that of a sample's bucket. |
| Histograms.Histogram.ShareAtMost | src/fkvs-benchmark.c:277-283 | The share of a percentage is in proportion to it, up to the total and never more. |
| Histograms.ReportRank | src/fkvs-benchmark.c:213-293 | With up to five digits, after recording any values in range, the value reported for rank k is below the k-th smallest of them by less than the lowest value or by less than one part in 10^sig. |
| HistogramSamples.TallyConcat | src/fkvs-benchmark.c:312-313 | Counts of concatenated samples are the sums of the counts. |
| HistogramSamples.ExtremesConcat | src/fkvs-benchmark.c:315-320 | Minimum and maximum of concatenated samples are those of the two parts. |
| Histograms.Histogram.Add | src/fkvs-benchmark.c:306-321 | Merging adds the counts both have, the totals and the extremes; for equally configured histograms the result is the histogram of all their samples. |

## Left out

- The epoll and kqueue event loops: same client handling, with kernel event semantics instead of one-shot operations.
- Sockets, signals, daemonizing, configuration, the command line, INFO text and metrics: input and output plumbing. INFO replies with an arbitrary text.
- HashTables.CreateHashTable: that every operation refuses a table without buckets is not modelled; the operations require a valid table.
- HashTables.HashTable.MaybeStartRehash: the new size is unbounded; a bucket array of 2^63 entries is not modelled.
- HashTables.HashTable.SetValue: null arguments, the type and expirable fields and the inline layout of keys and values are not modelled; freeing is not modelled.
- SubTables.SubTable.Absorb: adjusts table 0's counter once per bucket instead of once per node.
- Database.Database.Count: one method for the four counter handlers, which differ only in the amount; their frame checks are in Protocol.
- Builders.Build: one builder for the fourteen, over byte strings; C string termination and lengths over 65535 are not modelled.
- KeysCommand.ListKeys: allocation failures of the text buffer are not modelled; an overlong listing may leave any of the dead keys cleaned.
- Server.ServeFrame: requires, in GET, INCR, DECR, DEL, TTL and PERSIST, that the key field lies inside the frame, which those handlers do not check and the builders guarantee.
- Traces.SweepsInvisible: INFO is excluded, and each command reads the clock once; the clock is non-negative and never goes back.
- Sweeping.FullRound: a key whose bucket moves, or whose deadline is rewritten, during the round is not covered; the deadline table keeps its sizes during the round.
- Sweeping.RoundCovers: the same.
- ExpirySweep.ExpirySweep.SweepRound: sweeps only; with commands in between it is Rounds.ServeRound.
- Rounds.ServeRound: requires that the deadline table is not resizing and has room for one more key per turn, so that no resize starts.
- ExpirySweep.ExpirySweep.Sweep: the exit for a table without buckets is not a branch, since a valid table has buckets.
- Connections.Connection.Receive: the drops for a full buffer and for an oversized partial frame are not branches, since the contract shows that neither can be reached; verbose output and counters are not modelled.
- Dispatcher.Dispatcher.HandleRead: serving a chunk's frames is represented by its outcome, a failed write or the number of response bytes queued; what is served and queued is in Connections, and for all clients together in ClientSets. Clients are held by number in a sequence, which ClientLists shows to be what the linked list does.
- Dispatcher.Dispatcher.TakeChunk: the same.
- Dispatcher.TakesAll: a chunk longer than the room left stands for its first part, since recv never delivers more than asked for.
- Dispatcher.Dispatcher.HandleWrite: flushing is represented by whether it failed and how many bytes it left; what it sends is in WriteQueues.
- Dispatcher.Dispatcher.HandleTimer: the sweeps it runs are in ExpirySweep.
- ClientSets.ClientSet.OnReadable: one read of the burst, which the read loop of Dispatcher repeats; a key field must lie inside its frame, as for Server.ServeFrame. Which operations are armed is in Dispatcher.
- ClientSets.ClientSet.Receive: the same.
- ClientSets.ClientSet.Attach: clients are numbered as they come, where the program reuses descriptors.
- Dispatcher.Dispatcher.Run: after a failed submission the loop ends, and the state it leaves for shutdown is not described; closing all clients at shutdown is not modelled.
- Pipelines.Receiver.ReceiveResponses: a client that met an oversize frame has discarded its buffer, and what it reads afterwards is not described.
- Histograms.Histogram.ValueAtPercentile: percentages are exact; floating-point rounding and the mean are not modelled.
- Histograms.Histogram.Add: what the merge of differently configured histograms says about their samples is not described, only its counts.
- Histograms.Histogram.constructor: requires that no field of the configuration overflows.
- listInsertNode and listFindNodeByFd: no caller in the server's event loop.
- The tokenizer, key generation, the counters and the multi-threaded benchmark workers: easy members, or threads with little state.
