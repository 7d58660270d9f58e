# A verified model of the Latte redis server core

This project models the stateful core of the server: the incremental parser of the Redis serialization protocol,
the sharded key store with its tree of dict sizes, the key space with lazy expiry and reference counts, the list of
reply blocks with placeholders, the pool of eviction candidates, the allocator of command ids and the ring of
instantaneous rates. Each is written in the form the C code has (objects with fields that methods change, loops,
arrays changed in place) and is proved against a plain definition of what it is for. Results are about every input
and every run.

| file | content |
|---|---|
| `Wire.dfy`, `Sums.dfy` | bytes, C string scanning, decimal numbers; sums |
| `RequestGrammar.dfy` | the reference parser: recursive descent over a whole stream, no state |
| `RequestBytes.dfy` | the lines of the protocol byte by byte: exactly which are read, refused or dropped |
| `RequestModes.dfy` | what a half-read stream stands for, and that each parser move is sound whatever follows |
| `RedisClient.dfy` | the client object, its parse loops, and every run of chunks, trims and handler calls |
| `RoundTrip.dfy` | a client's encoding of commands, read back through the reference parser and the client |
| `KvStore.dfy` | lowest-bit arithmetic, the sharded store and its binary indexed tree |
| `KeySpace.dfy` | SET, GET, EXPIRE, lazy deletion and client reset as functions of the state, with reference counts |
| `TimedMap.dfy` | the eager timed map, and each command against it |
| `KeySpaceRuns.dfy` | runs of many clients: refinement over whole runs, finality of deadlines |
| `KeySpaceFailures.dfy` | runs from an empty server that show where the code fails or surprises |
| `Server.dfy`, `ServerRuns.dfy` | the same commands in place over two key stores, proved equal to the functions |
| `EndToEnd.dfy` | many connections to one database: from bytes in pieces to replies, against the timed map |
| `Streams.dfy` | the same on the inputs alone: which bytes a client's stream is made of |
| `ReplyDocument.dfy`, `ReplyList.dfy`, `ReplyHelp.dfy` | the text with placeholders, the block list that stands for it, help replies |
| `TopScores.dfy`, `EvictionPool.dfy` | the largest scores of a multiset, and the array that keeps them |
| `CommandIds.dfy` | the allocation of command ids |
| `Metric.dfy` | the ring of rates and what its mean means |

The main results are `RedisClient.Drive`, `RoundTrip.RoundTrips`, `RoundTrip.Exchange`, `RequestGrammar.ServeExtends`,
`KvStore.Run`, `KeySpaceRuns.After`, `KeySpaceRuns.LazyRefinesEager`, `KeySpaceRuns.DeadlineIsFinal`,
`ServerRuns.ServeAdmissible`, `EndToEnd.Converse`, `Streams.ConverseOnStreams`, `KeySpaceRuns.LastSetIsRead`, `ReplyList.Reply`, `ReplyHelp.FillOrder`,
`EvictionPool.Populate`, `CommandIds.RegisterAll` and `Metric.Report`.

## Where the code does not do what one would expect

- A request with an unknown name is neither executed nor reset (`src/redis/client.c:51-54`, `107-109`). The next byte
  then fails the assertion on `argc`. The model keeps this: the client halts exactly when the reference parser ends in
  `AssertionFailure` (or in `InlineRequest`, where the model stops).
- A header line over 64 KiB is refused, but stays in the buffer. If its last byte so far is the missing `\r`, the next
  handler call waits instead of refusing. No command is ever executed after the refusal; `Extends` states this.
- `non_empty_dicts` is incremented again by every deletion that leaves exactly one key in a dict
  (`src/redis/db.c:148`). `KvStore.Store.Valid` states by how much it is off, `NonEmptyCountDrifts` is a run that shows
  it, and `InsertsLeaveNone` that it is exact without deletions.
- SET looks a key up by all its bytes, but adds it as a C string (`src/redis/db.c:89`). The assertion "overwrite is not
  supported" is reached exactly when the key is not visible, contains a NUL, and its part before the NUL is stored:
  `SetAborts`. `OverwriteIsReached` is a run from start-up that does so. The comment at `src/redis/db.c:93` says the
  opposite.
- EXPIRE does not delete lazily and does not replace a deadline (`src/commands/command_manager.c:167-175`). On a key
  whose time is over but which nobody has looked at since, it replies with an error instead of 0: `ExpireRefines` gives
  the exact condition, and `StaleExpireShows` a run from start-up. It is the only difference between lazy and eager
  expiry that a client can see: over every run the replies are exactly those of the eager server with this change.
- EXPIRE computes `now + seconds * 1000` in 64 bits. The deadline is the one asked for if and only if the sum fits
  (`ExpireDeadline`); near the limit the key is gone at once (`ExpireOverflows`, and `FarDeadlineVanishes` as a run).
  The overflow of a signed number is modelled as two's complement.
- The mean rate is a signed sum divided by a `size_t` (`src/experiment/metric.c:80`). It is the mean if and only if the
  sum is not negative or the ring has one slot (`QuotientIsMean`); one falling step reports more than 10^18
  (`FallingReport`).

## Model

| member | source | states |
|---|---|---|
| `Wire.LineEndFound` | src/redis/client.c:218 | `strchr` finds a line end if and only if a CR comes before every NUL, and it is the first CR |
| `Wire.LineEndStable` | src/redis/client.c:218-229 | more input never moves a line end that was found, and a new one lies in the new input |
| `Wire.ParseInt64Is` | src/redis/client.c:234 | a string is read as n if and only if n fits a signed 64-bit integer and the string is its one spelling: no leading zero, no plus, nothing around it |
| `Wire.DecimalIs` | src/redis/client.c:234 | the digits of a number, with their codes |
| `Wire.LongIsNoNumber` | src/redis/client.c:220 | no line of more than 20 characters is a number: why a header that was too long stays refused |
| `RequestGrammar.ReadNumberStable` | src/redis/client.c:218-243 | more input changes no header that was read, and never makes a refused header readable, not even when its CR arrives later |
| `RequestGrammar.ReadNumberLocal` | src/redis/client.c:245 | what a header line says depends on its own bytes only |
| `RequestGrammar.ReadBulkStable` | src/redis/client.c:260-342 | the same for a whole bulk string |
| `RequestGrammar.RespIsLawful` | src/redis/client.c:208-353 | the lines and bulk strings of the protocol meet the laws that the generic results need |
| `RequestBytes.CountIsRead` | src/redis/client.c:218-245 | a count line is read exactly when it is '*' and the spelling of a number of at most 1048576, a CR with no NUL before it, and one more byte |
| `RequestBytes.CountIsRefused` | src/redis/client.c:218-243 | it is refused exactly when over 65536 bytes hold no line, or the line has another first byte or no such number |
| `RequestBytes.LengthIsRead` | src/redis/client.c:260-296 | the same for a length line: '$' and a number from 0 to the configured limit |
| `RequestBytes.LengthIsRefused` | src/redis/client.c:260-294 | and when it is refused |
| `RequestBytes.BulkIsRead` | src/redis/client.c:319-342 | a bulk string is its length line, as many bytes, and any two more |
| `RequestBytes.EmptyRequestIsDropped` | src/redis/client.c:247 | a request that announces no arguments, or fewer than none, is dropped, and what follows it is served |
| `RequestBytes.HugeRequestIsRefused` | src/redis/client.c:235-238 | a request that announces more than 1048576 arguments ends in a protocol error |
| `RequestGrammar.ReadRequestStable` | src/redis/client.c:208-353 | the same for a whole request |
| `RequestGrammar.ServeExtends` | src/redis/client.c:385-388 | more input only adds commands at the end; after a protocol error, a QUIT, an inline request or an unknown name it adds none |
| `RequestModes.ConsumesThen` | src/redis/client.c:359-443 | sound steps compose: bytes used up in parts, with the commands executed in between |
| `RequestModes.Conclude` | src/redis/client.c:440-443 | when nothing more can run, what has run is what the reference parser finds in all bytes received |
| `RequestModes.CountLineMove` | src/redis/client.c:214-254 | reading a count line is sound whatever bytes follow, also for counts of zero or less |
| `RequestModes.LengthLineMove` | src/redis/client.c:259-316 | reading a length line is sound whatever bytes follow |
| `RequestModes.BodyMove` | src/redis/client.c:319-345 | taking an argument is sound whatever bytes follow, for the last argument and for the others |
| `RequestModes.DispatchMove` | src/redis/client.c:419-437 | executing or dropping a request is sound: unknown names, QUIT and other commands |
| `RedisClient.Client.constructor` | src/redis/client.c:69-74 | a new client is between requests and has executed nothing |
| `RedisClient.Client.Append` | src/redis/client.c:363 | new bytes keep the invariant, at any point of a request |
| `RedisClient.Client.Trim` | src/redis/client.c:440 | dropping parsed bytes keeps the invariant and the unread bytes |
| `RedisClient.Client.ReadHeader` | src/redis/client.c:218-234 | the line found by position is the one the reference parser reads |
| `RedisClient.Client.ReadCountLine` | src/redis/client.c:214-254 | announced count, allocated length and position, or nothing changed on refusal; the assertion on '*' holds |
| `RedisClient.Client.ReadLengthLine` | src/redis/client.c:259-316 | pending length and position; the trim for big arguments leaves the same unread bytes |
| `RedisClient.Client.TakeBulk` | src/redis/client.c:323-342 | handing over the whole buffer gives the same argument and the same unread bytes as copying |
| `RedisClient.Client.TakeArgument` | src/redis/client.c:319-345 | one more argument: argc + multi_bulk_len is kept, argv_len_sum is the sum of lengths |
| `RedisClient.Client.ProcessMultibulkBuffer` | src/redis/client.c:208-353 | terminates; a complete request, or provably nothing to execute; the argc assertion fails if and only if an unknown command was left behind |
| `RedisClient.Client.ProcessCommandAndReset` | src/redis/client.c:32-57 | a registered command runs and the client is reset; an unknown one does neither; QUIT closes |
| `RedisClient.Client.Reset` | src/redis/client.c:60-74 | the fields of a client between requests |
| `RedisClient.Client.ProcessInputBuffer` | src/redis/client.c:359-443 | terminates; all commands of the bytes received have run, no others; halted and closed exactly when the reference parser says so; the return code |
| `RedisClient.Client.RequestStep` | src/redis/client.c:385-437 | one turn runs at most one command, which starts with the arguments stored before it; it uses up bytes, or nothing more can run |
| `RedisClient.ArrivedThen` | src/redis/client.c:359-443 | a chunk adds its bytes and nothing else adds any; only a handler call takes in what has arrived |
| `RedisClient.Drive` | src/redis/client.c:359-443 | every run: however a stream is cut, handled and trimmed, the commands executed are those of the one-shot parser on the concatenation |
| `RoundTrip.DrivePieces` | src/redis/client.c:359-443 | the same for any list of pieces, each read and handled |
| `RoundTrip.EncodeIs` | tests/support/client.tcl:170-187 | the bytes of an encoded command, and pipelining as concatenation |
| `RoundTrip.ReadEncoded` | tests/support/client.tcl:170-187 | an encoded command is read back as itself, using exactly its bytes, whatever follows |
| `RoundTrip.ServePipeline` | tests/support/client.tcl:170-187 | serving an encoded pipeline is executing its commands and then serving what follows it |
| `RoundTrip.RoundTrips` | src/redis/client.c:214-349 | every pipeline of commands with up to 1048576 arguments of arbitrary bytes within the length limit is executed in order up to and including the first QUIT |
| `RoundTrip.PipelineCommands` | src/redis/client.c:214-349 | a stream that is an encoded pipeline has exactly its commands up to the first QUIT |
| `RoundTrip.Exchange` | src/redis/client.c:359-443 | the same through the client object, for every chunking |
| `LowestBit.AndNegated` | src/redis/db.c:164 | `i & -i` in two's complement is the largest power of two that divides i |
| `LowestBit.NextCovering` | src/redis/db.c:161-164 | the walk visits every node that covers a dict, and no other |
| `KvStore.WalkStep` | src/redis/db.c:155-164 | one step of the walk brings exactly the nodes before the next one up to date |
| `KvStore.Store.constructor` | src/redis/db.c:300-340 | an empty store of any number of dicts is consistent, with dicts created at once or on demand |
| `KvStore.Store.CreateDictIfNeeded` | src/redis/db.c:116-124 | contents unchanged; allocated_dicts is the number of dicts created |
| `KvStore.Store.BumpNode` | src/redis/db.c:156-160 | the assertion on deletions holds, because of what the node sums |
| `KvStore.Store.UpdateIndex` | src/redis/db.c:151-165 | terminates within num_dicts and makes the whole tree agree with the new sizes |
| `KvStore.Store.CumulativeKeyCountAdd` | src/redis/db.c:143-167 | every counter and the tree agree with the dicts again |
| `KvStore.Store.AddRaw` | src/redis/db.c:169-174 | inserts if absent and keeps every count; nothing else changes |
| `KvStore.Store.DeleteKey` | src/redis/db.c:132-139 | removes if present and keeps every count; nothing else changes |
| `KvStore.Store.Find` | src/redis/db.c:126-130 | the value of the key in its dict |
| `KvStore.Store.SetVal` | src/redis/db.c:176-180 | the value of one entry, and no count |
| `KvStore.Store.RootIsKeyCount` | src/redis/db.c:143-167 | `dict_size_index[num_dicts]` is key_count |
| `KvStore.Run` | src/redis/db.c:132-174 | every run: the store holds the plain sets of keys, the tree and the counters agree with them, and non_empty_dicts is off by exactly the deletions that left one key |
| `KvStore.InsertsLeaveNone` | src/redis/db.c:148-149 | non_empty_dicts is exact on runs of insertions |
| `KvStore.NonEmptyCountDrifts` | src/redis/db.c:148-149 | a run after which non_empty_dicts is wrong |
| `KeySpace.IncrBalanced` | src/redis/module.c:323-325 | taking a reference accounts for one more holder |
| `KeySpace.DecrBalanced` | src/redis/module.c:327-329 | giving up a held reference is possible, and releases the object exactly when it was the last |
| `KeySpace.StoreBalanced` | src/redis/module.c:342-346 | storing hands a held reference over and takes the old one back |
| `KeySpace.ArgIsLive` | src/redis/client.c:60-64 | no argument of any client is ever a released object |
| `KeySpace.ValueIsLive` | src/redis/module.c:338-340 | no stored value is ever a released object |
| `KeySpace.DeleteKey` | src/redis/db.c:205-210 | deleting keeps exact counts, and deadlines only for keys that are there |
| `KeySpace.Lookup` | src/redis/module.c:307-321 | after a lookup the key is not over its time; counts stay exact |
| `KeySpace.SetValue` | src/modules/string.c:19-23 | replacing a value keeps exact counts, also when it is the same object |
| `KeySpace.AddValue` | src/redis/db.c:84-106 | adding a key keeps exact counts |
| `KeySpace.ExecKeepsInv` | src/modules/string.c:6-52 | every command that replies keeps exact counts, deadlines within keys, and the arguments of all clients |
| `KeySpace.PushArg` | src/redis/client.c:330-340 | a parsed argument is a new object with one reference |
| `KeySpace.Reset` | src/redis/client.c:60-67 | a client that gives up its arguments leaves counts exact and the key space as it was |
| `TimedMap.ViewLater` | src/redis/db.c:212-219 | what is visible at a later time is visible now |
| `TimedMap.SetAborts` | src/redis/db.c:84-106 | the "overwrite is not supported" assertion fails if and only if an invisible key contains a NUL and its C string is stored |
| `TimedMap.SetRefines` | src/modules/string.c:6-31 | SET changes only its key in the view, keeps the deadline, and replies as the eager server does |
| `TimedMap.GetRefines` | src/modules/string.c:34-52 | GET replies the value that the view holds, or null, and leaves the view as it is |
| `TimedMap.WrongCount` | src/modules/string.c:6-37 | a wrong number of arguments, and nothing else, gets the error for it, and changes nothing |
| `TimedMap.ExpireNotAnInteger` | src/commands/command_manager.c:162-165 | EXPIRE says "not an integer" exactly when its last argument is no decimal number from 0 to 2^63 - 1, and then changes nothing |
| `TimedMap.ExpireNegative` | src/commands/command_manager.c:162-165 | in particular for a negative number |
| `TimedMap.ExpireReply` | src/commands/command_manager.c:166-178 | with a number: 1 for a key in the view without a deadline, an error for one with a deadline or stale, 0 for none |
| `TimedMap.ExpireRefines` | src/commands/command_manager.c:152-179 | EXPIRE has the eager effect; the reply differs exactly for three arguments, a number that is not negative and a stale key; 1 only for a key in the view |
| `TimedMap.ExecStale` | src/redis/db.c:212-219 | SET and GET make their key stale no longer, EXPIRE only a key whose new deadline has passed, and no command any other |
| `TimedMap.ExpireDeadline` | src/commands/command_manager.c:172 | the deadline is the one asked for if and only if it fits 64 bits |
| `TimedMap.ExpireOverflows` | src/commands/command_manager.c:172 | EXPIRE with a sum that overflows replies 1 and makes the key vanish at once |
| `KeySpaceRuns.After` | src/modules/string.c:11-28 | every state of every run of any clients: each live object's count is its occurrences in arguments plus stored values, and nothing else is in memory |
| `KeySpaceRuns.LazyRefinesEager` | src/redis/db.c:183-219 | every run in which time does not run backwards and keys that are set contain no NUL: no assertion fails, the replies are exactly what the eager server tells, the views are equal, and the same keys are stale |
| `KeySpaceRuns.ToldAt` | src/commands/command_manager.c:167-175 | what is told differs from the eager reply exactly for a well-formed EXPIRE of a key that is stale in the lazy state before it: an error instead of 0 |
| `KeySpaceFailures.OverwriteIsReached` | src/redis/db.c:84-106 | a run from start-up that fails the "overwrite is not supported" assertion |
| `KeySpaceFailures.StaleExpireShows` | src/commands/command_manager.c:152-179 | a run from start-up in which EXPIRE of a stale key replies with an error where the eager server replies 0 |
| `KeySpaceFailures.FarDeadlineVanishes` | src/commands/command_manager.c:172 | a run from start-up in which EXPIRE replies 1 and the key is over at the same moment |
| `KeySpaceRuns.BoundStep` | src/redis/db.c:190-198 | neither SET nor EXPIRE moves a deadline that is set |
| `KeySpaceRuns.DeadlineIsFinal` | src/redis/db.c:212-219 | no run returns a value again once its deadline has passed, unless the key is set anew after it |
| `KeySpaceRuns.LastSetIsRead` | src/modules/string.c:6-52 | every run: GET replies the value of the last SET of the key, unless a deadline of the key has passed in between |
| `Server.Database.constructor` | src/redis/db.c:415-423 | the empty key space over two stores of one dict each |
| `Server.Database.SetExpire` | src/redis/db.c:190-198 | a deadline only for a key that has none |
| `Server.Database.RemoveExpire` | src/redis/db.c:200-203 | the deadline of one key goes |
| `Server.Database.DropEntry` | src/redis/db.c:227-231 | a removed entry gives up its value |
| `Server.Database.DeleteKey` | src/redis/db.c:205-210 | in place, on both stores, what the function says |
| `Server.Database.ExpireIfNeeded` | src/redis/db.c:212-219 | deletes if and only if the deadline has been reached, and says so |
| `Server.Database.LookupKey` | src/redis/module.c:307-321 | the value that is there after lazy deletion |
| `Server.Database.ReplaceValue` | src/redis/module.c:342-346 | counting the new value first makes replacing safe |
| `Server.Database.AddNew` | src/redis/db.c:84-106 | adds unless the C string of the key is there, in which case the assertion fails |
| `Server.Database.SetCommand` | src/modules/string.c:6-31 | the state and reply of the function, or its failed assertion |
| `Server.Database.GetCommand` | src/modules/string.c:34-52 | the state and reply of the function |
| `Server.Database.ExpireCommand` | src/commands/command_manager.c:152-179 | the state and reply of the function |
| `Server.Database.Push` | src/redis/client.c:338-340 | a new argument object |
| `Server.Database.ResetClient` | src/redis/client.c:60-67 | the loop over the arguments is the function |
| `ServerRuns.Serve` | src/modules/string.c:6-52 | every run of the two stores in place gives the replies of the model of runs |
| `ServerRuns.ServeAdmissible` | src/redis/db.c:183-219 | every run: the replies, and the clients that get them, are exactly what the eager server tells |
| `EndToEnd.HeardAlone` | src/redis/client.c:359-443 | every run of many connections: what is heard from a client is what the one-shot parser finds in its own bytes, whatever the others send |
| `EndToEnd.Complete` | src/redis/client.c:419-437 | storing the missing arguments, running the command and resetting the client come to the command itself on the timed map |
| `EndToEnd.Turn` | src/redis/client.c:363-438 | one turn of the parse loop with the database: the command it completes is run before the next is read, and half-read arguments stay with the database |
| `EndToEnd.HandleConnection` | src/redis/client.c:359-443 | one handler call: exactly the new commands of the connection are run, in order, each at its own time |
| `EndToEnd.LedgerNext` | src/redis/client.c:419-437 | the n-th request is run at time clock(n), after all before it |
| `EndToEnd.Converse` | src/redis/client.c:359-443 | every run: any number of clients send any bytes in any pieces and are handled in any order; the answers are those of a timed map to the commands heard, in the order in which they were completed |
| `Streams.StreamThen` | src/redis/client.c:359-443 | a chunk adds its bytes to its own client's stream only, and a handler call takes in its own client's only |
| `Streams.RunStreams` | src/redis/client.c:359-443 | every run: until it ends, every client's bytes are those of its own inputs |
| `Streams.NextHeard` | src/redis/client.c:359-443 | each handler call is heard as the commands that are new in its client's own stream, and ends the run exactly when that stream does |
| `Streams.PipelineIsHeard` | tests/support/client.tcl:170-187 | a client whose handled chunks make up an encoded pipeline is heard with exactly its commands, up to the first QUIT |
| `Streams.AnswersGoToSenders` | src/redis/client.c:359-443 | there is one answer for each request on the key space, and it goes to the client that sent it |
| `Streams.OnlyOneSpeaks` | src/redis/client.c:359-443 | of two clients, the one that sends is heard, with its commands |
| `Streams.ConverseOnStreams` | src/redis/client.c:359-443 | the run theorem on the inputs alone: the answers are those of a timed map to requests that are, client by client, what the one-shot parser finds in the chunks of that client |
| `ReplyDocument.GluePrev` | src/redis/client_reply.c:269-283 | a part behind the block before and the rest in the placeholder is the whole in the placeholder |
| `ReplyDocument.GlueNext` | src/redis/client_reply.c:285-292 | in front of the block after is in the placeholder |
| `ReplyDocument.NewText` | src/redis/client_reply.c:293-303 | a block of its own is in the placeholder |
| `ReplyList.Node.Put` | src/redis/client_reply.c:275-276 | bytes go behind those of the block |
| `ReplyList.Node.PutFront` | src/redis/client_reply.c:289-291 | bytes go in front of those of the block |
| `ReplyList.Replies.TrimTail` | src/redis/client_reply.c:204-220 | trims exactly a roomy tail, keeps the text, and reply_bytes changes by the change of capacity |
| `ReplyList.Replies.AddReplyDeferredLen` | src/redis/client_reply.c:222-228 | a new placeholder at the end, different from all others |
| `ReplyList.Replies.SetDeferredReply` | src/redis/client_reply.c:249-305 | in all cases the output is the bytes before, the filling and the bytes after, whatever the other placeholders get; only this placeholder is gone; reply_bytes changes by the change of capacity |
| `ReplyList.TemplateIsSent` | src/redis/client_reply.c:204-305 | the template with its placeholders filled is the bytes written and the fillings, in order |
| `ReplyList.Reply` | src/redis/client_reply.c:204-305 | every run of writes, placeholders and fills sends the bytes written, with each placeholder replaced by its filling |
| `ReplyHelp.FillOrder` | src/redis/client_reply.c:249-305 | runs that write alike and fill alike send the same bytes, in whatever order and at whatever moments they fill |
| `ReplyHelp.AddReplyStatus` | src/redis/client_reply.c:230-234 | one status line behind everything else, whatever the allocator adds to each block |
| `ReplyHelp.SetDeferredAggregateLen` | src/redis/client_reply.c:308-318 | the placeholder becomes the prefix, the decimal length and a line end |
| `ReplyHelp.AddReplyHelp` | src/redis/client_reply.c:324-342 | whatever else is in the list, and whatever the allocator adds to each block, the help is an array whose announced length is the number of its lines |
| `TopScores.OfferTop` | src/redis/evict.c:101-130 | one more offer keeps the largest entries: insert, replace the smallest, or refuse |
| `TopScores.TopIsUnique` | src/redis/evict.c:101-130 | the scores that belong in the pool are determined by those offered, ties included |
| `EvictionPool.CachedDiffer` | src/redis/evict.c:113-130 | no two slots share a recycled buffer |
| `EvictionPool.RightOwned` | src/redis/evict.c:113-118 | moving slots up keeps the buffers a permutation and every key owned once |
| `EvictionPool.LeftOwned` | src/redis/evict.c:120-130 | moving slots down and releasing the first key does the same |
| `EvictionPool.WriteOwned` | src/redis/evict.c:134-143 | writing a key into a recycled buffer or a copy disturbs no other slot |
| `EvictionPool.Pool.constructor` | src/redis/evict.c:22-34 | an empty pool with sixteen buffers |
| `EvictionPool.Pool.FindPlace` | src/redis/evict.c:101-104 | the place of a score among the entries |
| `EvictionPool.Pool.ShiftRight` | src/redis/evict.c:113-118 | the array after the memmove, with the last recycled buffer in the free slot |
| `EvictionPool.Pool.PushOut` | src/redis/evict.c:120-130 | the smallest entry goes, and its key is released unless it is a recycled buffer |
| `EvictionPool.Pool.KeysFit` | src/redis/evict.c:134-141 | a key of at most 255 bytes is in the recycled buffer of its slot, a longer one in a copy, and no recycled buffer holds more than 255 bytes |
| `EvictionPool.Pool.Write` | src/redis/evict.c:134-143 | the new entry in its slot, in the recycled buffer exactly when it fits, the others as they were |
| `EvictionPool.Pool.Place` | src/redis/evict.c:101-143 | the pool after one sample, in all four cases |
| `EvictionPool.Pool.Sample` | src/redis/evict.c:101-143 | a filled prefix, sorted, made of the largest entries ever offered, with buffers and copies owned exactly once |
| `EvictionPool.Populate` | src/redis/evict.c:101-143 | every run: the scores are ascending and are the min(16, n) largest of those offered, ties included |
| `CommandIds.LowerIs` | src/commands/command_manager.c:118-119 | folding makes two names equal exactly when they differ in the case of ASCII letters only |
| `CommandIds.CommandManager.GetCommandId` | src/commands/command_manager.c:116-141 | a known folded name keeps its id; a new one gets the id of its place; ids already given stay |
| `CommandIds.CommandManager.RegisterCommand` | src/commands/command_manager.c:225-228 | registering twice adds nothing and keeps the id |
| `CommandIds.RegisterAll` | src/commands/command_manager.c:225-228 | every run: two names share an id exactly when they differ in the case of letters only; the p-th new name has id p, or p + 1 from 1023 on; 1023 is never given |
| `Metric.RateIs` | src/experiment/metric.c:53-55 | the rate of a step is 0 when the base has not advanced, and else the quotient truncated toward zero |
| `Metric.RatesThen` | src/experiment/metric.c:50-62 | an observation adds a rate unless it is the first or follows a base that is not positive |
| `Metric.RingStep` | src/experiment/metric.c:56-57 | one write keeps the ring holding exactly the last rates, while it fills and after it wraps |
| `Metric.RingSum` | src/experiment/metric.c:77-79 | the sum over the ring is the sum of the last rates |
| `Metric.Entry.constructor` | src/experiment/metric.c:9-20 | a ring of zeros, of sixteen slots when none or fewer are asked for |
| `Metric.Entry.Observe` | src/experiment/metric.c:52-64 | the ring after one more observation |
| `Metric.Entry.Mean` | src/experiment/metric.c:74-80 | the sum of the last rates, divided by the size of the ring as the code does it, without a sign |
| `Metric.QuotientIsMean` | src/experiment/metric.c:80 | that quotient is the mean if and only if the sum is not negative or the ring has one slot |
| `Metric.FallingReport` | src/experiment/metric.c:68-81 | a run whose report is above 10^18 after one falling step |
| `Metric.Metrics.Track` | src/experiment/metric.c:45-66 | one more observation for one name, and none for the others |
| `Metric.Metrics.Get` | src/experiment/metric.c:68-81 | the quotient of the last rates of the name |
| `Metric.LastAreFloors` | src/experiment/metric.c:52-57 | whatever came before, steady steps leave the floors of their gains as the last rates |
| `Metric.SumOfFloors` | src/experiment/metric.c:55 | a sum of floored rates loses less than one per term |
| `Metric.ReportedRate` | src/experiment/metric.c:45-81 | A <= (V - V') * factor / (N * d) < A + 2 when the last N + 1 observations are steady, whatever came before them |
| `Metric.Report` | src/experiment/metric.c:45-81 | the same for what the methods report after a whole run |

## Left out

- Inline requests (`src/redis/client.c:129-197`): the code reads an uninitialised length, so it decides nothing; the model stops at the first byte of one.
- What an unknown command leads to beyond the failed assertion, and the number and text of error replies.
- The master flag and authentication: the flag is never set, and `auth_required` is always 0.
- The libraries for strings, dicts, trees and lists, the allocator and the event loop: taken as values with the obvious operations; `string2ll` is the canonical decimal number in 64 bits, the allocator's slack is a parameter, the node of a placeholder is named by a number.
- In `db_add_key_value_internal` the variable `existing` is taken to be NULL after an insertion.
- ReplyList.Replies.AddReplyProto: what the event loop library does to `reply_bytes` is left open, so only trimming, placeholders and fillings are proved to account for their change.
- KvStore.Store.CumulativeKeyCountAdd: the counters are unbounded, because a store with 2^64 keys cannot exist.
- Metric.Metrics.Get: only for a name that has been tracked, and a ring of at least one sample; the code divides by zero or follows a null pointer otherwise. Products and sums do not overflow; the conversion of a negative sum is modelled.
- Values other than strings, and with them the replies for a wrong type; the `lru` field of objects.
- EvictionPool.Pool.Sample: the score of a sample and the choice of samples are inputs; the dicts they come from are not modelled.
- `src/redis/expire.c`, `src/crons/cron_expire.c` and `performEvictions`: their bodies are unfinished.
- EndToEnd.Converse: one database; replies are values, not their bytes; an assertion that fails, or an inline request, ends the run.
- Module loading, configuration, logging, the slow log, command flags and path handling: input and output, or only easy members.
