# Message bus platform: verified models

Dafny models of the parts of the platform where a mistake would be hardest to see: the compressor, the
timer wheel, the shared-memory queue, the CONN server's state, the arena data structures, the bus's group
routing and the AMF3 codec. `dafny verify dfyconfig.toml` checks everything.

Code that works by changing things in place is modelled as classes and loops over arrays, and each such
method is proved against a specification function; the promises of the code are then proved about those
functions, over all inputs and all runs.

| files | component |
|---|---|
| `QlzTokens`, `QlzStream`, `QlzCompressor`, `QlzDecompressor`, `QlzCodec` | QuickLZ level 1: tokens, the byte stream, both cores, headers and the round trip |
| `QlzGreedy`, `QlzRepeats`, `QlzLiterals` | which matches the compressor takes, and what this comes to on inputs that repeat themselves |
| `ShmRing`, `ShmQueue`, `ShmProtocol`, `ShmProgress` | the ring queue: bytes, calls, one producer beside one consumer, and that both get on with it |
| `TimerBuckets`, `TimerWheel`, `TimerLinks`, `TimerPool` | the timer wheel: positions, lists and runs, linked arena, methods |
| `FixedPool`, `HashChains`, `HashList`, `BlockChains` | fixed-size pool, hash table, multi-map block chains |
| `ConnFraming`, `ConnInfo` | the CONN server's receive and send streams |
| `ConnDirectory`, `ConnMerge`, `ConnServer` | login directory and connection table, merging, handlers |
| `ConnCluster`, `ConnAgreement`, `ConnDisagreement` | several servers: one connection for a user, when their directories agree, and runs after which they do not |
| `BusRouting` | destination expansion and delivery over several buses |
| `Amf3Values`, `Amf3Children`, `Amf3Codec`, `Amf3Serializer`, `Amf3Wire`, `Amf3Received` | AMF3 values, writer and reader, and what other encoders send: references, traits and sealed members |

Idealisations. The compressor is the configured build: level 1, no streaming buffer, no memory-safe
checks, on x86-64, with pointers as indices; four-byte reads and writes are four byte accesses at once.
The timer pool is driven by an ideal clock, one `GetTimerInternal` a 10 ms tick, and intervals are whole
ticks. Results of system calls, the clock and random numbers are parameters; locks are atomicity, except
that the two ends of the ring queue run side by side as their two semaphores allow.

What the proofs found in the code, each stated as a lemma or in a contract:

- a block of bytes over and over need not be compressed: when its three-byte pieces are all different, nothing
  is copied if and only if every piece shares its bucket with another (`QlzLiterals.BlocksFindNothing`); bytes
  0, 1 and 16 repeated 28 times or more are stored, however long the input is (`QlzLiterals.NotEveryBlock`);
- an array enters the AMF3 reference table behind everything inside it, an object before
  (`Amf3Wire.ArrayEntered`, `Amf3Wire.ObjectEntered`), while AMF 3 numbers both in the order they begin;
- on a clock that shows less than 86400 seconds every inactive directory entry expires at once
  (`ConnDirectory.ExpiredExactly`);
- the hash table's `Verify` looks at chain lengths and counters only (`HashList.HashList.Verify`);
- a login response that reaches a connection somebody has already logged in on breaks the agreement of
  directory and connections (`ConnDirectory.LoginBreaks`); when the user is the same, the login closes its
  own connection (`ConnDirectory.LoginTwice`, a run of three events);
- a notice breaks that agreement exactly when it carries the server's own id and is not ignored
  (`ConnDirectory.NoticeAgreement`);
- the servers' directories need not agree on a user although every message has arrived. Unless the sweep has
  removed the user, they agree if and only if no disconnect notice has closed a connection of the user at a
  time later than the user's newest message, and that message, when it is a disconnect notice itself, has met
  an entry and nobody connected on every other server (`ConnAgreement.AgreeExactly`). A drop that is heard of
  after a newer login elsewhere breaks the first (`ConnDisagreement.LateDropDisagrees`, with every sender's
  messages in order), a disconnect notice that overtakes its login the second
  (`ConnDisagreement.OvertakenDisagrees`);
- an AMF3 object with an empty key, or with a key that starts with a NUL byte, reads back as null and
  leaves its bytes in the buffer (`Amf3Codec.EndKeyCuts`), and an array with such a key never comes back
  (`Amf3Codec.EndKeyCutsArray`); nothing else goes wrong with arrays and objects of plain values
  (`Amf3Codec.ComesBackExactly`);
- a byte array read by reference comes back as a string (`Amf3Codec.ByteArrayOrString`,
  `Amf3Codec.ByteArrayAgain`);
- the size of a record of 2^32 - 4 bytes or more wraps, and the ring queue's space test then lets it through
  if and only if the wrapped size fits; a record of 2^32 - 4 bytes always passes (`ShmRing.SpaceTest`);
- the pool's range test lets the index one past the last node through; when the node count is a multiple of
  8 and bit 0 of the data is set, and only then, this damages the pool, and `Verify` finds it
  (`FixedPool.Pool.ReleaseNode`, `FixedPool.Pool.ReleaseThenVerify`); the last node is never handed out;
- the id of a timer that was deleted or has fired is not recognised while other timers are left
  (`TimerPool.TimerPool.Fire`, `TimerPool.TimerPool.GetTimerInternal`): deleting it leaves the counter one short
  of the pending timers (`TimerPool.TimerPool.DelTimer`).

## Model

| member | source | states |
|---|---|---|
| QlzTokens.HashIgnoresFourthByte | mmlib/quicklz/quicklz.c:90-128 | the hash of a four-byte fetch depends on its first three bytes only, so that encoder and decoder agree on buckets |
| QlzTokens.FetchHash | mmlib/quicklz/quicklz.c:123-129 | the bucket computed from a four-byte fetch is that of the three bytes at its position |
| QlzTokens.HashBits | mmlib/quicklz/quicklz.c:90-97 | bit k of a bucket is the exclusive or of bits k and k + 12 of the three bytes |
| QlzTokens.BucketsAgree | mmlib/quicklz/quicklz.c:286-351 | at a match both tables name the same position at distance at least 3, or the encoder matched at distance 1 inside a run and the decoder's bucket names distance 3 of that run; the copied bytes are the input's |
| QlzTokens.SyncLiteral | mmlib/quicklz/quicklz.c:353-366 | a literal keeps the decoder's lagging table equal to the encoder's with at most two pending positions |
| QlzTokens.SyncMatch | mmlib/quicklz/quicklz.c:306-351 | a match can be decoded and brings both tables level again |
| QlzTokens.LockStep | mmlib/quicklz/quicklz.c:255-366 | after any number of tokens of any input the decoder has reproduced exactly the input read so far, with the tables in step |
| QlzTokens.TablesAgreeAtMatches | mmlib/quicklz/quicklz.c:589-682 | hash-table synchrony at every match token of every input, over whole runs |
| QlzTokens.TokenRoundTrip | mmlib/quicklz/quicklz.c:255-727 | decoding the tokens of an input gives the input, for every input |
| QlzStream.MatchBytesRoundTrip | mmlib/quicklz/quicklz.c:311-345 | the two- and three-byte forms of a match determine bucket and length; the short form is for lengths below 18 |
| QlzStream.LayoutOfGroups | mmlib/quicklz/quicklz.c:271-282 | the stream is a sequence of groups of 31 tokens behind their control word |
| QlzStream.ControlWord | mmlib/quicklz/quicklz.c:271-285 | the k-th bit of a control word, from the lowest, tells whether the k-th token of its group is a match; bit 31 is set |
| QlzStream.RoomBound | mmlib/quicklz/quicklz.c:271-282 | unless the half-way test has given up, the output never needs more than 300 bytes over the input |
| QlzStream.ShortLayoutBound | mmlib/quicklz/quicklz.c:508-549 | for inputs under 216 bytes the compressed form with its header fits a one-byte length |
| QlzCompressor.MatchLength | mmlib/quicklz/quicklz.c:318-336 | the extension loop finds the longest match within its limits |
| QlzCompressor.Finds | mmlib/quicklz/quicklz.c:286-304 | the test on cached word and offset holds exactly when the bucket's position starts the same three bytes and may be used; QlzGreedy.Greedy says which that is |
| QlzCompressor.EmitMatch | mmlib/quicklz/quicklz.c:306-347 | a match is appended in its short or long form and flagged in the control word, and nothing else changes |
| QlzCompressor.ShiftDown | mmlib/quicklz/quicklz.c:541-544 | the final shift leaves the flags of the last group below the sentinel |
| QlzCompressor.CompressCore | mmlib/quicklz/quicklz.c:255-550 | gives up exactly when the half-way test fails at some group, otherwise writes the stream of the parse and its length, within the destination |
| QlzDecompressor.CopyWord | mmlib/quicklz/quicklz.c:202-222 | one word copy makes three bytes final and touches one more |
| QlzDecompressor.MemcpyUp | mmlib/quicklz/quicklz.c:202-222 | at distance at least 3 the first n bytes are those of a byte-by-byte forward copy, and at most 3 bytes beyond are touched |
| QlzDecompressor.DecompressState.UpdateHashUpto | mmlib/quicklz/quicklz.c:245-253 | the decoder's table afterwards has exactly the positions up to the limit entered |
| QlzDecompressor.FetchInBounds | mmlib/quicklz/quicklz.c:587 | four stream bytes can always be fetched, because the last four bytes of an input are literals |
| QlzDecompressor.BitlutCountsLiterals | mmlib/quicklz/quicklz.c:561 | the table of literal runs never counts past the next match |
| QlzDecompressor.LiteralTurn | mmlib/quicklz/quicklz.c:684-699 | copying four bytes at once for a run of literals is one step per literal |
| QlzDecompressor.DecompressCore | mmlib/quicklz/quicklz.c:552-727 | on the stream of any input it restores the input and leaves the rest of the destination alone |
| QlzCodec.ExpansionBound | mmlib/quicklz/quicklz.c:729-807 | the packet is at most 400 bytes longer than the input, and at most 255 bytes for inputs under 216 |
| QlzCodec.StoredExactly | mmlib/quicklz/quicklz.c:271-278 | an input is stored if and only if at the end of some group of 31 tokens, past half of the input and with eleven bytes left, the output is longer than the input read less a 32nd |
| QlzCodec.FlagBits | mmlib/quicklz/quicklz.c:786-804 | the bits of the flag byte |
| QlzCodec.SizesRoundTrip | mmlib/quicklz/quicklz.c:177-200 | the size readers return what the header writer stored, in the 3- and the 9-byte form |
| QlzCodec.Compress | mmlib/quicklz/quicklz.c:729-807 | 0 for inputs out of range, else the length of a packet for the input, stored or compressed as QlzCodec.StoredExactly and QlzGreedy.Greedy say |
| QlzCodec.Decompress | mmlib/quicklz/quicklz.c:809-847 | restores the input of any packet |
| QlzCodec.RoundTrip | mmlib/quicklz/quicklz.c:729-847 | decompressing what was compressed gives back every input in range, whatever the buffers and tables held before |
| QlzGreedy.Greedy | mmlib/quicklz/quicklz.c:286-366 | every token of every input, from the input and the earlier tokens alone: a match exactly when eleven bytes are left and the last token start in the bucket is not the very beginning, has the same three bytes and is three or more back, or one back behind three literals in a run; it is then as long as the bytes agree, up to 255 and to four before the end |
| QlzRepeats.BlocksCompress | mmlib/quicklz/quicklz.c:286-366 | a block of three or more bytes repeated six times or more, with its pieces in different buckets, is compressed to at most two bytes for each byte of the block, one for every 80 of the input, and 42 |
| QlzRepeats.RunsCompress | mmlib/quicklz/quicklz.c:298-304 | a run of 16 or more equal bytes is compressed to at most one byte for every 80 and 48 |
| QlzLiterals.FindsNothing | mmlib/quicklz/quicklz.c:286-366 | an input is all literals if and only if at no place with eleven bytes left the last earlier place in its bucket may be used |
| QlzLiterals.LiteralsStored | mmlib/quicklz/quicklz.c:271-278 | an input of 83 or more bytes that is all literals is stored |
| QlzLiterals.BlocksFindNothing | mmlib/quicklz/quicklz.c:286-304 | a block with different pieces, repeated six times or more, is all literals if and only if every piece shares its bucket with another |
| QlzLiterals.NotEveryBlock | mmlib/quicklz/quicklz.c:90-97 | a block of three bytes that is stored however often it is repeated, from 28 times on |
| ShmRing.SpacesExact | mmlib/shm_queue/shm_queue.cpp:298-318 | free and used space never wrap around |
| ShmRing.SpaceBalance | mmlib/shm_queue/shm_queue.cpp:298-318 | free and used space add up to one byte less than the ring, and used space is the distance from head to tail |
| ShmRing.AddOffsetIsIndex | mmlib/shm_queue/shm_queue.cpp:320-337 | moving an offset goes around the ring without overflow |
| ShmRing.NodeSizeExact | mmlib/shm_queue/shm_queue.cpp:59-86 | the record size is exact if and only if the length is below 2^32 - 4 |
| ShmRing.SpaceTest | mmlib/shm_queue/shm_queue.cpp:59-86 | the space test lets through only what fits if and only if the length is below 2^32 - 4 or the wrapped size is refused; at 2^32 - 4 it always passes |
| ShmRing.QueuedHead | mmlib/shm_queue/shm_queue.cpp:105-147 | the bytes at head are the oldest record's frame, and the rest of the ring holds the other records |
| ShmRing.QueuedSnoc | mmlib/shm_queue/shm_queue.cpp:59-86 | writing a frame at tail and moving tail appends a record |
| ShmQueue.ShmQueue.CopyDataInQueue | mmlib/shm_queue/shm_queue.cpp:339-367 | length and body land in the ring as one frame, wherever the end falls |
| ShmQueue.ShmQueue.CopyDataOutQueue | mmlib/shm_queue/shm_queue.cpp:369-419 | the record comes out whole, wherever the end falls, or its length when the buffer is too small |
| ShmQueue.ShmQueue.InQueue | mmlib/shm_queue/shm_queue.cpp:59-86 | refuses empty data and a full ring without change, else appends to the FIFO |
| ShmQueue.ShmQueue.OutQueue | mmlib/shm_queue/shm_queue.cpp:105-147 | takes the oldest record; a too small buffer drops exactly that record |
| ShmQueue.ShmQueue.OutQueueInt | mmlib/shm_queue/shm_queue.cpp:88-103 | the signed form, with its parameter error |
| ShmQueue.ShmQueue.MsgPeek | mmlib/shm_queue/shm_queue.cpp:149-199 | shows the oldest record in place or in the peek buffer, and takes nothing |
| ShmQueue.ShmQueue.ReleaseMsg | mmlib/shm_queue/shm_queue.cpp:201-221 | drops the oldest record, if any |
| ShmQueue.ShmQueue.GetNum | mmlib/shm_queue/shm_queue.cpp:223-233 | the length of the FIFO |
| ShmQueue.ShmQueue.GetAllQueueData | mmlib/shm_queue/shm_queue.cpp:235-277 | all records in order |
| ShmQueue.ShmQueue.Clean | mmlib/shm_queue/shm_queue.cpp:287-291 | empties the FIFO |
| ShmProtocol.NextInv | mmlib/shm_queue/shm_queue.cpp:59-147 | every step of either side keeps the ring, the producer's copy and the consumer's copy consistent |
| ShmProtocol.RunInv | mmlib/shm_queue/shm_queue.cpp:59-147 | after any steps of both sides the ring holds the unread records, and both copies under way are right so far |
| ShmProtocol.ReceivedInOrder | mmlib/shm_queue/shm_queue.cpp:59-147 | in every interleaving the consumer receives exactly the produced records in order; one is dropped exactly when it is longer than the buffer offered |
| ShmProtocol.UnreadBytesStay | mmlib/shm_queue/shm_queue.cpp:59-86 | no step overwrites a byte that is published and not released |
| ShmProgress.InQueueCall | mmlib/shm_queue/shm_queue.cpp:59-86 | a call that begins when the record fits beside the unread ones, and runs to its end with any steps of the consumer between its own, publishes exactly that record |
| ShmProgress.OutQueueCall | mmlib/shm_queue/shm_queue.cpp:105-147 | a call that begins when a record is unread, with any steps of the producer between its own, returns the oldest record, or its length if the buffer is too small |
| TimerBuckets.AddOnTime | mmlib/timer_pool/timer_pool.h:199-246 | the level-by-level subtractions never underflow, and a timer starts on time for every interval and every position of the wheels |
| TimerBuckets.ExactRange | mmlib/timer_pool/timer_pool.h:199-246 | a one-tick deadline holds exactly for the intervals that start in TB1 to TB3 |
| TimerBuckets.CallsNext | mmlib/timer_pool/timer_pool.h:538-601 | a turn of the wheels, with all carries, brings every bucket that does not come up one call closer |
| TimerBuckets.ComesUp | mmlib/timer_pool/timer_pool.h:538-601 | a bucket comes up exactly when it is under its wheel's pointer and all lower wheels are at their last bucket |
| TimerBuckets.MoveOnTime | mmlib/timer_pool/timer_pool.h:381-451 | migrating down a wheel keeps a timer on time, at every level |
| TimerWheel.MigratePending | mmlib/timer_pool/timer_pool.h:381-451 | a migration neither loses nor doubles a timer |
| TimerWheel.CascadeOnTime | mmlib/timer_pool/timer_pool.h:538-601 | the cascade moves exactly the buckets that come up, and leaves all timers on time |
| TimerWheel.TickOnTime | mmlib/timer_pool/timer_pool.h:460-605 | a tick keeps the remaining timers on time and fires only timers in their window |
| TimerWheel.RunInv | mmlib/timer_pool/timer_pool.h:178-605 | the invariant of all runs of additions, deletions and ticks |
| TimerWheel.Conservation | mmlib/timer_pool/timer_pool.h:178-605 | in every reachable state an added timer is pending once, or was fired once, or was deleted once, and only one of these |
| TimerWheel.Deadline | mmlib/timer_pool/timer_pool.h:199-605 | timers fire only within their window, and are no longer pending once it is over, at all levels |
| TimerWheel.FiresOnTime | mmlib/timer_pool/timer_pool.h:199-605 | an undeleted timer of d ticks below the range of TB4 fires exactly once, on the d-th or the next tick |
| TimerLinks.Link | mmlib/timer_pool/timer_pool.h:264-279 | inserting behind a bucket's head keeps every list well linked both ways |
| TimerLinks.Unlink | mmlib/timer_pool/timer_pool.h:344-350 | taking a node out keeps every list well linked both ways |
| TimerPool.TimerPool.AddTimer | mmlib/timer_pool/timer_pool.h:178-290 | the timer goes to the front of its bucket in a node that no list had; the error cases change nothing |
| TimerPool.TimerPool.DelTimer | mmlib/timer_pool/timer_pool.h:298-369 | removes exactly the timer with the id, or reports why not; keeps the pool valid if and only if the id is not that of a timer already gone |
| TimerPool.TimerPool.Migrate | mmlib/timer_pool/timer_pool.h:379-451 | the linked lists afterwards are those of the specification's migration |
| TimerPool.TimerPool.Fire | mmlib/timer_pool/timer_pool.h:485-530 | reports and frees the timers of the current bucket, in list order; their ids are dead while other timers are left |
| TimerPool.TimerPool.GetTimerInternal | mmlib/timer_pool/timer_pool.h:460-605 | one call is one tick of the wheel, on links, pointers, pool and reported ids, which are dead while other timers are left |
| FixedPool.RingPop | mmlib/mem_pool/fixedsize_mem_pool.h:204-228 | taking from the free ring's head leaves the other free nodes, and the one taken is not among them |
| FixedPool.RingPush | mmlib/mem_pool/fixedsize_mem_pool.h:230-258 | giving a node back appends it to the free ring |
| FixedPool.Pool.AllocateNode | mmlib/mem_pool/fixedsize_mem_pool.h:204-228 | never hands out a node in use, nor the last node; fails exactly when one free node is left |
| FixedPool.Pool.ReleaseNode | mmlib/mem_pool/fixedsize_mem_pool.h:230-258 | frees a node in use and changes no other; other indices are left alone; keeps the pool valid if and only if it is not called for the index behind the last node while the data bit read there is set |
| FixedPool.Pool.ReleaseThenVerify | mmlib/mem_pool/fixedsize_mem_pool.h:164-258 | the check finds that damage |
| FixedPool.Pool.UsedCount | mmlib/mem_pool/fixedsize_mem_pool.h:164-202 | the number of set bits is the used-node counter |
| FixedPool.Pool.Verify | mmlib/mem_pool/fixedsize_mem_pool.h:164-202 | succeeds in every reachable state; reports a bad ring exactly when it holds an index past the nodes, and success means that the counter agrees with ring and bitmap |
| FixedPool.Pool.GetNextNode | mmlib/mem_pool/fixedsize_mem_pool.h:268-288 | the next used node from the cursor on, or none |
| HashChains.MovedLinks | mmlib/hash_list/hash_list_nolock.h:351-387 | moving a node between two lists keeps all chains linked and acyclic |
| HashChains.Partition | mmlib/hash_list/hash_list_nolock.h:584-622 | lists with as many distinct nodes as there are hold every node |
| HashList.ConsistentInsert | mmlib/hash_list/hash_list_nolock.h:240-278 | the insertion keeps links, counters and entries consistent with the map |
| HashList.ConsistentRemove | mmlib/hash_list/hash_list_nolock.h:351-387 | the removal keeps links, counters and entries consistent with the map |
| HashList.HashList.NodesPartition | mmlib/hash_list/hash_list_nolock.h:584-622 | every node but the null one is in exactly one place of one bucket or of the free list |
| HashList.HashList.Clear | mmlib/hash_list/hash_list_nolock.h:205-237 | the empty map, with all nodes free |
| HashList.HashList.Insert | mmlib/hash_list/hash_list_nolock.h:240-278 | insertion into a finite map of capacity one less than the nodes, with both error cases |
| HashList.HashList.Update | mmlib/hash_list/hash_list_nolock.h:323-348 | update of a finite map |
| HashList.HashList.Remove | mmlib/hash_list/hash_list_nolock.h:351-387 | removal from a finite map |
| HashList.HashList.Get | mmlib/hash_list/hash_list_nolock.h:415-436 | lookup in a finite map |
| HashList.HashList.ProcessAll | mmlib/hash_list/hash_list_nolock.h:468-487 | gives the callback every entry of the bucket exactly once, even when it removes the current one |
| HashList.HashList.Verify | mmlib/hash_list/hash_list_nolock.h:141-203 | on memory that may be damaged, as long as its chains end: 0 if and only if all chains end in null and bucket numbers, lengths and counters are right; so 0 in every reachable state |
| BlockChains.ChainSize | mmlib/mem_pool/mem_pool.h:251-306 | all blocks of a map but the last are full |
| BlockChains.LookupAfterInsert | mmlib/mem_pool/mem_pool.h:193-306 | an insertion answers later searches for its key and changes no other answer |
| BlockChains.MemPool.NewMap | mmlib/mem_pool/mem_pool.h:113-140 | an empty map in a block no map had; all other maps unchanged |
| BlockChains.MemPool.InitWithHandle | mmlib/mem_pool/mem_pool.h:175-191 | the object is set to another live map, or nothing changes |
| BlockChains.MemPool.GetNode | mmlib/mem_pool/mem_pool.h:193-223 | the first entry under the key, over all blocks of the map |
| BlockChains.MemPool.GetAllNode | mmlib/mem_pool/mem_pool.h:223-249 | the data of the map in insertion order |
| BlockChains.MemPool.InsertNode | mmlib/mem_pool/mem_pool.h:251-306 | appends one entry, in a further block if needed; failures change nothing; other maps keep their chains and contents |
| BlockChains.MemPool.ReleaseMap | mmlib/mem_pool/mem_pool.h:142-173 | gives back exactly the map's own blocks; other maps unchanged |
| ConnFraming.ParseSplit | conn/conn.cpp:1368-1399 | parsing can stop anywhere and go on from the kept bytes |
| ConnFraming.RestLeavesRoom | conn/conn.cpp:1368-1399 | the kept bytes leave room in the buffer and are not yet a packet |
| ConnFraming.ChunkIndependent | conn/conn.cpp:1037-1116 | for every way a stream is split into reads, packets, closing point, kept bytes and the state the handlers leave are those of a one-pass parse |
| ConnFraming.PhasesIndependent | conn/conn.cpp:1037-1116 | and so with other events that change the state between the reads |
| ConnFraming.FrameIs | include/header.h:31-46 | the verdict on bytes that start with a length in network order |
| ConnFraming.PacketsComeOut | conn/conn.cpp:1368-1399 | whole packets and the beginning of one more: exactly the whole ones are handed on and the beginning is kept |
| ConnFraming.RejectedCloses | conn/conn.cpp:1037-1116 | a rejected packet closes the connection, and those before it are handed on |
| ConnFraming.FramingRoundTrip | conn/conn.cpp:1037-1116 | whatever packets are sent, each with its length in front in network order, and however the stream is split into reads: exactly these packets are handed on |
| ConnInfo.ConnInfo.ProcessPkg | conn/conn.cpp:1368-1471 | waits, rejects or accepts as the packet length (ConnFraming.FrameIs) demands and the packet's handler decides, which looks at and changes the state |
| ConnInfo.ConnInfo.ChangeState | conn/conn.cpp:1628-1660 | another event between two reads keeps what was kept, and no packet is waiting in it |
| ConnInfo.ConnInfo.Recv | conn/conn.cpp:89-147 | new bytes come behind the kept ones, and EAGAIN gives the kept ones back |
| ConnInfo.ConnInfo.OnReadable | conn/conn.cpp:1037-1116 | what has been handed on is always the one-pass parse of all bytes read; the connection closes where that parse does or when reading fails |
| ConnInfo.ConnInfo.Send | conn/conn.cpp:151-215 | the kept data goes first; exactly what each write took is written, the rest of the kept data is kept, and the result is what was taken of the new data, or -1 |
| ConnInfo.ConnInfo.SendRemainData | conn/conn.cpp:284-327 | exactly what the write took is written and the rest kept; 0, 1 or -1 as nothing is left, data is left, or the write failed |
| ConnInfo.ConnInfo.Send2Client | conn/conn.cpp:1222-1271 | -3 if and only if a write fails, -2 if and only if what is left does not fit; otherwise what was not taken is kept in order, and write events are armed if epoll_ctl succeeded; on release the peer has a prefix |
| ConnInfo.ConnInfo.OnWritable | conn/conn.cpp:1118-1147 | writes what the socket takes of the kept data, releases if and only if that fails, and turns write events off if nothing is left and epoll_ctl succeeded |
| ConnInfo.EverythingSent | conn/conn.cpp:1118-1147 | over any run of write events every kept byte is sent, in order, once as many writes as there are bytes have succeeded |
| ConnDirectory.ReleaseKeeps | conn/conn.cpp:917-972 | releasing a connection keeps directory and connections in agreement |
| ConnDirectory.AcceptKeeps | conn/conn.cpp:767-862 | accepting keeps agreement |
| ConnDirectory.NoticeAgreement | conn/conn.cpp:1735-1795 | a notice keeps agreement if and only if it comes from another server, is for no user, or is ignored |
| ConnDirectory.DisconnectKeeps | conn/conn.cpp:1796-1839 | a disconnect notice keeps agreement |
| ConnDirectory.SweepKeeps | conn/conn.cpp:2040-2080 | the expiry sweep keeps agreement |
| ConnDirectory.ExpiredExactly | conn/conn.cpp:2061-2062 | an inactive entry expires if and only if it is more than 86400 seconds old, or the clock shows less than 86400 |
| ConnDirectory.DroppedThenSwept | conn/conn.cpp:2040-2080 | a connection dropped at t: a sweep of its bucket removes the entry if and only if it comes more than 86400 seconds later, and touches no other that is active or in another bucket |
| ConnDirectory.LoginAgreement | conn/conn.cpp:1628-1680 | a login keeps agreement if and only if it reaches a connection nobody has logged in on and the user's entry exists or fits |
| ConnDirectory.LoginBreaks | conn/conn.cpp:1644-1680 | for every other login the agreement is broken |
| ConnDirectory.LoginTwice | conn/conn.cpp:1628-1680 | accept, login and the same login once more: a run into the broken state |
| ConnDirectory.LoginStays | conn/conn.cpp:1628-1680 | a login on a connection nobody has logged in on leaves that connection, bound and authorised |
| ConnDirectory.RunAgreement | conn/conn.cpp:767-2080 | in every reachable state the connections bound to a user are exactly the directory's active entries of this server |
| ConnDirectory.RunAuthorised | conn/conn.cpp:767-2080 | in every reachable state the connections bound to a user are authorised |
| ConnDirectory.OneConnection | conn/conn.cpp:1628-1680 | in every reachable state a user has at most one connection here |
| ConnMerge.NoticeMerges | conn/conn.cpp:1744-1792 | one notice more takes the merged state of some notices to that of all |
| ConnMerge.OrderIrrelevant | conn/conn.cpp:1744-1792 | last writer wins: the same notices in any order and with any repetition leave the same directory and connections |
| ConnMerge.SyncReply | conn/conn.cpp:1865-1954 | the cumulative batches of a sync reply do what one list without repeats would do |
| ConnMerge.BatchSizes | conn/conn.cpp:1866-1892 | batch k holds the first 1001 * (k + 1) entries and the last one all |
| ConnServer.ConnServer.FreePos | conn/conn.cpp:785-815 | the search finds a client position nobody uses, through the wrap-around of the counter |
| ConnServer.ConnServer.AcceptConn | conn/conn.cpp:767-862 | the new connection is unbound, at an unused position |
| ConnServer.ConnServer.ReleaseConn | conn/conn.cpp:917-972 | removes the connection, marks its user's entry, and sends exactly one message if asked and there is a user |
| ConnServer.ConnServer.LoginRsp | conn/conn.cpp:1628-1711 | binds the connection, overrides the user's entry, releases the user's other connection here, and notifies the others |
| ConnServer.ConnServer.Notices | conn/conn.cpp:1735-1795 | applies all entries of a notice or a sync reply, and keeps agreement when they come from other servers |
| ConnServer.ConnServer.Disconnects | conn/conn.cpp:1796-1839 | applies all entries of a disconnect notice |
| ConnServer.ConnServer.SyncReq | conn/conn.cpp:1840-1896 | answers with all users active here, in cumulative batches |
| ConnServer.ConnServer.CheckConn | conn/conn.cpp:874-915 | releases the scanned connection exactly when it is a client's and has been silent too long, and then tells the other servers of its user with exactly one message |
| ConnServer.ConnServer.CheckValid | conn/conn.cpp:2040-2080 | removes exactly the expired inactive entries of the next bucket |
| ConnCluster.RunInv | conn/conn.cpp:767-2080 | over every run of several servers, whoever is active on one logged in there with a login sent to all, and later than all logins of the user that have reached it |
| ConnCluster.HandlersSend | conn/conn.cpp:917-1711 | the messages of an event in a run of several servers are exactly those its handler sends, each once |
| ConnCluster.OneServer | conn/conn.cpp:1628-1839 | once a user's logins have reached all servers, the user is connected on at most one, whatever was dropped, swept, delayed, reordered or repeated |
| ConnCluster.SyncSaysNothingNew | conn/conn.cpp:1840-1896 | a sync reply says only what login notices have said |
| ConnAgreement.StoresExactly | conn/conn.cpp:1628-1839 | an event about a user leaves the entry it speaks of if and only if the guard of its branch holds: for a disconnect notice, an entry that is not newer and not active here; otherwise the entry stays, or a kick stamps it with the time of the kick |
| ConnAgreement.HeldExactly | conn/conn.cpp:767-2080 | after every run a directory holds the newest message about a user if and only if an event there met that guard and the sweep has not removed the entry since |
| ConnAgreement.LateKickDisagrees | conn/conn.cpp:1813-1822 | after a kick stamped later than all messages about the user the directories differ |
| ConnAgreement.AgreeExactly | conn/conn.cpp:1628-1839 | once the newest message about an unswept user has reached all servers, their directories agree on the user if and only if no kick is stamped later than it and it has met, as a disconnect notice, an entry and nobody to kick on every other server; all then hold it |
| ConnAgreement.DirectoriesAgree | conn/conn.cpp:1628-1839 | in runs where disconnect notices for the user meet an entry and kick nobody, and no sweep removes the user, all directories hold the user's newest login or drop, and the user is connected there or nowhere |
| ConnDisagreement.LateDropDisagrees | conn/conn.cpp:1813-1822 | a run of nine events, each sender's messages in order, after which every message has arrived, a kick is stamped later than the last login, and the directories disagree |
| ConnDisagreement.OvertakenDisagrees | conn/conn.cpp:1796-1839 | a run of four events in which a disconnect notice overtakes its login, and the directories disagree |
| BusRouting.Init | bus/bus.cpp:493-685 | accepts exactly the configurations with at least one cluster, each with address and id and no id twice, sound server sections, and no server twice, and builds both tables |
| BusRouting.ValidMeans | bus/bus.cpp:493-595 | the accepted configurations, cluster by cluster and server by server |
| BusRouting.BuildServers | bus/bus.cpp:597-683 | the server table has exactly the configured servers, each with its cluster and group |
| BusRouting.BuildConsistent | bus/bus.cpp:597-683 | a group's list holds exactly its servers, each once |
| BusRouting.SelectedIs | bus/bus.cpp:1422-1489 | what each send type selects: one server, one member, or all members, with or without the sender, never one twice |
| BusRouting.RandomReaches | bus/bus.cpp:1422-1462 | the random modes can draw every member, each by its own remainder of the random number |
| BusRouting.HandOnAccounts | bus/bus.cpp:1490-1550 | the delivery loop queues, links or loses each copy, and links only to other clusters |
| BusRouting.HandOnExactly | bus/bus.cpp:1490-1550 | the loop goes on up to the first destination that stops it: every copy before that is queued, linked or lost as its way says, nothing is sent after it, and the result is -1 |
| BusRouting.NothingLost | bus/bus.cpp:1490-1550 | with room in the queues and links up nothing is lost |
| BusRouting.Bus.ForwardMsg | bus/bus.cpp:1332-1551 | the copies a packet turns into at its bus, up to the first failure |
| BusRouting.Bus.ProcessPkg | bus/bus.cpp:1194-1329 | a copy off a link is queued here or dropped, never passed on |
| BusRouting.AtMostOnce | bus/bus.cpp:1217-1550 | over every run of all buses each selected server has a packet at most once, no other server has it, the modes without the sender never reach it, and no copy crosses more than one link |
| BusRouting.AccountedOnce | bus/bus.cpp:1217-1550 | over every run each copy of a packet is in its server's queue, on a link or lost, and in one of these once |
| BusRouting.ExactlyOnce | bus/bus.cpp:1217-1550 | while links are up and queues have room, once nothing is on a link, every member of the group has the packet exactly once (without the sender where the mode says so), or exactly one member in the random modes, or the server named, and nobody else has it |
| Amf3Values.U29RoundTrip | mmlib/amf/amf3serializer.cpp:691-736 | reading a written integer below 2^29 gives it back and touches nothing behind it |
| Amf3Wire.U29Octets | mmlib/amf/amf3serializer.cpp:712-736 | the octets of an integer: base 128 with the high bit on all but the last, and eight bits in a fourth |
| Amf3Children.FilterPut | mmlib/amf/variant.cpp:677-694 | putting a child back where it was taken out restores the sorted map |
| Amf3Children.IndexKeyInjective | mmlib/amf/variant.cpp:706-710 | different array indices have different keys |
| Amf3Children.DecimalIs | mmlib/amf/variant.cpp:706-710 | an index key has the index in decimal digits without a leading zero |
| Amf3Codec.StringRoundTrip | mmlib/amf/amf3serializer.cpp:275-318 | strings come back, and only non-empty ones enter the reference table |
| Amf3Codec.ArrayRoundTrip | mmlib/amf/amf3serializer.cpp:374-468 | arrays come back with their associative and dense parts in place |
| Amf3Codec.ObjectRoundTrip | mmlib/amf/amf3serializer.cpp:470-629 | objects come back, empty ones as null |
| Amf3Codec.RoundTrip | mmlib/amf/amf3serializer.cpp:58-181 | every plain value, followed by anything, comes back normalised with the suffix untouched, whatever the tables hold |
| Amf3Codec.EndKeyCuts | mmlib/amf/amf3serializer.cpp:577-593 | an object with a key that is empty or starts with a NUL comes back as null with bytes left over |
| Amf3Codec.EndKeyCutsArray | mmlib/amf/amf3serializer.cpp:374-421 | an array with such a key never comes back; without elements it comes back empty with bytes left over |
| Amf3Codec.ComesBackExactly | mmlib/amf/amf3serializer.cpp:374-629 | an array or object of plain values comes back if and only if no key of it is empty or starts with a NUL |
| Amf3Codec.ByteArrayOrString | mmlib/amf/amf3serializer.cpp:642-675 | what is read is a byte array if it is there itself, and a string if it is a reference |
| Amf3Codec.ByteArrayAgain | mmlib/amf/amf3serializer.cpp:642-675 | a byte array read once and then by reference: the same octets, as a string |
| Amf3Wire.KnownOctets | mmlib/amf/amf3serializer.cpp:122-181 | the octets of simple values |
| Amf3Wire.StringAgain | mmlib/amf/amf3serializer.cpp:275-305 | a string that was read, read again by its reference at any later time |
| Amf3Wire.IthString | mmlib/amf/amf3serializer.cpp:275-305 | behind a message of any strings reference i is the i-th that is not empty |
| Amf3Wire.ByteArrayReference | mmlib/amf/amf3serializer.cpp:651-672 | reference i gives the i-th octets of the byte arrays, as a string |
| Amf3Wire.ObjectEntered | mmlib/amf/amf3serializer.cpp:491-522 | an object enters the table at the place that was free when it began |
| Amf3Wire.ArrayEntered | mmlib/amf/amf3serializer.cpp:414-421 | an array enters the table when it is complete, behind what its members entered |
| Amf3Wire.ObjectAgain | mmlib/amf/amf3serializer.cpp:491-498 | an object that was read, read again by its reference at any later time |
| Amf3Wire.ArrayAgain | mmlib/amf/amf3serializer.cpp:384-388 | an array that was read, read again by its reference at any later time |
| Amf3Wire.TraitsRoundTrip | mmlib/amf/amf3serializer.cpp:529-553 | traits given with an object are read name by name and entered |
| Amf3Wire.SealedObject | mmlib/amf/amf3serializer.cpp:529-597 | an object of a class with sealed members: each name gets its value, and its traits are entered |
| Amf3Wire.SealedAgain | mmlib/amf/amf3serializer.cpp:526-567 | an object whose traits are an earlier one's by reference: the same names get its values |
| Amf3Received.ArrayReceived | mmlib/amf/amf3serializer.cpp:374-421 | an array as any encoder sends it, with names in any order and then elements: each name has its value and each index its element, normalised |
| Amf3Received.ObjectReceived | mmlib/amf/amf3serializer.cpp:470-597 | an object without a class as any encoder sends it, with names in any order: each has its value |
| Amf3Wire.MembersAre | mmlib/amf/variant.cpp:677-694 | members that were put under different names are found under them |
| Amf3Wire.ObjectInto | mmlib/amf/amf3serializer.cpp:577-597 | an object read where there already is one: its members go behind those |
| Amf3Wire.KeyTwice | mmlib/amf/amf3serializer.cpp:577-593 | the same key twice, with an object each time: it holds the members of both |
| Amf3Serializer.WriteU29 | mmlib/amf/amf3serializer.cpp:712-736 | appends the encoding, or nothing above 2^29 - 1 |
| Amf3Serializer.Write | mmlib/amf/amf3serializer.cpp:119-181 | appends the encoding of the value, or fails with the buffer only extended |
| Amf3Serializer.WriteArray | mmlib/amf/amf3serializer.cpp:423-468 | keys and values without the elements, then the elements |
| Amf3Serializer.WriteObject | mmlib/amf/amf3serializer.cpp:599-629 | a dynamic object without sealed members |
| Amf3Serializer.AMF3Serializer.ReadU29 | mmlib/amf/amf3serializer.cpp:691-710 | the loop reads at most four octets, seven bits each and eight from the last |
| Amf3Serializer.AMF3Serializer.ReadByteArray | mmlib/amf/amf3serializer.cpp:642-675 | new byte arrays enter the table; a reference gives a string |
| Amf3Serializer.AMF3Serializer.Read | mmlib/amf/amf3serializer.cpp:58-117 | dispatch on the type byte, over the mutable buffer and tables |
| Amf3Serializer.AMF3Serializer.ReadArray | mmlib/amf/amf3serializer.cpp:374-421 | the associative part up to the empty key, then the dense part |
| Amf3Serializer.AMF3Serializer.ReadObject | mmlib/amf/amf3serializer.cpp:470-597 | references, traits, sealed and dynamic members |
| Amf3Serializer.WriteThenRead | mmlib/amf/amf3serializer.cpp:58-181 | the round trip on the buffer itself |

## Left out

- QuickLZ levels 2 and 3, the streaming buffer and the memory-safe checks: not selected by the configuration.
- Decompression of data that no compressor produced: the build has no checks for it.
- The padding of compressed packets shorter than 9 bytes is not specified beyond its length.
- QlzRepeats.BlocksCompress: no size for blocks some of whose pieces share buckets or are equal, where the matches found depend on both.
- ShmQueue.ShmQueue.InQueue: excludes lengths from 2^32 - 4 on, where the record size wraps (ShmRing.NodeSizeExact).
- ShmQueue.ShmQueue.MsgPeek: what malloc answers is a parameter.
- ShmProtocol.ReceivedInOrder: holds for sequentially consistent interleavings; compiler and processor reordering of the unfenced accesses is not modelled.
- Shared memory attach, semaphores, file locks and the queue's Init: system calls.
- TimerPool.TimerPool.DelTimer: excludes offsets inside the arena that are not those of a node.
- TimerPool.TimerPool.AddTimer: intervals that are not whole ticks, and the catching-up loop of GetTimer with a late clock.
- TimerWheel.Deadline: exact deadlines for timers that start in TB4 or TB5; they are bounded by 257 and 16641 ticks.
- TimerPool.TimerPool.GetTimerInternal: the corrections of pointers out of range, which cannot be.
- The hash table's InsertWithRet and Process: combinations of the modelled operations.
- HashList.HashList.Hash: negative keys of a signed key type, whose remainder is no bucket, are not covered.
- HashList.HashList.Verify: chains that run in a circle, or lead to the place just past the nodes, which the code reads.
- The callback of HashList.HashList.ProcessAll is a test that says whether to remove the current entry.
- BlockChains.MemPool.InitWithHandle: excludes handles in range that belong to no map, which the code does not detect.
- A block's key and data arrays are one sequence of pairs, as long as its counter says.
- ConnInfo.ConnInfo.ProcessPkg: the packets' own handlers are an arbitrary function of a state and the packet.
- The order in which the connection scan visits connections, and the order of hash buckets in a sync reply.
- ConnAgreement.AgreeExactly: assumes synchronised clocks (what a server sends about a user is later than what was sent before, and not earlier than its own entry), as the code does, room for all users, and that the user is not swept; ConnAgreement.HeldExactly needs the clocks only.
- ConnMerge.OrderIrrelevant: equal timestamps for one user, and a full directory.
- ConnServer.ConnServer.LoginRsp: the answer to the client, which is protobuf.
- BusRouting.Init: the process's own section of the configuration, and what the system calls answer.
- BusRouting.Bus.ForwardMsg: state-change packets, and the length checks on malformed packets.
- The byte encoding of the bus header, heartbeats, cluster connections and the order of packets on a link.
- AMF3 dates, typed maps and externalizable objects; reading past a reference table is undefined in the code and fails here.
- Amf3Wire.SealedObject: plain values and different names; with dynamic members as well, the reader is Amf3Codec's alone.
- Amf3Codec.ComesBackExactly: the same for keys deeper in a value, where the bytes left over are read as something else.
- Protobuf, SQL, AMF0, JSON, the mmap queue, the TCP client, auth and user servers, MD5 and base64.
