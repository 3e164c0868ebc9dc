# A verified model of tellydb

tellydb is an in-memory key-value server. This project models the hand-written parts of it that
carry the risk, and proves what they are for:

* the bounded lock-free queue, as a step system over any number of threads (`ThreadQueue`,
  `QueueRuns`), and the signal-and-spin hand-over to the transaction thread built on it
  (`TransactionThread`) with its progress (`HandOver`);
* the open-addressing hash table with backward-shift deletion (`Probing`, `HashTables`);
* the database file: the codecs (`StringCodec`, `IntegerCodec`, `ValueCodec`) and their bytes
  (`FileLayout`), the encoder
  (`Generator`) and the estimate its buffer is sized by (`SizeEstimate`), the chunked writer and
  reader (`BlockWriters`, `BlockReaders`), saving and loading (`Saver`, `Loader`) and their
  composition (`Persistence`);
* the serialization protocol: parser and printer over a whole stream (`Resp`), the grammar the
  parser accepts (`RespGrammar`), the parser over a buffer that grows and moves while a socket
  delivers the stream piece by piece (`Deliveries`, `RespReader`), the reply printers
  (`RespWriter`);
* transactions: ownership of blocks, reference counts of query buffers, and the order in which
  commands run (`Transactions`, `TransactionServer`), up to a ledger of what becomes of every
  command each client submits (`Ledgers`);
* decimal numbers, the arena and the linked list (`Number`, `Arenas`, `LinkedLists`).

Code that changes memory step by step is a class or a method proved against a function of its
inputs or of the old state; the concurrent protocols are step systems whose invariants are proved
for every run. The methods of `TransactionServer` are stated twice: by the step they make, whose
meaning over runs `Transactions` and `Ledgers` prove, and by what they do to the fields.
`dafny verify dfyconfig.toml` checks the whole project.

## What the model assumes

Memory is sequentially consistent, 64-bit counters do not wrap, allocation succeeds, and `malloc`
returns regions that do not overlap. The hash function is an arbitrary function, and key comparison
is equality and false on NULL. Every byte of a value copied in or out of the queue is a step of its
own, so the theorems exclude torn values. A read from a file delivers as much of a block as the file
still holds. Whether assertions are compiled in is a parameter of loading. A command run for a client
that has gone answers nothing.

## Where the code does less than it seems to promise

* A queue of capacity 1 is accepted by creation, but loses values of every width:
  `QueueRuns.CapacityOneOverwrites`. `QueueRuns.CapacityExact` shows that of the capacities creation
  accepts exactly those from 2 on keep every run within the capacity; all other theorems about the
  queue are about those.
* Removing the last node of a list of two or more leaves the new last node pointing at the freed
  one, until something is inserted at the back (`src/utils/linkedlist.c:90-107`); removing the first
  does the same at the other end. The encoder walks a list by these links and does not count
  (`src/database/file/generate.c:174-186`), so after two RPUSH and an RPOP a save runs on into freed
  memory. `Generator.GenerateItems` writes the items if and only if the outward link is NULL,
  `Generator.PushPushPopGenerate` is the instance, and `Persistence.SaveThenLoad` fails if a
  saved list is in that state. LINDEX has the same defect for an index past the end:
  `LinkedList.GetFromIndex` finds NULL there if and only if the outward link is NULL, and
  `LinkedLists.PopThenIndex` shows the failure in both directions. Reading a freed node is
  undefined; the model stops there and says so in its result.
* A database header that does not fit into what is left of the block is written past the block's
  end; `Saver.HeaderOverruns` is an instance. `Saver.SaveData` comes to its end if and only if every
  header fits, every list ends and the buffer for pairs is large enough.
* Loading asserts that every read after the first delivers a whole block
  (`src/database/read/bytes.c:20`, `:25`), but a file is cut to the length of its stream
  (`src/database/file/file.c:307`), so the last block never is whole. With assertions compiled in,
  `Loader.ReadFile` and so `Persistence.SaveThenLoad` succeed if and only if the whole file is
  shorter than a block; `Persistence.LongStringAborts` is the instance of one long string. With
  assertions compiled out they succeed for every size.
* The buffer that pairs are encoded into is sized by an estimate that counts one byte too few for
  strings of length 0, 64 to 255, 2^14 to 2^16 - 1 and 2^22 to 2^24 - 1
  (`src/database/file/size.c:38-43`). `SizeEstimate.PairTakes` gives the exact difference for every
  pair, `SizeEstimate.HundredBytesOverrun` an overrun of the buffer, and `Saver.SaveData` comes to
  its end only if the buffer is large enough.
* The array that growing a hash table allocates is not cleared (`src/utils/hashtable.c:34-51`),
  unlike that of `create_hashtable`. `HashTable.Grow` takes what the memory holds and yields a right
  table if and only if every slot is free; `HashTables.GarbageGrows` is the instance.
* The replies of an EXECed block are sent through its client's pointer, which is NULL if the client
  has gone (`src/transactions/transactions.c:228`, `:266-274`). A round of the transaction thread
  comes to its end if and only if the block is direct or its client is still there
  (`Server.ServeBlock`); `Server.MultiExecClose` crashes the server with MULTI, EXEC and closing.
* The last block of a save is not written when it is exactly full. `Saver.SavedIsStream` says
  exactly when the file still holds the stream, `Saver.FullBlockLost` that a new file does not.
* Strings of 2^30 bytes or more do not survive the length specifier; `StringCodec.LengthInverse` is
  an if and only if. For integers `docs/SPECS.md:60` names -2^1024-1 as the lower bound;
  `IntegerCodec.DecodedIsEncodable` shows that nothing of magnitude 2^1024 or more can come back.
* A socket read that delivers fewer bytes than asked for, but not none, is taken for a full one.
  `RespReader.Client.TakeBytes` gets the stream's bytes if and only if the missing ones are buffered
  or lie in the next delivery. The parser gives the stream's result if no delivery ends inside a
  string or the line end behind it, and it has the stream right afterwards if and only if that is
  so. `RespReader.SplitPing` is a split at which it refuses a well-formed string.
* The words of a parsed command are pointers into the read buffer. A later request of the same
  client that needs more room reallocates the buffer (`src/resp/take.h:19-25`) although queued
  commands still point into it. `RespReader.Client.GetPipeline` shows that a command's words are
  still in place if and only if the requests parsed after it end within the array it was parsed in.
* Lengths and counts are taken modulo 2^32: `RespGrammar.WideNumber` is a length of 2^32 + 2 that
  is accepted as 2, and `RespGrammar.NumberIff` says exactly what is accepted.
* A range larger than an arena's region is given out although it passes the region's end;
  `Arenas.Arena.AllocAligned` says exactly when a range is inside. The first range of a new region
  is aligned only if the region is.
* `docs/FILE.md:56-57` reads the specifier 0b11010000 of an integer as 80 bytes; the code stores the
  byte count less one (`src/database/file/generate.c:36-66`), so it means 81. The model follows the
  code.
* `docs/FILE.md` gives null values as `data key + 0x1D + TELLY_NULL`; the code writes nothing for a
  null at top level and only the type byte for one in a list. The model follows the code.

## Model

| member | source | states |
|---|---|---|
| ThreadQueue.Create | src/utils/tqueue.c:8-51 | creation refuses exactly the capacities that are not powers of two and the alignments above a pointer's size that are not, and the loop of four and its remainder together initialise every slot |
| ThreadQueue.IndexIsMod | src/utils/tqueue.c:83-87 | for a power of two, masking a ticket with capacity - 1 is its remainder by the capacity |
| ThreadQueue.StepInv | src/utils/tqueue.c:76-144 | every atomic step of push, pop and the size estimate, by any thread, with stale locals and spurious compare-and-swap failures, keeps the global invariant linking both indices, all sequence numbers, all slots and all tickets in flight |
| ThreadQueue.RunInv | src/utils/tqueue.c:76-144 | the invariant holds in every state of every interleaving of any number of threads |
| ThreadQueue.RunExtends | src/utils/tqueue.c:76-144 | along a run indices and sequence numbers never fall, and no pushed, published or popped ticket is ever changed or taken back |
| ThreadQueue.Fifo | src/utils/tqueue.c:76-144 | the value popped under ticket t is the value pushed under ticket t, and at <= end <= at + capacity |
| ThreadQueue.EveryTicketOnce | src/utils/tqueue.c:76-144 | no ticket is lost or duplicated: it is with the one thread pushing it, whole in its slot, with the one thread popping it, or popped |
| ThreadQueue.CopiesAreExclusive | src/utils/tqueue.c:104-107 | no two threads are between winning a ticket and storing the sequence number of the same slot, so no two copies touch one slot |
| ThreadQueue.PushFailsOnlyWhenFull | src/utils/tqueue.c:86-99 | push gives up exactly when its local index is the real end and the ticket one capacity earlier is unreleased: the queue is full or that value is being copied out |
| ThreadQueue.PopFailsOnlyWhenUnpublished | src/utils/tqueue.c:121-138 | pop gives up exactly when its local index is the real at and that ticket is unpublished: nothing is queued or that value is being copied in |
| ThreadQueue.FailureIsTruthful | src/utils/tqueue.c:76-144 | whatever the step and wherever its thread was, push comes to report failure only when the next ticket's slot is unreleased, and pop only when the next ticket is unpublished, both with the local index at its real value |
| ThreadQueue.StepRefinesQueue | src/utils/tqueue.c:76-144 | every step is a step of a bounded FIFO queue: a winning push appends its value, a winning pop takes the head, all other steps change nothing |
| ThreadQueue.PopReturnsItsTicket | src/utils/tqueue.c:125-131 | a pop that succeeds releases its ticket for the first and only time and returns the whole value it was pushed with |
| ThreadQueue.EstimateBounds | src/utils/tqueue.c:69-74 | the estimate is the true size at its second load plus the pops won since its first, so it never underflows |
| ThreadQueue.EstimateLoads | src/utils/tqueue.c:69-74 | the estimate's first load is the real at |
| QueueRuns.CapacityOneOverwrites | src/utils/tqueue.c:8-12 | creation accepts capacity 1, where two pushes in a row succeed and the second overwrites the first value, for values of any width |
| QueueRuns.CapacityExact | src/utils/tqueue.c:8-12 | of the powers of two, exactly those from 2 on keep at <= end <= at + capacity in every run |
| QueueRuns.AloneFinishes | src/utils/tqueue.c:76-144 | from every reachable state a push or pop in progress that runs alone returns within width + 5 steps, whatever stale index it holds, with the outcome the state decides |
| QueueRuns.PopReturns | src/utils/tqueue.c:112-144 | from every reachable state a pop that an idle thread starts and runs alone returns the next ticket and the value pushed under it if that is published, and fails if not |
| QueueRuns.PushReturns | src/utils/tqueue.c:76-110 | from every reachable state a push that an idle thread starts and runs alone puts its value, published, under the next ticket if the slot is released, and fails if not |
| QueueRuns.SizeReturns | src/utils/tqueue.c:69-74 | an estimate that runs alone is exact |
| TransactionThread.StepInv | src/transactions/thread.c:79-102 | every step of producers and of the consume, spin, execute loop keeps the link between tickets, signals and the loop's counter |
| TransactionThread.Accounting | src/transactions/transactions.c:15-22 | in every reachable state finished pops + signals not yet used + published blocks not yet signalled = published blocks |
| TransactionThread.NeverSpinsOnEmpty | src/transactions/thread.c:86-96 | while the transaction thread holds a signal it has won no ticket for, at < end |
| TransactionThread.SpinsOnlyOnPushInFlight | src/transactions/thread.c:94-95 | a spin comes back empty-handed only because another thread is in the middle of pushing that very ticket |
| TransactionThread.ExecutesInPushOrder | src/transactions/thread.c:86-101 | the blocks executed are exactly the first ones pushed, in ticket order |
| HandOver.CanGoOn | src/transactions/thread.c:79-102 | in every reachable state with a signal pending or the loop not waiting, the transaction thread has a step to take that starts no new push |
| HandOver.ProducersGoOn | src/transactions/transactions.c:47-52 | every other thread can start a push, go on with it, or signal it |
| HandOver.SignalsItsBlock | src/transactions/transactions.c:15-22 | a signal is for the block its thread has pushed, once |
| HandOver.ExecutesNext | src/transactions/thread.c:79-102 | left alone with a block signalled but not executed, and no copy in flight elsewhere, the transaction thread executes exactly one more block, the next one pushed |
| HandOver.ExecutesAll | src/transactions/thread.c:79-102 | left alone, it executes every block signalled |
| HandOver.BlockIsExecuted | src/transactions/thread.c:79-102 | a block that a client thread pushes into an idle server with room is pushed, signalled and executed |
| Probing.PlaceFree | src/utils/hashtable.c:71-83 | writing an absent key into the free slot its probe ends in adds just that binding and leaves no hole on any probe path |
| Probing.MissAtFree | src/utils/hashtable.c:152-158 | a probe that reaches a free slot proves the key absent |
| Probing.IntervalTest | src/utils/hashtable.c:114-119 | the wrap-around interval test holds exactly when the hole is off the entry's probe path, on both sides of the wrap |
| Probing.MoveBack | src/utils/hashtable.c:122-125 | moving an entry into the hole keeps the contents, leaves one hole behind, and lowers the total distance of entries from their homes |
| Probing.ScanEnds | src/utils/hashtable.c:105-110 | a free slot after the scanned ones, or the hole met again in a full table, restores the probe invariant everywhere |
| HashTables.HashTable.Grow | src/utils/hashtable.c:27-59 | growth happens exactly at three quarters and doubles the capacity; the result is a valid table with exactly the same bindings and a free slot if and only if every slot of the new memory was free |
| HashTables.GarbageGrows | src/utils/hashtable.c:34-51 | one slot of the new memory that is not free spoils the table |
| HashTables.HashTable.Insert | src/utils/hashtable.c:61-84 | insert-if-absent on a map: a present key is left unchanged, an absent one added, and the slot returned holds the key's binding; the probe always finds a free slot |
| HashTables.HashTable.Find | src/utils/hashtable.c:131-161 | the probe terminates in every table, full ones included, and finds a key exactly if the map has it, with its value |
| HashTables.HashTable.Get | src/utils/hashtable.c:147-161 | lookup agrees with the map |
| HashTables.HashTable.Exists | src/utils/hashtable.c:131-145 | membership agrees with the map |
| HashTables.HashTable.Delete | src/utils/hashtable.c:86-129 | deletion refines map removal: it reports whether the key was there, removes it and keeps every other binding and the probe invariant |
| HashTables.HashTable.ShiftBack | src/utils/hashtable.c:98-126 | the shifting loop terminates in every table, completely full ones included, because each move lowers the total distance from home |
| HashTables.HashTable.Foreach | src/utils/hashtable.c:163-168 | the walk visits the entries in slot order |
| Probing.ListedOnce | src/utils/hashtable.c:163-168 | a walk visits each key of the table exactly once, with its value |
| Probing.ListedAt | src/utils/hashtable.c:163-168 | a walk visits an entry right after those of the slots before it |
| Probing.ListedRebuilds | src/database/read/read.c:226-241 | inserting what a walk lists, one by one, rebuilds the same contents |
| StringCodec.LengthInverse | src/database/file/generate.c:194-215 | of all 32-bit lengths, exactly those below 2^30 are read back from their specifier |
| StringCodec.StringInverse | src/database/read/types.c:4-21 | an encoded string is read back, with what follows it untouched |
| StringCodec.GenerateString | src/database/file/generate.c:194-215 | the encoder appends exactly the encoding and returns its length |
| IntegerCodec.ByteCountIsLength | src/database/file/generate.c:40 | the byte count computed from the size in base 2 is the length in base 256, also for zero |
| IntegerCodec.PairsAreBytes | src/database/file/generate.c:44-64 | pairs of hexadecimal characters, with a leading zero for odd lengths, are the bytes of the base-256 form |
| IntegerCodec.GenerateInteger | src/database/file/generate.c:36-66 | the hex-pairing loop writes specifier and base-256 magnitude, for odd and even lengths and both signs |
| IntegerCodec.FoldBytes | src/database/read/types.c:37-46 | the shift-and-OR loop computes the base-256 value |
| IntegerCodec.IntegerInverse | src/database/read/types.c:23-54 | every integer of magnitude below 2^1024 is decoded from its encoding |
| IntegerCodec.EncodableBound | docs/SPECS.md:60 | the encodable integers are exactly those of magnitude below 2^1024 |
| IntegerCodec.DecodedIsEncodable | src/database/read/types.c:27-31 | no bytes decode to an integer outside that bound |
| ValueCodec.FieldsInverse | src/database/file/generate.c:117-130 | the fields of a hash table are read back in order up to the end mark |
| ValueCodec.ItemsInverse | src/database/read/read.c:144-177 | the encoding of any sequence of items, nulls included, is read back in order, with what follows it untouched |
| ValueCodec.PairInverse | src/database/file/generate.c:144-192 | an encoded key-value pair of any type is read back, with what follows it untouched |
| ValueCodec.DatabasesInverse | src/database/file/file.c:261-297 | parsing the stream of any list of databases gives back those databases in order and consumes every byte |
| FileLayout.PairBytes | docs/FILE.md:39-77 | the bytes of an integer, a string and both booleans under a key |
| FileLayout.ListBytes | docs/FILE.md:88-93 | the bytes of a list with a null and a boolean |
| FileLayout.TableBytes | docs/FILE.md:79-85 | the bytes of a hash table with one field and its end mark |
| FileLayout.DatabaseBytes | docs/FILE.md:35-37 | the bytes of an empty database |
| FileLayout.LongSpecifier | docs/FILE.md:13-24 | the documented length 147938 has the documented specifier |
| FileLayout.OneByteInteger | src/database/file/generate.c:36-66 | the two bytes of every number between -256 and 256 |
| FileLayout.TwoByteInteger | docs/FILE.md:51-59 | the sign bit and the byte order of a number of two bytes |
| Generator.GenerateItems | src/database/file/generate.c:167-186 | the walk by links writes exactly the encoding of the list's items if and only if the link that leaves the list is NULL |
| Generator.PushPushPopGenerate | src/commands/list/rpop.c:37-42 | after two pushes and a pop at the back the list cannot be written |
| Generator.GenerateValue | src/database/file/generate.c:144-192 | the encoder fills the buffer with exactly the encoding of the pair and returns its length, if and only if the pair's list, if any, ends in NULL |
| BlockWriters.BlockWriter.Dump | src/database/file/file.c:147-193 | after any dump, written blocks followed by the filled part of the block are the old stream followed by the pair's bytes |
| BlockWriters.BlockWriter.WriteBlocks | src/database/file/file.c:172-183 | the loop writes out whole blocks while more than a block is left, so the block is never left empty |
| BlockReaders.BlockReader.CollectBytes | src/database/read/bytes.c:4-31 | consecutive calls return consecutive slices of the stream, for any sizes, and keep the cursor strictly inside the block; an asserted read has come back short if and only if the cursor is in a block after the first that the file does not fill |
| Saver.SaveData | src/database/file/file.c:195-313 | saving comes to its end if and only if every database header fits its block, every list ends in NULL and the buffer for pairs is large enough; it then leaves the encoded stream in the file, except for a last block that is exactly full, where the file keeps what it held |
| Saver.HeaderOverruns | src/database/file/file.c:268-270 | a header that does not fit its block |
| Saver.HeaderLayout | src/database/file/generate.c:132-142 | the file header is 0x18, 0x10, the age in four bytes, and a zero |
| Saver.SavedHeader | src/database/file/file.c:195-313 | a saved file starts with that header, unless its only block is full and lost |
| SizeEstimate.StringTakes | src/database/file/size.c:38-43 | the estimate for a string is right, or one byte short for exactly the lengths 0, 64 to 255, 2^14 to 2^16 - 1 and 2^22 to 2^24 - 1 |
| SizeEstimate.PairTakes | src/database/file/size.c:75-82 | a pair takes one byte more than its estimate for every one of its strings of such a length |
| SizeEstimate.MeasurePair | src/database/file/size.c:14-73 | the walk over a value computes that estimate, if and only if its list ends in NULL |
| SizeEstimate.SufficesWithoutShort | src/database/file/file.c:272-287 | the buffer suffices if no string has such a length; for a single pair, only then |
| SizeEstimate.HundredBytesOverrun | src/database/file/size.c:38-43 | a single value of 100 bytes overruns its buffer |
| Saver.SavedIsStream | src/database/file/file.c:299-311 | the file holds the stream if and only if the last block is not full or equals what was there before |
| Saver.FullBlockLost | src/database/file/file.c:299-305 | a new file loses a full last block that does not end in a zero byte |
| Loader.CollectString | src/database/read/types.c:4-21 | reads exactly what the parser reads and reports exactly the bytes consumed |
| Loader.CollectInteger | src/database/read/types.c:23-54 | reads exactly what the parser reads and reports exactly the bytes consumed |
| Loader.CollectItems | src/database/read/read.c:144-177 | the list loop follows the parser; its count and the type bytes counted with the header add up to the bytes consumed |
| Loader.CollectFields | src/database/read/read.c:97-142 | the field loop builds the table insertion would, its byte count is exact, and a table reloaded at its saved capacity never grows |
| Loader.CollectPair | src/database/read/read.c:68-185 | the pair loaded is the one parsed and the byte count is exact |
| Loader.CollectDatabase | src/database/read/read.c:204-243 | the database loaded is the one parsed, with an exact byte count and number of pairs |
| Loader.InitialCapacityIs | src/database/read/read.c:216-218 | the table of a database is loaded with the initial size of 1024 or the first power of two above its count |
| Loader.ReadFile | src/database/read/read.c:265-301 | the loop stops exactly at the end of the file, having read every database, and counts every pair; with assertions compiled in, it gets there if and only if the file is shorter than a block |
| Persistence.LoadedValue | src/database/read/read.c:13-19 | a value comes back with the same meaning: list order, table bindings and table capacity |
| Persistence.LoadData | src/database/file/file.c:36-66 | a file is opened exactly if its magic number is right and, with assertions compiled in, it is shorter than a block; then its age is read and all its databases are loaded |
| Persistence.SaveThenLoad | src/database/file/file.c:195-313 | saving then loading is the identity on the server age, names, their order, key-to-value maps, list order and the number of pairs, whenever the stream itself was saved; it succeeds if and only if every header fits, every list ends in NULL, the buffer for pairs suffices and, with assertions compiled in, the stream is shorter than a block |
| Persistence.LongStringAborts | src/database/read/bytes.c:18-26 | with assertions compiled in, a file with a string of a block or more cannot be loaded |
| Resp.BulkInverse | src/resp/utils.c:179-189 | a printed bulk string parses to that string and every byte of it is consumed |
| Resp.CommandInverse | src/resp/resp.c:71-126 | a printed array of at least one word parses to that command |
| Resp.PipelineInverse | src/resp/data.c:12-40 | k commands, each behind any number of line ends, parse to those k commands in order and consume every byte |
| RespReader.Client.TakeBytes | src/resp/take.h:6-40 | the bytes taken and the rest are the stream's if and only if the missing bytes are buffered or lie in the next delivery; a short read counts as a full one; the buffer moves exactly when it is too small |
| Deliveries.SuppliedIff | src/server/utils.c:69-97 | several bytes are supplied at once if and only if the stream holds them and no delivery ends inside them |
| Deliveries.DeliveredInOne | src/server/utils.c:69-97 | a request the stream decides comes whole when what is not buffered is delivered in one piece |
| RespReader.Client.TakeNumber | src/resp/resp.c:78-91 | the digit loop accepts exactly what the parser accepts of the whole stream, however that is delivered |
| RespReader.Client.TakeBulk | src/resp/resp.c:42-69 | slice, verdict and position are the stream's if the string and its line end come whole, and the stream is right afterwards if and only if they do; a string split in two is refused unless the second part starts with a line end |
| RespReader.SplitPing | src/resp/take.h:28-39 | a well-formed string split between two deliveries that the parser refuses |
| RespReader.Client.ParseRespCommand | src/resp/resp.c:71-126 | whenever every string comes whole, verdict, slices and position are those of the whole stream, complete or not, and the words point into the buffer where it is at the end |
| RespReader.Client.GetCommandData | src/resp/data.c:12-40 | skipping line ends and dispatching follow the parser of the whole stream whenever every string comes whole |
| RespReader.Client.GetPipeline | src/server/read_command.c:61-64 | requests taken one after the other are those the whole stream holds, in order; the words of an earlier one are still where its pointers lead if and only if the later ones end within its array |
| RespReader.Client.SameForAnySplit | src/resp/take.h:6-40 | two connections with the same bytes, buffered and delivered differently but splitting no string, give the same verdict, words and position |
| RespGrammar.NumberIff | src/resp/resp.c:78-91 | a number is accepted if and only if digits and a line end stand there, and its value is that of the digits modulo 2^32 |
| RespGrammar.WideNumber | src/resp/resp.c:81-84 | 4294967298 is accepted as 2 |
| RespGrammar.CommandIff | src/resp/resp.c:71-126 | a command is accepted if and only if a count, not 0, and that many length-prefixed strings stand there |
| RespGrammar.RequestByFirst | src/resp/data.c:4-40 | behind any number of line ends an asterisk starts an array, a letter or digit an inline command, and any other byte is refused |
| RespGrammar.InlineIff | src/resp/data.c:4-40 | a request is inline if and only if a letter or a digit stands behind line ends |
| RespGrammar.PingBytes | src/resp/utils.c:179-189 | the bytes of a printed command |
| RespGrammar.SignBytes | src/utils/number.c:52-155 | the signs that are accepted and printed |
| RespWriter.CreateRespString | src/resp/utils.c:179-189 | the buffer holds exactly the printed bulk string |
| RespWriter.CreateRespInteger | src/resp/utils.c:26-32 | the buffer holds the printed integer; values from 2^63 on are printed as the negative numbers they convert to |
| RespWriter.Hkeys | src/commands/hashtable/hkeys.c:35-59 | the reply is the array of the table's keys in the order of the walk |
| RespWriter.HkeysReplyParses | src/commands/hashtable/hkeys.c:15-59 | the reply parses to an array with each key of the table exactly once and nothing else |
| RespWriter.EmptyReply | src/commands/hashtable/hkeys.c:43 | the reply for no table is the empty array, which as a command would be refused |
| Transactions.StepInv | src/transactions/transactions.c:24-124 | connecting, reading, submitting, taking, running, freeing and disconnecting keep ownership, reference counts, block contents and the log right |
| Transactions.OneOwner | src/transactions/transactions.c:32-124 | in every reachable state a block that exists has exactly one owner: one client, the queue, once, or the executor; nothing points to a freed block |
| Transactions.PointersAreLive | src/transactions/transactions.c:77-124 | every block a step is about to use or free is live; the transaction thread can always go on unless the server has crashed |
| Transactions.ThreadReady | src/transactions/transactions.c:227-281 | a block that has been run can be freed if and only if it is direct or its client was there when it was taken; otherwise the server has crashed |
| Transactions.RunKeeps | src/transactions/transactions.c:77-124 | along a run a freed block stays freed, and what was put into a block stays in it in order |
| Transactions.BlocksRunWhole | src/transactions/transactions.c:241-259 | the commands run are those of the finished blocks, each block's together and in submission order, then a prefix of the current block's; no block finishes twice |
| Transactions.DiscardedNeverRuns | src/commands/generic/discard.c:10-12 | once discarded a block is never executed, queued or waited on again |
| Transactions.CountsAreHolders | src/server/client.c:132-140 | in every reachable state a query buffer's reference count is its number of holders, and it is freed exactly when there are none |
| Ledgers.RunsItsSubmissions | src/transactions/transactions.c:32-75 | along every run, for every client: its ordinary submissions in order are the decided ones and those its open transaction has gathered; what has run for it is the first part of the kept ones, in submission order, all of them once nothing is queued or executed; likewise its MULTIs, EXECs and DISCARDs |
| Ledgers.StepBooks | src/commands/generic/exec.c:3-19 | every step keeps the ledgers, written from the actions by what MULTI, EXEC, DISCARD and closing mean, equal to what the blocks hold |
| Ledgers.SentAreSubmissions | src/transactions/transactions.c:32-75 | the ledgers note every submission of a client, in order, and no other |
| TransactionServer.Server.AddTransaction | src/transactions/transactions.c:32-75 | a waiting client's ordinary command is added at the end of its waiting block, anything else goes into a new direct block at the end of the queue; the client's buffer gets one reference more, and all else stays |
| TransactionServer.Server.RemoveTransactionBlock | src/transactions/transactions.c:77-124 | the loop drops one reference per transaction, freeing the buffers that reach zero, and frees the block |
| TransactionServer.Server.ExecuteTransactionBlock | src/transactions/transactions.c:227-281 | a direct block runs its one command, an EXECed one all its commands in the order they were put in, with nothing in between; its end is reached if and only if the block is direct or its client was there |
| TransactionServer.Server.ServeBlock | src/transactions/thread.c:86-101 | one round takes the first block of the queue, runs exactly its commands and, if and only if the block is direct or its client is still there, frees it |
| TransactionServer.Server.MultiExecClose | src/transactions/transactions.c:266-274 | MULTI, EXEC and closing the connection before the block is taken crash the server |
| TransactionServer.Server.RunMulti | src/commands/generic/multi.c:3-23 | opens an empty waiting block for the client exactly if it has none |
| TransactionServer.Server.RunExec | src/commands/generic/exec.c:3-19 | hands the waiting block to the queue exactly if there is room; otherwise the client keeps it |
| TransactionServer.Server.RunDiscard | src/commands/generic/discard.c:3-16 | frees the waiting block and replies with the number of its commands |
| TransactionServer.Server.RefreshBuffer | src/server/read_command.c:42-50 | afterwards the client is the only holder of its buffer and no transaction refers to it; a buffer still referred to is left to its transactions with one reference fewer |
| TransactionServer.Server.AddClient | src/server/client.c:76-122 | a new client has no waiting block and a buffer of its own |
| TransactionServer.Server.FreeClient | src/server/client.c:124-141 | a client that goes frees its waiting block, then its own buffer reference, and nothing else |
| Number.DigitCountExact | src/utils/number.c:157-164 | the estimate floor(bits * 308 / 1024) plus one comparison is the number of decimal digits of every 64-bit value |
| Number.Ltoa | src/utils/number.c:119-155 | prints the canonical decimal text and a NUL for every value above -2^63, and touches nothing else |
| Number.Atoull | src/utils/number.c:52-117 | succeeds exactly on an optional plus and at least one digit with value at most 2^64 - 1, with that value; refused digits are out of range |
| Number.UnsignedInvertsDecimal | src/utils/number.c:52-155 | parsing inverts printing on every non-negative 64-bit value |
| Arenas.Arena.AllocAligned | src/utils/arena.c:52-69 | a result is aligned unless it starts a new region that is not, and inside its region if and only if it is no larger than a region, and then disjoint from every range given out before |
| LinkedLists.LinkedList.InsertBack | src/utils/linkedlist.c:27-47 | appends to the sequence of the list, which then ends in NULL whatever was removed before |
| LinkedLists.LinkedList.InsertFront | src/utils/linkedlist.c:49-69 | prepends to the sequence of the list, which then begins with NULL before it |
| LinkedLists.LinkedList.RemoveFront | src/utils/linkedlist.c:71-88 | drops the first element; unless it was the only one, the new first node keeps its link to the freed one |
| LinkedLists.LinkedList.RemoveBack | src/utils/linkedlist.c:90-107 | drops the last element; unless it was the only one, the new last node keeps its link to the freed one |
| LinkedLists.LinkedList.GetFromIndex | src/utils/linkedlist.c:134-154 | the node at an index from either end; past the other end, NULL if and only if the link that leaves the list there is NULL, otherwise freed memory |
| LinkedLists.PopThenIndex | src/commands/list/lindex.c:30-54 | after two pushes and a pop at either end, every index past that end leads to freed memory |
| LinkedLists.LinkedList.FromBothEnds | src/utils/linkedlist.c:134-154 | index i from the front and size - 1 - i from the back are the same node |

## Left out

- `src/utils/hashset.c`: the same algorithm as the hash table with the element as its own key and hash; the theorems of `Probing` hold for that key type and hash function, so a second class would only repeat them.
- Sockets, event loops, TLS, file locking, logging and the command line: only the bytes a socket delivers, reads and writes of blocks, and a signal counter are modelled; no read or write reports an error.
- Doubles and the replies for arbitrary-precision numbers: they rest on the text conversions of a foreign library.
- HashTables.HashTable.Insert: takes the memory that growing allocates as all NULL.
- Persistence.LoadData: files with passwords are left out; streams start after the seven-byte header of a file without them, and no permission is ever missing.
- Null values at top level and in hash-table fields: the encoder drops the first and has no case for the second.
- Saver.SaveData: says nothing about the file when it does not come to its end, because what the code then does is undefined.
- Generator.GenerateItems: a freed node's memory is never given to a new node in the model.
- Loader.ReadFile: says nothing about files that do not parse, where the code may go on past the end of the file for ever.
- RespReader.Client.TakeBytes: positions and sizes are unbounded; the wrap-around of 32-bit positions at 2^31 is not modelled, that of declared lengths and counts at 2^32 is.
- RespReader.Client.ParseRespCommand: when a read finds nothing at all, only what `TakeBytes` says is stated: the call fails and the stream is unchanged.
- RespReader.Client.GetPipeline: takes a given number of requests; when the command loop stops or refills its buffer is not modelled.
- RespWriter.CreateRespInteger: the value 2^63 is excluded, because it converts to the smallest 64-bit value, which `Number.Ltoa` excludes.
- The inline command parser and the refill logic of the command loop: tied to one buffer shape.
- Transactions.StepInv: races between an I/O thread and the transaction thread inside one command, CLIENT KILL, and the count of processed transactions are not modelled.
- TransactionThread.Accounting: shutdown, where one extra signal is sent, is not modelled.
- Number.Ltoa: the smallest 64-bit value, whose negation overflows, is excluded.
- Permissions, expiry checks and autosave around a command, and the contents of the reply an EXECed block assembles, are not modelled.
- Expiry times, the remaining command handlers, `queue.c`, `vector.c`, the configuration parser and the client table's slot search.
