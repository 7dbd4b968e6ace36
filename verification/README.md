# Verified model of Mudis

Mudis is a Redis-like server written in Go. These Dafny modules model its five connected cores and
prove what they are for. All statements are about every input, every run or every reachable state
unless a line below says otherwise. `dafny verify dfyconfig.toml` checks everything.

- **Sharded dictionary** (`Capacity`, `ConcurrentDict`, `DictThreads`, `DictHistories`, `LostUpdates`). `ConcurrentDict` is the
  dictionary used by one goroutine. `DictThreads` is the same dictionary used by any number of
  goroutines, as a state machine whose steps are the lock, lookup, act, count and unlock actions of
  each call; the single-key operations are linearizable, and the atomic counter trails the shards by
  exactly the updates in flight. `DictHistories` says what each call answers in terms of the calls
  before it, without a map. `LostUpdates` says when commands made of two such operations, like
  INCR, lose an update.
- **Commands and data structures** (`Sequences`, `LinkedLists`, `HashSets`, `Commands`, `Database`,
  `ListCommands`, `SetCommands`, `KeyCommands`, `StringCommands`, `Executor`). `Commands` says what
  each registered command does to a keyspace of values, given what it draws at random. `Database` and
  the modules after it are the database as it is in memory: a sharded dictionary of entities, with
  linked lists and sets that commands change in place. `Executor.Exec` refines `Commands.ExecBy`
  command by command and shows that keys never share an object and lists are never empty.
  `StringLaws`, `ListLaws`, `SetLaws`, `KeyLaws`, `SetAlgebra`, `Effects` and `Undo` say what the
  commands achieve in other terms: what one answers before and after another, plain set algebra, bytes
  and sums, and exact restoration. `CommandTable` is the table they are registered in.
- **Persistence** (`Bytes`, `Reply`, `Parser`, `ParserLoop`, `RoundTrip`, `TextLines`, `LogCompleteness`,
  `Standalone`, `Selections`, `Aof`, `Recovery`, `Sessions`, `Server`). Printing and parsing RESP, framing with
  SELECT, and logging compose into one theorem: the file brings every database back exactly if every
  request is durable and every logged line can be read again. `Sessions` says when that survives a
  restart of the writer. `Server` is the server in memory, its databases and connections, loading, and
  a restart from the file. Where the code loses a change or a byte, the condition is stated exactly.
- **Patterns** (`Wildcard`, `Patterns`). The dynamic-programming matcher against splitting a string into
  segments, and what each kind of pattern matches.
- **Cluster and client** (`ConsistentHash`, `Cluster`, `ClusterNodes`, `Client`, `PeerConnections`). The
  hash ring, routing through printed and parsed messages (as a function, and on running members, each
  with a server in memory), the pipelined connection as a state machine, and such a connection between
  two members over its whole life.

The wire format is the Redis serialization protocol, version 2: its sections on simple strings,
errors, integers, bulk strings and arrays. Where the code differs from it the model follows the code:
a body line that starts with a dollar sign is taken for a length header, the line break after an empty
bulk is not consumed, and an empty bulk reply is printed without its line break.

The README of Mudis promises that all operations are thread-safe. For the dictionary that is proved
for the single-key operations; `Len` can be off by the updates in flight, as `CounterMatches` says.
For commands that read a key and then write it the promise is false: `TwoIncrementsMakeOne` is a run
that loses an update, and `LostUpdateIff` says exactly which runs do not.

Panics inside a command are recovered one level up and answered with the unknown-error reply; the
model has an explicit branch where a panic can happen (SETRANGE at a negative offset or at one past the
string and past 2^48, SRANDMEMBER with a negative count for which a slice of strings or of byte slices
would take more than 2^48 bytes, a negative selected database, too few arguments for a routed command)
and proves that no other index leaves its range.

## Model

| member | source | states |
|---|---|---|
| `DictThreads.Linearizable` | datastruct/dict/sync_dict_concurrenthashmap.go:82-185 | For every interleaving of any number of goroutines running Get, Put, PutIfAbsent, PutIfExists and Remove as separate lock, lookup, act, count, unlock and return steps: the operations, in the order in which they take effect, form a run of one sequential map with the same results; every returned call took effect exactly once between its call and its return and returned that result; and the shards hold exactly that map. |
| `DictHistories.AnswersTell` | datastruct/dict/sync_dict_concurrenthashmap.go:82-177 | For every interleaving, told from the calls alone: a Get answers the value of the last call before it that has bound its key (a Put, or a PutIfAbsent or PutIfExists that answered 1), unless a Remove that answered 1 has come since, and nothing if there is none; Put and PutIfAbsent answer 1 exactly if the key was not bound, PutIfExists and Remove exactly if it was; and the shard of each key holds what the calls have bound it to. |
| `DictHistories.HistoryTells` | datastruct/dict/sync_dict_concurrenthashmap.go:82-177 | The same about any history that is explained by a sequential map, and that map. |
| `DictThreads.WaitsIff` | datastruct/dict/sync_dict_concurrenthashmap.go:82-177 | In every reachable state a goroutine waits for a shard exactly while another one is inside a call on it and one of the two calls is not a Get. |
| `DictThreads.CounterMatches` | datastruct/dict/sync_dict_concurrenthashmap.go:179-185 | In every reachable state the counter is the number of entries in all shards short of the counter updates in flight, modulo 32-bit wrap-around; it is off by at most their number and exact when there is none. |
| `DictThreads.Exclusive` | datastruct/dict/sync_dict_concurrenthashmap.go:116-117 | Two goroutines between lock and unlock of the same shard are both readers. |
| `DictThreads.SomeoneCanGoOn` | datastruct/dict/sync_dict_concurrenthashmap.go:82-185 | No deadlock: in every reachable state with an open call some goroutine with an open call can take a step. |
| `DictThreads.StepInv` | datastruct/dict/sync_dict_concurrenthashmap.go:82-185 | Every step of every goroutine keeps: lock holders and lock state agree, what a lock holder looked up is still what its shard holds, each history is well formed, the shards hold the map of the effects so far, the counter relation. |
| `DictThreads.RunInv` | datastruct/dict/sync_dict_concurrenthashmap.go:82-185 | That invariant holds in every reachable state. |
| `DictThreads.ReturnExplained` | datastruct/dict/sync_dict_concurrenthashmap.go:82-185 | A return in a well-formed history has its own call and its one effect before it, with the same result and no other event of that goroutine between. |
| `DictThreads.ActStored` | datastruct/dict/sync_dict_concurrenthashmap.go:104-177 | Acting on one shard on the strength of the lookup is the operation on the whole map: contents, result and change of size. |
| `DictThreads.SizesAdd` | datastruct/dict/sync_dict_concurrenthashmap.go:11-15 | The sizes of the shards add up to the number of keys of the map they hold. |
| `DictThreads.PendingUpdate` | datastruct/dict/sync_dict_concurrenthashmap.go:179-185 | The sum of outstanding counter updates changes with one goroutine by exactly that goroutine's share. |
| `ConcurrentDict.ConcurrentDict.constructor` | datastruct/dict/sync_dict_concurrenthashmap.go:39-54 | For every parameter for which make does not panic, a new dictionary is empty and has as many shards as computeCapacity says, a power of two or not. |
| `ConcurrentDict.ConcurrentDict.Get` | datastruct/dict/sync_dict_concurrenthashmap.go:82-93 | Get finds exactly the stored value of the key. |
| `ConcurrentDict.ConcurrentDict.Len` | datastruct/dict/sync_dict_concurrenthashmap.go:96-101 | Len is the number of stored keys with 32-bit wrap-around, so the number itself below 2^31. |
| `ConcurrentDict.ConcurrentDict.Put` | datastruct/dict/sync_dict_concurrenthashmap.go:104-121 | Put binds the key, changes nothing else, and returns 1 exactly if the key is new; the counter follows. |
| `ConcurrentDict.ConcurrentDict.PutIfAbsent` | datastruct/dict/sync_dict_concurrenthashmap.go:124-140 | PutIfAbsent binds the key only if it is absent and returns how many keys it added. |
| `ConcurrentDict.ConcurrentDict.PutIfExists` | datastruct/dict/sync_dict_concurrenthashmap.go:143-158 | PutIfExists rebinds the key only if it is present and returns how many keys it changed. |
| `ConcurrentDict.ConcurrentDict.Remove` | datastruct/dict/sync_dict_concurrenthashmap.go:161-177 | Remove unbinds the key and returns 1 exactly if it was present; the counter follows. |
| `ConcurrentDict.ConcurrentDict.Keys` | datastruct/dict/sync_dict_concurrenthashmap.go:189-222 | Used by one goroutine, Keys lists every stored key exactly once if there are fewer than 2^31, whatever the order in which each shard is visited. Once the counter has wrapped to a number that is not negative, some key is missing, because a key appended is overwritten by the next one; a negative one makes the slice panic. |
| `ConcurrentDict.ConcurrentDict.ListShard` | datastruct/dict/sync_dict_concurrenthashmap.go:189-222 | The part of ForEach that visits one shard: the keys of the shards visited are in the slice, in the places that filling and extending give them. |
| `ConcurrentDict.ConcurrentDict.Clear` | datastruct/dict/sync_dict_concurrenthashmap.go:291-293 | Clear leaves an empty dictionary with as many shards as computeCapacity makes of the old number. |
| `ConcurrentDict.StoredReplace` | datastruct/dict/sync_dict_concurrenthashmap.go:104-177 | Replacing one shard changes the dictionary at the keys of that shard only. |
| `Capacity.CapacityIff` | datastruct/dict/sync_dict_concurrenthashmap.go:22-36 | For every 64-bit argument above 16, computeCapacity returns the least power of two at or above it exactly if the argument is at most 2^62 and, minus one, has no run of 32 zero bits below its leading bit. |
| `Capacity.CapacityIsLeast` | datastruct/dict/sync_dict_concurrenthashmap.go:22-36 | In particular it does for every argument up to 2^32 (16 being the minimum). |
| `Capacity.CapacityFails` | datastruct/dict/sync_dict_concurrenthashmap.go:22-36 | For 2^32 + 1 it does not. |
| `Capacity.CapacityIdempotentIff` | datastruct/dict/sync_dict_concurrenthashmap.go:22-36 | For every 64-bit argument, computing the capacity of a capacity changes nothing exactly if the argument is at most 16, or at most 2^62 and, minus one, without a run of 32 zero bits below its leading bit. Then Clear keeps the number of shards. |
| `Capacity.SizeRange` | datastruct/dict/sync_dict_concurrenthashmap.go:22-54 | A computed size is at least 16 or has overflowed, and sizes that make accepts lead to such sizes again. |
| `Capacity.ComputeCapacity` | datastruct/dict/sync_dict_concurrenthashmap.go:22-36 | The shift-and-or steps on a 64-bit integer compute the function that those statements are about. |
| `Capacity.SmearIs` | datastruct/dict/sync_dict_concurrenthashmap.go:26-31 | Five or-shifts set bit i exactly if one of the 32 bits from i up was set. |
| `Capacity.SpreadIsModulo` | datastruct/dict/sync_dict_concurrenthashmap.go:66-72 | For every table of at most 2^32 shards whose number is a power of two, masking a hash code is reduction modulo that number. |
| `ConcurrentDict.ShardIsRemainder` | datastruct/dict/sync_dict_concurrenthashmap.go:66-80 | On a table of a power of two of shards, up to 2^32, a key lives in the shard whose index is the remainder of its hash. |
| `Capacity.SpreadInside` | datastruct/dict/sync_dict_concurrenthashmap.go:66-72 | For every table size at all, masking with size minus one in 32 bits yields an index inside the table. |
| `Capacity.MaskIsModulo` | datastruct/dict/sync_dict_concurrenthashmap.go:66-72 | Masking with a power of two minus one is the remainder modulo that power. |
| `LostUpdates.LostUpdateIff` | database/string.go:195-309 | INCR, INCRBY, DECR and DECRBY read a key and then put it, by two calls of the dictionary. For every interleaving of any number of goroutines: if a key is written only by such commands and each puts more than it has read, the number in its shard never exceeds all that they have added, and equals it exactly if no write of the key falls between the reading and the writing of a command. |
| `LostUpdates.IncrementsIff` | database/string.go:195-218 | So after INCRs alone the number is how many of them there were exactly if none was interrupted. |
| `LostUpdates.NothingLost` | database/string.go:195-309 | Whatever the commands add, negative amounts included, nothing is lost if none was interrupted. |
| `LostUpdates.LostAt` | database/string.go:195-309 | What one interrupted command loses, no later command makes up for. |
| `LostUpdates.TwoIncrementsMakeOne` | database/string.go:195-218 | For every dictionary with at least two goroutines there is a run in which two INCRs of a new key leave 1. |
| `LinkedLists.LinkedList.Add` | datastruct/list/linked.go:17-33 | Add appends one value; both chains of links, first, last and size stay right. |
| `LinkedLists.LinkedList.Find` | datastruct/list/linked.go:36-48 | Walking from the nearer end reaches the node at the index. |
| `LinkedLists.LinkedList.Get` | datastruct/list/linked.go:51-58 | Get reads the value at the index. |
| `LinkedLists.LinkedList.Set` | datastruct/list/linked.go:61-69 | Set replaces the value at the index; an index equal to the size, which the range check lets through, sets the last value. |
| `LinkedLists.LinkedList.Insert` | datastruct/list/linked.go:72-97 | Insert puts the value before the index and keeps the order of the others. |
| `LinkedLists.LinkedList.RemoveNode` | datastruct/list/linked.go:100-115 | Unlinking a node cuts exactly its value out and keeps prev and next inverse to each other. |
| `LinkedLists.LinkedList.Remove` | datastruct/list/linked.go:118-128 | Remove returns and cuts out the value at the index. |
| `LinkedLists.LinkedList.RemoveLast` | datastruct/list/linked.go:131-141 | RemoveLast returns and cuts out the last value, or nothing on an empty list. |
| `LinkedLists.LinkedList.RemoveAllByVal` | datastruct/list/linked.go:144-159 | RemoveAllByVal deletes every match, keeps the rest in order, and returns the number of matches. |
| `LinkedLists.LinkedList.RemoveByVal` | datastruct/list/linked.go:162-180 | RemoveByVal deletes the first count matches for a positive count, all matches if there are fewer; counts of zero and below behave as the exit test makes them. |
| `LinkedLists.LinkedList.ReverseRemoveByVal` | datastruct/list/linked.go:183-201 | ReverseRemoveByVal does the same from the other end. |
| `LinkedLists.LinkedList.Range` | datastruct/list/linked.go:239-266 | Range returns the values from start up to stop. |
| `LinkedLists.LinkedList.Contains` | datastruct/list/linked.go:227-236 | Contains finds the value exactly if it occurs before any value whose comparison panics, panics exactly if such a value comes first, and otherwise says no. Two byte slices are such a pair. |
| `LinkedLists.LinkedList.Make` | datastruct/list/linked.go:268-274 | Make builds a list of its arguments in order. |
| `Sequences.DropFirstIs` | datastruct/list/linked.go:162-180 | Deleting the first n matches leaves nothing of them in a prefix that holds n matches (or all) and leaves the rest of the sequence as it is. |
| `Sequences.DropLastIs` | datastruct/list/linked.go:183-201 | Deleting the last n matches, likewise from the end. |
| `Sequences.WithoutHasNone` | datastruct/list/linked.go:144-159 | Deleting all matches leaves no match and every other value in its number. |
| `Wildcard.IsMatch` | lib/wildcard/wildcard.go:104-131 | The table filled row by row says true exactly if the string splits into consecutive segments, one per item: any segment for a star, one accepted byte for every other item. |
| `Wildcard.MatchesIff` | lib/wildcard/wildcard.go:104-131 | Recursive matching, by which the table is filled, and the existence of such a split are the same, for all item lists and strings. |
| `Wildcard.Contains` | lib/wildcard/wildcard.go:18-43 | Set, range and negated set accept the bytes they mean; the scan for minimum and maximum does not depend on the order of the map. |
| `Wildcard.CompilePattern` | lib/wildcard/wildcard.go:51-101 | The compiler loop over the decoded runes of the source computes the function that the next statements are about. |
| `Wildcard.CompileConcat` | lib/wildcard/wildcard.go:51-101 | Compiling a concatenation is concatenating compilations if the first part ends outside an escape and a set. |
| `Patterns.PatternMeans` | lib/wildcard/wildcard.go:51-131 | A pattern written from parts matches exactly the strings that split into segments, one for each part: any string for a star, any one byte for a question mark, itself for any other ASCII byte and for one behind a backslash, a byte written in a set, one not written in a negated set, one between two bytes written in a range. A negated range is no range: it leaves out the bytes written in it. |
| `Patterns.Metacharacters` | lib/wildcard/wildcard.go:63-91 | Star, question mark, set and negated set, each as a pattern of its own. |
| `Patterns.Ranges` | lib/wildcard/wildcard.go:75-91 | A range of one byte to another, and a negated one. |
| `Patterns.InsideSet` | lib/wildcard/wildcard.go:59-66 | A star or a question mark inside a set matches what it matches elsewhere, and a byte of the set must follow. |
| `Patterns.QuotedInside` | lib/wildcard/wildcard.go:59-66 | So does a quoted byte. |
| `Patterns.RunesOfEncoded` | lib/wildcard/wildcard.go:55-57 | The runes of UTF-8 text (section 3 of RFC 3629) are that text, so a pattern beyond ASCII is compiled rune by rune. |
| `Wildcard.LiteralPatternsIff` | lib/wildcard/wildcard.go:51-131 | A string with a backslash before every byte matches, as a pattern, exactly that string if and only if each of its bytes is ASCII or 0xFD; the same holds for a string whose runes, truncated to bytes, are no metacharacters. Other bytes are decoded as UTF-8 and truncated. |
| `Wildcard.TruncatedToStar` | lib/wildcard/wildcard.go:51-101 | The two bytes of U+012A, as a pattern, match everything, because the rune is truncated to a star. |
| `RoundTrip.StreamIff` | resp/parser/parser.go:42-258 | A stream of printed replies is read back as exactly those replies, one by one, and then io.EOF, if and only if each of them is wire-safe and no multi-bulk reply ends with an empty argument; once a blank command has been read between two replies, they never fall into step again. |
| `RoundTrip.ReadsBackIff` | resp/parser/parser.go:42-258 | For every kind of reply, whatever follows it: the first thing read is that reply (nil arguments empty) if and only if it is a status or error without a line feed, an int64, a bulk that is not empty, does not start with a dollar sign and fits a slice, a null or empty reply, or a multi-bulk reply of fewer than 2^32 arguments that CommandReadsBackIff admits. |
| `RoundTrip.EmptyBulkIsNotSent` | resp/reply/reply.go:31-37 | An empty bulk reply is printed without a line break: alone on a connection, the reader sees only io.EOF. |
| `RoundTrip.EmptyLastIsTwo` | resp/parser/parser.go:240-258 | A command whose last argument is empty reaches the server as two commands, the second one blank. |
| `RoundTrip.ParsePrintAll` | resp/parser/parser.go:42-258 | Parsing the concatenation of any printed wire-safe replies yields those replies in order, then io.EOF and a closed channel; nil arguments come back empty, and an empty last argument is followed by one blank command. |
| `RoundTrip.RunPrinted` | resp/reply/reply.go:31-119 | One printed reply followed by any bytes is read back as that reply and parsing goes on behind it. |
| `RoundTrip.CommandReadsBackIff` | resp/parser/parser.go:240-258 | A printed command of fewer than 2^32 arguments is read back as the same command exactly if no argument starts with a dollar sign, none but the last is empty, and each fits a slice. |
| `RoundTrip.RunUndollared` | resp/parser/parser.go:240-258 | From any state inside a message and any input, the reply that is sent next has no argument that starts with a dollar sign. |
| `RoundTrip.RunEmptyInside` | resp/parser/parser.go:240-258 | An empty argument that is not the last one ends the parser goroutine with an index panic. |
| `RoundTrip.AnnouncedCount` | resp/parser/parser.go:37-144 | Whatever the input, a message announced with n arguments is delivered with exactly n arguments or not at all. |
| `Parser.Step` | resp/parser/parser.go:42-144 | One turn of the loop keeps the invariant of the read state (pending length not negative and an int64; idle means fully reset; fewer arguments than announced while reading) and consumes input or stops, so parsing terminates. |
| `Parser.ReadLine` | resp/parser/parser.go:146-171 | A line read keeps the input length, a pending bulk yields its length plus the line break, and a malformed line is consumed; a length for which make panics ends the goroutine. |
| `ParserLoop.Parse0` | resp/parser/parser.go:42-144 | The endless loop over the mutable read state sends exactly the payloads of the state machine and ends as it does. |
| `ParserLoop.ReadState.ReadLine` | resp/parser/parser.go:146-171 | readLine on the buffered reader agrees with the state machine and clears the pending length. |
| `ParserLoop.ReadState.ParseMultiBulkHeader` | resp/parser/parser.go:173-192 | A multi-bulk header sets the read state as in the state machine. |
| `ParserLoop.ReadState.ParseBulkHeader` | resp/parser/parser.go:195-211 | A bulk header sets the read state as in the state machine; length 0 is refused. |
| `ParserLoop.ReadState.ReadBody` | resp/parser/parser.go:240-258 | A body line becomes an argument or a pending length as in the state machine. |
| `ParserLoop.TakeHeader` | resp/parser/parser.go:72-117 | A line outside a message: what is sent and the state it leaves. |
| `ParserLoop.TakeBody` | resp/parser/parser.go:118-143 | A line inside a message: what is sent and the state it leaves, the finished message included. |
| `Reply.MultiBulkToBytes` | resp/reply/reply.go:53-66 | The buffer written argument by argument is the printed form of the reply. |
| `Bytes.ParseIntOfFormatInt` | resp/reply/reply.go:100-102 | Printing an int64 and parsing the text gives the number back. |
| `Bytes.SignedTexts` | database/string.go:203 | A decimal number with or without leading zeros and with either sign or none stands for itself if it is an int64, and for nothing otherwise. |
| `Bytes.NoIntegerText` | database/string.go:203 | A text with anything but digits behind its sign, or nothing there, is no integer. |
| `Bytes.ParseUintOfItoa` | resp/parser/parser.go:173-176 | Printing a count and parsing it as an unsigned 32-bit number gives it back. |
| `Executor.Exec` | database/db.go:43-63 | The database in memory, a sharded dictionary of entities whose lists and sets commands change in place, refines the keyspace: for every registered command and every line, given what SPOP and SRANDMEMBER have drawn, the reply, the new contents and the logged line are those of the command on the keyspace it stands for; afterwards no two keys share an object, no list is empty, and all new objects are fresh. |
| `Executor.Run` | database/db.go:43-55 | The executor found for a name does what its command does. |
| `CommandTable.StringsRegistered` | database/string.go:418-434 | The names and numbers of arguments of the string commands. |
| `CommandTable.MoreStringsRegistered` | database/string.go:418-434 | And of the others of them. |
| `CommandTable.KeysRegistered` | database/keys.go:116-124 | The names and numbers of arguments of the key commands and PING. |
| `CommandTable.ListsRegistered` | database/list.go:471-484 | The names and numbers of arguments of the list commands. |
| `CommandTable.SetsRegistered` | database/set.go:448-462 | The names and numbers of arguments of the set commands. |
| `CommandTable.LookupIff` | database/command.go:9-23 | Nothing else is registered: a name finds a command exactly if it is the name of that command. |
| `CommandTable.LineIff` | database/db.go:43-63 | Capitals in the name make no difference, a wrong number of arguments is refused, and otherwise the registered command runs on the arguments and logs itself with them. |
| `CommandTable.UnknownName` | database/db.go:43-63 | Any other name is unknown. |
| `CommandTable.ErrorsChangeNothing` | database/db.go:43-63 | Whatever the command, its arguments and its draws: if it answers an error, it has changed nothing and logs nothing. |
| `Database.DB.constructor` | database/db.go:32-40 | A new database, over a new sharded dictionary, is empty. |
| `Database.DB.GetEntity` | database/db.go:70-78 | GetEntity finds in the dictionary exactly the value that the key is bound to. |
| `Database.DB.PutIfAbsent` | database/db.go:91-93 | A string is put only where there is no value, and the dictionary counts it. |
| `Database.DB.PutIfExists` | database/db.go:86-88 | A string is put only where there is a value. |
| `Database.DB.Detached` | database/keys.go:84-101 | A value whose key has been removed is as it was, and no other key shares an object with it. |
| `Database.DB.PutEntity` | database/db.go:81-83 | Binding a value made of new objects keeps all other keys as they are and shares nothing. |
| `Database.DB.Remove` | database/db.go:96-98 | Unbinding a key keeps all other keys as they are. |
| `Database.DB.Removes` | database/db.go:101-111 | The loop removes the named keys and counts those that were there. |
| `Database.DB.Flush` | database/db.go:114-116 | Flushing unbinds every key. |
| `Database.DB.Move` | database/keys.go:73-78 | Binding the value of one key to another and then removing the first leaves it with one owner; with source equal to destination the key is gone. |
| `Database.DB.Changed` | database/list.go:126-141 | Changing the value of one key in place changes nothing under any other key. |
| `Database.DB.ListChanged` | database/list.go:126-141 | The same for a list that has taken in new nodes. |
| `Database.DB.SetChanged` | database/set.go:40-54 | The same for a set. |
| `ListCommands.GetAsList` | database/list.go:12-22 | A missing key, a list and a value of another type are told apart. |
| `ListCommands.GetOrInitList` | database/list.go:24-38 | A missing list is created empty and stored; other keys keep their objects. |
| `ListCommands.ExecPush` | database/list.go:126-141 | LPUSH and RPUSH (421-436) on the list object do what the commands do to the keyspace: the values are added one by one, LPUSH leaving them reversed in front. |
| `ListCommands.ExecPushX` | database/list.go:153-170 | LPUSHX and RPUSHX (448-469), likewise, on existing lists only. |
| `ListCommands.ExecPop` | database/list.go:87-103 | LPOP and RPOP (323-340), likewise; the index 0 is in range because no stored list is empty, and an emptied list loses its key. |
| `ListCommands.ExecRPopLPush` | database/list.go:370-396 | RPOPLPUSH, likewise, with source and destination the same list object or not. |
| `ListCommands.ExecLRem` | database/list.go:222-257 | LREM, likewise, for positive, negative and zero counts, the count -2^63 included. |
| `ListCommands.ExecLSet` | database/list.go:259-288 | LSET, likewise, with negative indices and out-of-range errors. |
| `ListCommands.ExecLIndex` | database/list.go:41-69 | LINDEX reads the element that the index names. |
| `ListCommands.ExecLLen` | database/list.go:71-85 | LLEN answers the length. |
| `ListCommands.ExecLRange` | database/list.go:172-220 | LRANGE passes bounds to Range that are in range, and lists that slice. |
| `ListCommands.LRangeIsInclusiveSlice` | database/list.go:172-220 | For all bounds, LRANGE lists exactly the elements at positions between the two bounds, both included and counted from the end if negative. |
| `ListLaws.LRemIff` | database/list.go:222-257 | LREM with a positive count n deletes every match in a prefix that holds n of them, or in the whole list if it holds fewer, and keeps the rest; with a negative count it does so from the end; with 0 it deletes every match. The key goes with the last element, the answer is the number of matches that went, and it is logged exactly if any did. |
| `ListLaws.PushIff` | database/list.go:126-170 | RPUSH and RPUSHX (421-469) put the values behind the list in their order, LPUSH and LPUSHX before it with the last value first; the X forms leave an absent key alone; the answer is the new length. |
| `ListLaws.PopIff` | database/list.go:87-103 | LPOP takes the first element and answers it, RPOP (323-340) the last; the key goes with its last element. |
| `ListLaws.QueueAndStack` | database/list.go:87-141 | What RPUSH has put into a free key, LPOP gives back in order and RPOP in reverse, however many. |
| `ListLaws.RPopLPushIff` | database/list.go:370-396 | RPOPLPUSH is RPOP and then LPUSH of what it has answered, on one list or two, unless there is nothing to pop or the destination holds another type. |
| `ListLaws.IndexIff` | database/list.go:41-69 | LINDEX answers the element at an index counted from 0, or from -1 backwards, and nil outside; LSET (259-288) replaces that element and no other, and answers an error outside. |
| `ListLaws.LLenIff` | database/list.go:71-85 | LLEN answers how many elements there are. |
| `ListLaws.RangeAll` | database/list.go:172-220 | LRANGE from 0 to -1 lists them all. |
| `ListLaws.NotAnInteger` | database/list.go:41-69 | An index or a count that is no integer is answered as such, whatever the key holds. |
| `ListCommands.RPopLPushEffect` | database/list.go:370-396 | Creating, popping, pushing and dropping, one after the other, come to the effect of RPOPLPUSH, source equal to destination included. |
| `SetAlgebra.AlgebraIff` | database/set.go:172-361 | SINTER, SUNION and SDIFF over any keys: the wrong-type error is answered exactly if a key of the wrong type comes before the answer is settled; otherwise the members listed are exactly those of the intersection, the union or the left difference, absent keys being empty, despite early exits and skips. |
| `SetLaws.AlgebraMeans` | database/set.go:172-361 | Over keys none of which has another type, SINTER, SUNION and SDIFF list exactly the members that are in all of the sets, in some set, and in the first and none of the others. |
| `SetLaws.StoreIff` | database/set.go:209-246 | SINTERSTORE, SUNIONSTORE (284-320) and SDIFFSTORE (363-406) store what SINTER, SUNION and SDIFF list, under a key that may hold anything; with nothing listed they remove it without logging, and with a type error they do nothing. |
| `SetLaws.SAddIff` | database/set.go:40-54 | SADD adds the members it is given and answers how many are new, each counted once. |
| `SetLaws.SRemIff` | database/set.go:75-97 | SREM takes away the members it is given, and the key with the last of them; it answers how many were there, each counted once, and is logged exactly if any was. |
| `SetLaws.ReadsIff` | database/set.go:56-73 | SISMEMBER, SCARD (138-149) and SMEMBERS (151-170) answer membership, number and members. |
| `SetLaws.SPopIff` | database/set.go:99-136 | SPOP takes as many different members as it is asked for, or all of them, lists them and leaves the others, and the key even without any; every such choice can happen and no other. |
| `SetLaws.SRandMemberIff` | database/set.go:408-446 | SRANDMEMBER answers one member without a count, different ones for a positive count, and any for a negative count, so many as asked for; exactly these can be drawn. |
| `SetAlgebra.NoWrongType` | database/set.go:172-361 | With no key of the wrong type there is no error and the listing is exact. |
| `SetAlgebra.ScanLists` | database/set.go:178-197 | A loop that does not fail has gathered exactly what belongs over all keys, also those behind an early exit. |
| `SetAlgebra.ScanFailsIff` | database/set.go:178-197 | A loop fails exactly if it meets a key of the wrong type first. |
| `SetCommands.Inter` | database/set.go:178-197 | The loop of SINTER builds, in a set of its own, what the scan of the keyspace gives. |
| `SetCommands.Union` | database/set.go:255-269 | The loop of SUNION, likewise. |
| `SetCommands.Diff` | database/set.go:329-348 | The loop of SDIFF, likewise. |
| `SetCommands.ExecAlgebra` | database/set.go:172-207 | SINTER, SUNION (248-282) and SDIFF (322-361) list the result once each, in some order, and change nothing. |
| `SetCommands.ExecStore` | database/set.go:209-246 | The storing forms (284-320, 363-406) bind a set object of their own to the destination or only clear it, and log only the former. |
| `SetCommands.ExecSAdd` | database/set.go:40-54 | SADD on the set object adds the members one by one and answers how many are new. |
| `SetCommands.ExecSRem` | database/set.go:75-97 | SREM removes them, drops an emptied set, answers how many were there and logs only if some were. |
| `SetCommands.ExecSIsMember` | database/set.go:56-73 | SISMEMBER answers membership. |
| `SetCommands.ExecSCard` | database/set.go:138-149 | SCARD answers the number of members. |
| `SetCommands.ExecSMembers` | database/set.go:151-170 | SMEMBERS lists every member once. |
| `SetCommands.ExecSPop` | database/set.go:99-136 | SPOP removes distinct members drawn from the set, as many as asked for or all of them, lists them, and leaves an emptied set bound. |
| `SetCommands.ExecSRandMember` | database/set.go:408-446 | SRANDMEMBER lists distinct members for a positive count and possibly repeated ones for a negative count, and changes nothing; a negative count so large that make refuses the slice of the answer panics and gets the unknown error, the count -2^63 included. |
| `HashSets.HashSet.Make` | datastruct/set/set.go:9-17 | Make holds exactly the members given. |
| `HashSets.HashSet.Add` | datastruct/set/set.go:19-21 | Add reports whether the member is new. |
| `HashSets.HashSet.Remove` | datastruct/set/set.go:23-25 | Remove reports whether the member was there. |
| `HashSets.HashSet.ToSlice` | datastruct/set/set.go:36-49 | ToSlice lists each member exactly once, in whatever order the map is visited. |
| `HashSets.HashSet.Intersect` | datastruct/set/set.go:57-70 | Intersect builds the intersection in a new set. |
| `HashSets.HashSet.Union` | datastruct/set/set.go:72-86 | Union builds the union in a new set. |
| `HashSets.HashSet.Diff` | datastruct/set/set.go:88-101 | Diff builds the difference in a new set. |
| `HashSets.HashSet.RandomDistinctMembers` | datastruct/set/set.go:107-109 | As many different members as asked for, or all of them. |
| `HashSets.HashSet.RandomMembers` | datastruct/set/set.go:103-105 | As many members as asked for, repeated or not; empty strings from an empty set. |
| `KeyCommands.ExecDel` | database/keys.go:11-21 | DEL removes the keys, answers how many were there, and logs only if some were. |
| `KeyCommands.ExecExists` | database/keys.go:24-34 | EXISTS counts the keys that are there, repeated ones each time. |
| `KeyCommands.ExecFlushDB` | database/keys.go:37-41 | FLUSHDB empties the database. |
| `KeyCommands.ExecType` | database/keys.go:44-63 | TYPE knows strings and absent keys; any other value is the unknown error. |
| `KeyCommands.ExecRename` | database/keys.go:66-81 | RENAME hands the value object over; renaming a key to itself removes it. |
| `KeyCommands.ExecRenameNx` | database/keys.go:84-101 | RENAMENX takes the value out and binds it anew if the destination is free. |
| `KeyCommands.ExecKeys` | database/keys.go:104-114 | KEYS visits every shard of the dictionary and lists, once each and in any order, the stored keys that match the compiled pattern. |
| `KeyCommands.KeysAreSplit` | database/keys.go:104-114 | So it lists exactly the stored keys that split into consecutive segments along the items of the pattern, its bytes being decoded as UTF-8. |
| `Effects.RemovesExactly` | database/db.go:101-111 | Removing keys one by one removes exactly those named and counts each that was there once. |
| `KeyLaws.DelIff` | database/keys.go:11-21 | DEL leaves every key but those it names, with its value, answers how many of those were there, each once, and is logged exactly if there was one. |
| `KeyLaws.ExistsCounts` | database/keys.go:24-34 | EXISTS answers how many of its arguments are keys, one named twice counting twice. |
| `KeyLaws.KeysIff` | database/keys.go:104-114 | KEYS, on a pattern written part by part, lists exactly the keys that split into segments which match the parts. |
| `KeyLaws.TypeIff` | database/keys.go:44-63 | TYPE tells an absent key, a string and anything else apart. |
| `KeyLaws.RenameIff` | database/keys.go:66-81 | RENAME gives the destination the value of the source and takes the source away, which is all that is left of it if the two are one; other keys are left alone. |
| `KeyLaws.RenameNxIff` | database/keys.go:84-101 | RENAMENX does the same to a free destination, and nothing to one that is taken, even if the source is absent or the same key. |
| `Effects.RenameBackIff` | database/keys.go:66-81 | Renaming a key and renaming it back restores the keyspace exactly if the other name was different and free. |
| `StringCommands.ParsePolicy` | database/string.go:49-66 | The loop over the options of SET: NX and XX exclude each other, anything else is a syntax error. |
| `StringCommands.ExecSet` | database/string.go:44-87 | SET under its three policies; a refused SET is logged too. |
| `StringCommands.ExecSetNx` | database/string.go:90-99 | SETNX binds an absent key and logs in any case. |
| `StringCommands.ExecMSet` | database/string.go:102-121 | MSET stores its pairs in order. |
| `StringCommands.ExecMSetNx` | database/string.go:149-175 | MSETNX stores them only if none of the keys is there. |
| `StringCommands.ExecGet` | database/string.go:25-35 | GET answers the string, nil, or the wrong-type error. |
| `StringCommands.ExecMGet` | database/string.go:124-146 | MGET answers one entry per key, nil for absent keys and other types. |
| `StringCommands.ExecGetSet` | database/string.go:178-192 | GETSET swaps the value; with no string before it does not log. |
| `StringCommands.AddTo` | database/string.go:195-309 | INCR, INCRBY, DECR and DECRBY with 64-bit wrap-around and the errors for other values. |
| `StringCommands.ExecDecrBy` | database/string.go:280-309 | DECRBY of a missing key stores the negated amount, -2^63 wrapping to itself. |
| `StringCommands.ExecStrLen` | database/string.go:312-322 | STRLEN answers the length. |
| `StringCommands.ExecAppend` | database/string.go:325-337 | APPEND adds bytes; appending nothing to nothing stores a nil string. |
| `StringCommands.Overwrite` | database/string.go:352-366 | The byte loop of SETRANGE, padding included, computes the overwritten string. |
| `StringCommands.ExecSetRange` | database/string.go:341-372 | SETRANGE writes at the offset; a negative offset with something to write panics, and so does an offset past the string and past what a slice can hold: both change and log nothing. |
| `StringCommands.ExecGetRange` | database/string.go:374-416 | GETRANGE answers the bytes between its normalised bounds or nil. |
| `Effects.OverwrittenIs` | database/string.go:341-372 | After SETRANGE each byte is the written one inside the range, the old one outside, and zero where there was none; the length is the larger end. |
| `Effects.GetRangeIff` | database/string.go:374-416 | GETRANGE lists the bytes between its bounds, both included, and answers nil exactly if a bound lies before the string, the first past it, or the first more than one past the second. |
| `Effects.SetRangeReadsBack` | database/string.go:341-416 | What SETRANGE has written, GETRANGE reads back; SETRANGE gives up, changing nothing, exactly if the offset lies past the string and past what a slice can hold. |
| `Effects.CountersAddUp` | database/string.go:221-250 | After any run of INCRBY commands a counter holds the sum of its start and all increments, modulo 2^64. |
| `StringLaws.CounterIff` | database/string.go:195-309 | Each of INCR, DECR, INCRBY and DECRBY on a number, on nothing, on other text and on another type: it stores and answers the old number, or 0, and what it adds, in 64 bits. |
| `StringLaws.MixedCountersAddUp` | database/string.go:195-309 | Any run of the four commands on a number leaves it and the sum of what they add, modulo 2^64. |
| `StringLaws.GetIff` | database/string.go:25-35 | GET answers the bytes of a string, nil for an absent key and for a nil string, and the type error otherwise. |
| `StringLaws.MGetIff` | database/string.go:124-146 | MGET answers, key by key, what GET answers if that is a string, and nil otherwise. |
| `StringLaws.StrLenIff` | database/string.go:312-322 | STRLEN answers the number of bytes that GET answers. |
| `StringLaws.AppendIff` | database/string.go:325-337 | APPEND puts the new bytes behind the old ones and answers how many there are then. |
| `StringLaws.MSetIff` | database/string.go:102-175 | MSET binds every key to the last value given for it; MSETNX does the same and answers 1 if none of its keys was there, and otherwise changes and logs nothing. |
| `StringLaws.SetAnswers` | database/string.go:44-87 | What SET does and answers under any options, and that a refused one is logged. |
| `StringLaws.SetNxIff` | database/string.go:90-99 | SETNX binds an absent key, whatever type a present one has, and is logged either way. |
| `StringLaws.GetSetIff` | database/string.go:178-192 | GETSET answers what GET answers and binds the key unless that is an error; it is logged exactly if there was a string. |
| `StringLaws.SetRangeIff` | database/string.go:341-372 | SETRANGE leaves the written bytes at the offset, the old ones elsewhere and zeros between, and answers how many there are; what makes it panic changes nothing. |
| `StringLaws.GetRangeMeans` | database/string.go:374-416 | GETRANGE on any key and bounds, bad ones included. |
| `Effects.MSetLastWins` | database/string.go:102-121 | After MSET each key has the value of the last pair that names it, and no other key has changed. |
| `Effects.SetIff` | database/string.go:44-87 | SET binds its key exactly if its options are only NX and XX, not both, with NX finding no key and XX finding one; then GET reads the value back, and otherwise nothing changes. |
| `Effects.PolicyIff` | database/string.go:49-66 | What the options of SET mean together, in any order and case. |
| `Effects.FirstWriterWins` | database/string.go:90-99 | Of any number of SETNX on a free key the first one wins and is the only one told so; on a bound key none does. |
| `Effects.GetSetChain` | database/string.go:178-192 | In any chain of GETSET on a string or on nothing each is answered with what the one before it stored, and the last value stays. |
| `Undo.UndoRestoresIff` | database/list.go:87-151 | LPUSH, RPUSH, LPOP, RPOP, LSET or RPOPLPUSH (259-446), and then its undo commands computed beforehand, restore the keyspace exactly if the command is not an RPOPLPUSH of a list to a key that holds no list. |
| `Undo.UndoRPopLPushRestoresIff` | database/list.go:370-419 | For RPOPLPUSH, source equal to destination, emptied sources and created destinations included. |
| `Undo.RollbackRestores` | database/list.go:87-446 | Executing the undo lines of any sequence of such commands, last command first, restores the keyspace they started from. The repository defines the undo functions and uses none of them: no registration takes one and nothing calls them. This is what they are good for. |
| `Undo.TransactIff` | database/list.go:87-446 | The sequences that this covers: every call, on the keyspace it meets, is one of the six commands with enough arguments, and no RPOPLPUSH of a list to a key that holds something else. |
| `Undo.RefusedMoveDuplicates` | database/list.go:370-419 | The undo lines of an RPOPLPUSH that was refused push the last element of the source a second time. |
| `Undo.RefusedMoveIsNotUndone` | database/list.go:370-419 | Concretely: a list of one element and a string, RPOPLPUSH of the one to the other, undone, leave two elements. |
| `LogCompleteness.RunOwes` | database/set.go:75-405 | Every command, whatever it draws, keeps lists non-empty; on a keyspace without empty sets it keeps sets non-empty unless it is an SPOP of all members; and it changes the keyspace without logging exactly if it is GETSET without a string before, SREM on a stored empty set, or a storing set command whose destination exists and that has nothing to store. |
| `LogCompleteness.RecoverableIff` | database/keys.go:11-101 | The log tells what a line has done (nothing logged and nothing changed, or whatever executing the logged line draws leads to the same keyspace) exactly if the line is none of those and no SPOP of some but not all members. |
| `LogCompleteness.OtherDraw` | database/set.go:99-136 | An SPOP of some but not all members can come out differently. |
| `LogCompleteness.DrawIrrelevant` | database/set.go:99-136 | No other command changes the keyspace depending on what it draws. |
| `LogCompleteness.ExecKeepsLists` | database/list.go:24-38 | No line, whatever it draws, makes a stored list empty. |
| `LogCompleteness.LogNameFinds` | database/list.go:471-484 | The name that a command logs finds that command again, setRange included. |
| `LogCompleteness.GetSetOwes` | database/string.go:178-192 | GETSET leaves an unlogged change exactly if there was no string. |
| `LogCompleteness.StoreOwes` | database/set.go:209-246 | A storing set command leaves an unlogged change exactly if the destination exists, no key of the wrong type is met, nothing belongs to the intersection, union or difference, and no empty set is kept. |
| `SetAlgebra.StoresNothingIff` | database/set.go:209-246 | The loop of a storing set command ends without a set exactly if no key of the wrong type is met, nothing belongs to the result, and the result is not a stored empty set taken over. |
| `SetAlgebra.StoresNothingSimply` | database/set.go:209-246 | While no stored set is empty, the last of these conditions is void. |
| `Recovery.RebuiltThroughoutIff` | aof/aof.go:73-150 | For any sequential run of requests of any number of connections on any number of databases, on a fresh server with an empty file, whose logged arguments fit a slice and do not start with a dollar sign: after every request the file is read to its end and brings every database back, and nothing else, exactly if every request is durable (none of the losing calls and no SPOP of some but not all members) and no logged line has an empty argument before its last. |
| `Recovery.RebuildsIff` | aof/aof.go:73-150 | After a run like that, one more request is brought back with it, whatever is drawn while loading, exactly if it is durable too and what it logs has no empty argument before its last. |
| `Recovery.ReplayRebuilds` | aof/aof.go:73-150 | Loading the file of a durable run, whose logged arguments fit and do not start with a dollar sign, comes back exactly if no logged line has an empty argument before its last, and then ends with the keyspace of every database and cannot end otherwise. |
| `Recovery.LineIff` | aof/aof.go:73-150 | What one line logs leads from the keyspace before it to the one after it, and nowhere else, exactly if the line is keepable. |
| `Recovery.SPopIsRedrawn` | database/set.go:99-136 | After SADD s a b and an SPOP that takes a, memory holds b and the file can bring back a. |
| `Recovery.GetSetIsLost` | database/string.go:178-192 | After GETSET of a missing key it is in memory, and the file brings back an empty database. |
| `Recovery.GapNeverLoads` | aof/aof.go:100-150 | A durable run after which no server comes up: SET with an empty key and a value is executed and logged, and the file of it makes the parser panic, so that loading waits for ever. |
| `Recovery.InlineGap` | resp/parser/parser.go:227-236 | That command is what set, two spaces and v, typed as an inline command, are read as. |
| `Recovery.DollarIsLost` | aof/aof.go:100-150 | An argument that starts with a dollar sign: after SET k $0 memory holds $0, and the file brings back an empty string. |
| `Aof.FileClosesIff` | aof/aof.go:100-150 | A file of records whose arguments fit and do not start with a dollar sign is read to its end, so that loading comes back, exactly if none has an empty argument before its last. |
| `Aof.SafeLineIff` | aof/aof.go:73-97 | The file can carry a line of such arguments exactly if none but the last is empty. |
| `RoundTrip.ClosesIff` | resp/parser/parser.go:42-258 | The parser reads a stream of printed commands whose arguments fit and do not start with a dollar sign to its end and closes its channel exactly if none of them has an empty argument before its last; otherwise it panics. |
| `TextLines.InlineCommand` | resp/parser/parser.go:214-236 | An inline command: any number of words without a space or a line feed, empty ones included, joined by single spaces, on a line that does not start like something else, arrives as one command of exactly these words, and reading goes on behind the line. |
| `TextLines.MarkedText` | resp/parser/parser.go:214-222 | A line of a plus or a minus sign and a text is delivered as the status or error of that text. |
| `TextLines.MarkedNumber` | resp/parser/parser.go:223-228 | A line of a colon and an integer is delivered as that integer. |
| `TextLines.BareLineFeed` | resp/parser/parser.go:146-171 | A line that ends in a bare line feed is answered with a protocol error and skipped; an empty one ends the goroutine. |
| `TextLines.BadHeader` | resp/parser/parser.go:173-211 | A count or a length that is no number is answered with a protocol error and skipped. |
| `TextLines.BulkLengths` | resp/parser/parser.go:195-211 | Of the lengths that are not positive, -1 announces the null bulk and every other one is refused. |
| `TextLines.BadLengthInside` | resp/parser/parser.go:118-143 | Inside a message, a length that is no number is answered with a protocol error, the message is given up, and what follows is read afresh. |
| `TextLines.BadEndInside` | resp/parser/parser.go:146-171 | So are bytes that do not end where their length says. |
| `TextLines.EndsInside` | resp/parser/parser.go:146-171 | An input that ends among the bytes of an argument delivers nothing of the message; the end is unexpected if some of them have come. |
| `TextLines.EndsBetween` | resp/parser/parser.go:146-171 | One that ends between two arguments delivers nothing of it either. |
| `TextLines.WireFormat` | resp/reply/reply.go:31-119 | Each reply is printed as the protocol has it. |
| `Sessions.NextSessionIff` | aof/aof.go:44-97 | A restarted writer takes it that database 0 is selected. On any file that brings back the databases a server has started from, a further lasting session (durable and readable throughout) is brought back with it, at each of its requests, exactly if the file leaves database 0 selected or each record before the first SELECT of the session changes neither database 0 nor the one left selected. |
| `Sessions.TwoSessionsIff` | aof/aof.go:44-97 | For two lasting sessions of one server from an empty file: the same, the database left selected being that of the last record of the first session. |
| `Sessions.MisreadIs` | aof/aof.go:44-150 | A reader with some database selected takes the records of a new session up to its first SELECT for records of that database, and the others for what they are. |
| `Sessions.SecondSessionIsMisread` | aof/aof.go:44-97 | SELECT 1 and SET k v in a first session, SET k w in a second: the two are lasting, and the file brings back w in database 1 and nothing in database 0. |
| `Aof.DecodeFrame` | aof/aof.go:73-97 | The stream with SELECT written only on change decodes, under the replayer's current database, to exactly the records written. |
| `Aof.ReplaysIsApplies` | aof/aof.go:128-149 | Executing any lines on the replayer's connection is applying the records they decode to, each to its own database, with the same possible draws. |
| `Aof.RestartIff` | aof/aof.go:44-97 | Two sessions on one file decode correctly exactly if the first ended in database 0 or the second is empty or starts in another database. |
| `Aof.LoadFile` | aof/aof.go:100-150 | Loading a file of command lines that the wire can carry executes exactly those lines and ends as they can. |
| `Aof.AofHandler.HandleNext` | aof/aof.go:73-97 | One turn of the writer takes the oldest record and keeps: what was handed over is what was taken followed by what is in the channel, and the file holds the frame of what was taken, with SELECT where the database changes. |
| `Aof.AofHandler.HandleAof` | aof/aof.go:73-97 | However handing over and writing are interleaved, once the channel is drained the file holds everything ever handed over, framed and in order. |
| `Server.StandaloneDatabase.Exec` | database/standalone_database.go:53-97 | On a server in memory, whose databases share no object: for every connection and line, SELECT moves the connection (a negative index included), other commands do to the selected database what they do to its keyspace and leave the others alone, errors are answered, and what is logged is handed over under the index of its database. |
| `Selections.SelectionIs` | database/standalone_database.go:53-97 | In every run of requests of any connections, the database that a connection has selected is the one of its own last well-formed SELECT, and 0 before. |
| `Selections.DatabasesAreSeparate` | database/standalone_database.go:53-76 | In every run, each database is what it would be if the lines that reach it had been executed on it alone, in their order. |
| `Selections.ReachesOwn` | database/standalone_database.go:65-76 | A request reaches the selected database and no other, with the effect, the answer and the log of its command there; a selection past the databases is an error and a negative one panics. |
| `Selections.SelectIff` | database/standalone_database.go:84-97 | SELECT moves its own connection, and answers OK, exactly if it is well formed. |
| `Server.StandaloneDatabase.ExecIn` | database/standalone_database.go:65-76 | A command on one database leaves the keyspaces of the others, and the disjointness of their objects, as they are. |
| `Server.LoadAof` | aof/aof.go:100-150 | The loading loop over the parser's channel executes every multi-bulk reply until io.EOF and skips everything else; it comes back exactly if the parser does not panic, because nobody closes the channel then. FileClosesIff says for which files that is. |
| `Server.NewStandaloneDatabase` | database/standalone_database.go:23-50 | A new server has as many databases as configured, or 16 if that is 0, loads the file before anything is logged, and starts only if loading comes back. |
| `Server.Serve` | resp/handler/handler.go:66-103 | Requests of any clients, one after the other, on a server in memory: replies, databases and records are those of the run on keyspaces. |
| `Server.ServeAndRestart` | aof/aof.go:44-150 | A server in memory serves any requests, the writer catches up, and a second server starts from the file. If the logged arguments fit and do not start with a dollar sign, it comes up exactly if no logged line has an empty argument before its last; and if it does after a durable run, every one of its databases is as the first server left it. |
| `ConsistentHash.NodeMap.AddNode` | lib/consistenthash/consistenthash.go:36-46 | AddNode keeps the positions sorted and binds each node to its position, a later one replacing an earlier one; empty names are skipped. |
| `ConsistentHash.NodeMap.PickNode` | lib/consistenthash/consistenthash.go:49-67 | Binary search returns the node with the least position at or above the hash of the key, or the least of all. |
| `ConsistentHash.MinimalMovement` | lib/consistenthash/consistenthash.go:36-67 | Adding any batch of nodes moves a key only to one of the added nodes, even with hash collisions. |
| `ConsistentHash.OrderIrrelevant` | lib/consistenthash/consistenthash.go:36-67 | Rings of the same nodes with distinct hashes are equal, whatever the order and the batches of AddNode. |
| `ConsistentHash.OrderIrrelevantIff` | lib/consistenthash/consistenthash.go:36-67 | For any set of non-empty names: all orders of adding them give every key the same owner exactly if their hashes are pairwise distinct. |
| `ConsistentHash.CollisionMoves` | lib/consistenthash/consistenthash.go:36-67 | Two names with one hash, at the end of some order: swapping them gives a key another owner. |
| `ConsistentHash.OwnerExists` | lib/consistenthash/consistenthash.go:49-67 | Every hash value has an owner. |
| `ConsistentHash.OwnerUnique` | lib/consistenthash/consistenthash.go:49-67 | It has only one. |
| `ConsistentHash.FirstClockwise` | lib/consistenthash/consistenthash.go:49-67 | For hash values of 32 bits: the owner is the node that comes first clockwise on the circle of 2^32, past its top if need be. |
| `ConsistentHash.SortInts` | lib/consistenthash/consistenthash.go:45 | Sorting keeps exactly the positions there are. |
| `ConsistentHash.MakePicker` | cluster/cluster_database.go:31-57 | A member's ring is that of its peers in order and then itself. |
| `Cluster.MembersAgree` | cluster/cluster_database.go:39-44 | Members that list each other in any order pick the same owner for every key, and it is a member. |
| `Cluster.ClusterIsOneServer` | cluster/router.go:30-34 | For any sequence of SET, SETNX, GET, GETSET, TYPE, one-key EXISTS, RENAME and RENAMENX entered at any members, with at most one forward each, over connections that carry SELECT and the request, printed, and back the two replies, where no argument of a forwarded request starts with a dollar sign: the replies are those of one server (which refuses a rename across owners) exactly if no forwarded request has an empty argument and its replies to them are wire-safe; as long as every reply arrives, every key lives exactly on its owner and the contents are that server's. Requests entered at the owner, and stored strings, are arbitrary. |
| `Cluster.ClusterStep` | cluster/com.go:42-56 | The same for one request, with any allowance of at least one forward. |
| `Cluster.OnlyStringsAreUnsafe` | resp/reply/reply.go:31-37 | Whatever is stored and executed, only a string that GET or GETSET reads can make the reply unsafe. |
| `Cluster.CommonStep` | cluster/rename.go:9-24 | A request whose keys have one owner is executed there and nowhere else, and its reply travels back, unless it is forwarded and an argument is empty. |
| `Cluster.HandleAtOwner` | cluster/com.go:42-46 | A request that reaches its owner, with any arguments, is executed there and not forwarded again. |
| `Cluster.SelectIsRefused` | cluster/com.go:54-55 | The SELECT that relay sends ahead on the same connection is refused by the peer's router and changes nothing; its reply is the first of the two. |
| `Cluster.RouteIff` | cluster/router.go:8-28 | SET, SETNX, GET, GETSET, TYPE and EXISTS go to the owner of their key, RENAME and RENAMENX to the common owner, PING stays, DEL and FLUSHDB go everywhere, and every other name is unknown to the router. |
| `Cluster.RefusedHere` | cluster/cluster_database.go:68-82 | What a member answers at once, changing nothing: an unknown name, a missing key, a rename of other than two names or of two names with different owners. |
| `Cluster.RunLocal` | database/keys.go:24-101 | A routed command depends on and changes its own keys only. |
| `Cluster.CarryIff` | cluster/com.go:54-55 | A command printed behind a SELECT on one connection arrives at the peer as the one message that was sent exactly if its arguments are fewer than 2^32, non-empty, without a leading dollar sign, and fit a slice. |
| `Cluster.FittedCarryIff` | cluster/com.go:54-55 | If none of its arguments starts with a dollar sign, the two messages are read as two, and then the end, exactly if none is empty. |
| `Cluster.DollarKeyIsLost` | resp/parser/parser.go:240-258 | GET of the key $0, forwarded behind SELECT, arrives as GET of the empty key. |
| `Cluster.CarryBackIff` | resp/client/client.go:192-201 | A reply other than a list, printed behind the refusal of SELECT, comes back as the one reply that was sent exactly if it is wire-safe. |
| `PeerConnections.RelaysMatch` | cluster/com.go:42-56 | One pooled connection over its whole life, as a run of the client's goroutines against the peer, with SELECTs, supported lines on keys of the peer and heartbeats in any order and callers giving up: the k-th reply read is that of one server to the k-th request written, so a relay that returns has the reply to its own line. |
| `PeerConnections.RelaysReadIff` | cluster/com.go:42-56 | The same connection in bytes: both ends read, message by message, exactly what was printed if and only if no argument is empty or starts with a dollar sign and every reply is wire-safe. |
| `PeerConnections.ServesAll` | cluster/com.go:42-56 | Any number of such requests, one after the other: the peer answers as one server does that refuses SELECT, and goes on holding the keys it owns. |
| `ClusterNodes.Network.Serve` | cluster/cluster_database.go:68-82 | On the running members, each with a server in memory and a ring of its own, over any sequence of supported requests, without an argument that starts with a dollar sign if they are forwarded: the replies are those of one server exactly if no forwarded request has an empty argument and the replies to them are wire-safe, and as long as every reply arrives, every key lives exactly on its owner. |
| `ClusterNodes.Network.Request` | cluster/cluster_database.go:68-82 | The same for one request. |
| `ClusterNodes.Network.constructor` | cluster/cluster_database.go:31-57 | Members that start, with an empty append-only file or without one, share no memory, each has built the ring of its peers and itself, and together they represent the empty map. |
| `ClusterNodes.Network.ExecAt` | cluster/cluster_database.go:68-82 | Dispatch through the router table does what the routing function says, with a bounded number of forwards. |
| `ClusterNodes.Network.RelayTo` | cluster/com.go:42-56 | relay executes on the own server, or carries SELECT and the line over one connection to the peer, which executes both, and gives the second of the replies that come back. |
| `ClusterNodes.MakeRouter` | cluster/router.go:8-28 | The table filled entry by entry routes every command name as the routing function does. |
| `ClusterNodes.Network.Pick` | lib/consistenthash/consistenthash.go:49-67 | The binary search of a member finds the one owner of the key. |
| `ClusterNodes.Network.ExecLocally` | cluster/com.go:43-46 | Executing locally changes only the server of that member, from a connection at database 0. |
| `Client.RepliesMatch` | resp/client/client.go:112-202 | In every run without connection errors, callers timing out or not: the k-th reply belongs to the k-th request written, and a caller that returns has the server's answer to its own request. |
| `Client.BytePairing` | resp/client/client.go:112-202 | In bytes: over any such run the server reads exactly the requests written and the client exactly the replies to them, one by one, if and only if every argument is non-empty and without a leading dollar sign and every reply is wire-safe and does not end with an empty argument. |
| `Client.StepInv` | resp/client/client.go:112-202 | Every step keeps: waiting requests and the one written but not yet queued are, in order, those owed a reply by reader, wire and server. |
| `Client.RunInv` | resp/client/client.go:112-202 | That holds in every reachable state. |
| `Client.FinishPairs` | resp/client/client.go:175-190 | The request that finishRequest takes is the first written one without a reply. |
| `Client.Progress` | resp/client/client.go:112-202 | While a written request has no reply, writer, server or reader can take a step. |
| `Client.EverybodyIsAnswered` | resp/client/client.go:112-202 | From every reachable state writer, server and reader can bring every request to its end without a new one: afterwards nothing is on its way, and every caller with arguments that has not given up has returned. |
| `Client.SendsAhead` | resp/client/client.go:36-54 | Before the first request is written 256 can be sent, and no more. |

## Left out

- Cluster.ClusterIsOneServer: does not cover DEL and FLUSHDB, because the peer's router broadcasts them again and there is no terminating behaviour to state; nor EXISTS with several keys, which is routed by its first key only; nor forwarded requests with an argument that starts with a dollar sign, which CarryIff shows not to arrive as sent (some of those are still answered alike, others are not, as DollarKeyIsLost shows); nor requests in flight at the same time. A request after which a connection is out of step counts as not answered; what a later request on that connection reads is not stated.
- Recovery.RebuiltThroughoutIff: is stated for requests executed one after the other, because changing the keyspace and logging are not one atomic step, and for one session from an empty file (Sessions says when a further one is brought back); and for logged arguments that do not start with a dollar sign: such a line is read as another one or not at all, which loses what DollarIsLost shows and sometimes nothing.
- Client.RepliesMatch: takes whole messages, which BytePairing shows to be right under its condition; connection errors, reconnection and closing are left out, a timeout is the caller giving up, and heartbeats are requests like any other.
- DictThreads.Linearizable: does not cover Len, Keys, ForEach and Clear used at the same time as writers; Clear replaces the whole dictionary without a lock.
- SetCommands.ExecSPop: says which draws are possible, not how likely they are; the number of tries of the drawing loops is not counted. RandomKeys and RandomDistinctKeys of the sharded dictionary, which no command calls, are not modelled.
- A store of byte strings shared between slices: strings are immutable values here, so SETRANGE writing through a slice that a queued log record still holds is not captured.
- The conversion of names to lower case covers ASCII letters only.
- Limits of memory: a slice that make accepts but the machine cannot provide, and list lengths beyond an int. The channel of the log is unbounded.
- The undo functions work on keyspace values.
- Goroutines in one server: commands of different connections run one after the other, apart from the dictionary and the commands of LostUpdates, which are modelled with interleaved goroutines.
- LostUpdates.LostUpdateIff: counts amounts in all integers; sums past 64 bits wrap in the code. With negative amounts among them a loss can be made up for by another one, so only NothingLost is stated.
- The texts of strconv's own error messages in SETRANGE and GETRANGE with a bad offset.
- Replies are compared by the bytes they print: PONG and OK are status replies, and every error reply is its text.
- The order in which Go visits a map: sets and keys are listed in an arbitrary order.
- CRC32 and FNV-1 are arbitrary functions from bytes to hash values.
- The borrowing and returning of pooled peer connections in relay: PeerConnections takes one connection over its life, whoever borrows it.
- TCP server, echo handler, configuration, logger, signals and the connection pool library.
- SyncDict (the sync.Map wrapper, not used) and SimpleDict.Keys (not used).
