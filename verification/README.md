# redis_simple in Dafny

A model of the parts of redis_simple that are hard to get right: the append-only file with its rewrite and
recovery, the request parser, the packed and indexed data structures, and the two storages of lists and sorted
sets. Everything is stated for all inputs, all runs and all interleavings.

How the parts are modelled:

- **The append-only file** (`AofProtocol`, `AofInvariant`, `AofSafety`, `AofRuns`, `AofLimits`, `AofStops`,
  `AofLoss`, `AofSnapshot`) is a step system. Each section under the mutex is one step; writes and syncs are steps of
  their own, so that other threads and crashes can come between. A write may be short, a sync may fail. A file is its
  bytes and the number of them known to be on disk. The invariant is inductive over every step
  (`AofSafety.StepKeeps`). What a command does to the database is a parameter, and `Replay`, `Resp`, `RespArray`,
  `RespInline`, `Keyspace`, `Snapshot`, `SnapshotBatch` and `SnapshotBuild` discharge what the protocol assumes of
  parser, printer and snapshot.
- **The skiplist** (`Towers`, `SkiplistLinks`, `Skiplist`) is the linked structure itself: node objects with
  forward links, spans and back links, changed in place. The level a node gets is an argument, so every random
  choice is covered. It refines a strictly sorted sequence.
- **The listpack** (`ListPackCodec`, `ListPackLayout`, `ListPack`, `ListPackMatching`) is one byte array moved and
  rewritten in place, and refines a sequence of strings. `Memory` holds the byte moves.
- **The dictionary** (`HashTable`, `Dict`, `DictRuns`) keeps its two tables and the rehash index, and refines a map.
- **Lists** (`QuickListNodes`, `QuickList`, `List`) and **sorted sets** (`PairPack`, `ZSetListPack`, `ZSetSkiplist`,
  `ZSet`) are built on the listpack and skiplist objects, and refine one sequence whichever storage holds it. Beside
  its skiplist a sorted set keeps a map from keys to scores. `ZSetCases` and `SkiplistCases` hold runs at given inputs.
- **Smaller parts**: the glob matcher (`Glob`, `GlobPatterns`), decimal conversion (`Decimal`), the integer set over
  cells of two, four or eight bytes (`IntSet`) and the reply buffer (`ReplyBuffer`).

## Findings

Where the code does not keep what is expected of it, the project shows an input and proves the exact condition.

- **Stopping during a rewrite can lose the database.** The rewrite worker leaves its first loop on a stop with
  snapshot blocks still queued (server/aof.cpp:1055-1058), leaves its success flag set, and swaps in a file without
  them. `AofLoss.StopDuringRewriteLosesAll` gives the run, from any quiet state, that ends with an empty file.
  Exactly: a stop can be followed by such a swap if and only if snapshot blocks are queued for a live rewrite at that
  moment (`AofStops.SafeStopsNeverDrop`, `AofLoss.StopCanTruncate`). A caller who stops only while no rewrite is in
  progress (server/aof.cpp:731-735, 752-755) is safe (`AofStops.StoppedAtRestRecovers`).
- **A rewrite forgets emptied collections.** Removing the last member of a set or sorted set leaves the key in place
  (server/commands/set/srem.cpp:49-53, server/commands/zset/zrem.cpp:53-58), and a snapshot emits nothing for it
  (server/aof.cpp:378-439). `AofSnapshot.EmptiedSetForgotten` is a run: `SADD`, `SREM`, rewrite. Exactly: a snapshot
  replays to the database if and only if that holds no empty collection (`SnapshotBuild.SnapshotExact`,
  `AofSnapshot.SnapshotForRewrite`). Such a snapshot is called lossy in the protocol.
- **An acknowledged command can make the file unreadable.** `Append` checks neither of replay's limits
  (server/aof.cpp:555-592 against 787-834 and server/request_parser.cpp:68-98). `AofSnapshot.LargeSetIsFatal` is one
  `SET` on an empty file. Exactly: the live file replays if and only if every command since its base fits
  (`AofRuns.LiveReplay`); a crash leaves a readable file if and only if the whole commands left fit and the part of
  the next is not already refused (`AofRuns.CrashRecovery`).
- **An update can store a key twice.** `Update` changes a key in place when it is not beyond its neighbours, and
  does not look whether it equals one of them (memory/skiplist.h:534-545). `SkiplistCases.UpdateStoresTwice` is such
  a run. Exactly: the list stays sorted if and only if no other node holds the new key (`Skiplist.InPlaceSorted`).
  Sorted sets are not affected, since a key occurs once (`ZSetSkiplist.ZSetSkiplist.InsertOrUpdate`).
- **A descending range with an excluded maximum can read the head's key.** It does when every key lies above the
  maximum (memory/skiplist.h:992-1000); the model then gives no answer. `SkiplistCases.DescendingReadsHead` is such a
  query on a sorted set; `Skiplist.Skiplist.RevRangeByKey`, `ZSetSkiplist.ZSetSkiplist.RangeByScore` and
  `ZSet.ZSet.RangeByScore` give the exact conditions. The listpack storage answers these queries.
- **A descending range of ranks can return the head's key.** It does if and only if the ranks reach from within the
  list past its end (memory/skiplist.h:925-938, `Ranges.HeadHidden`). `SkiplistCases.DescendingPastEnd` is such a
  query. Ranks normalized by the sorted set never do.
- **A full listpack loses the old score.** An update in a listpack without room for the new pair has already deleted
  the old one (data_types/zset/zset_listpack.cpp:33, 43-64). `ZSetCases.FullLosesScore` is such a run. Exactly: the
  key is lost if and only if its score is another one and the bytes without its old pair, with the new pair, exceed
  32 bits (`ZSetListPack.ZSetListPack.InsertOrUpdate`). A sorted set converts its listpack long before
  (`ZSet.ZSet.InsertOrUpdate`).

## Model

| member | source | states |
|---|---|---|
| AofSafety.StepKeeps | server/aof.cpp:555-1221 | every step of every thread (append queued or under kAlways, short write, sync, failure, batch taken, snapshot block queued, delta drained, swap) keeps the invariant: the current file plus what is in flight plus the queue is the base followed by the commands since, the rewrite file plus everything on its way to it is its snapshot followed by the commands since, the base and every acknowledged command are on disk |
| AofRuns.ReachableInv | server/aof.cpp:499-1221 | the invariant holds at the end of every run of every interleaving that starts from a freshly opened file |
| AofRuns.LiveReplay | server/aof.cpp:555-618 | in every healthy state, replaying current file, bytes in flight and pending queue gives exactly the database, unless a command appended since the file's base is over the limits of replay, and then replay fails |
| AofRuns.RewriteReplay | server/aof.cpp:1043-1095 | while a rewrite can still succeed, its snapshot replays to the database it was taken of and no block is left behind, rewrite file, queued snapshot blocks, blocks not yet queued and delta queue together replay to the database, with the same exact condition |
| AofRuns.CrashRecovery | server/aof.cpp:566-592 | at any point of any run, whichever file the path names (the old one until the directory is synced) and wherever past its synced length it is cut, replay gives the state after the first k commands; k covers every acknowledged command, and under kAlways the unacknowledged ones are exactly the commands of the last append or none; replay fails exactly when a whole command left in the cut does not fit or the part of the next is already refused |
| AofRuns.RunsRecover | server/aof.cpp:971-1041 | the same for every run from opening in which no rewrite worker leaves blocks behind and no rewrite starts from a lossy snapshot, with the last append read off the run itself |
| AofRuns.SwapExact | server/aof.cpp:1097-1122 | at the rename, the new file holds its whole snapshot and all commands since if and only if no snapshot block was left queued, and is right if and only if besides the snapshot replays to the database |
| AofRuns.StaysClean | server/aof.cpp:1043-1148 | only two steps can put a wrong file on its way: the rewrite worker leaving the snapshot loop on a stop with blocks queued, and a rewrite started from a lossy snapshot; every other step keeps the files right |
| AofRuns.LastOfRun | server/aof.cpp:555-592 | the commands the state remembers as the last append are those of the last append of the run |
| AofLimits.HealthExact | server/aof.cpp:555-618 | a file is healthy at the end of a run if and only if no write or sync on it has failed and every append found its record within both limits beside the records appended since the last batch, whose sizes the queue then holds; read off the steps and the record sizes alone |
| AofLimits.HistoryOfRun | server/aof.cpp:555-618 | the history is the commands the appends of the run handed over, in order |
| AofLimits.AppendsReplayed | server/aof.cpp:555-618 | a run without failing writes and syncs whose appends fit the queue ends healthy, and file, bytes in flight and queue replay to the effect of all commands handed over, if each is within the limits of replay |
| AofLimits.RewriteFailsExact | server/aof.cpp:1150-1168 | in a run without failures and stops whose appends fit the queue, a rewrite has failed if and only if an append during it found no room within both limits beside the records appended since it started or last took them |
| AofLimits.GivesUpOverrun | server/aof.cpp:1074-1095 | in such a run the rewrite worker cleans up only after such an append |
| AofLimits.RewriteSucceeds | server/aof.cpp:1097-1148 | and a rewrite without one that has ended has been swapped in: the file stands on the snapshot taken when it started |
| AofStops.SafeStopsNeverDrop | server/aof.cpp:757-771 | a run whose every stop comes when no snapshot block is queued for a live rewrite never drops a block, as long as its snapshots are not lossy |
| AofStops.StoppedAtRestRecovers | server/aof.cpp:731-771 | a caller who stops only while no rewrite is reported in progress, and whose snapshots are not lossy, recovers every acknowledged command from any crash |
| AofLoss.StopCanTruncate | server/aof.cpp:1049-1125 | conversely, from every state in which a stop finds blocks queued for a live rewrite, some continuation of the run, through the queues and the swap, ends healthy with a file under the path that is not what it should be |
| AofLoss.ReachableWorker | server/aof.cpp:971-1041 | in every reachable healthy state the flags tell what the background worker is doing, and a worker that has left has left no record queued |
| AofLoss.StopDuringRewriteLosesAll | server/aof.cpp:1055-1058 | from every quiet state, stopping right after a rewrite has started can leave an empty file in place of the database, with every step of the swap reported as a success |
| AofSnapshot.SnapshotForRewrite | server/aof.cpp:620-709 | for every database, empty collections included: the blocks the emitter makes are a snapshot that replays to it if and only if it holds no empty collection; and blocks there are whenever every key, item and expiry fits |
| AofSnapshot.EmptiedSetForgotten | server/commands/set/srem.cpp:49-53 | a run from an empty file: SADD and SREM of one member, both acknowledged, then a rewrite; the emptied set is in the database and not in the one the file replays to |
| AofSnapshot.EmptiedSetIsLost | server/aof.cpp:386-393 | the emitter itself accepts that database, and its blocks do not replay to it |
| AofSnapshot.OversizedIsFatal | server/aof.cpp:555-592 | from every quiet state, a command over the limits of replay is appended and acknowledged under kAlways, and replay then refuses the whole file |
| AofSnapshot.LargeSetIsFatal | server/aof.cpp:566-592 | such a command: one SET of a value as long as the largest command replay accepts, on a freshly opened empty file |
| WriteBatch.WriteBatch | server/aof.cpp:927-969 | for every schedule of short writes, interrupts and errors the file gains a prefix of the concatenated records, in order and once: all of it on success; without empty records, less on failure, and then the schedule failed or wrote nothing |
| WriteBatch.SkipWritten | server/aof.cpp:953-965 | after a short write the blocks and the index that remain are the concatenation without the written bytes, however the cut falls on block borders |
| Replay.Replay | server/aof.cpp:773-847 | replay in chunks of any sizes gives what the whole file read at once gives: verdict, database and number of bytes kept |
| Replay.Drain | server/aof.cpp:787-834 | taking complete commands off a buffer does not change what buffer and unread rest will recover to, and a refusal is final whatever follows |
| Replay.RecoverExact | server/aof.cpp:773-847 | a file of printed commands is recovered, in full, exactly when every command is within the parser's and replay's limits and executes |
| Replay.RecoverPrefix | server/aof.cpp:773-847 | every byte prefix of a log: recovered to the state after its whole commands exactly when these fit and the part of the next command is not already refused; if all commands fit every prefix recovers |
| Replay.RecoverAppend | server/aof.cpp:773-847 | a file recovered in full followed by any bytes recovers as those bytes do from the recovered state |
| Replay.RespSound | server/request_parser.cpp:36-153 | the server's own parser and printer have every property the recovery theorems ask for |
| Replay.RespLoggable | server/request_parser.cpp:68-98 | every command whose text has a length that is a size_t is either read back or refused, never misread |
| Resp.ParseRequest | server/request_parser.cpp:136-153 | the parsing loops decide the same verdict, command and length as the recursive reading of the protocol |
| Resp.ParseArrayLoop | server/request_parser.cpp:68-98 | the loop over array elements agrees with reading them one after the other, including every refusal and every incomplete case |
| Resp.ParseInlineLoop | server/request_parser.cpp:100-133 | the loop over the words of a line agrees with splitting it word by word |
| RespInline.InlineRoundTrip | server/request_parser.cpp:100-133 | any words laid out with any spaces around them, then CRLF or LF and any bytes, are read back as exactly these words, and exactly the line is consumed; a blank line is the empty command |
| RespInline.InlineExact | server/request_parser.cpp:100-133 | conversely, a request that is not an array is incomplete exactly without a line feed, and otherwise read as the words its first line is laid out of |
| RespArray.ArrayReads | server/request_parser.cpp:36-98 | every array of values, with its sizes written in any decimal digits, is read as the command they make, and exactly the array is consumed |
| RespArray.ArrayRead | server/request_parser.cpp:36-98 | and every array request that is read is such an array |
| RespArray.ArrayUndecided | server/request_parser.cpp:36-98 | an array request is incomplete if and only if the input ends within it: in a size, in a value, or between values; any other that is not complete is refused |
| RespArray.PrintedIsArray | server/reply.cpp:88-100 | a printed command is an array of its name and arguments |
| Resp.VerdictStable | server/request_parser.cpp:36-153 | a complete or invalid verdict, and the number of bytes consumed, never change when bytes are appended |
| Resp.CompleteIsLocal | server/request_parser.cpp:36-153 | a complete request is decided by the bytes it consumes alone |
| Resp.IncompleteNeedsMore | server/request_parser.cpp:36-153 | undecided bytes are never completed by a request that ends within them |
| Resp.CommandRoundTrip | server/reply.cpp:88-100 | a printed command followed by anything parses back to itself if it has at most 2^20 elements, and is refused as invalid if it has more |
| Resp.ProperPrefixIncomplete | server/request_parser.cpp:36-98 | every proper prefix of a printed command is incomplete: never invalid, never a shorter command |
| Resp.AppendCommand | server/aof.cpp:196-208 | what is appended to the output is the text the parser reads the command back from |
| Snapshot.RespBulkSize | server/aof.cpp:105-116 | the size predictor gives the length of the printed bulk string |
| Snapshot.RespArrayHeaderSize | server/aof.cpp:118-125 | the size predictor gives the length of the printed array header |
| Snapshot.EmitString | server/aof.cpp:345-375 | a string is refused exactly when the key alone leaves no room in a command; otherwise every chunk passes its own size check and all commands are emitted |
| Snapshot.RunString | server/aof.cpp:345-375 | SET and the APPENDs of the chunks put the string together again, whatever the key held and wherever the value is cut |
| Snapshot.FewCommands | server/aof.cpp:345-375 | a string takes one command if it fits beside its key into a block, and otherwise as many as hold it with all chunks but the last full |
| SnapshotBatches.Batch.Flush | server/aof.cpp:305-323 | a flush never fails its size check, and keeps the elements added |
| SnapshotBatches.Batch.MakeRoom | server/aof.cpp:276-284 | afterwards the batch has fewer than 64 items and the next item keeps the block within its size, or the batch is empty; a command is emitted only if it has 64 items or the next item passes the block size |
| SnapshotBatches.Batch.Append | server/aof.cpp:263-291 | elements are added in order; a refusal means that the item alone is too large for replay, given room for a block |
| SnapshotBuild.EmitCollection | server/aof.cpp:386-426 | a collection becomes batches of at most 64 items, each replayable, which together hold all elements in order, each full before the next; an accepted one has only items that fit, and where a block leaves room it is accepted exactly when every item alone fits |
| SnapshotBuild.BatchesSay | server/aof.cpp:386-426 | the batches of a collection carry the server's name for its type and give its elements in order |
| SnapshotBuild.WalkBuilds | server/aof.cpp:378-439 | adding the walked elements, score before member and field before value, to an empty value builds the value walked |
| SnapshotBuild.EmitRecord | server/aof.cpp:378-439 | a record is said in the server's own commands, by their names as text: SET and APPEND whose values make up the string, SADD the members, RPUSH the elements, ZADD score and member, HSET field and value, each in order, then PEXPIREAT; they put its value and expiry in a database without its key and change nothing else; where a block leaves room it is refused exactly when its key, an item or its expiry does not fit |
| SnapshotBuild.BuildSnapshot | server/aof.cpp:442-450 | every record is said so, one after the other; run on an empty database, the commands give the database walked but for its empty collections; where blocks leave room the walk is refused exactly when a record does not fit |
| SnapshotBuild.SnapshotReplays | server/aof.cpp:442-450 | the blocks of a finished snapshot, replayed on an empty database, give the database walked but for its empty collections |
| SnapshotBuild.TakeSnapshot | server/aof.cpp:890-895 | a snapshot from start to end: blocks that are the text of those commands and replay to that database, for every server whose commands extend those of a snapshot; where blocks leave room there are blocks exactly when every record fits |
| SnapshotBuild.SnapshotExact | server/aof.cpp:378-450 | the snapshot replays to the database walked if and only if that holds no empty collection |
| SnapshotBuild.DbOfEntry | server/aof.cpp:378-439 | a record is in the replayed database, with its value and expiry, if and only if it is not an empty collection |
| Skiplist.Skiplist.Insert | memory/skiplist.h:446-494 | for every level drawn, the links of every level, the spans, the back links and the size are kept, and the key enters the strictly sorted sequence at its place unless it is held |
| Skiplist.Skiplist.DeleteNode | memory/skiplist.h:765-783 | taking a node out of every level keeps links, spans and back links, and the sequence loses that key alone |
| Skiplist.Skiplist.Delete | memory/skiplist.h:510-518 | a key is found exactly when it is held, and then it alone leaves the sequence |
| Skiplist.Skiplist.Update | memory/skiplist.h:525-547 | the key is changed in place when it stays between its neighbours, else moved; the list stays sorted exactly when the new key is not already held elsewhere or is moved |
| Skiplist.InPlaceSorted | memory/skiplist.h:534-545 | a key changed in place leaves the list strictly sorted if and only if no other node holds the new key |
| Skiplist.Skiplist.FindGreaterOrEqual | memory/skiplist.h:737-758 | the descent finds on every level the last node below the key and its rank, the lowest rank being the number of smaller keys |
| Skiplist.Skiplist.Contains | memory/skiplist.h:500-503 | true exactly for the keys held |
| Skiplist.Skiplist.FindKey | memory/skiplist.h:790-807 | adding up spans leads to the node of exactly the given rank, or to none past the end |
| Skiplist.Skiplist.FindRankOfKey | memory/skiplist.h:575-589 | the rank found is the position of the key, so that it inverts FindKey; none exactly for keys not held |
| Skiplist.Skiplist.RangeByKey | memory/skiplist.h:948-978 | the window of the keys between the bounds, for every combination of included and excluded bounds |
| Skiplist.Skiplist.Count | memory/skiplist.h:1027-1045 | the number of keys between the bounds |
| Skiplist.Skiplist.RevRangeByKey | memory/skiplist.h:987-1018 | the window of those keys descending; no answer exactly when the maximum is excluded and every key lies above it |
| Skiplist.Skiplist.RangeByRank | memory/skiplist.h:873-902 | the window of the keys between two ranks |
| Skiplist.Skiplist.RevRangeByRank | memory/skiplist.h:912-940 | the window of the ranks counted from the end of the keys with the head's key before them |
| Ranges.HeadHidden | memory/skiplist.h:925-938 | the head's key shows in a descending range of ranks if and only if a valid range reaches from within the list past its end |
| Skiplist.Skiplist.FindLessOrEqual | memory/skiplist.h:683-693 | the last node whose key is not above the given one, with the head standing for none |
| Skiplist.Skiplist.Clear | memory/skiplist.h:1067-1076 | an empty list of one level with the same head |
| SkiplistCases.UpdateStoresTwice | memory/skiplist.h:525-547 | a run of the list itself: keys 1 and 2, then 1 changed to 2, leave 2 twice and a list that is no longer sorted |
| SkiplistCases.DescendingPastEnd | memory/skiplist.h:912-940 | a run of the list: the three highest of two keys are these and the key of the head |
| SkiplistCases.UpdateDuplicates | memory/skiplist.h:534-545 | the same case for the sequence: the condition for a change in place holds and the result is not sorted |
| Dict.Dict.Do | memory/dict.h:312-643 | lookup, set, insert and delete at every position of a rehash: the content becomes what the operation makes of a map and the report is what the map held, keys are unique across both tables, buckets below the rehash index are empty, no key's bucket ever decreases |
| Dict.Dict.Rehash | memory/dict.h:884-914 | moving buckets changes neither content nor size, passes just as many as n full ones or 10 n empty ones allow, and ends with a single table; true exactly while the rehash goes on |
| Dict.Dict.MigrateRehashedTable | memory/dict.h:917-923 | the second table takes the place of the first with the same content |
| Dict.Dict.RehashStepIfNeeded | memory/dict.h:874-878 | an unpaused step during a rehash makes room for one entry within the bound, or ends it |
| Dict.Dict.Expand | memory/dict.h:846-871 | a table is allocated exactly when a larger one of the smallest sufficient power of two exists and no rehash is on |
| Dict.Dict.ExpandIfNeeded | memory/dict.h:837-843 | afterwards an insertion finds a table, and entries stay within the bound; with fewer than twice as many entries as buckets nothing changes |
| Dict.NextExp | memory/dict.h:679-690 | the smallest power of two that is large enough |
| Dict.Dict.Size | memory/dict.h:47-47 | the counters of both tables add up to the number of keys |
| Dict.Dict.Scan | memory/dict.h:501-528 | one call sees exactly the keys whose bucket is at the cursor, each once, in either table |
| Dict.Create | memory/dict.h:269-306 | a dictionary of the asked capacity, or none exactly when no table can be that large |
| DictRuns.RunOps | memory/dict.h:312-643 | any run of operations refines the same run on a map |
| DictRuns.ScanAmidst | memory/dict.h:501-528 | a scan from cursor 0 to its end, with any operations (growth and rehash included) between its calls, visits every key that stays throughout |
| DictRuns.ScanQuietly | memory/dict.h:501-528 | a scan with nothing in between visits every key exactly once with its value |
| DictRuns.FinishRehash | memory/dict.h:679-914 | a rehash of a table of size S ends within S operations less the buckets passed, with at most 3S entries on the way |
| HashTable.MoreBits | memory/dict.h:652-659 | more bits of a hash never give a smaller bucket |
| ListPackCodec.CodecLossless | memory/listpack.cpp:625-882 | every string reads back as itself from its encoded bytes followed by anything, through all integer widths and string forms, and its length is found from its first bytes |
| ListPackCodec.IntegerFields | memory/listpack.cpp:754-830 | each integer width is told by its first byte and reads back with its sign |
| ListPackCodec.StringFields | memory/listpack.cpp:711-747 | each string form is told by its first byte and gives back length and text |
| ListPackCodec.IntegerSize | memory/listpack.cpp:754-830 | an integer takes as few bytes as hold it: one, two, three, four, five or nine |
| ListPackCodec.StringSize | memory/listpack.cpp:711-747 | a string takes one, two or five bytes more than its own |
| ListPackCodec.BacklenReads | memory/listpack.cpp:835-865 | a length read backwards from its last byte is the one written, whatever stands before it |
| ListPack.ReadBacklen | memory/listpack.cpp:854-865 | the backward loop reads the length, and stops at the byte without the continuation bit |
| ListPack.BackEntry | memory/listpack.cpp:272-285 | from the end of an entry its size is found, so that stepping back inverts stepping on |
| ListPack.ListPack.constructor | memory/listpack.cpp:19-25 | the bytes of an empty list |
| ListPack.ListPack.Get | memory/listpack.cpp:27-59 | the element at an index is the string that was stored |
| ListPack.ListPack.Next | memory/listpack.cpp:260-270 | from the index of an element to that of the next, none after the last |
| ListPack.ListPack.Prev | memory/listpack.cpp:272-285 | from the index of an element, or the end, to that of the one before |
| ListPack.ListPack.First | memory/listpack.cpp:244-250 | the index of the first element, none when empty |
| ListPack.ListPack.Last | memory/listpack.cpp:252-258 | the index of the last element, found backwards from the end |
| ListPack.ListPack.IndexAt | memory/listpack.cpp:155-163 | the index of the element at a position, none past the end |
| ListPack.ListPack.Splice | memory/listpack.cpp:377-444 | moving the rest and writing new entries over some elements gives the bytes of the list with these elements replaced, header included |
| ListPack.ListPack.Insert | memory/listpack.cpp:377-444 | the bytes become those of the list with the element inserted; refused exactly when the total would pass 32 bits |
| ListPack.ListPack.Replace | memory/listpack.cpp:133-135 | the same for replacing an element |
| ListPack.ListPack.DeleteRange | memory/listpack.cpp:167-192 | the elements from an index on are deleted, as many as there are up to the number asked |
| ListPack.ListPack.BatchInsert | memory/listpack.cpp:446-529 | several elements are inserted at once; refused when there are none or no room |
| ListPack.ListPack.Size | memory/listpack.cpp:544-561 | the number of elements, also when the stored count is saturated, which it repairs when it can |
| ListPack.ListPack.Append | memory/listpack.cpp:103-107 | the element goes to the end of the list |
| ListPack.ListPack.Prepend | memory/listpack.cpp:115-118 | the element goes to the front of the list |
| ListPack.ListPack.Range | memory/listpack.h:150-174 | the walk collects exactly the elements between two positions |
| ListPack.ListPack.FindAndSkip | memory/listpack.cpp:82-101 | the first of every skip + 1 elements that equals a value |
| ListPackMatching.DeleteMatching | memory/listpack.cpp:194-242 | all elements equal to a value, or the first or last so many, leave the list, and their number is returned; the runs are cut from the last to the first so that no index moves |
| Removal.DropFirstExact | memory/listpack.cpp:194-242 | what remains when the first n matches go: up to some place no match, after it everything; n went, or all there were |
| Removal.DropLastExact | memory/listpack.cpp:194-242 | the same for the last n |
| QuickList.QuickList.constructor | memory/quicklist.cpp:21-30 | an empty list whose nodes may hold at least the bytes of an empty listpack |
| QuickList.QuickList.LPush | memory/quicklist.cpp:32-41 | the element is put before the others, in the first node exactly if its bytes stay within the limit, else in a new one; the counts of elements and of nodes stay exact |
| QuickList.QuickList.RPush | memory/quicklist.cpp:43-52 | the same at the other end |
| QuickList.QuickList.LPop | memory/quicklist.cpp:54-71 | the first element leaves the sequence and is returned |
| QuickList.QuickList.RPop | memory/quicklist.cpp:73-93 | the last element leaves the sequence and is returned |
| QuickList.QuickList.Locate | memory/quicklist.cpp:215-242 | node and place of the element at a position, from whichever end is nearer; none past the end |
| QuickList.QuickList.NormalizeNodeSizesFrom | memory/quicklist.cpp:292-328 | halving ends, keeps the elements in order, and leaves every node within the limit or with one element |
| QuickList.QuickList.Set | memory/quicklist.cpp:109-125 | exactly the element at the position changes, also when its node must be split and merged |
| QuickList.QuickList.Remove | memory/quicklist.cpp:127-166 | all elements equal to a value, or the first or last so many, leave the sequence across nodes, their number is returned, and afterwards no two neighbouring nodes would fit in one |
| QuickList.QuickList.Trim | memory/quicklist.cpp:168-213 | exactly the elements between two positions remain |
| QuickList.QuickList.Range | memory/quicklist.h:85-114 | the walk over the nodes collects exactly the elements between two positions |
| QuickList.QuickList.MergeNext | memory/quicklist.cpp:349-363 | two nodes become one exactly when both fit in one; the elements stay |
| QuickList.QuickList.MergeAround | memory/quicklist.cpp:365-376 | merging around a node ends and keeps the elements |
| QuickList.QuickList.MergeAll | memory/quicklist.cpp:378-384 | merging ends, keeps the elements, and leaves no two neighbours that would fit in one node |
| List.NodeBytes | memory/quicklist.cpp:271-290 | the bytes of a listpack are the total its quicklist reckons for it, so that the limits on nodes are limits on bytes |
| List.List.constructor | data_types/list/list.cpp:22-25 | an empty list in a listpack |
| List.List.Push | data_types/list/list.cpp:145-155 | the element is put at the chosen end of the sequence; the list is in a listpack afterwards exactly when it was and the bytes fit the limit |
| List.List.Pop | data_types/list/list.cpp:157-174 | the element at the chosen end leaves the sequence; a list left in a quicklist has several nodes or more than half the limit |
| List.List.Set | data_types/list/list.cpp:44-63 | exactly the element at the position changes, whichever storage holds it and whether or not it changes storage |
| List.List.Remove | data_types/list/list.cpp:65-78 | elements equal to a value leave from the chosen end up to the limit, and their number is returned |
| List.List.Trim | data_types/list/list.cpp:80-116 | exactly the elements between two positions remain |
| List.List.Range | data_types/list/list.cpp:126-139 | the elements between two positions |
| List.Run | data_types/list/list.cpp:44-219 | any run of operations refines the same run on a sequence, through every change of storage |
| List.List.ConvertListPackToQuickList | data_types/list/list.cpp:192-207 | the change of storage keeps the sequence |
| List.List.TryConvertQuickListToListPack | data_types/list/list.cpp:209-219 | the change back keeps the sequence, and is made when one node needs at most half the limit |
| PairPack.DecimalScores | data_types/zset/zset_listpack.cpp:195-202 | texts for the scores with the properties asked of them exist: each is short and reads back as its score |
| ZSetCases.OneEntry | data_types/zset/zset.cpp:13-34 | a sorted set with such texts, and an entry in it |
| ZSetCases.FullLosesScore | data_types/zset/zset_listpack.cpp:33-64 | a run of the listpack storage: two keys that fill it to its last byte, and a change of one score to a longer text, after which that key is gone |
| PairPack.PairPack.EntryAt | data_types/zset/zset_listpack.cpp:176-202 | key and score of a pair are read back from two neighbouring elements |
| PairPack.PairPack.FindKey | data_types/zset/zset_listpack.cpp:69-73 | looking at every second element finds the pair with the key, never a score that happens to be equal |
| PairPack.PairPack.InsertPair | data_types/zset/zset_listpack.cpp:42-52 | a pair is put in whole or, without room, not at all |
| ZSetListPack.ZSetListPack.InsertOrUpdate | data_types/zset/zset_listpack.cpp:19-66 | the entries become what the score makes of them if the key has the score already or the bytes without its old pair leave room for the new one, and lose the key exactly when neither holds; true exactly when a new pair went in |
| ZSetListPack.ZSetListPack.Delete | data_types/zset/zset_listpack.cpp:68-75 | the key's entry leaves the list |
| ZSetListPack.ZSetListPack.Rank | data_types/zset/zset_listpack.cpp:86-102 | the number of entries before the key's, none exactly for keys not held |
| ZSetListPack.ZSetListPack.RangeByRank | data_types/zset/zset_listpack.cpp:204-293 | the answer to a range of ranks, in either direction, cut to a window |
| ZSetListPack.ZSetListPack.RangeByScore | data_types/zset/zset_listpack.cpp:295-355 | the answer to a range of scores, in either direction, cut to a window |
| ZSetListPack.ZSetListPack.Count | data_types/zset/zset_listpack.cpp:127-146 | the number of entries in a range of scores, though the walk stops at the first above it |
| ZSetSkiplist.ZSetSkiplist.InsertOrUpdate | data_types/zset/zset_skiplist.cpp:17-52 | dictionary, skiplist and least and greatest keys stay in step, and the entries become what the score makes of them |
| ZSetSkiplist.ZSetSkiplist.Delete | data_types/zset/zset_skiplist.cpp:54-71 | the key's entry leaves dictionary and skiplist, and the least and greatest keys still bound the rest |
| ZSetSkiplist.ZSetSkiplist.RecomputeMinMaxKeys | data_types/zset/zset_skiplist.cpp:172-187 | the walk over the dictionary finds the least and the greatest key |
| ZSetSkiplist.ZSetSkiplist.Rank | data_types/zset/zset_skiplist.cpp:73-80 | the number of entries before the key's, none exactly for keys not held |
| ZSetSkiplist.ZSetSkiplist.RangeByRank | data_types/zset/zset_skiplist.cpp:82-92 | the answer to a range of ranks; normalized ranks keep the head's key out of it |
| ZSetSkiplist.ZSetSkiplist.RangeByScore | data_types/zset/zset_skiplist.cpp:94-102 | the answer to a range of scores; none exactly for a descending query with an excluded maximum below every entry, or at its score with another key than the least |
| ZSetSkiplist.ZSetSkiplist.Count | data_types/zset/zset_skiplist.cpp:104-111 | the number of entries in a range of scores |
| ZSetRanges.SelectIsByScore | data_types/zset/zset_skiplist.cpp:146-170 | entries made of the score limits and the least or greatest key cut the skiplist exactly at the scores |
| ZSetOrder.LexExact | data_types/zset/zset_skiplist.h:33-42 | keys with equal scores come in dictionary order: a proper prefix before what goes on, else the smaller byte where they first differ |
| ZSetOrder.RanksOf | data_types/zset/zset_skiplist.cpp:73-80 | exactly the entries before an entry in a list precede it by score, or by key where the scores are equal |
| ZSetOrder.ScoredExact | data_types/zset/zset_listpack.cpp:19-66 | giving a key a score keeps the list sorted, one entry for each key, and changes no other key |
| ZSetOrder.DropExact | data_types/zset/zset_listpack.cpp:68-75 | so does dropping a key |
| ZSetOrder.ListedUnique | data_types/zset/zset.cpp:21-36 | and a list is determined by its keys' scores |
| ZSetRanges.RankAnswerExact | data_types/zset/zset_range_spec.cpp:10-38 | the answer to a range of ranks is a window on exactly the entries whose ranks, counted from either end, lie between the bounds as given; an excluded bound excludes the rank nearest to it |
| ZSetRanges.RankAnswerOrdered | data_types/zset/zset_listpack.cpp:204-293 | its entries come in the order of scores and then keys, or in reverse |
| ZSetRanges.ByScoreExact | data_types/zset/zset_listpack.cpp:295-355 | the entries between two scores are exactly those, bounds included unless excluded |
| ZSetRanges.ScoreAnswerOrdered | data_types/zset/zset_listpack.cpp:295-355 | the answer to a range of scores comes in the same order, or in reverse |
| ZSetRanges.WindowExact | data_types/zset/zset_listpack.cpp:204-355 | at most count elements, those from the offset on |
| ZSetRanges.NormalizeExact | data_types/zset/zset_range_spec.cpp:10-38 | the normalized ranks are exactly those of the list between the bounds as given, negative ones counted from the end |
| ZSetRanges.Normalize | data_types/zset/zset_range_spec.cpp:10-38 | normalized ranks lie within the list and keep which bounds are excluded |
| ZSet.ZSet.InsertOrUpdate | data_types/zset/zset.cpp:21-34 | the entries become what the score makes of them whichever storage holds them, and a listpack never fills up before it is given up; it stays one exactly with a key of at most 64 bytes and at most 128 entries |
| ZSet.ZSet.ConvertAndExpand | data_types/zset/zset.cpp:73-84 | the change of storage keeps the entries |
| ZSet.Run | data_types/zset/zset.cpp:21-84 | after any run of operations the entries are those the same run makes of a sorted list, and the storage is a listpack if and only if it was one and no operation brought a longer key or the 129th entry |
| ZSet.ZSet.Delete | data_types/zset/zset.cpp:36-36 | the key's entry leaves the set, whichever storage holds it |
| ZSet.ZSet.Rank | data_types/zset/zset.cpp:42-44 | the same rank from either storage: the number of entries that precede the key's by score, or by key in dictionary order where the scores are equal |
| ZSet.ZSet.Score | data_types/zset/zset.cpp:38-40 | the same score from either storage |
| ZSet.ZSet.RangeByRank | data_types/zset/zset.cpp:46-48 | the same answer from either storage, in the order of scores and then keys, or in reverse |
| ZSet.ZSet.RangeByScore | data_types/zset/zset.cpp:50-52 | the same answer in the same order from either storage, but for the one case in which the skiplist has none |
| ZSet.ZSet.Count | data_types/zset/zset.cpp:57-59 | the same number from either storage |
| SkiplistCases.DescendingReadsHead | data_types/zset/zset_skiplist.cpp:94-102 | a run of the skiplist storage: one entry with score 5, and a descending query up to but excluding 3, which has no answer |
| SkiplistCases.NothingBelowExcluded | memory/skiplist.h:992-1000 | in that case the answer should be empty, and the condition for none holds |
| Glob.MatchesGlob | utils/string_utils.cpp:163-201 | the matcher, which goes back only to the last star, accepts exactly the texts the recursive meaning of the pattern accepts, and ends |
| Glob.MatchCharacterClass | utils/string_utils.cpp:45-80 | a class, negated or not, with ranges and escapes, or an unterminated bracket as a character, is tested and skipped as its meaning says |
| GlobPatterns.Matches | utils/string_utils.cpp:45-201 | for every pattern of literals, escapes, ?, *, and classes with negation, characters and ranges in either order: the matcher, given the pattern as it is written, accepts a text if and only if the pattern means it |
| GlobPatterns.EveryTextIsPattern | utils/string_utils.cpp:45-95 | every text is such a pattern as it is written, unclosed brackets and a last backslash standing for themselves |
| GlobPatterns.SpansAt | utils/string_utils.cpp:45-80 | the characters and ranges of a class are read back as they are written, up to the first closing bracket not after a backslash |
| Glob.StarForgets | utils/string_utils.cpp:163-201 | at a star an earlier star need not be retried: whatever it could still match, the later one matches |
| Glob.EndForgets | utils/string_utils.cpp:163-201 | at the end of the text no retry can succeed |
| Decimal.Digits10 | utils/int_utils.cpp:6-32 | the number of decimal digits |
| Decimal.Uint64ToString | utils/string_utils.cpp:279-313 | the buffer holds the decimal digits and a terminator, or is left empty when they do not fit |
| Decimal.Int64ToString | utils/string_utils.cpp:250-277 | the same with a sign, for the least integer too |
| Decimal.ToInt64 | utils/string_utils.cpp:203-241 | the loop with its overflow checks reads exactly the numerals of 64-bit integers |
| Decimal.NumeralExact | utils/string_utils.cpp:203-241 | a text reads as a value if and only if the grammar of numerals says so |
| Decimal.ToCanonicalInt64 | utils/string_utils.cpp:243-248 | accepts exactly the canonical texts: no plus sign, no minus before zero |
| Decimal.IntegerExact | utils/string_utils.cpp:243-248 | a text is a canonical integer if and only if it is the printed form of a 64-bit value |
| Decimal.DigitsOfValue | utils/string_utils.cpp:279-313 | printing inverts reading on canonical digits |
| Decimal.ValueOfDigits | utils/string_utils.cpp:203-241 | reading inverts printing |
| Decimal.DigitAt | utils/string_utils.cpp:279-313 | each printed digit is that of its power of ten |
| IntSet.IntSet.Add | memory/intset.cpp:19-36 | the set gains the value and stays ascending in its cells, of the narrowest width the values so far need; false exactly when it was held |
| IntSet.IntSet.UpgradeAndAdd | memory/intset.cpp:83-116 | every old value survives in wider cells, and the new one, outside their width, belongs at the end it is put at |
| IntSet.IntSet.Remove | memory/intset.cpp:47-57 | the set loses the value, if it holds it |
| IntSet.IntSet.Search | memory/intset.cpp:118-152 | whether a value is held, and the place where it is or belongs |
| IntSet.IntSet.Find | memory/intset.cpp:42-45 | true exactly for the values held, whatever their width |
| IntSet.IntSet.Get | memory/intset.cpp:38-40 | the values in ascending order, none past the last |
| IntSet.CellRoundTrip | memory/intset.cpp:154-187 | a value is read back with its sign from a cell wide enough for it |
| IntSet.IntSet.Largest | memory/intset.cpp:59-59 | the greatest value, none when empty |
| IntSet.IntSet.Smallest | memory/intset.cpp:61-61 | the least value, none when empty |
| ReplyBuffer.ReplyBuffer.Append | memory/reply_buffer.cpp:20-30 | all bytes are taken and come after those pending; the buffer is filled first while there are no nodes, and a node is added exactly if the last one has no room for the rest |
| ReplyBuffer.ReplyBuffer.AppendString | memory/reply_buffer.cpp:32-45 | the same for a string that is moved in: copied if the buffer has room for all of it, else a node of its own |
| ReplyBuffer.ReplyBuffer.FillBlocks | memory/reply_buffer.cpp:72-86 | the blocks are the pending bytes in order, none of them empty |
| ReplyBuffer.ReplyBuffer.Consume | memory/reply_buffer.cpp:93-129 | exactly the first so many pending bytes go, or all of them, and the count of pending bytes is exact |
| ReplyBuffer.Exchange | memory/reply_buffer.cpp:20-173 | over any mix of replies and partial sends, the bytes sent and those pending are the replies in order |

## Left out

- Sockets, the event loop, command handlers, options, logging and the hash and set types: dispatch over the parts modelled here.
- File descriptors, temporary files, errno and permissions: a file is its bytes and a synced length.
- The wall clock: expiry, the one-second sync interval and the retry delay are steps that may happen at any time; automatic rewrites are rewrites that start at any time.
- Appends without a text (server/aof.cpp:561-563) do nothing and are not steps.
- `Open` and truncation of an incomplete tail: a run starts from a file that replays in full, and `Replay.Replay` gives the number of bytes kept.
- Overflow of `size_t` in sums of lengths, and of the 32-bit product of index and width in the integer set: lengths are mathematical integers, except where the code checks them.
- Random levels, hash values, custom equality of the dictionary and destructors: levels and hashes are arguments, equal keys are the same key.
- Chains of the dictionary, nodes of the quicklist and nodes of the reply buffer are sequences, not linked cells; update in place of the links and aliasing are not captured there.
- Visitors that change the structure they visit, and `ForEachReverse`: collecting walks stand for the visitors.
- Listpack elements of 2^31 bytes and more: their length is not read back by the code (memory/listpack.cpp:880).
- List.List.constructor: byte limits above 2^30, with which a listpack could refuse an element for being full, are not modelled; the server uses 8192.
- QuickList.QuickList.constructor: elements are weighed by a function, which `List.NodeBytes` ties to listpack bytes; failures of a node's listpack at 4 GB are not modelled.
- ZSet.ZSet.constructor: a score is its place in the order of the doubles without NaN; that its text is short and reads back is asked of the two functions given, and `PairPack.DecimalScores` shows two.
- The iterator of the dictionary (memory/dict.h:145-255): scans stand for it.
- `ZSetSkiplist` keeps keys and scores in a map, not in the dictionary object of `Dict`.
- Skiplist.Skiplist.RevRangeByKey: where the code reads the head's unset key the model gives no answer instead of one that depends on it.
- WriteBatch.WriteBatch: a batch with empty records may stop without an error of the schedule.
- SnapshotBuild.BuildSnapshot: the receiver of blocks does not fail here; in the protocol it may.
- Dict.Dict.Scan: the visitor sees keys and values, and does not change the dictionary while one bucket is visited.
