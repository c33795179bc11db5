# tiny-redis in Dafny

A model of the portable core of tiny-redis and proofs about it: the chained hash table with its
resumable scan, the expiring and evicting store on top, the RESP2 parser and printer, command
execution, the connection, the event batch and SipHash.

`dafny verify dfyconfig.toml` checks everything.

## How it is laid out

| files | what they model |
|---|---|
| `basics` | what several modules use |
| `bits`, `scan` | power-of-two masks, the reverse-binary cursor, and the scan as a state machine |
| `splitmix`, `siphash`, `sip_rounds` | the generator and the hash, on naturals below 2^64, and the hash a second way |
| `entry`, `table_model`, `table`, `sampling`, `scan_calls` | entries, the table's invariants, the table as a class, the eviction sample, and calls in a row as runs of the scan |
| `store_spec`, `store` | what each store operation does on a map, and the store as a class |
| `store_runs`, `store_steps`, `store_limits`, `reaping`, `expiry_books`, `first_stop`, `lru`, `key_lives` | whole runs of operations: what they answer, that the class's calls are such runs, the cap, reaping, the expired counter, recency, and one key over a run |
| `resp`, `resp_parser`, `resp_laws`, `inline_laws`, `array_laws`, `replies` | the grammar, the parser in place, its laws, what each form accepts and refuses, and replies against a client's decoder |
| `command_spec`, `command_laws`, `command_texts`, `command_answers`, `commands` | what commands do, what holds of all of them, what each says and leaves by its text, and the code |
| `command_rows`, `command_runs`, `command_sessions` | rows and lives of commands, commands with expire cycles as runs of the store, and what sessions answer |
| `buffer`, `stream`, `pipelines`, `conversation`, `connection`, `write_laws`, `server` | the byte queue, streams and splits, rows of commands sent at once, what splits do to replies and store, the connection, and handler lifetimes |
| `end_to_end` | bytes read against the plain map's replies |

The pool is a slab of blocks and an `Entry*` is a block number; spill blocks live in a map from
addresses to bytes. The hash is any function of the key, so the table theorems hold for every hash
and seed. What the outside decides is an argument or an arbitrary choice: the clock, what a read
gives, what a write takes, whether epoll accepts a change, what epoll reports, which descriptor
and address are free. The entries the eviction sampler meets are part of a step, so a theorem over
all runs holds for every sample.

Loops are proved against recursive specification functions. Where a loop over heap state meets
such a function, a ghost function value with the same equations stands for it. `Healthy`, `InStep`,
`Leaves` and `Heeds` in `connection` are carried whole from method to method; `HealthyIsValid`,
`Stands` and `Heeded` open them.

Where comments and code disagree the code is followed: `parseInt` (src/core/command.cpp:95-104)
accepts a leading minus sign and leading zeros, because `std::from_chars` does.

Two properties fail as one might state them. With eviction on, a hit does not always have the value
of the map that never evicts: a key set with a deadline, evicted, and set again with KEEPTTL has no
deadline left to keep and outlives it. `StoreLimits.OutlivesItsDeadline` gives the run, and
`StoreLimits.StepHits` proves that this is the only way. And TTL's rounding can overflow, but only
while the clock, which counts from the start of the machine, is below 500 ms:
`CommandLaws.TtlOverflows` gives the commands, `CommandLaws.TtlFitsFrom` the exact condition.

## Model

| member | source | states |
|---|---|---|
| `Bits.ReverseBits` | src/core/bits.cpp:8-15 | the shift loop computes the reversal of the masked bits |
| `Bits.RevRev` | src/core/bits.cpp:8-15 | reversing twice gives the masked value back, for every power-of-two mask, so reversal is a bijection on buckets |
| `Bits.RevDouble` | src/core/bits.cpp:8-15 | doubling the table turns a reversed index r into 2r or 2r + 1 |
| `Bits.ComputeNextCursor` | src/core/bits.cpp:28-37 | the cursor step is the reverse-binary successor, 0 at the end |
| `Bits.NextCursorSteps` | src/core/bits.cpp:28-37 | one step moves the reversed cursor up by exactly one, and the cursor is 0 again only after the last bucket |
| `Bits.NextPow2` | src/core/bits.cpp:20-26 | the least power of two that is at least n, and 1 for 0 |
| `Scan.DoublingKeepsAhead` | src/core/table.h:26-28 | a doubling keeps every entry on its side of the cursor |
| `Scan.VisitsExact` | src/core/table.h:80-89 | over any interleaving of scan steps, inserts with any number of doublings, assigns and removals within a cycle, the number of visits of an entry that stays is what the cursor positions say |
| `Scan.FullCycleVisitsOnce` | src/core/table.h:56-59 | a full cycle from cursor 0 back to 0 visits every entry present throughout exactly once |
| `Scan.NeverVisitedTwice` | src/core/table.h:26-28 | within a cycle no entry is visited twice while it stays |
| `Scan.InsertIsStep` | src/core/table.cpp:34-65 | an insert, with the growth it may cause, is the insert step of the scan machine |
| `Scan.AssignIsStep` | src/core/table.cpp:67-88 | an assign is the assign step of the scan machine |
| `Scan.RemoveIsStep` | src/core/table.cpp:90-104 | a removal is the removal step of the scan machine |
| `Scan.ScanIsStep` | src/core/table.h:80-89 | a bucket scan whose visitor removes some of what it visits is the visit step of the scan machine |
| `ScanCalls.CallTakes` | src/core/table.h:42-89 | every table call is at most one step of the scan machine and hands over exactly what that step visits |
| `ScanCalls.Perform` | src/core/table.h:42-89 | one call changes the map, the bucket count and the cursor as a plain map with that bucket count would |
| `ScanCalls.PerformAll` | src/core/table.h:42-89 | any calls in a row leave the table as the plain map would be, are a legal run of the scan machine, and hand each key to the visitor as often as that run visits it |
| `ScanCalls.HandedOnce` | src/core/table.h:56-59 | over any calls that complete a cycle from cursor 0, the visitor is handed every key present throughout exactly once; within a cycle, at most once |
| `SplitMix.Draw` | src/core/bits.cpp:39-46 | one draw advances the state by the odd increment and returns the mix of the new state |
| `SplitMix.MixOnto` | src/core/bits.cpp:39-46 | the mixer is onto: every 64-bit word is the output of some state |
| `SplitMix.AdvanceCloser` | src/core/bits.cpp:39-46 | the state walk has full period: from any state, each advance is one step closer to any target |
| `Entries.FilledReadsBack` | src/core/table.cpp:54-56 | copying the key and then the value behind it gives bytes that read back as both |
| `Tables.MakeEntry` | src/core/table.cpp:34-65 | a new entry holds its key and value, inline or in a spill block of its own |
| `Tables.Reassign` | src/core/table.cpp:67-88 | through all four assign paths the key stays, the value is the new one, and the spill block is kept, made, dropped or replaced so that a spilled entry owns exactly one block |
| `Tables.MoveOut` | src/core/table.cpp:74-77 | growing out of the buffer moves the key and the value to a new block and gives the old one back |
| `Tables.MoveIn` | src/core/table.cpp:78-87 | shrinking into the buffer moves the key and the value inline and gives the block back |
| `Tables.WriteOver` | src/core/table.cpp:80-86 | where there is room the value is written behind the key, which stays |
| `Tables.Unlink` | src/core/table.cpp:90-97 | following the links to the one that holds the entry removes just that entry from its chain |
| `Tables.Relink` | src/core/table.cpp:155-172 | relinking every node puts each in the chain its hash and the new mask select, keeping all nodes |
| `Tables.FreeAll` | src/core/table.cpp:106-119 | clearing frees every chained block and every spill block |
| `Tables.Table.constructor` | src/core/table.cpp:15-17 | an empty table with a power-of-two bucket count |
| `Tables.Table.Find` | src/core/table.cpp:21-32 | the entry of the key when there is one, else null |
| `Tables.Table.Record` | src/core/entry.h:32-58 | what an entry reads as is what the map holds for its key |
| `Tables.Table.Insert` | src/core/table.cpp:34-65 | adds one record to the map for an absent key; null and nothing changed only when the pool is empty; grows by one doubling when entries outnumber buckets; all table invariants kept |
| `Tables.Table.Rehash` | src/core/table.cpp:155-172 | every entry keeps its block, key, record and spill block; only chains change |
| `Tables.Table.Remove` | src/core/table.cpp:90-104 | takes one record out of the map, frees its block and its spill block, and leaves the other chains alone |
| `Tables.Table.Assign` | src/core/table.cpp:67-88 | replaces the value and nothing else |
| `Tables.Table.Clear` | src/core/table.cpp:106-119 | the empty map, every block free, no spill block left |
| `Tables.Table.SampleSome` | src/core/table.cpp:121-140 | the bucket walk from the drawn index, stopped by the sample size or the bucket budget |
| `Tables.Table.ScanBucket` | src/core/table.h:80-89 | hands over each key chained at the cursor exactly once and no other, removes exactly those the visitor drops, returns the next cursor |
| `Tables.Table.VisitChain` | src/core/table.h:83-87 | the same for one chain, whose links are read before the visitor may free the entry |
| `Tables.Probe` | src/core/table.cpp:25-29 | hash, length and bytes compare equal for the entry of the key alone |
| `TableModel.InsertWf` | src/core/table.cpp:34-65 | insertion keeps the table invariants: chains acyclic, disjoint and in the right bucket, keys unique, counts exact, each spill block owned by exactly one spilled entry |
| `TableModel.UpdateWf` | src/core/table.cpp:67-88 | assignment keeps the table invariants |
| `TableModel.RemoveWf` | src/core/table.cpp:90-104 | removal keeps the table invariants |
| `TableModel.RelinkedWf` | src/core/table.cpp:155-172 | rehashing keeps the table invariants and every entry identity |
| `Sampling.SampleDistinct` | src/core/table.cpp:126-139 | sampled entries are distinct members of the table |
| `Sampling.SampleCovers` | src/core/table.cpp:126-139 | when the sample size and its bucket budget cover the table, every entry is sampled |
| `Stores.Store.constructor` | src/core/store.cpp:39-52 | an unset cap means the pool capacity; a set cap presizes the table to it; the generator starts from the salted seed |
| `Stores.Store.Lookup` | src/core/store.cpp:56-69 | an expired entry is freed and counted instead of found |
| `Stores.Store.Find` | src/core/store.cpp:106-117 | a hit is the live entry and a touch stamps it |
| `Stores.Store.Erase` | src/core/store.cpp:167-176 | removes a live key; true exactly when there was one |
| `Stores.Store.SetExpireAt` | src/core/store.cpp:178-199 | sets the deadline of a live key or, for a past one, removes it |
| `Stores.Store.TtlMs` | src/core/store.cpp:201-213 | the remaining time or one of the two sentinels |
| `Stores.Store.Set` | src/core/store.cpp:119-165 | overwrites, inserts after making room, drops on a past deadline, or is refused only under noeviction for a new key when full |
| `Stores.Store.InsertNew` | src/core/store.cpp:152-163 | below the cap the pool has a block, so the insert cannot fail |
| `Stores.Store.DrawSample` | src/core/store.cpp:79-83 | the retry loop ends on every non-empty table from every generator state |
| `Stores.HitState` | src/core/store.cpp:79-83 | some generator state starts the walk at a bucket that holds an entry |
| `Stores.Store.ReapSample` | src/core/store.cpp:88-96 | frees exactly the expired sampled entries and keeps a longest-idle one of the rest |
| `Stores.Store.EvictOne` | src/core/store.cpp:71-104 | frees either every expired entry of the sample, counted as expiries, or exactly one longest-idle entry, counted as an eviction |
| `Stores.BestIsBest` | src/core/store.cpp:88-96 | the entry kept is live and no live sampled entry has been idle longer |
| `Stores.Store.RunPass` | src/core/store.cpp:231-242 | one pass stops at the sample limit, at 20 buckets per sample, or at the end of the scan cycle |
| `Stores.Store.ActiveExpireCycle` | src/core/store.cpp:215-255 | passes repeat while more than a tenth of the last was expired, at most 16 |
| `Stores.Store.Clear` | src/core/store.cpp:257-260 | the empty store with the cursor back at 0 |
| `StoreRuns.CycleReaps` | src/core/store.cpp:215-255 | a cycle removes only expired keys, and the counters count each of them |
| `StoreRuns.StepAgrees` | src/core/store.cpp:106-255 | every operation answers as a plain map whose items vanish when their deadline passes, and goes on agreeing with it |
| `StoreRuns.RunAgrees` | src/core/store.cpp:56-255 | over every run with a clock that never goes back, whatever expire cycles are interleaved, every answer is the plain map's; an eviction shows as a removal |
| `StoreSteps.Perform` | src/core/store.h:44-68 | every call of the store is one step of the run model, with its answer |
| `StoreSteps.PerformAll` | src/core/store.h:44-68 | any calls in a row are a legal run of the model, making exactly those calls, with its answers and final state |
| `StoreSteps.PerformFromEmpty` | src/core/store.cpp:56-260 | from an empty store, any calls in a row with a clock that never goes back answer as the plain map does |
| `StoreLimits.BelowTheCap` | src/core/store.cpp:119-165 | while the keys set and not removed fit the cap, the store is the plain map and evicts nothing, whatever the policy |
| `StoreLimits.StepHits` | src/core/store.cpp:71-165 | with eviction, every hit has the value of the map that never evicts, and an operation keeps it so if and only if it is not a KEEPTTL set of an evicted key whose deadline that map still holds |
| `StoreLimits.RunHits` | src/core/store.cpp:71-165 | over every run without such a set, every hit has that map's value |
| `StoreLimits.OutlivesItsDeadline` | src/core/store.cpp:152-161 | the counterexample: set with a deadline, evicted, set again with KEEPTTL, found after the deadline |
| `StoreLimits.StepBalances` | src/core/store.cpp:56-260 | one operation: new keys in equal keys held, evicted, expired, deleted or cleared; the cap holds; a presized table does not grow |
| `StoreLimits.BooksBalance` | src/core/store.cpp:39-260 | the same over every run, from any reachable state |
| `Reaping.ScanCloser` | src/core/table.h:80-89 | scanning one bucket frees an expired key or brings its bucket one nearer |
| `Reaping.ReapedInTime` | src/core/store.h:62-66 | with the bucket count fixed, no entry stays expired through as many cycles as there are buckets, whatever else is interleaved |
| `Reaping.ReapedByCycles` | src/core/store.h:62-66 | as many successive cycles as there are buckets free every entry expired at the first |
| `Reaping.ScanAhead` | src/core/table.h:80-89 | a scanned bucket that keeps an expired key keeps the key on its side of the cursor, and a wrap puts it ahead |
| `Reaping.RunAhead` | src/core/store.h:62-66 | over any run, doublings included, in which an entry stays expired, the wraps of the cursor are exactly what its place against the cursor gains |
| `Reaping.ReapedByWrap` | src/core/store.h:62-66 | however the table grows meanwhile, no entry stays expired while the cursor comes back to 0 twice, or once when it starts there |
| `Reaping.ScannedBound` | src/core/store.cpp:228-252 | a cycle scans at most 16 * 20 * sampleLimit buckets |
| `Lru.IdleIsAge` | src/core/store.cpp:28-30 | the wrapped 32-bit difference is the true age modulo 2^32, so it is the age if and only if that is below 2^32 |
| `Lru.RunStamped` | src/core/store.cpp:106-199 | over every run each entry carries the clock of its true last use |
| `Lru.EvictsTrueLru` | src/core/store.cpp:71-104 | when the sample covers the table, nothing in it is expired and all ages are below 2^32 ms, the victim is a true least recently used key |
| `Resp.ReadInt` | src/core/resp.cpp:230-260 | digit by digit with the exact overflow test |
| `Resp.NumberReadsDecimal` | src/core/resp.h:88-91 | accepts v exactly when the text is the canonical decimal of v and v fits 64 bits |
| `Resp.ReadLine` | src/core/resp.cpp:180-228 | the windowed line reader |
| `Resp.FoundIsLine` | src/core/resp.cpp:189-227 | a line is found exactly when there is a legal one: at most maxLen bytes up to the first line end |
| `Resp.LineVerdict` | src/core/resp.cpp:194-222 | too long means that no bytes that may follow make a legal line; more means that some do |
| `Resp.LineStable` | src/core/resp.cpp:180-228 | a verdict other than incomplete is unchanged by more bytes |
| `Resp.TakeBytes` | src/core/resp.cpp:154-178 | exactly len bytes with CRLF behind them |
| `RespParser.ParseArray` | src/core/resp.cpp:99-145 | fills the slots and publishes them only when the whole frame is there |
| `RespParser.ParseInline` | src/core/resp.cpp:65-97 | the tokens of the first line, as `InlineLaws` states them on the bytes |
| `RespParser.ParseCommand` | src/core/resp.cpp:265-285 | the verdict and the command, blank past its arguments and blank throughout on failure |
| `RespLaws.CommandStable` | src/core/resp.cpp:65-228 | an accepted command or a protocol error is unchanged by appending bytes |
| `RespLaws.PrefixIncomplete` | src/core/resp.h:103-104 | every strict prefix of an accepted command is incomplete |
| `RespLaws.EncodedReadsBack` | src/core/resp.cpp:297-305 | parsing the encoding of any arguments within the limits returns them and takes the whole frame |
| `RespLaws.ArrayIsEncoded` | src/core/resp.cpp:99-145 | any accepted array is, byte for byte, the encoding of its arguments |
| `RespLaws.IncompleteIsShort` | src/core/resp.h:30-38 | an incomplete input is shorter than the longest command |
| `RespLaws.LongestIncomplete` | src/core/resp.h:30-38 | that bound is exact |
| `RespLaws.ArgumentsFit` | src/core/resp.h:30-38 | no argument passes the bulk limit |
| `RespLaws.TokensOfWoven` | src/core/resp.cpp:74-92 | however a line is woven from blanks and tokens, the tokens are what is read |
| `RespLaws.LineIsWoven` | src/core/resp.cpp:74-92 | every line is woven from the tokens read |
| `Replies.DecodesBack` | src/core/resp.cpp:287-305 | every framed reply decodes to itself whatever follows |
| `Replies.StreamDecodes` | src/core/resp.cpp:287-305 | a stream of framed replies decodes into exactly those replies in order |
| `CommandSpec.RowFrom` | src/core/command.cpp:81-88 | the first row with the name in any case, or none |
| `CommandSpec.Sanitized` | src/core/command.cpp:115-122 | echoed bytes hold no line break |
| `CommandLaws.ParseIntReadsBack` | src/core/command.cpp:97-104 | what a number prints as reads back exactly when it fits 64 bits |
| `CommandLaws.DeadlineExact` | src/core/command.cpp:107-113 | a deadline is given exactly when the sum fits 64 bits, and then it is later than now and neither sentinel |
| `CommandLaws.SetOptionsGood` | src/core/command.cpp:157-183 | what SET passes to the store is no deadline, the old one, or one later than now |
| `CommandLaws.ExecDeadlines` | src/core/command.cpp:153-210 | every command keeps every stored deadline none or a positive 64-bit time |
| `CommandLaws.TtlFits` | src/core/command.cpp:213-216 | for a stored deadline the time left fits 64 bits, and rounding it overflows if and only if the deadline is past INT64_MAX - 500 + now |
| `CommandLaws.TtlFitsFrom` | src/core/command.cpp:213-216 | TTL stays within 64 bits for every deadline there can be if and only if the clock is at least 500 |
| `CommandLaws.TtlOverflows` | src/core/command.cpp:107-113 | the counterexample: at any clock below 500, SET k v PX (INT64_MAX - now) is accepted and TTL k at once overflows |
| `CommandLaws.TtlOfFreshSet` | src/core/command.cpp:213-216 | SET k v EX n followed at once by TTL k answers n |
| `CommandLaws.TtlAfterExpire` | src/core/command.cpp:194-216 | EXPIRE k n that finds its key is answered by TTL at once with n |
| `CommandLaws.GetAfterSet` | src/core/command.cpp:153-226 | a SET answered OK is read back by GET |
| `CommandLaws.DelCounts` | src/core/command.cpp:228-234 | DEL removes every key it names and counts each live one once |
| `CommandLaws.ExistsCounts` | src/core/command.cpp:237-243 | EXISTS counts every mention of a live key and changes no live key |
| `CommandLaws.ErrorChangesNothing` | src/core/command.cpp:153-282 | every error reply leaves the whole store unchanged, OOM included |
| `CommandLaws.ReplyFramed` | src/core/command.cpp:115-149 | no argument can break the frame of a reply |
| `CommandLaws.ClosesOnQuit` | src/core/command.cpp:315-317 | only QUIT, in any case, closes the connection |
| `CommandRows.RepliesDecode` | src/core/command.cpp:269-320 | what is answered to any commands, each at its own clock and whatever happens to the store between them, decodes uniquely into one reply per named command, in order, none for an empty one |
| `CommandRows.PlayOn` | src/net/connection.cpp:72-95 | playing two rows of commands one after the other is playing them as one |
| `CommandRuns.EventLeads` | src/core/command.cpp:153-320 | every command, and every expire cycle, is a legal run of store operations at its clock; it leaves the state that run ends in, and its reply is a function of the answers alone |
| `CommandRuns.SessionIsRun` | src/net/server.cpp:122-133 | any commands and cycles in any order, the clock never going back, are one legal run of the store |
| `CommandRuns.SessionAgrees` | src/core/command.cpp:153-320 | over any such session every reply is the one a server over the plain map would give |
| `CommandRuns.PlainGet` | src/core/command.cpp:218-226 | that server answers GET with the plain map's value, or nil when it holds none or its deadline has passed |
| `CommandRuns.PlainSetTakes` | src/core/command.cpp:153-190 | a SET that server takes is visible at once and changes no other key but the evicted ones |
| `CommandSessions.RowIsSession` | src/net/connection.cpp:72-95 | a row of dispatched commands, fairly sampled and in time, is a session that ends in the same store with the same replies |
| `CommandSessions.RowAgrees` | src/net/connection.cpp:72-95 | what a row of dispatched commands answers is what a server over the plain map would, and the store goes on agreeing with it |
| `CommandSessions.ReplyIsPlain` | src/core/command.cpp:153-320 | at every point of a session the reply is what the plain map at that point makes it |
| `CommandSessions.GetAnswersLastSet` | src/core/command.cpp:218-226 | over any session, GET answers the value of the last SET of its key answered OK that nothing has since deleted, evicted, flushed or given another deadline, exactly until its deadline, and nil after it |
| `CommandSessions.GetAnswersNothing` | src/core/command.cpp:218-226 | GET answers nil when the key was not there, or was deleted, evicted or flushed, and no SET of it has been answered OK since |
| `KeyLives.RowsSpare` | src/core/store.cpp:106-260 | rows of operations that do not concern a key leave its item as it was |
| `KeyLives.StaysAway` | src/core/store.cpp:167-176 | a key taken away stays away until it is set |
| `CommandRuns.SessionBooks` | src/core/store.cpp:39-260 | over any session the books balance, the cap holds and every entry carries its true last use |
| `CommandRuns.DeadlinesThroughout` | src/core/command.cpp:107-113 | throughout any session from the empty store every stored deadline is none or a positive 64-bit time |
| `CommandRuns.TtlFitsThroughout` | src/core/command.cpp:213-216 | from the empty store, at any point of any session, TTL at a clock of at least 500 stays within 64 bits |
| `Commands.AppendReply` | src/core/resp.cpp:287-305 | appends the encoding of the reply and nothing else |
| `Commands.ParseSetOptions` | src/core/command.cpp:157-183 | the option loop computes the option grammar that `CommandTexts` states on the texts |
| `Commands.CmdSet` | src/core/command.cpp:153-190 | the effect and reply of SET |
| `Commands.CmdExpire` | src/core/command.cpp:194-210 | the effect and reply of EXPIRE; the store is never given a sentinel |
| `Commands.CmdTtl` | src/core/command.cpp:213-216 | the effect and reply of TTL |
| `Commands.CmdGet` | src/core/command.cpp:218-226 | the effect and reply of GET |
| `Commands.CmdCount` | src/core/command.cpp:228-243 | the effect and reply of DEL and EXISTS |
| `Commands.CmdFlushall` | src/core/command.cpp:256-265 | the effect and reply of FLUSHALL |
| `Commands.Dispatch` | src/core/command.cpp:269-320 | one reply for a command with a name, none for an empty one; an error reply changes neither the store nor the generator state |
| `Buffers.Buffer.EnsureWritable` | src/core/buffer.cpp:25-40 | the queue is unchanged, there is room, and growth stays below twice the bytes held and asked for |
| `Buffers.Buffer.Append` | src/core/buffer.cpp:56-66 | the queue is the old one with the bytes behind it |
| `Buffers.Buffer.Consume` | src/core/buffer.cpp:47-54 | the queue loses its first n bytes |
| `Buffers.Buffer.Compact` | src/core/buffer.cpp:79-86 | the queue and the capacity are unchanged |
| `Streams.LeftIsIncomplete` | src/net/connection.cpp:75-95 | what an open connection has left is empty or the start of one command |
| `Streams.ScriptGoesOn` | src/net/connection.cpp:67-96 | more bytes only add to what a waiting connection dispatches, and change nothing of a closing one |
| `Streams.SplitsDoNotShow` | src/net/connection.cpp:67-96 | for every way of splitting a stream into reads, the commands dispatched, the bytes left and the verdict are those of the bytes put together |
| `Conversations.SplitsChangeNothing` | src/net/connection.cpp:67-96 | for anything that serves commands row by row, every way of splitting a stream ends as if it had come in one read |
| `Conversations.SameStreamSameReplies` | src/net/connection.cpp:67-96 | at one clock and with the same sampler choices, two ways of splitting one stream give the same reply bytes, the same store and the same bytes left |
| `Connections.ProcessInput` | src/net/connection.cpp:67-96 | plays exactly the commands the bytes spell, in order and at one clock, on the store; says their replies and the one to a protocol error; leaves the rest |
| `Connections.ReadIsHeed` | src/net/connection.cpp:28-43 | a read is a step of such a conversation with the store, so splitting does not show in replies or store |
| `EndToEnd.ReadSaysPlain` | src/net/connection.cpp:28-43 | what a read adds to what was said is the plain map's replies to the commands it completes, and then the one to malformed bytes; the store goes on agreeing, for the next read of this or another connection |
| `EndToEnd.TickKeepsPlain` | src/net/server.cpp:126-130 | an expire cycle between reads does not show |
| `EndToEnd.StreamSaysPlain` | src/net/connection.cpp:67-96 | a whole stream at one clock, however split into reads, is answered by exactly the plain map's reply bytes |
| `Connections.StepsOn` | src/net/connection.cpp:67-96 | after a read the log holds the commands of the whole stream so far, and what was said is their replies |
| `Connections.DrainOf` | src/net/connection.cpp:98-116 | what a list of write outcomes takes and leaves; the two together are what was queued |
| `Connections.Connection.constructor` | src/net/connection.cpp:18-24 | an open connection that has seen, said and sent nothing |
| `Connections.Connection.WholeLifeDecodes` | src/net/connection.cpp:28-124 | over a whole life, what was sent and what is queued decode into exactly the replies made; the log holds exactly the commands of the stream, and the replies are one to each named one, in order, and one to malformed bytes |
| `Connections.Connection.Drain` | src/net/connection.cpp:99-116 | sends and leaves exactly what the outcomes of the writes say, and fails exactly when one of them does |
| `Connections.Connection.Respond` | src/net/connection.cpp:38-40 | a read that gave bytes: the commands they complete are played, then the output is written |
| `Connections.Connection.OnReadable` | src/net/connection.cpp:28-55 | the whole effect of a read event: bytes taken, commands played on the store, replies said, bytes sent; it closes if and only if the peer has, the read failed, or the flush closes it; input left is incomplete and bounded, interest matches |
| `Connections.Connection.OnWritable` | src/net/connection.cpp:57-63 | the whole effect of a write event; a closed connection does nothing |
| `Connections.Connection.FlushOutput` | src/net/connection.cpp:98-124 | closes if and only if a write failed, all is written while closing, or epoll refused a change it needed; otherwise the state is unchanged and interest matches |
| `Connections.Connection.UpdateInterest` | src/net/connection.cpp:135-160 | writability is watched exactly while output is pending, readability exactly while open; closes exactly when a needed change is refused |
| `Connections.Connection.MarkClosed` | src/net/connection.cpp:126-133 | closing is announced once |
| `Connections.Connection.MakeRoom` | src/net/connection.cpp:33-34 | an open connection's input capacity never passes max(16 KiB, 2 * (M + 16 KiB)), M the longest incomplete input |
| `Servers.LookupFinds` | src/net/server.cpp:153-163 | a connection is in the map if and only if it is not closed, and the lookup by descriptor alone finds this very one |
| `Servers.AcceptKeeps` | src/net/server.cpp:167-194 | a new connection's descriptor and address belong to no live or retired connection |
| `Servers.CloseKeeps` | src/net/connection.cpp:126-133 | closing keeps the map and the closed states in step and destroys nothing |
| `Servers.ClosePhases` | src/net/connection.cpp:126-133 | closing moves exactly one connection, from live to retired |
| `Servers.SweepPhases` | src/net/server.cpp:196-196 | sweeping moves exactly the retired ones to destroyed |
| `Servers.Server.AcceptOne` | src/net/server.cpp:186-188 | adds one live connection and changes no other |
| `Servers.Server.MarkClosed` | src/net/connection.cpp:126-133 | the first time the connection found in the map is this one; afterwards it is retired, and nothing else has changed |
| `Servers.Server.OnReadable` | src/net/connection.cpp:28-55 | the acceptor adds as many connections as are pending; a connection that closes is retired and one closed already does nothing |
| `Servers.Server.OnWritable` | src/net/connection.cpp:57-63 | the same for a write event |
| `Servers.Server.Dispatch` | src/net/event_loop.cpp:19-29 | the handler at the event's address is the one it was reported for; reading before writing, a connection that either closes is retired afterwards and no other one is |
| `Servers.Server.DispatchBatch` | src/net/event_loop.cpp:91-96 | every event of a batch finds its handler alive; exactly the live connections whose events close them are retired |
| `Servers.Server.DestroyRetired` | src/net/server.cpp:196-196 | destroys exactly the retired connections |
| `Servers.Server.Run` | src/net/server.cpp:122-133 | any number of ticks: in each, exactly the connections that close are destroyed by its end and the others stay live |
| `Servers.LivesUntilItCloses` | src/net/server.cpp:122-133 | over any run a live connection stays live until a tick in which it closes, is destroyed by the end of that tick, and never comes back |
| `SipHash.SipState.Round` | src/core/hash.cpp:22-37 | the column-by-column order computes SipRound |
| `SipHash.LastWord` | src/core/hash.cpp:62-89 | the fall-through switch builds the last word of the padded message |
| `SipHash.SipHash13` | src/core/hash.cpp:49-97 | block loop and tail compress exactly the words of the padded message of section 2 of the SipHash paper |
| `SipHash.PaddingInjective` | src/core/hash.cpp:62-64 | different messages are absorbed as different word sequences |
| `SipHash.HashBytes` | src/core/hash.cpp:99-106 | the two keys are two draws from the seed |
| `InlineLaws.InlineReadsBack` | src/core/resp.cpp:65-97 | however a line of tokens and blanks is written, with CRLF or a bare LF and whatever follows, its tokens are the arguments and exactly the line is taken; a 17th token and a line over 64 KB are refused, each with its error |
| `InlineLaws.InlineIsWoven` | src/core/resp.cpp:65-97 | nothing else is accepted: the bytes taken are tokens between blanks and a line end |
| `InlineLaws.InlineIncomplete` | src/core/resp.cpp:180-228 | more bytes are asked for exactly while no LF has come and the line may still be short enough |
| `ArrayLaws.CountRefused` | src/core/resp.cpp:99-114 | an array opens with a count from 0 to 16, written plainly, or is refused |
| `ArrayLaws.LengthRefused` | src/core/resp.cpp:115-130 | a bulk string opens with a length up to 64 MB, written plainly, or is refused |
| `ArrayLaws.TrailerRefused` | src/core/resp.cpp:154-178 | what follows the announced bytes must be CRLF |
| `ArrayLaws.ElementDecides` | src/core/resp.cpp:99-145 | after a good count and any good bulk strings, the verdict on the next one is the verdict on the command |
| `Pipelines.RowReadsBack` | src/net/connection.cpp:67-96 | commands encoded one after another are dispatched as sent, none passed over and none twice, and then what the bytes after them spell |
| `Pipelines.RowUntilQuit` | src/net/connection.cpp:88-94 | nothing after a QUIT is read |
| `Pipelines.RowThenEnd` | src/net/connection.cpp:75-86 | a whole row is dispatched and taken, and after malformed bytes nothing is |
| `WriteLaws.DrainIs` | src/net/connection.cpp:98-116 | the queue goes out from the front, as many bytes as the writes take, until it is empty, the socket is full or a write fails; an interrupted write is made again |
| `CommandTexts.PickIs` | src/core/command.cpp:43-93 | a command runs exactly when the first text is its name in any case and the number of texts fits it |
| `CommandTexts.PickIsNot` | src/core/command.cpp:269-285 | any other name is unknown, and a known one with another number of texts is refused by its name |
| `CommandTexts.LowerIs` | src/core/command.cpp:62-66 | case is ignored for the 26 letters and for nothing else |
| `CommandTexts.ParseIntIs` | src/core/command.cpp:95-104 | a text is the number v exactly when it is an optional minus sign and digits worth v by their places, within 64 bits |
| `CommandTexts.SetOptionsAre` | src/core/command.cpp:157-171 | after the value nothing means no deadline, one KEEPTTL the old deadline, and whatever is not KEEPTTL, EX or PX, or comes after KEEPTTL, is bad syntax |
| `CommandTexts.SetCounts` | src/core/command.cpp:169-183 | EX n and PX n give now + 1000n and now + n; a count that is no number, not positive or past the last 64-bit time is refused as such, and anything after it as bad syntax |
| `CommandAnswers.GetAnswers` | src/core/command.cpp:218-226 | GET answers the value of a live key and nil for any other, stamps the key with the low 32 bits of the clock, and changes nothing else a client can see |
| `CommandAnswers.RoundedIs` | src/core/command.cpp:213-216 | milliseconds are rounded to the nearest second, halves up, and negative answers pass |
| `CommandAnswers.TtlAnswers` | src/core/command.cpp:213-216 | TTL answers the nearest second to what is left, -1 without a deadline and -2 without the key |
| `CommandAnswers.ExistsAnswers` | src/core/command.cpp:236-243 | EXISTS counts every mention of a live key and leaves every live record as it was |
| `CommandAnswers.DelAnswers` | src/core/command.cpp:228-234 | DEL counts each live key it names once, removes all it names, and leaves the others as they were |
| `CommandAnswers.GetAfterDel` | src/core/command.cpp:228-234 | after DEL, GET answers nil whenever it is asked |
| `CommandAnswers.FlushallAnswers` | src/core/command.cpp:256-265 | FLUSHALL alone or with ASYNC or SYNC leaves no key; anything else is a syntax error and changes nothing |
| `CommandAnswers.SetAnswers` | src/core/command.cpp:153-190 | SET is refused exactly when its key is not live, the store is full without it and nothing is evicted; else the key is live with the value, and has the deadline asked for or with KEEPTTL the one it had |
| `CommandAnswers.SetSpares` | src/core/store.cpp:119-165 | SET touches no other key but those its eviction chose, and evicts only for a new key in a full store |
| `CommandAnswers.KeepTtlKeeps` | src/core/store.cpp:135-137 | SET with KEEPTTL on a live key leaves what TTL answers, then and at any time |
| `CommandAnswers.PlainSetStays` | src/core/command.cpp:151-190 | after SET k v, GET answers v however late |
| `CommandAnswers.CountedSetEnds` | src/core/command.cpp:169-183 | after SET k v EX n or PX n, GET answers v up to and including the deadline and nil after it |
| `CommandAnswers.ExpireAnswers` | src/core/command.cpp:192-210 | EXPIRE with a count of 0 or less removes the key, else sets the deadline now + 1000n; a count that is no number or past the last 64-bit time is an error and changes nothing |
| `CommandAnswers.PingAnswers` | src/core/command.cpp:245-253 | PONG, the one argument, or an error for more |
| `CommandAnswers.EchoAnswers` | src/core/command.cpp:306-308 | ECHO answers its argument |
| `CommandAnswers.DbsizeAnswers` | src/core/command.cpp:309-311 | DBSIZE counts what is stored and changes nothing |
| `CommandAnswers.QuitAnswers` | src/core/command.cpp:315-317 | QUIT answers OK and closes |
| `CommandAnswers.SanitizedIs` | src/core/command.cpp:116-124 | a text of one line up to 128 bytes is quoted as it is; of a longer one the first 128 bytes are, with line breaks as blanks |
| `CommandAnswers.UnknownAnswers` | src/core/command.cpp:126-136 | an unknown command with two short arguments is answered with just this text |
| `CommandAnswers.RefusalsAnswer` | src/core/command.cpp:269-285 | an unknown name and a wrong number of arguments change nothing |
| `CommandSessions.HarmlessSpares` | src/core/command.cpp:153-320 | a command whose texts do not set, delete, expire, evict or flush a key leaves the key alone |
| `CommandSessions.OnlySetPuts` | src/core/command.cpp:153-190 | only a SET answered OK stores a key |
| `CommandSessions.GetAfterDelIsNil` | src/core/command.cpp:228-234 | over any session, GET after a DEL of its key answers nil until a SET of it is answered OK |
| `CommandSessions.GetAfterSetIsValue` | src/core/command.cpp:153-226 | over any session, GET after a SET answered OK answers its value up to its deadline and nil after it, while no command sent concerns the key |
| `ExpiryBooks.StepCounts` | src/core/store.cpp:56-260 | every operation but a flush adds to the expired counter exactly the expired entries it frees: evicting a live entry, deleting and overwriting add nothing |
| `ExpiryBooks.PassShape` | src/core/store.cpp:238-245 | a pass scans bucket after bucket and stops the first time its sample is full, 20 buckets per sample are scanned, or the cursor is back at 0 |
| `ExpiryBooks.CycleShape` | src/core/store.cpp:233-252 | a cycle ends with its first pass that wraps or meets at most a tenth expired, and after 16 passes at the latest |
| `SipRounds.RotlIs` | src/core/hash.cpp:24-36 | rotation by k moves the top k bits to the bottom, for every k up to 64 |
| `SipRounds.RotlUndone` | src/core/hash.cpp:24-36 | rotating by k and then by 64 - k gives the word back |
| `SipRounds.RoundIsHalves` | src/core/hash.cpp:22-37 | SipRound is the half-round with rotations 13 and 16 and then, lanes crossed, with 17 and 21, and can be run backwards |
| `SipRounds.InitSpells` | src/core/hash.cpp:51-55 | the lanes start as the key mixed with the letters of "somepseudorandomlygeneratedbytes" |
| `SipRounds.KeysApart` | src/core/hash.cpp:39-97 | different keys are still apart when the last word of any message has been absorbed |
| `SipRounds.DigestIsSipHash13` | src/core/hash.cpp:49-97 | the digest is SipHash-c-d of section 2 of the SipHash paper for c = 1 and d = 3, written from half-rounds and byte positions |

## Left out

- Socket setup, accept errno classes, the reserve descriptor and paused accepting: they decide how many connections a tick accepts, which is an arbitrary number here.
- Signals, command line, configuration, `UniqueFd`: they start and stop the loop and close descriptors; a run here is any number of ticks and a descriptor closes with its handler.
- The pool allocator's own code: it is a set of free blocks, any of which an insert may get.
- Random seeding, alignment, padding and byte order of the machine: the proofs hold for every seed, and entries are records.
- The server's cached clock and its choice of when to run an expire cycle: a session takes any clock that never goes back and any cycles between commands, so its theorems hold of every such choice.
- `Store::size`, `bucketCount` and the counter getters: the state has the fields they read.
- Integer widths other than the ones the proofs are about: sizes and counters are unbounded; the 32-bit lengths, hash and clock and the 64-bit deadlines are modelled with their width.
- Exceptions from allocation: allocation succeeds, except that the entry pool can be empty.
- Tables.MakeEntry: requires key and value together below 2^32 bytes; the source keeps the lengths and adds them in 32 bits (src/core/table.cpp:35-56), so past that a string is stored cut short, or is copied beyond the buffer when the sum wraps. `RespLaws.ArgumentsFit` proves that every parsed command stays below.
- Tables.Reassign: the same limit, for the same reason.
- Tables.MoveOut: the same limit, for the same reason.
- Tables.WriteOver: the same limit, for the same reason.
- Tables.Table.Insert: the same limit, for the same reason.
- Tables.Table.Assign: the same limit, for the same reason.
- Stores.Store.Set: the same limit, for the same reason.
- Stores.Store.InsertNew: the same limit, for the same reason.
- StoreSteps.Perform: the same limit for the key and value of a set, for the same reason.
- StoreSteps.PerformAll: the same limit for the key and value of a set, for the same reason.
- StoreSteps.PerformFromEmpty: the same limit for the key and value of a set, for the same reason.
- CommandRuns.SessionAgrees: three outcomes are taken from the run, because the plain map has no cap and reaps nothing: whether a SET is refused for want of room, which keys it evicts, and the number DBSIZE answers, which counts expired keys not yet reaped.
- Connections.Connection.FlushOutput: a write interrupted forever is not modelled; the outcomes of the writes are a finite list, and its end counts as a full socket.
- Servers.Server.Dispatch: a connection is its handle and whether it is closed; whether a callback closes it is a choice of the event, and `Connections` says when it does.
- Commands.CmdCount: DEL and EXISTS share one loop with a flag, and the reply of every command is appended by `Dispatch` instead of by each command.
- Bytes are Dafny characters in the parser, the store and the connection, and numbers below 256 in SipHash; the two are not connected, since the table holds for every hash.
