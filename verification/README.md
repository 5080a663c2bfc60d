# VeloxDB, modelled and proved in Dafny

VeloxDB is a Redis-like server: a RESP2 codec, a sharded store with expiry times, handlers that turn
requests into log records, an append-only file, and a snapshot with a manifest. This project models
those five parts together and proves what their combination promises: that a server restarted from the
bytes it left on disk reads like the one that was lost, under every sequence of writes, `SAVE`,
`BGREWRITEAOF` and earlier restarts, sequential or concurrent, and exactly when that fails.

`dafny verify dfyconfig.toml` checks everything. Nothing was executed.

## How it is organised

Each layer has a plain functional account and, where the source changes things in place, the loops and
objects that do so, proved against that account.

- `Decimal`, `Text`: integers as text, white space, words, upper case (`src/util/string.cpp`).
- `Resp`, `RespTheorems`, `Values`, `Parser`, `Stream`: the grammar and encoder as functions; chunk independence,
  bounds, round trips and prefix freedom; the parser object with its buffer, and reading a stream with it
  (`src/protocol/resp.cpp`).
- `Inline`, `Grammar`: lines of words, and the wire format stated without a parser.
- `Store`, `Budget`: one plain map from keys to values and expiries, and the bytes it takes. `Look` is what a
  reader sees at a time; `Same(t, u, now)` says that no reader can tell two tables apart at `now`.
- `Shards`, `ActiveExpiry`, `Engine`, `Refinement`, `Ledger`, `Counter`: the sharded engine as a class,
  its refinement of the plain map over whole call sequences, the sampling sweep, the memory counter as a
  concurrent protocol, counter arithmetic (`src/storage/storage_engine.cpp`).
- `Commands`, `Congruence`, `Bounded`, `Handlers`: `Exec`, what each command does to the table, answers and
  logs; `ExecWithin`, the same under a memory limit; the handlers that do it on the engine and the file
  (`src/commands/commands.cpp`).
- `Clients`, `SetSyntax`, `ManyKeys`, `Memory`: what each command, by the name a client types, means to readers at all times,
  and what it costs.
- `Replay`, `Checkpoint`, `Node`, `Crash`: replaying logs, compaction, snapshots, recovery, restarts and
  crashes, on lists of commands.
- `Manifest`, `Disk`, `Durability`, `Limited`, `Peak`, `Startup`, `Lifetime`: the same on bytes, without and with
  a memory limit, then on the objects of the running server (`src/persistence/aof.cpp`, `src/persistence/snapshot.cpp`, `src/main.cpp`).
- `Fields`, `Trust`, `Readiness`: which manifests, logs and snapshots recovery accepts, whoever wrote them.
- `Torn`, `Rewritten`: writing on after a torn tail, and a crash inside a rewrite, on bytes.
- `Workers`: concurrent writes, storage call by storage call, under the shared/exclusive barrier.
- `Drift`: expiry times in clock ticks.
- `Limitations`: concrete runs on which an unqualified promise fails.

## Main results

- `Lifetime.ServeAndRestart`: run the real objects (handlers, engine, files) on any orders from an empty disk,
  under any memory limit, through any number of losses of memory and restarts; lose the memory once more and
  recover from the files: the restarted engine reads like the lost one, and it comes up if and only if the
  most memory recovery ever holds is within the limit.
- `Replay.ReplayFaithful`, `Node.RecoveryExact`: over every run, recovery gives what a reader of the live table
  sees, at every prefix back to the last checkpoint, if and only if every request since then is *lasting*
  (`Replay.Lasting`): it logs nothing, or its key will not have expired by the time of the replay, or that
  expiry makes no difference; a partly refused `MSET` counts only if what it stored was already there.
- `Workers.MutationsMatchRecords`, `Workers.ChangesAreRecorded`: in every interleaving, mutations and records
  match one for one under the exclusive barrier. `Workers.WorkersSerialize`, `Workers.WorkersRecover`: if
  writes in flight together touch different keys, what the barrier finds is the sequential run in append
  order, and it recovers. `Workers.CrossedIffCommute`: two writes that cross on any keys end like that run if
  and only if they commute.
- `Ledger.LedgerBalances`, `Ledger.NoDeadlock`, `Ledger.HolderLetsGo`: in every interleaving of loads, swaps,
  locks and row changes the counter stays under the limit, never meets its clamp, is exact at rest, and no
  thread waits for a lock whose holder cannot let go of it.
- `Refinement.ServeAll`, `Handlers.Execute`, `Bounded.WithinTracks`: the engine and the handlers under any memory
  limit, exactly, and how that compares with the plain map.
- `Peak.RecoverExact`, `Peak.MoreMemoryIsSafe`: when recovery comes up under a memory limit, exactly, and that
  raising the limit never breaks it.
- `Torn.TornThenAppended`: a log written on after torn bytes reads as it should if and only if there are none.
- `Crash.SecondSaveCrash`, `Rewritten.RewriteCrashExact`: when a crash inside a second `SAVE`, or inside a
  rewrite, is harmless, exactly.
- `Grammar.ReadsExactly`, `Inline.InlineRoundTrip`, `Fields.ManifestReadExactly`: parsers against formats stated
  without a parser, both ways.
- `Clients.ExpireExact`, `Clients.PttlMeans`, `Clients.OnlyOneWins`, `ManyKeys.MsetIsSets`, `Readiness.LogAccepted`,
  `Trust.ForeignFiles`: what clients and operators rely on, in terms of readers, names and files.
- `RespTheorems.ChunkIndependence`, `Disk.TornTail`, `Disk.EncodingsRoundTrip`, `RespTheorems.PrefixFree`,
  `Values.ValueRoundTrip`.
- `ActiveExpiry.CleansWithinBound`, `Startup.Reload`, `Counter.CountAll`, `Drift.RelativeDrift`,
  `Durability.CrashRestarts`.

## Where the code and its documentation differ

The model follows the code.

- `docs/persistence.md` says `BGREWRITEAOF` invalidates the snapshot manifest. It does so only when the
  configured manifest path is non-empty, while `SAVE` falls back to a default path; with an empty path a
  later restart can load a stale snapshot. And it does so after replacing the log: a crash in between can
  bring back old values (`Limitations.RewriteCrashDiverges`, `Rewritten.RewriteCrashExact`). `Limitations.RestartNeedsManifestPath` proves that restarts are
  faithful for every run if and only if the path is configured.
- `docs/persistence.md` says recovery ignores a partially written final command. It does, but the file is
  then reopened without dropping those bytes, so the next record lands behind them. `Torn.TornThenAppended`
  proves that the log then reads as the commands and that record if and only if there are no such bytes. The
  next start may fail (`Torn.TornThenAppendedFails`), or succeed with the record taken for part of a value
  (`Torn.TornValueSwallows`).
- `docs/persistence.md` presents replay as rebuilding the keyspace. A logged `INCR`, `DECR`, `APPEND`,
  `PERSIST`, `EXPIRE`, `PEXPIRE` or `PEXPIREAT` on a key that has expired by the time of the replay does
  something else then; `Replay.StepFaithful` gives the exact condition.
- `docs/persistence.md` calls the manifest the final commit marker of a `SAVE`. A crash
  between the two files of a second `SAVE` leaves the new snapshot with the old manifest;
  `Crash.SecondSaveCrash` says exactly when that is harmless, `Limitations.SecondSaveCrashDiverges` gives a run
  where it is not.
- `SET` with `EX` or `PX` and an argument that is no duration is accepted and stores without expiry, while
  `EXAT` and `PXAT` refuse; `Commands.TimesIgnored` gives the exact condition.

## Modelling decisions

- Bytes are Dafny `char`s; the theorems hold for all of them.
- One clock reading per request, in whole milliseconds, except in `Drift`. Expiry arithmetic is unbounded;
  `Commands.InRange` states where the source needs it to stay inside 64 bits.
- The hash is an arbitrary function. A new row may be placed anywhere in its shard; erasing keeps the order.
- Files are byte sequences with atomic rename; writes do not fail and are not short.
- Paths are given normalized.

## Model

| member | source | states |
|---|---|---|
| `Text.Trim` | src/util/string.cpp:10-20 | returns the input without surrounding white space |
| `Text.TrimmedIsMiddle` | src/util/string.cpp:10-20 | trimming yields a slice that neither starts nor ends with space, and everything cut off is space |
| `Text.SplitWords` | src/util/string.cpp:53-69 | the loops return Words: by the next row, the maximal runs of characters other than white space |
| `Text.WordsAreRuns` | src/util/string.cpp:53-69 | the words are maximal runs of characters other than white space, in order, and every such character is in one of them |
| `Text.ToUpperAscii` | src/util/string.cpp:22-29 | maps each character by ASCII upper-casing and keeps the length |
| `Decimal.I64RoundTrip` | src/storage/storage_engine.cpp:15-27 | printing and parsing are inverse on all 64-bit integers, the minimum included |
| `Decimal.NumberForms` | src/storage/storage_engine.cpp:15-27 | a text reads as a 64-bit number if and only if it is that number as printed, with any zeros in front, no plus sign and no space; zero may carry a minus |
| `Decimal.UnsignedForms` | src/util/string.cpp:86-99 | the same for unsigned numbers |
| `Text.I64ArgRoundTrip` | src/util/string.cpp:71-84 | the trimming parser reads back every printed 64-bit integer |
| `Text.U64ArgRoundTrip` | src/util/string.cpp:86-99 | the same for unsigned 64-bit integers |
| `Resp.EncodeCommand` | src/protocol/resp.cpp:331-346 | the loop writes an array header and one bulk fragment per argument |
| `RespTheorems.NextValueStable` | src/protocol/resp.cpp:68-93 | a value or an error, once found, is the same on every longer buffer |
| `RespTheorems.ChunkIndependence` | src/protocol/resp.cpp:55-93 | any two splittings of a byte stream into accepted appends, drained after each, give the same values, the same first error and the same leftover bytes |
| `RespTheorems.RespValuesBounded` | src/protocol/resp.cpp:141-249 | every parsed RESP value is nested at most 8 deep, and its arrays and bulk strings respect their limits |
| `RespTheorems.EncodeParses` | src/protocol/resp.cpp:95-139 | an encoded command followed by anything parses to exactly that command, consuming exactly its bytes |
| `RespTheorems.TornNeedsMore` | src/protocol/resp.cpp:141-249 | every proper prefix of an encoded command asks for more bytes |
| `RespTheorems.PrefixFree` | src/protocol/resp.cpp:331-346 | if one encoding is a prefix of another, the commands are equal |
| `Values.ValueRoundTrip` | src/protocol/resp.cpp:293-329 | every RESP value within the limits, nested arrays included, reads back as itself whatever bytes follow |
| `Values.ValuesPrefixFree` | src/protocol/resp.cpp:293-329 | no written value is a proper prefix of another |
| `Values.StatusReadable` | src/protocol/resp.cpp:293-300 | a status reply reads back as itself if and only if its text contains no line end |
| `Values.EncodeArrayOfBulk` | src/protocol/resp.cpp:319-329 | the loop writes the array of those strings and nulls |
| `Grammar.ReadsExactly` | src/protocol/resp.cpp:141-249 | the parser reads a value off the front of a buffer, and exactly its bytes, if and only if those bytes spell it by a grammar stated without a parser |
| `Grammar.RefusedLines` | src/protocol/resp.cpp:141-214 | which length and number lines are refused, and for which reason |
| `Grammar.RefusedText` | src/protocol/resp.cpp:207-211 | a bulk string not followed by a line end is refused |
| `Grammar.CommandExact` | src/protocol/resp.cpp:95-139 | a value is a command with these arguments if and only if it is an array whose elements denote them one by one |
| `Grammar.RefusedElement` | src/protocol/resp.cpp:115-135 | otherwise the first null or nested element decides the refusal |
| `Grammar.RefusedIsConsumed` | src/protocol/resp.cpp:95-139 | a value that is no command is refused and its bytes are gone; what follows is read next |
| `Grammar.DepthExact` | src/protocol/resp.cpp:141-144 | eight arrays around a value are read and nine are refused |
| `Inline.LineIsWords` | src/protocol/resp.cpp:251-275 | a line that does not start like RESP denotes its words; it is refused, and stays buffered, if and only if one is too long |
| `Inline.InlineRoundTrip` | src/protocol/resp.cpp:251-275 | words, however spaced, come back as those words in that order, whatever follows the line |
| `Inline.SentenceRoundTrip` | src/protocol/resp.cpp:251-275 | the same for words joined by single spaces |
| `Parser.Parser.Append` | src/protocol/resp.cpp:55-62 | accepts exactly the appends that keep the buffer within the request limit |
| `Parser.Parser.Discard` | src/protocol/resp.cpp:285-291 | drops exactly the given number of bytes, or all |
| `Parser.Parser.ParseFrom` | src/protocol/resp.cpp:141-249 | computes the grammar's value at a position; its size check on an unfinished line can never fire |
| `Parser.Parser.ParseElements` | src/protocol/resp.cpp:215-245 | the cursor loop reads exactly the grammar's elements; its size check can never fire |
| `Parser.Parser.ParseInlineCommand` | src/protocol/resp.cpp:251-275 | reads a line of words, refusing an oversized one; its size check can never fire |
| `Parser.Parser.NextValue` | src/protocol/resp.cpp:68-93 | returns the grammar's next value and drops exactly its bytes, keeping the buffer within the limit |
| `Parser.Parser.NextCommand` | src/protocol/resp.cpp:95-139 | returns the command, the refusal or the wait that the grammar gives, and leaves the grammar's rest |
| `Stream.DrainParser` | src/protocol/resp.cpp:68-93 | draining the parser object yields the values, the first error and the leftover bytes of the grammar, and terminates |
| `Stream.ReadChunks` | src/protocol/resp.cpp:55-93 | feeding the parser object chunk by chunk gives exactly what Feed says; a refused append stops it |
| `Stream.ReadTwice` | src/protocol/resp.cpp:55-93 | two parsers fed the same bytes in different chunks, none refused, end alike |
| `Parser.CollectArgs` | src/protocol/resp.cpp:115-135 | converts the elements to arguments in order, failing at the first that is null or an array |
| `Engine.StorageEngine.constructor` | src/storage/storage_engine.cpp:31-40 | an empty engine with at least one shard |
| `Shards.RouteFollowsHash` | src/storage/storage_engine.cpp:435-437 | a hash below the number of shards is the number of its shard, so every shard can be reached |
| `Engine.StorageEngine.ReserveMemory` | src/storage/storage_engine.cpp:531-544 | succeeds exactly when the limit allows the growth, and then counts it |
| `Engine.StorageEngine.ReleaseMemory` | src/storage/storage_engine.cpp:546-557 | subtracts, clamped at zero |
| `Engine.StorageEngine.EraseEntry` | src/storage/storage_engine.cpp:519-525 | removes exactly that row; the released bytes were all counted, in the shard and globally |
| `Engine.StorageEngine.Set` | src/storage/storage_engine.cpp:42-94 | the code and the table of the plain map on what is stored once an expired key is purged; out of memory exactly when the table would then exceed the limit, and then only the purge remains |
| `Engine.StorageEngine.IncrBy` | src/storage/storage_engine.cpp:158-225 | the exact sum with no overflowing intermediate, or the plain map's refusal; the expiry is dropped; out of memory exactly when the table would exceed the limit |
| `Engine.StorageEngine.Append` | src/storage/storage_engine.cpp:227-281 | the concatenation and its length, or the plain map's refusal; out of memory exactly when the table would exceed the limit |
| `Engine.StorageEngine.Get` | src/storage/storage_engine.cpp:96-111 | the visible value; exactly an expired key is erased |
| `Engine.StorageEngine.Del` | src/storage/storage_engine.cpp:121-136 | counts a live key and removes it for every reader |
| `Engine.StorageEngine.Expire` | src/storage/storage_engine.cpp:288-293 | a non-positive time deletes, otherwise the expiry is set, as on the plain map |
| `Engine.StorageEngine.ExpireAt` | src/storage/storage_engine.cpp:295-316 | sets the expiry of a live key, or erases it when the time has passed |
| `Engine.StorageEngine.TimeToLive` | src/storage/storage_engine.cpp:318-337 | missing, no expiry, or the milliseconds left |
| `Engine.StorageEngine.Persist` | src/storage/storage_engine.cpp:339-358 | removes the expiry of a live key that has one |
| `Engine.StorageEngine.DbSize` | src/storage/storage_engine.cpp:360-379 | the number of live keys; exactly the expired ones are swept |
| `Engine.StorageEngine.ExpiresCount` | src/storage/storage_engine.cpp:447-468 | the number of live keys with an expiry; exactly the expired keys are swept |
| `Engine.StorageEngine.Snapshot` | src/storage/storage_engine.cpp:470-495 | lists exactly what readers see, no key twice; the expired keys are swept and the bytes listed are exactly those then counted |
| `Engine.StorageEngine.FlushDb` | src/storage/storage_engine.cpp:381-390 | empties every shard and returns the counter to zero |
| `Engine.StorageEngine.SampleShard` | src/storage/storage_engine.cpp:396-427 | the cursor loop on one shard is one sampling pass |
| `Engine.StorageEngine.ActiveExpire` | src/storage/storage_engine.cpp:392-431 | every shard gets one sampling pass, no reader can tell, and the count returned is the number of entries erased |
| `Refinement.Perform` | src/storage/storage_engine.cpp:42-517 | each engine call answers like the plain map, a snapshot with exactly the live entries up to order and a sampling sweep with the number of entries it erased, and leaves a table no reader can tell from it; except a write that would overfill the stored table, which is refused and changes nothing for readers |
| `Refinement.ServeAll` | src/storage/storage_engine.cpp:42-517 | for any hash, shard count, memory limit and call sequence under a monotone clock: the calls not refused are answered by one plain map whose entries vanish at their expiry, snapshots up to order; sampling sweeps answer by how many entries the stored table lost; a call is refused exactly when it would overfill the stored table; with no limit none is |
| `Refinement.SweepMakesRoom` | src/storage/storage_engine.cpp:360-379 | under a limit sweeps are observable: a SET refused beside an unswept expired entry is accepted after a DBSIZE, although both tables read the same |
| `ActiveExpiry.PassExact` | src/storage/storage_engine.cpp:407-425 | a pass removes exactly the expired rows among those visited |
| `ActiveExpiry.VisitedCount` | src/storage/storage_engine.cpp:405-425 | a pass visits exactly min(sample size, rows) distinct rows |
| `ActiveExpiry.CleansWithinBound` | src/storage/storage_engine.cpp:392-431 | with sample size s and n rows, everything expired beforehand is gone after n * ceil(n/s) calls, although the cursor skips rows after erasures |
| `Counter.CountAll` | src/storage/storage_engine.cpp:158-225 | any sequence of 64-bit increments on a counter with room for it, under any limit, returns and stores the exact running sum, refusing exactly the steps that would leave 64 bits |
| `Counter.RoomKept` | src/storage/storage_engine.cpp:531-544 | a counter with room for twenty digits never runs out of memory, and no value it takes uses up that room |
| `Counter.CountStep` | src/storage/storage_engine.cpp:183-196 | one step: the exact sum, or a refusal |
| `Ledger.StepKeeps` | src/storage/storage_engine.cpp:63-93 | every load, swap, lock, reserve, release, erase and flush step of any thread keeps the ledger invariant |
| `Ledger.LedgerBalances` | src/storage/storage_engine.cpp:519-557 | over every interleaving: the counter is at most the limit, shard counts are exact, a release never meets the clamp, and at rest the counter is the bytes of the stored entries; with no limit it stays zero |
| `Ledger.NoDeadlock` | src/storage/storage_engine.cpp:381-390 | a wanted step waits only for a lock, and the thread holding that lock is inside that shard and can step |
| `Ledger.HolderLetsGo` | src/storage/storage_engine.cpp:519-557 | from every reachable state the holder of a lock, left to itself, lets go of it within four steps, however its swap loops stood |
| `Ledger.ReserveExact` | src/storage/storage_engine.cpp:531-544 | a swap that finds the counter as it saw it reserves exactly when the bytes fit; any other retries or gives up |
| `Ledger.WriteAlone` | src/storage/storage_engine.cpp:63-93 | a growing write left alone changes its row and the counter exactly when the growth fits, and frees the lock |
| `Ledger.EraseAlone` | src/storage/storage_engine.cpp:519-525 | an entry erased alone gives back exactly its bytes |
| `Commands.NamesAreCaseless` | src/commands/command_registry.cpp:20-21 | command names and SET options are recognised in any letter case |
| `Commands.UpperFolds` | src/util/string.cpp:22-29 | two texts fold together if and only if they differ in letter case only |
| `Commands.TtlArgExact` | src/commands/commands.cpp:81-91 | a duration is refused exactly when it is no integer or exceeds 64 bits upward; otherwise, unless it falls below 64 bits, it is the exact product |
| `Commands.TimesIgnored` | src/commands/commands.cpp:151-176 | an accepted SET stores without expiry if and only if each of its time options is an EX or PX whose argument is no duration |
| `SetSyntax.SetAccepted` | src/commands/commands.cpp:141-180 | SET accepts its options if and only if all are known, NX and XX do not both occur, every time has an argument, and of the times only the last sets one, a positive one; and which condition they state |
| `SetSyntax.OptionsAccepted` | src/commands/commands.cpp:141-180 | the same at every point of the option loop |
| `Clients.GetExact` | src/commands/commands.cpp:124-130 | GET answers the value readers see or nil, and changes and logs nothing |
| `Clients.SetThenGet` | src/commands/commands.cpp:132-202 | a plain SET is refused for its sizes only; otherwise every later GET answers the value, for ever, and no other key is touched |
| `Clients.ConditionExact` | src/storage/storage_engine.cpp:59-62 | SET NX does what SET does if and only if readers do not see the key, SET XX if and only if they do; otherwise nil, nothing changed, nothing logged |
| `Clients.OnlyOneWins` | src/storage/storage_engine.cpp:59-62 | over any run, after an accepted NX every later NX on the key answers nil as long as readers see the key |
| `Clients.SetUntil` | src/commands/commands.cpp:164-176 | SET PXAT: the value until that time and nothing from then on; a time that is not positive is refused |
| `Clients.SetTimeUnits` | src/commands/commands.cpp:154-170 | EX n is PX 1000n, EXAT n is PXAT 1000n, and PX n is PXAT now+n, in table, answer and record |
| `Clients.ExpireAtExact` | src/commands/commands.cpp:304-322 | PEXPIREAT: a seen key keeps its value until that time and is gone from then on; an unseen one answers 0 |
| `Clients.ExpireIsPexpire` | src/commands/commands.cpp:554-559 | EXPIRE k n is PEXPIRE k 1000n in table, answer and record |
| `Clients.ExpireIsAbsolute` | src/commands/commands.cpp:282-302 | PEXPIRE k n is PEXPIREAT k now+n in table, answer and record |
| `Clients.ExpireExact` | src/commands/commands.cpp:282-302 | after EXPIRE k n a reader sees k, with its value, at exactly the times before now + 1000n |
| `Clients.PersistExact` | src/commands/commands.cpp:341-355 | PERSIST answers 1 for a key with a time, which is then seen for ever, and 0 otherwise |
| `Clients.PttlMeans` | src/commands/commands.cpp:324-336 | PTTL answers p > 0 if and only if readers see the key for exactly p more milliseconds, -1 if and only if for ever, -2 if and only if not at all |
| `Clients.TtlRoundsUp` | src/commands/commands.cpp:338-338 | TTL is PTTL in seconds rounded up, and the same number when nothing is left to count |
| `Clients.CountExact` | src/commands/commands.cpp:251-261 | INCR and DECR: the exact next number, read back by GET for ever, or the refusal |
| `Clients.CountFromNothing` | src/storage/storage_engine.cpp:172-182 | a key that is not seen counts from zero |
| `Clients.DecrUndoesIncr` | src/commands/commands.cpp:546-551 | DECR undoes INCR and INCR undoes DECR |
| `Clients.AppendExact` | src/commands/commands.cpp:263-273 | APPEND: old text and new one after it, for ever; the answer is what STRLEN then gives |
| `Clients.StrlenExact` | src/commands/commands.cpp:275-280 | STRLEN is the length of what GET answers |
| `ManyKeys.DelExact` | src/commands/commands.cpp:204-219 | DEL answers how many different named keys were seen, none of them is seen again, all others read as before |
| `ManyKeys.ExistsExact` | src/commands/commands.cpp:221-227 | EXISTS of one key is 1 or 0, of several the sum |
| `ManyKeys.MgetExact` | src/commands/commands.cpp:229-235 | MGET answers for each key in turn what GET answers |
| `ManyKeys.MsetIsSets` | src/commands/commands.cpp:237-249 | MSET leaves and answers what the SETs of its pairs do one after another, up to the first refused one |
| `ManyKeys.DbSizeExact` | src/commands/commands.cpp:357-362 | DBSIZE counts the keys readers see |
| `ManyKeys.ExpiringExact` | src/storage/storage_engine.cpp:447-468 | the keys counted as expiring are those PTTL gives a time |
| `ManyKeys.FlushExact` | src/commands/commands.cpp:364-371 | after FLUSHDB nothing is seen at any time |
| `ManyKeys.PingEcho` | src/commands/commands.cpp:107-122 | PING answers PONG or its argument, ECHO its argument |
| `ManyKeys.ArityExact` | src/commands/commands.cpp:107-371 | each command is refused for its number of arguments exactly when the handler says so, and then nothing happens |
| `ManyKeys.OtherNames` | src/commands/command_registry.cpp:14-26 | an empty request and every name that is none of these does nothing |
| `Replay.StepFaithful` | src/commands/commands.cpp:132-371 | one request: its record, replayed later, does what it did live if and only if the request is lasting |
| `Replay.ReplayFaithful` | src/commands/commands.cpp:132-371 | over every run: all prefixes of the log replay faithfully if and only if every request is lasting |
| `Replay.CellFaithful` | src/commands/commands.cpp:182-201 | the same decision for each single-key command; a lasting record is not refused at replay |
| `Replay.SetRecordPlan` | src/commands/commands.cpp:196-201 | a SET record parses back to an unconditional SET with that absolute expiry |
| `Replay.GetSetPairs` | src/commands/commands.cpp:241-249 | what a whole or partly refused MSET leaves at each key |
| `Replay.KeptStep` | src/commands/commands.cpp:237-249 | after an MSET refused for memory, which logs nothing, recovery stays faithful exactly when the pairs it had stored were already there |
| `Congruence.ExecAlike` | src/commands/commands.cpp:132-371 | a request answers, logs and changes alike on tables that read the same |
| `Congruence.ReadAlike` | src/commands/commands.cpp:107-131 | read commands answer alike on tables that read the same |
| `Bounded.WithinTracks` | src/commands/commands.cpp:107-371 | under a memory limit every command answers, logs and reads like Exec, or is refused for memory, logs nothing and keeps for readers exactly the pairs an MSET had stored |
| `Bounded.WithinGrows` | src/commands/commands.cpp:107-371 | every command keeps the table within the limit, grows it by no more than what it writes, and with that much room is never refused for memory |
| `Memory.SetCosts` | src/storage/storage_engine.cpp:63-93 | a SET is refused for memory exactly when the total, 96 bytes and key and value per entry, would pass the limit; otherwise the total changes by exactly that |
| `Memory.FirstSetCosts` | src/storage/storage_engine.cpp:531-544 | on an empty store the first entry alone decides |
| `Memory.AppendCosts` | src/storage/storage_engine.cpp:227-281 | appending to a seen key costs what is appended |
| `Memory.DeleteFrees` | src/storage/storage_engine.cpp:519-525 | deleting gives back the cost of the entry, flushing everything |
| `Memory.ReadFrees` | src/storage/storage_engine.cpp:96-111 | reading an expired key gives back its cost; reading any other changes nothing |
| `Memory.DbSizeSweeps` | src/storage/storage_engine.cpp:360-379 | after DBSIZE nothing expired is stored and everything else is |
| `Handlers.Aof.Append` | src/persistence/aof.cpp:154-174 | appends exactly the encoding of the record and keeps the size exact |
| `Handlers.ReadSetOptions` | src/commands/commands.cpp:141-180 | the option loop of SET: last-of-kind conditions, conflicts, one expiry only, invalid times |
| `Handlers.HandleSet` | src/commands/commands.cpp:132-202 | engine, reply and log change as ExecWithin says, exactly; conditions and relative times are resolved in the record |
| `Handlers.HandleDel` | src/commands/commands.cpp:204-219 | likewise; nothing is logged if no key was live |
| `Handlers.DeleteAll` | src/storage/storage_engine.cpp:113-119 | the key loop counts live keys and removes them all |
| `Handlers.StorePairs` | src/commands/commands.cpp:241-247 | the pair loop of MSET: the code and the table of the pairs before the first refused one |
| `Handlers.HandleMset` | src/commands/commands.cpp:237-249 | likewise; a refused pair stops the loop, keeps exactly the earlier pairs and logs nothing |
| `Handlers.HandleIncr` | src/commands/commands.cpp:251-261 | likewise for INCR and DECR |
| `Handlers.HandleAppend` | src/commands/commands.cpp:263-273 | likewise |
| `Handlers.HandleExpire` | src/commands/commands.cpp:282-302 | likewise; the record is a PEXPIREAT with the absolute time |
| `Handlers.HandleExpireAt` | src/commands/commands.cpp:304-322 | likewise |
| `Handlers.HandlePersist` | src/commands/commands.cpp:341-355 | likewise |
| `Handlers.HandleFlush` | src/commands/commands.cpp:364-371 | likewise |
| `Handlers.HandleRead` | src/commands/commands.cpp:107-131 | PING, ECHO, GET, STRLEN, EXISTS, MGET, TTL, PTTL and DBSIZE answer what readers see, log nothing and erase only expired keys |
| `Handlers.CountExisting` | src/storage/storage_engine.cpp:138-146 | the loop counts the live keys among the arguments, repeated ones each time |
| `Handlers.GetAll` | src/storage/storage_engine.cpp:148-156 | the loop returns the visible value of each argument, in order |
| `Handlers.Execute` | src/commands/command_registry.cpp:14-26 | every command does to engine, reply and log exactly what ExecWithin says, under any memory limit |
| `Checkpoint.LoadLogIsReplayLog` | src/persistence/snapshot.cpp:251-266 | on any list of the commands a snapshot holds, the loader and the replay build the same table |
| `Checkpoint.CompactionFaithful` | src/persistence/aof.cpp:231-251 | whatever the history, replaying a rewritten log at any later time gives what a reader then sees |
| `Checkpoint.SnapshotFaithful` | src/persistence/snapshot.cpp:224-268 | the same for loading a snapshot |
| `Checkpoint.ExecStaysBounded` | src/storage/storage_engine.cpp:42-49 | every write keeps every stored entry within the limits, so it can be stored again |
| `Checkpoint.RecordRanged` | src/commands/commands.cpp:182-201 | whatever a request within 64-bit range logs stays within range when executed again at any time |
| `Node.RecoveryFaithful` | src/main.cpp:57-113 | after any writes, refusals, saves, rewrites and restarts, recovery gives the live view, if the writes since the last checkpoint are lasting |
| `Node.RecoveryExact` | src/main.cpp:57-113 | every prefix back to the last checkpoint recovers faithfully, at the end and at every restart on the way, if and only if the writes since then are lasting |
| `Node.ManifestNamesSave` | src/persistence/snapshot.cpp:70-87 | a manifest names the log and, through its snapshot, the table of the SAVE that wrote it |
| `Node.CrashSafe` | src/persistence/snapshot.cpp:96-168 | a crash at any file step of a SAVE or rewrite begun without a manifest, or of any write, recovers the table before or after |
| `Crash.SecondSaveCrash` | src/persistence/snapshot.cpp:78-87 | a crash between snapshot and manifest of a SAVE that found a manifest is harmless if and only if replaying the commands since the last SAVE once more changes nothing for readers |
| `Crash.OverwritingTailIsSafe` | src/persistence/snapshot.cpp:78-87 | so it is harmless whenever only SET, DEL, MSET and FLUSHDB were logged since the last SAVE |
| `Manifest.ParseManifestLines` | src/persistence/snapshot.cpp:44-61 | the line loop keeps the first value of each key and skips blanks, comments and lines without an equals sign |
| `Manifest.ManifestRoundTrip` | src/persistence/snapshot.cpp:136-200 | a written manifest reads back as the same record, also when paths contain an equals sign or a hash |
| `Fields.ManifestReadExactly` | src/persistence/snapshot.cpp:44-61 | a manifest, whoever wrote it, is accepted as a record if and only if the first line for each of its five keys says so; other lines, comments and blanks do not matter |
| `Trust.TrustedExactly` | src/persistence/snapshot.cpp:202-214 | a written manifest is used, with its own offset, if and only if it names these two paths, lies within the log and has its snapshot |
| `Trust.UntrustedManifest` | src/persistence/snapshot.cpp:202-214 | any other manifest leaves recovery, with or without a memory limit, as if it were not there |
| `Trust.ForeignFiles` | src/persistence/snapshot.cpp:202-214 | the files of any run, found under another log or snapshot path, recover from the log alone |
| `Disk.EncodingsRoundTrip` | src/persistence/aof.cpp:337-361 | reading the concatenated encodings of a list of commands gives exactly that list |
| `Disk.TornTail` | src/persistence/aof.cpp:337-361 | from any cut of a log, exactly the whole commands before the cut are read, in order and without error |
| `Readiness.ReplayIsExecution` | src/persistence/aof.cpp:343-361 | a replay is the execution of the log and comes up if and only if no command fails |
| `Readiness.LogAccepted` | src/main.cpp:57-113 | without a usable manifest the server comes up if and only if the log is empty, or fits the buffer, reads without error and executes without error |
| `Readiness.UnknownCommandStops` | src/main.cpp:57-113 | one unknown command anywhere in the log keeps the server from starting |
| `Readiness.LoadAccepts` | src/persistence/snapshot.cpp:251-266 | a snapshot loads if and only if it holds plain SETs within the limits and PEXPIREATs with a number, and nothing else |
| `Readiness.TornSnapshotRefused` | src/persistence/snapshot.cpp:243-268 | a snapshot cut anywhere but between two commands is refused |
| `Readiness.SnapshotNeeded` | src/persistence/snapshot.cpp:224-268 | with a usable manifest the server comes up only if the snapshot is whole and plain and both files fit the buffer |
| `Disk.RecoverTorn` | src/main.cpp:57-113 | recovery from bytes is recovery from the commands they encode, if what follows the manifest offset fits the request buffer; a torn last command changes nothing |
| `Torn.TornThenAppended` | src/persistence/aof.cpp:346-408 | whole commands, any further bytes, and one more record read as the commands and that record if and only if there are no such bytes |
| `Torn.ElementsBack` | src/protocol/resp.cpp:215-245 | elements that denote the arguments of a command and end where its encoding ends start where that encoding starts |
| `Torn.TornThenAppendedFails` | src/persistence/aof.cpp:385-408 | a byte left by a torn write is harmless at the next start, but after any further write the server no longer starts |
| `Torn.TornValueSwallows` | src/persistence/aof.cpp:385-408 | a SET torn inside its value, as far from its end as the next record is long: the file reads without error, the key holds the bytes of the record and the record is lost |
| `Durability.FilesFollow` | src/persistence/aof.cpp:193-296 | over every run the bytes on disk are the encodings of the command lists |
| `Durability.RecordFits` | src/commands/commands.cpp:54-77 | everything a request off the wire makes the server log can be parsed again |
| `Durability.RestartFaithful` | src/main.cpp:57-113 | a restart from the bytes on disk gives the live view, over every run, earlier restarts included, and at any later time; only the snapshot and the log after the manifest offset need to fit the request buffer |
| `Durability.ManifestInvariant` | src/persistence/snapshot.cpp:202-214 | an existing manifest is usable, ends a whole command, lies within the log, and its snapshot reads like the table at that point |
| `Durability.CrashRestarts` | src/persistence/snapshot.cpp:96-168 | a crash at any file step of a SAVE or rewrite begun without a manifest restarts, from the bytes then on disk, to the live view |
| `Durability.ManifestLast` | src/persistence/snapshot.cpp:70-87 | each file step of a SAVE or rewrite changes one file, the manifest last |
| `Durability.RewriteCrashRestarts` | src/persistence/aof.cpp:268-281 | a crash between the log rename and the manifest removal of a rewrite restarts to the live view if the old manifest is unusable with the new log, as when its offset lies beyond the end |
| `Rewritten.RewriteCrashExact` | src/persistence/aof.cpp:268-281 | if the old offset ends an item of the new log, that crash restarts to the live view if and only if the old snapshot agrees with the live table on every key the rest of the new log does not name |
| `Durability.TornWriteRestarts` | src/persistence/aof.cpp:346-349 | a log cut anywhere inside its last record restarts to the table before that write |
| `Startup.WriteItems` | src/persistence/snapshot.cpp:108-118 | the entry loop writes exactly the encoded dump of the listing |
| `Startup.Save` | src/persistence/snapshot.cpp:70-87 | writes the snapshot of what readers see and a manifest naming the current end of the log |
| `Startup.Rewrite` | src/persistence/aof.cpp:193-296 | replaces the log by the dump of what readers see, and removes the manifest only if its path is configured |
| `Startup.Load` | src/persistence/snapshot.cpp:224-268 | comes to exactly the table LoadBytesWithin gives, or fails exactly when that does |
| `Startup.ReplayFile` | src/persistence/aof.cpp:318-361 | comes to exactly the table ReplayBytesWithin gives, or fails exactly when that does; counts the commands and reports a torn tail exactly when bytes remain |
| `Startup.LoadForRecovery` | src/persistence/snapshot.cpp:270-290 | loads the snapshot exactly when the manifest is readable, names these paths, lies within the log and the snapshot exists |
| `Startup.Recover` | src/main.cpp:57-113 | under any memory limit comes up exactly when RecoverWithin does, with exactly that table |
| `Limited.ReplayAgrees` | src/persistence/aof.cpp:318-361 | under a limit a replay comes only to tables that read like the unlimited one; with no limit, or room for all the log writes, it comes up exactly when that does |
| `Limited.RecoverAgrees` | src/main.cpp:57-113 | the same for the whole recovery from bytes |
| `Peak.StepExact` | src/commands/commands.cpp:107-371 | under a limit a command does exactly what it does without one, or runs out of memory, according to the most memory it would hold, an MSET pair by pair |
| `Peak.ReplayExact` | src/persistence/aof.cpp:318-361 | a replay under a limit comes up if and only if the one without does and the most memory it ever holds is within the limit, and then with the same table |
| `Peak.LoadExact` | src/persistence/snapshot.cpp:224-268 | the same for loading a snapshot |
| `Peak.RecoverExact` | src/main.cpp:57-113 | the same for the whole recovery from bytes |
| `Peak.MoreMemoryIsSafe` | src/main.cpp:57-113 | raising or lifting the limit never breaks a recovery and never changes its outcome |
| `Startup.Reload` | src/persistence/snapshot.cpp:252-263 | a snapshot always fits back: under any memory limit nothing is refused, and the copy reads like the original |
| `Startup.ReplayRewritten` | src/persistence/aof.cpp:231-251 | a rewritten log always fits back, replayed through the handlers |
| `Lifetime.ServeOne` | src/commands/commands.cpp:132-371 | one order on the live objects, under any memory limit, follows the sequential model: reply, files and visible table |
| `Lifetime.ServeOrders` | src/commands/commands.cpp:132-371 | any orders under a monotone clock, with any hash, shard count and memory limit, follow the sequential model |
| `Lifetime.ServeWrite` | src/commands/commands.cpp:107-371 | one command on the live objects: answered and logged as the sequential model says, or refused exactly when ExecWithin is out of memory |
| `Lifetime.Reborn` | src/main.cpp:57-113 | a new process on the same files comes up exactly when the sequential model does and the most memory recovery holds is within the limit, and then mirrors the sequential model after a restart |
| `Lifetime.ServeLives` | src/main.cpp:57-113 | any number of lives ended by loss of memory and restart follow the sequential model, until a restart fails as RecoverWithin says |
| `Lifetime.ServeAndRestart` | src/main.cpp:57-113 | any number of lives, more orders, loss of memory, recovery from the files: the restarted engine reads like the lost one; it comes up if and only if there is no memory limit or the most memory recovery holds is within it |
| `Workers.MicroCompletes` | src/commands/commands.cpp:204-249 | the storage calls of a handler run alone add up to what Exec says, record included |
| `Workers.MicroAgrees` | src/commands/commands.cpp:204-249 | any number of storage calls of a handler does the same on tables that agree on the request's keys |
| `Workers.MicroLocal` | src/commands/commands.cpp:204-249 | and leaves every other key alone |
| `Workers.MoveKeeps` | src/commands/commands.cpp:187-201 | every enter, storage call, append, release and checkpoint keeps the table in step with the sequential run in append order |
| `Workers.WorkersSerialize` | src/commands/commands.cpp:187-201 | in every interleaving with disjoint keys in flight, the state without a write in flight is the sequential run in append order |
| `Workers.BarrierCanBeTaken` | src/persistence/aof.cpp:101-104 | from any state the writes in flight can all be finished, without a new one entering, and the barrier then taken exclusively |
| `Workers.CrossedIffCommute` | src/commands/commands.cpp:187-201 | two writes of one storage call each, on any keys, stored in one order and logged in the other: the outcome is the sequential run in append order if and only if they commute under Exec |
| `Workers.CountersCommute` | src/commands/commands.cpp:251-261 | INCR and DECR of one key commute as long as no order of them leaves 64 bits |
| `Workers.MutationsMatchRecords` | src/persistence/aof.cpp:101-104 | in every interleaving, under the exclusive barrier the records decided and the records logged since the last rewrite match one for one |
| `Workers.ChangesAreRecorded` | src/commands/commands.cpp:204-249 | in every interleaving a storage call that readers can see commits its handler to a record; only an MSET pair refused for its size undoes that |
| `Workers.SilentOnlyMset` | src/commands/commands.cpp:242-247 | a handler that has changed what readers see and decided no record is an MSET refused part-way |
| `Workers.WorkersRecover` | src/persistence/aof.cpp:154-174 | a concurrent server recovers its table from the files found under the exclusive barrier |
| `Drift.RelativeDrift` | src/commands/commands.cpp:182-201 | SET EX or PX: the replayed expiry exceeds the live one by at most the two delays, and by more than the two delays less two milliseconds |
| `Drift.DriftIsSharp` | src/commands/commands.cpp:182-201 | both ends of that interval are met for any delays |
| `Drift.ReplayedReadable` | src/storage/storage_engine.cpp:505-507 | the replayed key is ever readable exactly when a whole millisecond was left |
| `Drift.AbsoluteDrift` | src/commands/commands.cpp:182-185 | SET EXAT or PXAT: live and replayed expiry differ by the delays within one millisecond |
| `Drift.ExpireDrift` | src/commands/commands.cpp:93-95 | EXPIRE and PEXPIRE: the restored expiry moves by the logging delay, less under one millisecond |
| `Drift.RewriteSettles` | src/storage/storage_engine.cpp:587-593 | snapshots and rewrites round an expiry down by less than a millisecond, and only once |
| `Limitations.LapsedCounterDiverges` | src/storage/storage_engine.cpp:167-171 | an INCR whose key expires before the replay: live 6, replayed 1 |
| `Limitations.PartialMsetDiverges` | src/commands/commands.cpp:242-247 | an MSET refused at its second pair keeps the first and logs nothing |
| `Limitations.SecondSaveCrashDiverges` | src/persistence/snapshot.cpp:78-87 | a run whose counter recovers at 2, and at 3 after a crash between the snapshot and the manifest of its second SAVE |
| `Limitations.RewriteCrashDiverges` | src/persistence/aof.cpp:268-281 | a run whose rewrite stops between replacing the log and removing the manifest, and whose restart brings back an old value |
| `Limitations.StaleManifestDiverges` | src/persistence/aof.cpp:278-281 | with no manifest path configured, a run that restarts to a stale snapshot |
| `Limitations.RestartNeedsManifestPath` | src/persistence/snapshot.cpp:65-68 | restarts are faithful for every run if and only if the manifest path is configured |
| `Limitations.CrossedAppendsDiverge` | src/commands/commands.cpp:263-273 | two overlapping APPENDs to one key, stored in one order and logged in the other, replay to another value |
| `Limitations.DeadRowStopsReplay` | src/main.cpp:57-113 | under a memory limit a log can fail to replay: a row that expired and was swept live comes back at replay, and the next command no longer fits |

## Left out

- Sockets, event loops, thread start and stop, output buffers: I/O around the core.
- fsync policies, failed or short writes, disk errors: files are byte sequences with atomic rename.
- `INFO`, `CONFIG`, `COMMAND` and `SHUTDOWN`: reports on the process; `Exec` answers them and any unknown name with a refusal and changes nothing.
- The texts of replies: handlers answer with values (status, nil, number, reason); `Values` covers how values are written.
- Workers.WorkersSerialize: no memory limit, and one clock reading per request, although each storage call of a `DEL` or `MSET` reads the clock itself; disjointness of keys in flight is sufficient, and `Workers.CrossedIffCommute` gives the exact condition for two writes only.
- Workers.MutationsMatchRecords: counts the mutations whose handler decided to log; the mutations of an `MSET` refused part-way, the only others, decide no record.
- Node.CrashSafe: for a SAVE or rewrite that began with a manifest the exact conditions are in `Crash.SecondSaveCrash` and `Rewritten.RewriteCrashExact`.
- Rewritten.RewriteCrashExact: for an old offset that ends an item of the new log; one that falls inside an item is not decided.
- Runs that go on after a torn tail: the runs of `Durability` and `Lifetime` open a whole log; `Torn` says what is read otherwise.
- Commands.TtlArgExact: nothing is said of a product below the 64-bit minimum, where the source overflows.
- 64-bit overflow in expiry arithmetic: excluded by `Commands.InRange`; the source does not guard it.
- Entry versions, last-access times and the expired-keys counter: kept by the source, read by nothing modelled.
- Rehashing, which may reorder the rows of a shard when it grows: rows keep their order except for the new one.
- Ledger.LedgerBalances: the counter is one atomic variable; steps of one thread are sequential, and lock-freedom of the swap loops is not claimed.
- Allocation failures inside a storage write, except that `Ledger` lets a reservation be abandoned.
- SAVE with the log disabled, and startup from a snapshot alone.
- Creating directories, unsafe paths and path normalization.
