# FerrumKV: a verified model

FerrumKV is a Redis-like store. Its keyspace is shadowed by structures that have to keep
agreeing with it: a byte counter, an ordered eviction index and an append-only log (AOF).
This project models that core in Dafny and proves what the agreement is for: clients see a
plain map whose keys vanish at their deadline, memory stays within its ceiling (and exactly
when it does not), and the log brings the store back after a crash (and exactly what it
does not bring back).

## How the model is laid out

| file | component |
|---|---|
| `Prelude.dfy`, `Keyspace.dfy`, `Decimal.dfy` | sequences without duplicates; entries, expiry, byte costs, policy tables; signed 64-bit decimal text |
| `SieveQueue.dfy`, `ClimbList.dfy` | the two eviction indexes, as classes |
| `Sweeper.dfy`, `ActiveExpiry.dfy` | the rotating cursor of active expiry, and its ticks on the engine |
| `LiveMap.dfy`, `ReplyLaws.dfy` | the reference machine: a map, a clock, nothing else; and what its commands promise each other |
| `Engine.dfy` | the engine class: store, counter, index and log under one invariant |
| `Records.dfy` | the five log records, their meaning, and replay at a clock |
| `Rewrite.dfy`, `GroupCommit.dfy` | background rewrite and the fsync barrier, as interleaved steps of any number of threads |
| `Resp.dfy`, `Commands.dfy`, `Connection.dfy` | RESP2 framing, the command table and its printer, the connection loop |
| `Recovery.dfy` | from records to bytes and back: crashes, the replay loop, a restart |
| `Glob.dfy`, `Base64.dfy` | the key-search wildcard and the dashboard's base64 |

There is one logical millisecond clock. A command is one atomic step at one clock reading,
because the store's write lock covers it. The hash map's iteration order is any order.
Bytes are integers from 0 to 255, sizes are unbounded, and the 64-bit bounds that the code
checks (INCRBY sums, deadlines, RESP numbers) are written out.

Commands that the source implements with mutation and loops are methods of classes with
`modifies` clauses. Each is proved against the reference machine or against a specification
function, and the laws are then proved about those.

## Main results

- Joint invariant (`Engine.KvEngine.Valid`): every command, sweep, eviction and policy switch keeps
  the counter equal to the byte cost of the store, the index in agreement with the store, the
  inactive index empty, the log readable as the live store, and every record in it writable.
- Runs (`Run`): over any run, capped or not, the log only grows, and only a successful PERSIST takes a
  stored key out of an all-keys index. Without a memory cap any run of commands, time, sweeps and
  policy switches gives the replies of the reference machine.
- Eviction (`SieveState.EvictOne`, `EnforceMemoryLimit`, `RoomBesideKept`): the SIEVE choice on the
  cyclic order; success if and only if the write fits beside what no sweep can take. Under an
  all-keys policy that is nothing, so a write succeeds exactly when it fits alone, except that an
  index keeps the stored keys a PERSIST dropped from it (`FitsAloneIffNothingKept`; `PersistRefuses`
  shows a refusal). Every key evicted goes at a moment when the write did not fit.
- The ceiling (`Wrote`, `StaysUnder`): a successful write leaves the counter under the ceiling, except
  exactly when the sweep took the very key and its new entry does not fit beside what is left. A key
  that is absent, not evictable, or that fits as things are is never that case. The case is real
  (`OvershootHappens`).
- Replay (`ReplayExact`, `RestartRestores`, `Session`): a restart never resurrects or
  alters a key, and loses a live key if and only if a stamp that has passed was lifted without a
  SET after it. That this loss is real is `ReplayLosesPersisted`.
- Rewrite (`RewriteIsInvisible`, `SwapLeavesWholeFile`): in every state of every interleaving the
  file reads back as the live store, although writes between claim and snapshot are in both
  parts. Between rename and swap the named file lacks the appends since the snapshot
  (`RenameWindow`, with a run that shows it in `RenameWindowLoses`).
- Group commit (`BarrierIsDurable`, `ErrIffFsyncFailed`, `NeverStuck`): a barrier that returns Ok covers
  every batch published before the call, on the skip paths too, for any number of threads; it fails
  exactly when its own fsync did; no fsync is made in vain, and nobody waits for nothing.
- Crash recovery on bytes (`CrashRecovery`, `CrashDuringRun`): a log cut anywhere loads exactly its
  whole records, and a second replay is clean. A cut of a run's file is the log of an earlier moment
  of that run and at most a part of the next event's records.
- Framing (`ParsingIsIncremental`, `Serve`, `EveryRequestIsAnswered`): however a client's requests are
  split into reads, each gets one event, in order. The command printer is undone by the parser
  (`PrintedRebuilds`).
- Commands (`ReplyLaws.dfy`): one command's effect read through another's reply, down to the
  millisecond a key vanishes.

Where the code and its documentation differ the model follows the code: PERSIST takes a key out
of the index in both scopes, MEMORY USAGE leaves a tombstone in the index, replaying a past
PEXPIREAT deletes even if a later record lifts it, and the growth of a write is computed before
the sweep that may evict the very key being written.

## Model

| member | source | states |
|---|---|---|
| `Keyspace.LiveLater` | src/storage/engine/entry.rs:106-108 | stores that look alike to clients now look alike at every later clock |
| `Keyspace.TotalBytesSplit` | src/storage/engine/util.rs:20-22 | the total cost of a store is any one entry's cost plus the rest's, whatever order it is summed in |
| `Keyspace.TotalBytesMonotone` | src/storage/engine/util.rs:20-22 | removing keys never raises the total cost |
| `Keyspace.KindTells` | src/storage/eviction.rs:148-159 | two policies share an index exactly when neither has one or they are the same |
| `Decimal.PrintParse` | src/protocol/parser.rs:775-780 | the decimal text of every signed 64-bit integer parses back to it |
| `Decimal.PrintShort` | src/protocol/parser.rs:775-780 | that text is at most 20 bytes, so a counter's value always validates |
| `Decimal.PrintGrows` | src/protocol/parser.rs:775-780 | decimal text grows by one digit per factor of ten |
| `Decimal.OverflowIsRefused` | src/protocol/parser.rs:775-780 | the text of an integer that does not fit 64 bits is no number |
| `Decimal.ParseExamples` | src/protocol/parser.rs:775-780 | a sign alone and stray characters are refused, a plus sign and leading zeros accepted |
| `SieveQueue.View.SweptHead` | src/storage/sieve.rs:175-211 | at any point of a sweep the slot under the hand is the next of the original cyclic order or, a full round on, one the sweep itself unmarked; if taken it is the SIEVE choice |
| `SieveQueue.LookSweeps` | src/storage/sieve.rs:175-211 | one look advances the sweep by one slot or ends it with the SIEVE choice, dropping only tombstones and out-of-scope keys |
| `SieveQueue.SieveState.Look` | src/storage/sieve.rs:175-211 | one look drops, takes, or clears and passes the key under the hand, in the cyclic and in the linear order |
| `SieveQueue.SieveState.EvictOne` | src/storage/sieve.rs:162-215 | the first evictable key in cyclic order that is unvisited (or near expiry when TTL-aware), else the first evictable key; None exactly when no queued key is evictable; survivors keep their order; the look budget never runs out early; and the same in plain terms at the default threshold |
| `SieveQueue.NearIsSixSeconds` | src/storage/sieve.rs:221-232 | at the default threshold near expiry is a deadline at most 6000 ms away or past |
| `SieveQueue.PicksInPlainTerms` | src/storage/sieve.rs:162-232 | TTL-aware: a visited key not due in six seconds goes only if all are visited and none is due, and the first due key goes unless an unvisited one is before it; plain: the first unvisited key goes, a visited one only if all are |
| `SieveQueue.AccessSpares` | src/storage/sieve.rs:103-107 | a key just accessed is not the victim while an evictable key is unvisited |
| `SieveQueue.SieveState.ObserveInsert` | src/storage/sieve.rs:94-100 | a new in-scope key joins at the tail, a known one keeps its place and loses its bit, an out-of-scope one leaves |
| `SieveQueue.SieveState.ObserveAccess` | src/storage/sieve.rs:103-107 | a hit sets one bit and moves nothing |
| `SieveQueue.SieveState.ObserveRemove` | src/storage/sieve.rs:111-121 | the key leaves, others keep their order, and the hand stays on its key or wraps |
| `SieveQueue.SieveState.Rebuild` | src/storage/sieve.rs:127-140 | the queue holds exactly the store's eligible keys, without duplicates |
| `ClimbList.InsertedKeepsOrder` | src/storage/adaptive_climb.rs:100-118 | an insertion moves nobody but its key and leaves 1 <= jump <= max(1, len) |
| `ClimbList.HitKeepsOrder` | src/storage/adaptive_climb.rs:129-145 | a hit moves nobody but its key, which climbs at least one place |
| `ClimbList.HitMoves` | src/storage/adaptive_climb.rs:129-145 | in numbers: jump shrinks by one but not below 1, and the key moves up by that or to the head |
| `ClimbList.InsertMoves` | src/storage/adaptive_climb.rs:100-118 | in numbers: jump grows by one but not above the other keys, and the key enters that far above the tail |
| `ClimbList.HitsTune` | src/storage/adaptive_climb.rs:129-145 | n hits bring jump down by n, never below 1 |
| `ClimbList.ClimbsToHead` | src/storage/adaptive_climb.rs:129-145 | a key at position p is at the head after p consecutive hits |
| `ClimbList.HitFreeIsRecency` | src/storage/adaptive_climb.rs:100-152 | over every run without hits the list is strictly by most recent write |
| `ClimbList.VictimIsOldest` | src/storage/adaptive_climb.rs:204-230 | so there the victim is the least recently written of the keys that may be evicted |
| `ClimbList.EvictionIsDrop` | src/storage/adaptive_climb.rs:149-152 | evicting a key and then reporting its removal is one removal |
| `ClimbList.RemovedKeepsOrder` | src/storage/adaptive_climb.rs:149-152 | a removal takes out its key alone and leaves the list tuned |
| `ClimbList.AdaptiveClimbState.ObserveInsert` | src/storage/adaptive_climb.rs:100-118 | refines the list specification, with the set of queued keys |
| `ClimbList.AdaptiveClimbState.ObserveAccess` | src/storage/adaptive_climb.rs:129-145 | refines a hit at the key's position, or nothing |
| `ClimbList.AdaptiveClimbState.ObserveRemove` | src/storage/adaptive_climb.rs:149-152 | refines a removal, and restores the tuning after an eviction |
| `ClimbList.AdaptiveClimbState.Rebuild` | src/storage/adaptive_climb.rs:157-170 | the list holds exactly the store's eligible keys, with jump 1 |
| `ClimbList.AdaptiveClimbState.EvictOne` | src/storage/adaptive_climb.rs:204-230 | the evictable key nearest the tail; None exactly when there is none; others keep their order |
| `Sweeper.TicksRemoveDead` | src/storage/engine/mod.rs:1152-1195 | any run of ticks removes only keys past their deadline |
| `Sweeper.NextRotates` | src/storage/engine/mod.rs:1152-1195 | advancing the cursor rotates the walk by the keys examined |
| `Sweeper.WindowMakesProgress` | src/storage/engine/mod.rs:1152-1195 | any ticks with ticks times sample at least the number of keys remove a key if one was expired when they began |
| `Sweeper.SweeperDrains` | src/storage/engine/mod.rs:1152-1195 | with as many such windows as expired keys, every key expired at the start is gone |
| `Sweeper.WrapIsMod` | src/storage/engine/mod.rs:1152-1195 | the cursor arithmetic is the remainder the code takes |
| `Sweeper.WindowIs` | src/storage/engine/mod.rs:1152-1195 | a tick looks at `sample` consecutive keys from the cursor, modulo the number of keys |
| `Sweeper.FewGo` | src/storage/engine/mod.rs:1152-1195 | and removes no more than that |
| `ActiveExpiry.TickOnce` | src/storage/engine/mod.rs:1152-1195 | one tick on the engine is one tick of the cursor specification |
| `ActiveExpiry.SweepTicks` | src/storage/engine/mod.rs:1152-1195 | so are any number in a row |
| `ActiveExpiry.SweepWindows` | src/storage/engine/mod.rs:1152-1195 | on the engine, as many windows as expired keys leave none that was expired at the first tick, and take no key that is not expired by the last |
| `Engine.KvEngine.constructor` | src/storage/engine/mod.rs:280-316 | a new engine meets the invariant, empty and without a log |
| `Engine.KvEngine.AttachAof` | src/storage/engine/mod.rs:318-321 | the log starts from what is visible |
| `Engine.KvEngine.Tick` | src/storage/engine/entry.rs:106-108 | passing time removes visible entries at their deadline and breaks nothing |
| `Engine.KvEngine.Log` | src/storage/engine/write_guard.rs:103-111 | a record about a change keeps the log in step with the store after it |
| `Engine.KvEngine.ApplyDelta` | src/storage/engine/mod.rs:1558-1583 | the saturating subtraction never saturates |
| `Engine.KvEngine.TrackInsert` | src/storage/engine/mod.rs:1243-1260 | counter, index and store move together on insert, the key is no longer dropped from the index, and the old entry is returned |
| `Engine.KvEngine.TrackRemove` | src/storage/engine/mod.rs:1524-1536 | and on removal, also between the two halves of an eviction |
| `Engine.KvEngine.TrackClear` | src/storage/engine/mod.rs:1539-1550 | and on clear, which empties the index |
| `Engine.KvEngine.SampleCandidates` | src/storage/engine/util.rs:30-51 | at most `samples` eligible keys; none exactly when `samples` is 0 or no key is eligible |
| `Engine.KvEngine.PickVictim` | src/storage/eviction.rs:221-262 | a victim is evictable, None means nothing is, the evictable set loses just the victim, and under SIEVE and AdaptiveClimb it is their choice in plain terms |
| `Engine.KvEngine.EvictStep` | src/storage/engine/mod.rs:1278-1356 | one eviction keeps the joint invariant |
| `Engine.KvEngine.EvictUntilFits` | src/storage/engine/mod.rs:1278-1356 | the iteration bound never cuts the loop short; with any first part of the evictions done but not all, the write still did not fit |
| `Engine.KvEngine.EnforceMemoryLimit` | src/storage/engine/mod.rs:1278-1356 | succeeds exactly when the bytes fit with every evictable key gone, which is exactly when they fit at the end; each eviction, in order, happened while they did not fit |
| `Engine.KvEngine.EnforceForWrite` | src/storage/engine/mod.rs:1402-1416 | the same for the net growth of a write, taken before the sweep |
| `Engine.NetGrowthIsGrowth` | src/storage/engine/mod.rs:1408-1415 | the growth asked for is what the write would add to the total cost, or 0 |
| `Engine.UnevictableWriteFits` | src/storage/engine/mod.rs:1402-1416 | with nothing evictable a write succeeds exactly when the store fits before and after it |
| `Engine.EvictableByScope` | src/storage/eviction.rs:103-122 | evictable are the TTL keys (volatile) or all keys, less those a PERSIST took out of an index |
| `Engine.RoomBesideKept` | src/storage/engine/mod.rs:1278-1356 | under every policy room is made for any number of bytes exactly when they fit beside what no sweep can take |
| `Engine.AllKeysFitsAlone` | src/storage/engine/mod.rs:1278-1356 | under an all-keys policy exactly when they fit alone: always if it samples, and if it is indexed while no stored key is one that a PERSIST dropped |
| `Engine.FitsAloneIffNothingKept` | src/storage/engine/mod.rs:1278-1356 | "room exactly when it fits alone" holds of all sizes if and only if nothing is kept |
| `Engine.VolatileFitsBesideTheRest` | src/storage/engine/mod.rs:1278-1356 | under a volatile policy exactly when they fit beside the keys without a deadline |
| `Engine.WriteBesideKept` | src/storage/engine/mod.rs:1402-1416 | a write succeeds exactly when its growth fits beside all that is kept together |
| `Engine.DroppedStays` | src/storage/engine/write_guard.rs:341-365 | in particular one that does not fit beside a key that PERSIST dropped is refused |
| `Engine.PersistRefuses` | src/storage/engine/write_guard.rs:356-359 | an engine under all-keys SIEVE that refuses 145 bytes under a ceiling of 210 after a PERSIST |
| `Engine.FittingEvictsNone` | src/storage/engine/mod.rs:1278-1356 | a write that fits as things are evicts nothing |
| `Engine.InsertBytes` | src/storage/engine/mod.rs:1402-1416 | after a write the counter is under the ceiling if and only if the sweep spared the key or its new entry fits beside what is left; otherwise it exceeds it by at most the smaller of old and new cost |
| `Engine.WroteWhat` | src/storage/engine/mod.rs:1402-1416 | what a sweep and a write come to together: who goes, when it succeeds, where the counter ends |
| `Engine.StaysUnder` | src/storage/engine/mod.rs:1402-1416 | writing a key that is absent, not evictable, or that fits as things are never exceeds the ceiling |
| `Engine.OvershootIsSmall` | src/storage/engine/mod.rs:1402-1416 | no write exceeds the ceiling by more than the old or the new entry's own cost |
| `Engine.OvershootHappens` | src/storage/engine/mod.rs:1408-1415 | two SETs of one key end at 220 bytes under a ceiling of 210 |
| `Engine.KvEngine.Put` | src/storage/engine/write_guard.rs:227-254 | logging and storing one live entry, with its deadline re-stamped |
| `Engine.KvEngine.Insert` | src/storage/engine/write_guard.rs:159-176 | the new store and view, the replaced live value, exact success, evictions only of candidates and only if needed, and the exact ceiling |
| `Engine.KvEngine.ReadState` | src/storage/engine/write_guard.rs:260-271 | returns the live entry; drops an expired one and appends its DEL; clients see no change |
| `Engine.KvEngine.Set` | src/storage/engine/write_guard.rs:159-176 | answers as the reference machine, hands back the live value it replaced, success and ceiling exactly |
| `Engine.KvEngine.SetNx` | src/storage/engine/write_guard.rs:179-198 | answers as the reference machine; success exactly when it fits; a new key never exceeds the ceiling |
| `Engine.KvEngine.MSet` | src/storage/engine/write_guard.rs:201-221 | answers as the reference machine, all pairs or none; success means each pair fits as a rewrite, refusal that some pair does not fit as a new key |
| `Engine.KvEngine.EnforceAll` | src/storage/engine/write_guard.rs:209-211 | the per-pair checks evict candidates only and decide that |
| `Engine.KvEngine.CheckPairs` | src/storage/engine/mod.rs:704-716 | reports the first invalid pair's error before anything changes |
| `Engine.KvEngine.Replace` | src/storage/engine/write_guard.rs:227-254 | rewrites a value under the deadline it has |
| `Engine.KvEngine.Update` | src/storage/engine/write_guard.rs:227-254 | the shared end of INCRBY and APPEND: stored as the reference machine does, or refused exactly when it does not fit |
| `Engine.KvEngine.IncrBy` | src/storage/engine/mod.rs:763-785 | answers as the reference machine, 64-bit overflow and non-integers included; success and ceiling exactly |
| `Engine.KvEngine.Append` | src/storage/engine/mod.rs:1003-1020 | answers as the reference machine, the length cap included; success and ceiling exactly |
| `Engine.KvEngine.Get` | src/storage/engine/mod.rs:830-850 | answers as the reference machine on both lock paths, and tells the active index of a hit |
| `Engine.KvEngine.MGet` | src/storage/engine/mod.rs:718-750 | answers as the reference machine, repeats and order kept |
| `Engine.KvEngine.Exists` | src/storage/engine/mod.rs:900-929 | counts as the reference machine, repeats counted |
| `Engine.KvEngine.StrLen` | src/storage/engine/write_guard.rs:398-409 | answers as the reference machine |
| `Engine.KvEngine.Ttl` | src/storage/engine/write_guard.rs:378-395 | answers as the reference machine |
| `Engine.KvEngine.MemoryUsage` | src/storage/engine/write_guard.rs:413-426 | answers as the reference machine and appends the DEL of an expired entry, though the index keeps a tombstone |
| `Engine.KvEngine.DbSize` | src/storage/engine/mod.rs:935-939 | counts live keys only |
| `Engine.KvEngine.Del` | src/storage/engine/write_guard.rs:287-301 | removes every named key, counts those that were live and appends one DEL for each, at its first occurrence |
| `Engine.KvEngine.FlushDb` | src/storage/engine/write_guard.rs:368-375 | empties store, counter and index and appends FLUSHDB |
| `Engine.KvEngine.ExpireAt` | src/storage/engine/write_guard.rs:305-338 | answers as the reference machine; a past deadline deletes at once |
| `Engine.KvEngine.Persist` | src/storage/engine/write_guard.rs:341-365 | answers as the reference machine and drops the key from the index in either scope |
| `Engine.KvEngine.DropExpired` | src/storage/engine/mod.rs:1152-1195 | removes exactly the expired ones of a list and appends one DEL for each, at its first occurrence; clients see no change |
| `Engine.KvEngine.SweepExpired` | src/storage/engine/mod.rs:1152-1195 | one tick refines the cursor specification and is invisible |
| `Engine.KvEngine.SetEvictionConfig` | src/storage/engine/mod.rs:330-367 | a policy switch re-establishes the index; the old one is emptied |
| `Engine.KvEngine.Execute` | src/storage/engine/write_guard.rs:115-426 | every command answers as the reference machine and only appends to the log; evictions take candidates only; only a write under a cap is refused, and exactly when it does not fit; only a successful PERSIST drops a key from the index |
| `Engine.KvEngine.Run` | src/storage/engine/mod.rs:718-939 | any run keeps the invariant, the writer and an append-only log that read as the visible store at every moment; without a successful PERSIST every stored key stays in an all-keys index; uncapped, the replies and the view are the reference machine's |
| `ReplyLaws.OthersUntouched` | src/storage/engine/write_guard.rs:115-426 | a command changes nothing about keys it does not name |
| `ReplyLaws.ReadersAndRefusals` | src/storage/engine/write_guard.rs:115-426 | readers and refused commands change nothing |
| `ReplyLaws.SetReadsBack` | src/storage/engine/write_guard.rs:159-176 | SET takes keys of 1 to 65536 bytes and values up to 16 MiB, and GET, STRLEN, TTL and MEMORY USAGE then report what it wrote |
| `ReplyLaws.SetNxIsSetIfMissing` | src/storage/engine/write_guard.rs:179-198 | SETNX is SET where GET finds nothing and nothing elsewhere |
| `ReplyLaws.MSetIsSets` | src/storage/engine/write_guard.rs:201-221 | MSET is its SETs in order, refused exactly when one of them is |
| `ReplyLaws.IncrAdds` | src/storage/engine/mod.rs:763-785 | INCRBY starts from 0 or the number stored, fails on overflow, and GET shows the sum |
| `ReplyLaws.IncrRefusesText` | src/storage/engine/mod.rs:763-785 | and fails on a value that is no number |
| `ReplyLaws.AppendJoins` | src/storage/engine/mod.rs:1003-1020 | APPEND puts the suffix behind what GET showed; STRLEN agrees with its reply; it fails beyond 16 MiB |
| `ReplyLaws.UpdatesKeepTtl` | src/storage/engine/write_guard.rs:227-254 | INCRBY and APPEND leave TTL's answer as it was |
| `ReplyLaws.MGetIsGets` | src/storage/engine/mod.rs:718-750 | MGET is GET key by key |
| `ReplyLaws.ExistsCounts` | src/storage/engine/mod.rs:900-929 | EXISTS counts the keys GET would find, as often as named |
| `ReplyLaws.DelRemoves` | src/storage/engine/write_guard.rs:287-301 | DEL leaves GET nothing |
| `ReplyLaws.DelCounts` | src/storage/engine/write_guard.rs:287-301 | and answers how many keys DBSIZE lost |
| `ReplyLaws.FlushEmpties` | src/storage/engine/write_guard.rs:368-375 | FLUSHDB leaves DBSIZE 0 and GET nothing |
| `ReplyLaws.DbSizeCounts` | src/storage/engine/mod.rs:935-939 | DBSIZE grows by one exactly when a SET creates its key |
| `ReplyLaws.ExpireAtStamps` | src/storage/engine/write_guard.rs:305-338 | a future EXPIREAT shows in TTL only, a past one deletes, on a missing key it does nothing |
| `ReplyLaws.PersistUnstamps` | src/storage/engine/write_guard.rs:341-365 | PERSIST succeeds exactly where TTL shows a time, and takes it away |
| `ReplyLaws.TimePasses` | src/storage/engine/entry.rs:106-108 | TTL counts down and the key is gone from the very millisecond of its deadline |
| `Engine.RestartRestores` | src/persistence/replay.rs:337-393 | replaying the log of any engine at any later clock restores exactly the undoomed live keys, unaltered |
| `Records.LogGrows` | src/storage/engine/write_guard.rs:103-111 | a log that shows what the store shows keeps up with one more record |
| `Records.ReplayExact` | src/persistence/replay.rs:337-393 | replay restores a key exactly when the log holds it and does not doom it, with the same entry, never expired |
| `Records.SessionAgrees` | src/persistence/replay.rs:337-393 | across a restart, undoomed keys read the same whether the old log was replayed or taken at its word |
| `Records.ReplayRestores` | src/persistence/replay.rs:337-393 | both directions of what a restart restores, for any log that reads as the store |
| `Records.ReplayLosesPersisted` | src/storage/engine/write_guard.rs:305-338 | SET, PEXPIREAT, PERSIST then a restart past the stamp loses a live key |
| `Records.UnnamedIsUntouched` | src/persistence/replay.rs:337-393 | records that do not name a key change nothing about it, in replay or in what dooms it |
| `Records.ReapplyIsIdempotent` | src/persistence/writer.rs:182-229 | re-applying records to their own live result shows nothing new |
| `Rewrite.CompactReads` | src/storage/engine/mod.rs:1721-1763 | a compact log reads, and replays at any clock, as the keys it lists |
| `Rewrite.Compact` | src/storage/engine/mod.rs:1721-1763 | the serialised snapshot reads as the live store and replays as it at every later clock |
| `Rewrite.CompactIsWritable` | src/storage/engine/mod.rs:1721-1763 | every record of it fits the byte format |
| `Rewrite.SnapshotKeepsInv` | src/storage/engine/mod.rs:1672-1714 | the overlap of snapshot and delta is harmless |
| `Rewrite.StepKeepsInv` | src/persistence/writer.rs:182-421 | every step of the interleaved protocol keeps its invariant |
| `Rewrite.RewriteIsInvisible` | src/persistence/writer.rs:182-421 | in every state of every run the written file, and snapshot plus delta, read as the live store |
| `Rewrite.SwapLeavesWholeFile` | src/persistence/writer.rs:364-421 | after a swap the file alone, read from nothing, is the live store, and at any later clock the loader restores from it exactly the undoomed live keys |
| `Rewrite.RenameWindow` | src/persistence/writer.rs:364-421 | between rename and swap the named file lacks exactly the appends since the snapshot |
| `Rewrite.NamedFileIsWhole` | src/persistence/writer.rs:364-421 | outside that window, and in it with nothing appended since, the named file reads as the live store |
| `Rewrite.RenameWindowRestores` | src/persistence/writer.rs:364-421 | in the window the loader restores exactly every undoomed live key that no append since the snapshot names |
| `Rewrite.RenameWindowLoses` | src/persistence/writer.rs:364-421 | a run in which such an append is a live key the named file lacks |
| `GroupCommit.StepKeepsInv` | src/persistence/writer.rs:238-287 | every step of every thread keeps the barrier's invariant and moves the counters forward |
| `GroupCommit.SyncedIsMonotone` | src/persistence/writer.rs:238-287 | `synced` never decreases and never exceeds what is on disk |
| `GroupCommit.CalledIsPublished` | src/persistence/writer.rs:192-209 | throughout a call the thread's mark is the count published when it entered |
| `GroupCommit.BarrierIsDurable` | src/persistence/writer.rs:238-287 | Ok means everything published before the call is on disk and stays there |
| `GroupCommit.ErrIffFsyncFailed` | src/persistence/writer.rs:262-286 | the barrier fails exactly when its own fsync failed |
| `GroupCommit.BarrierServesTheQueue` | src/persistence/writer.rs:256-286 | when a caller that took the gate returns Ok, every batch published by then is marked as synced |
| `GroupCommit.NoNeedlessFsync` | src/persistence/writer.rs:264-271 | while an fsync is under way some published batch it covers is not known to be on disk |
| `GroupCommit.NeverStuck` | src/persistence/writer.rs:238-287 | a thread in the middle of something, or the one holding the gate, can go on without new work |
| `GroupCommit.SoloCall` | src/persistence/writer.rs:238-287 | a lone caller gets Ok with its batch on disk, and without an fsync if it was there already |
| `GroupCommit.OneFsyncAtATime` | src/persistence/writer.rs:238-287 | at most one fsync is under way |
| `Resp.EncodeCommand` | src/persistence/resp.rs:20-37 | the buffer loop writes the array encoding |
| `Resp.ArrayLawful` | src/protocol/parser.rs:245-385 | both readers use no more than there is, never change an answer when bytes are added, and call every cut of a whole array incomplete |
| `Resp.EncodeReads` | src/persistence/resp.rs:20-37 | both readers decode an encoded command to the same parts and the same end, whatever follows |
| `Resp.PrefixIsIncomplete` | src/persistence/replay.rs:175-233 | every proper prefix of it is incomplete to both |
| `Resp.CountRefused` | src/protocol/parser.rs:245-302 | an array count outside 1 to 1048576 on the wire, or below 0 in replay, is an error whatever follows |
| `Resp.LengthRefused` | src/protocol/parser.rs:343-385 | so is a negative bulk length, and on the wire one above 512 MiB |
| `Resp.TerminatorRequired` | src/protocol/parser.rs:343-385 | so is a payload not followed by CR LF |
| `Resp.MarkerRequired` | src/protocol/parser.rs:245-302 | so is anything that does not begin with an asterisk |
| `Resp.EncodeExample` | src/persistence/resp.rs:20-37 | the bytes of PING |
| `Resp.ReadParts` | src/protocol/parser.rs:245-302 | the cursor loop reads the elements one after another |
| `Resp.ReadIntegerBytes` | src/persistence/replay.rs:280-307 | replay's byte loop reads a number line: first CR, then LF, then the text |
| `Resp.ReadRecord` | src/persistence/replay.rs:175-233 | replay's record reader refines the array reader |
| `Commands.VerbOf` | src/protocol/parser.rs:399-410 | a name spells a verb in any case of its letters, and at most one |
| `Commands.RequestIsNamed` | src/protocol/parser.rs:399-762 | a request is told by its capitalised name alone; any other name is unknown |
| `Commands.UpperIs` | src/protocol/parser.rs:765-767 | the letters a to z are capitalised and no other byte changes |
| `Commands.RequestsWithAValue` | src/protocol/parser.rs:399-762 | what SET, SETNX, APPEND and INCRBYFLOAT requests mean |
| `Commands.RequestsWithAKey` | src/protocol/parser.rs:399-762 | what GET, STRLEN, PERSIST, TTL, PTTL, INCR, DECR and AUTH requests mean |
| `Commands.RequestsWithANumber` | src/protocol/parser.rs:399-762 | what INCRBY, EXPIRE, PEXPIRE and PEXPIREAT requests mean; DECRBY negates, but for the one number it cannot |
| `Commands.RequestsWithNoNumber` | src/protocol/parser.rs:775-780 | and that each refuses a text that is no 64-bit integer |
| `Commands.RequestsWithKeys` | src/protocol/parser.rs:399-762 | what MGET, DEL, EXISTS and MSET requests mean |
| `Commands.RequestsAlone` | src/protocol/parser.rs:399-762 | what DBSIZE, FLUSHDB, BGREWRITEAOF and MONITOR requests mean |
| `Commands.RequestsWithAnOption` | src/protocol/parser.rs:399-762 | what PING, INFO and HELLO requests mean |
| `Commands.RequestsWithASubcommand` | src/protocol/parser.rs:399-762 | what MEMORY, CONFIG and SLOWLOG requests mean |
| `Commands.HelloIs` | src/protocol/parser.rs:736-757 | HELLO knows versions 2 and 3 and no other |
| `Commands.ArityIs` | src/protocol/parser.rs:399-762 | a wrong number of arguments is refused as such, a right one is not |
| `Commands.BuiltIsCanonical` | src/protocol/parser.rs:399-762 | built commands have numbers in range, non-empty lists, known subcommands |
| `Commands.CanonicalRebuilds` | src/protocol/parser.rs:110-209 | every canonical command is built again from its printed arguments |
| `Commands.PrintedRebuilds` | src/protocol/parser.rs:110-209 | `build_command(args(c))` is `c` for everything `build_command` returns but INCRBYFLOAT |
| `Commands.PairUp` | src/protocol/parser.rs:399-762 | the MSET loop pairs the arguments |
| `Commands.Unpair` | src/protocol/parser.rs:110-209 | the printer's loop lists them again |
| `Connection.FrameOf` | src/protocol/parser.rs:245-302 | a whole frame uses at least one byte and no more than there are |
| `Connection.RequestFrame` | src/protocol/parser.rs:245-302 | the bytes of a request, whatever follows, are a complete frame of what they build, or an invalid one with its error, of exactly their length |
| `Connection.ParseFrame` | src/protocol/parser.rs:245-302 | `parse_frame` refines that reading, caps and errors included |
| `Connection.ParsingIsIncremental` | src/protocol/parser.rs:245-396 | complete, invalid and error answers do not change when bytes are appended |
| `Connection.DrainInPieces` | src/network/server.rs:211-309 | draining early and going on is draining it all at once |
| `Connection.DrainBuffer` | src/network/server.rs:211-309 | the drain loop refines the recursive drain and returns the unread tail |
| `Connection.Serve` | src/network/server.rs:202-316 | over any reads the events and the end are those of draining the whole stream at once; the connection is refused exactly when an unread tail outgrew the buffer, and then a prefix of those events happened |
| `Connection.SplittingIsInvisible` | src/network/server.rs:202-316 | two connections served the same bytes in different reads have the same events and end, unless a tail outgrew the buffer; then the events of the one refused are a prefix of the other's |
| `Connection.RequestsAreServed` | src/network/server.rs:211-309 | every request gets its one event, in order, with nothing left over |
| `Connection.EveryRequestIsAnswered` | src/network/server.rs:202-316 | so it does however the requests are split into reads |
| `Connection.MonitorEnds` | src/network/server.rs:233-245 | MONITOR ends the request loop |
| `Connection.BrokenEnds` | src/network/server.rs:281-288 | a protocol error drops the connection |
| `Connection.RefusedIs` | src/network/server.rs:311-316 | a connection is refused exactly when more than 17 MiB wait undrained |
| `Recovery.DecodeParts` | src/persistence/replay.rs:337-393 | the loader reads back the record the writer's parts came from |
| `Recovery.DecodedWasWritten` | src/persistence/replay.rs:337-393 | and reads a record only from such parts, no more and no fewer |
| `Recovery.OthersAreSkipped` | src/persistence/replay.rs:391-392 | parts that name none of the five records are skipped |
| `Recovery.RecordTexts` | src/persistence/writer.rs:129-181 | the texts the five records are written with |
| `Recovery.PeekReadsLog` | src/persistence/replay.rs:175-233 | every writable record is read back whole whatever follows, and its cuts are torn |
| `Recovery.CutLogLoads` | src/persistence/replay.rs:55-144 | a log cut anywhere loads exactly the wholly contained records, torn exactly when the cut is inside one |
| `Recovery.SecondReplayIsClean` | src/persistence/replay.rs:135-143 | replaying the truncated file is clean and loads the same |
| `Recovery.CrashRecovery` | src/persistence/replay.rs:55-144 | both for the writer's bytes and the loader's reader |
| `Recovery.OpReplays` | src/persistence/replay.rs:337-393 | on live entries a record's command does what replaying the record means, and fails exactly when `set` refuses |
| `Recovery.ApplyRecord` | src/persistence/replay.rs:337-393 | the engine keeps showing the replay of the records so far |
| `Recovery.ReplayFile` | src/persistence/replay.rs:55-144 | the loop applies, skips, stops and truncates as the file says, and the engine shows the replay of the records found |
| `Recovery.Start` | src/main.rs:190-227 | a start replays, then attaches the writer; the session begins from that replay |
| `Recovery.CutBackIsClean` | src/persistence/replay.rs:135-143 | whatever a file holds, cut back to its whole records it loads the same and cleanly |
| `Recovery.AppendedLoads` | src/persistence/replay.rs:55-144 | what is appended to a clean file loads after what was there |
| `Recovery.SessionFile` | src/persistence/replay.rs:55-144 | after a session that began on a clean file, the file loads cleanly as the records it held and then the log |
| `Recovery.Session` | src/main.rs:190-227 | start from any file, run anything, start again: the second start shows exactly the undoomed live keys, unaltered |
| `Recovery.RestartFromDisk` | src/persistence/replay.rs:55-144 | the file of any engine's log loads cleanly and restores exactly the undoomed live keys |
| `Recovery.CrashDuringRun` | src/persistence/replay.rs:55-144 | a cut of a run's file loads the log of an earlier moment and at most a part of the next event's records, and restores every key that part does not name as it was then, unless doomed |
| `Glob.MatchesOne` | src/storage/engine/mod.rs:1443-1515 | a token other than star takes exactly one fitting byte |
| `Glob.StarStar` | src/storage/engine/mod.rs:1429-1442 | stars in a row say no more than one |
| `Glob.ScanClass` | src/storage/engine/mod.rs:1462-1492 | the class loop finds the closing bracket and whether any item has the byte |
| `Glob.Step` | src/storage/engine/mod.rs:1443-1515 | one non-star token is decided and skipped |
| `Glob.MatchStar` | src/storage/engine/mod.rs:1429-1442 | the backtracking loop decides a star |
| `Glob.MatchFrom` | src/storage/engine/mod.rs:1424-1518 | the matcher decides the declarative meaning from any position |
| `Glob.GlobMatch` | src/storage/engine/mod.rs:1423-1520 | a text is accepted exactly when it can be cut into one fitting piece per token |
| `Glob.EscapedMatchesOnlyItself` | src/storage/engine/mod.rs:1450-1457 | an escaped text is a pattern for itself alone |
| `Glob.PatternMeans` | src/storage/engine/mod.rs:1423-1520 | any sequence of tokens can be written as a pattern that reads back as those tokens |
| `Glob.QuestionMatches` | src/storage/engine/mod.rs:1443-1449 | a question mark is any one byte |
| `Glob.RangeMatches` | src/storage/engine/mod.rs:1476-1485 | a range, negated or not, is one byte in or out of it; swapped ends wrap around |
| `Glob.SetMatches` | src/storage/engine/mod.rs:1458-1507 | a class of plain bytes is any one of them, a dash at either end included |
| `Glob.PrefixSearch` | src/storage/engine/mod.rs:1429-1442 | a text followed by a star finds exactly what begins with it |
| `Glob.PlainMatchesOnlyItself` | src/storage/engine/mod.rs:1493-1501 | a text without special bytes matches itself alone, brackets that never close included |
| `Glob.TrailingBackslash` | src/storage/engine/mod.rs:1450-1457 | a backslash at the end is a backslash |
| `Base64.RoundTrip` | src/network/dashboard/http.rs:381-442 | decoding the encoding gives every byte string back, white space or not |
| `Base64.SymbolIs` | src/network/dashboard/http.rs:382-382 | the alphabet of RFC 4648 |
| `Base64.Vectors` | src/network/dashboard/http.rs:381-403 | the test vectors of section 10 of RFC 4648 for one to three bytes |
| `Base64.GroupRefused` | src/network/dashboard/http.rs:424-433 | a group is refused exactly for a byte outside the alphabet or more than two pads, and gives three bytes less one per pad |
| `Base64.TextRefused` | src/network/dashboard/http.rs:416-442 | a text is refused exactly for its length or for one of its groups |
| `Base64.SpaceIs` | src/network/dashboard/http.rs:416-416 | which bytes are skipped as white space |
| `Base64.DecodedIsEncodedIffStrict` | src/network/dashboard/http.rs:405-442 | what decodes to x is the encoding of x exactly when padding is final and no stray bits are set |
| `Base64.PaddingMidwayDecodes` | src/network/dashboard/http.rs:405-442 | padded groups in the middle decode though nothing encodes to them |
| `Base64.PaddedGroupExists` | src/network/dashboard/http.rs:405-442 | "QQ==" is such a group |
| `Base64.EncodeLength` | src/network/dashboard/http.rs:381-403 | four symbols per three bytes or part thereof |
| `Base64.EncodeBytes` | src/network/dashboard/http.rs:381-403 | the chunk loop computes the encoding |
| `Base64.DecodeBytes` | src/network/dashboard/http.rs:405-442 | the chunk loop computes the decoding, every rejection included |

## Left out

- Floating point: the adaptive-hybrid score and controller, LFU probabilities, INCRBYFLOAT and `encode_double`. Exact reals would not be what the code computes.
- Engine.KvEngine.PickVictim: which sampled candidate a sampling policy likes least is left open (any of them), because the scores are floating point and random.
- SieveQueue.SieveState.EvictOne: the near-expiry comparison is over exact reals, not `f64`.
- Hit and miss counters, the random number generator and LFU metadata, which no result here depends on.
- Engine.KvEngine.MSet: no memory ceiling is stated, because the code checks each pair on its own and keeps no cumulative bound; success is bracketed between two conditions, because an earlier pair's check may evict a later pair's key.
- Engine.KvEngine.SetEvictionConfig: taken as one step, although the code takes several locks in turn.
- Engine.KvEngine.Get: the shared-lock phase and the clean-up phase are one atomic step at one clock reading; the same holds for MGET and EXISTS.
- Engine.KvEngine.MGet: that each hit is told to the active index is not stated, only that the set of queued keys stays.
- Engine.KvEngine.ApplyDelta: the counter is unbounded, without its 64-bit width.
- ActiveExpiry.SweepWindows: the hash map's iteration order is a parameter, and removals are taken not to disturb the order of the rest.
- Recovery.Start: inherits the treatment of a malformed record from `ReplayFile`.
- Recovery.ReplayFile: a malformed record ends the replay with `Corrupt`; the code's resynchronisation to a later record is not modelled. The writer never emits such records.
- Rewrite.RewriteIsInvisible: the writer's file, buffers and flags are values in a state machine, not fields updated in place. Runs in which the delta buffer overflows after the worker's last check, or in which a second rewrite is claimed before the first worker has gone, are outside it.
- GroupCommit.BarrierIsDurable: barriers in flight across the counter reset of a rewrite swap are outside it.
- I/O failures other than a failing fsync, `abort_rewrite`, lock poisoning, wall clock against monotonic clock drift, thread spawning and shutdown.
- The `everysec` and `no` fsync policies, which have no barrier.
- SCAN and key enumeration beyond the matcher itself, INFO, CONFIG, SLOWLOG, MONITOR streaming, AUTH and reply rendering, command-line parsing, dashboard routing and JSON: thin or user-interface code.
