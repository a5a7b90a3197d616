# Verified model of the peer server

The repository is a signalling server for browser peers (Go) and the client library that
talks to it (TypeScript). This project models the parts of both that keep state which has to
stay consistent, and proves what they promise over every run: any number of replicas, peers,
threads or nodes, any order of events, any clock readings.

`dafny verify dfyconfig.toml` checks everything.

| module | what it models |
|---|---|
| `Hlc`, `StateSync`, `Replication`, `Convergence`, `Reads`, `TombstonePurge` | last-writer-wins replicas stamped with hybrid logical clocks, over a network that reorders, duplicates and loses messages |
| `OfflineRoom`, `OfflineRuns`, `CrashRuns`, `RoomNetwork` | the room with a persistent store, a bounded pending queue, a batched flush, restarts and crashes; and a network of such rooms |
| `MatchKey`, `TypedCriteria`, `Matchmaker`, `MatchRuns`, `MatchTheorems`, `MatchAnswers` | the waiting list of a namespace and the per-criteria buckets that mirror it |
| `TokenBucket`, `RateLimiter`, `SweepRuns`, `LimiterRace` | the sharded token-bucket limiter, its sweep of idle clients, and requests that a sweep overtakes |
| `Registry`, `RegisterRace`, `Hub`, `Membership`, `MembershipEffects` | the sharded registry and its counter, namespaces, rooms, and membership recorded on both sides |
| `Routing`, `RoutingRuns` | signals, relays and broadcasts within a node and across nodes |
| `Transfer`, `TransferRuns` | chunked file transfer |
| `Strings`, `Bits`, `Sets`, `Sharding`, `Peers`, `Wrappers` | shared definitions |

Each operation is written twice. A function says what it does to the state as a value; a
class or a method with loops does it in place, as the source does, and is proved equal to
the function. A run is a sequence of events (`Enabled`, `Step`, `ValidRun`, `Exec`); every
step keeps an invariant, and the theorems are stated for every run. State fields marked
"history" are never read by the code that is modelled: they record what happened so that
theorems can speak of it. What each operation does is also stated without the functions that
describe it: by who is a member of what, what a read shows, whom an answer names, and how
many copies of a message a connection holds.

## What the theorems found

These statements about the code are false as one would first write them. Each has a lemma
with a concrete input that shows it, and a lemma with the exact condition.

- A `request_state` message carries no stamp, so a write can be stamped before one its
  writer had already heard from (`Convergence.RequestStateOrdersNothing`,
  `Convergence.HeardFirstIff`). Updates, deletes and snapshots always order writes.
- A tombstone purge is visible exactly if the purging replica adopts a live entry no later
  than a tombstone it purged (`TombstonePurge.LateUpdateIsVisible`,
  `TombstonePurge.PurgeInvisibleLocallyIff`).
- A crash between storing an entry and storing the clock lets a restarted room overwrite its
  own entry with an earlier stamp, or issue one stamp twice (`OfflineRuns.CrashInsideWrite`,
  `CrashRuns.StampRepeats`, `CrashRuns.AheadIff`).
- A write under the empty key is stored locally and ignored by every receiver
  (`OfflineRuns.EmptyKeyIsDropped`, `OfflineRuns.FlushDeliversWrite`).
- A waiting peer that asks again under another key stays in its old bucket, and can be
  matched for both requests (`MatchTheorems.KeySwitchMatchesTwice`,
  `MatchTheorems.ListAndIndexAgree`). Peers are matched for their latest request exactly if
  nobody asks with an open entry left in another bucket
  (`MatchAnswers.SupersededRequestMatched`, `MatchAnswers.LatestIff`).
- Different requests can share a bucket: a request is alone with its key exactly if it names
  at most one criterion, without an equals sign in its name or printed value, and the value
  is a string that no other value is printed as (`MatchKey.KeyCollision`,
  `TypedCriteria.TypesCollide`, `TypedCriteria.KeySharedIff`).
- The sweep of idle clients changes answers exactly if ten minutes do not fill a bucket
  (`SweepRuns.SweepVisible`, `SweepRuns.SweepInvisibleIff`). If it overtakes requests that
  have found their bucket and not charged it, each drop adds up to as many grants as there
  are such requests, and can (`LimiterRace.ExtraGrants`, `LimiterRace.ExtraIsReached`).
- The comment in `hub/hub.go:110` says that reading the counter inside the shard lock
  prevents a race. The counter is raised after the lock is released, so the limit can be
  overshot by one less than the number of registrations in flight, and that is reached
  (`RegisterRace.BoundIsTight`, `RegisterRace.BoundedOvershoot`,
  `RegisterRace.LimitKeptIff`).
- Registering a fingerprint that is still registered leaves the old peer object in its
  namespaces (`Membership.ReplacedPeerStays`, `Membership.RegisterKeepsInvIff`).
- A file of 2^32 chunks or more cannot be transferred: its offer throws before anything is
  stored (`TransferRuns.TooManyChunks`, `TransferRuns.FileArrivesIff`).

- Completions, cancellations and repeated offers are accepted from anybody
  (`TransferRuns.DestroyedIff` says exactly which of them cost a transfer its chunks).

## Model

| member | source | states |
|---|---|---|
| `Hlc.Create` | packages/peer-client/src/sync.ts:9-15 | the new stamp is strictly later than the clock, by time or counter alone, and not before the reading |
| `Hlc.Merge` | packages/peer-client/src/sync.ts:17-29 | the merged clock is strictly later than both inputs, by time or counter alone, and not before the reading |
| `Hlc.CompareTotal` | packages/peer-client/src/sync.ts:31-35 | the comparison is antisymmetric and zero only on equal stamps |
| `Hlc.CompareTransitive` | packages/peer-client/src/sync.ts:31-35 | the comparison is transitive: with the previous row, a total order |
| `Hlc.WhoWins` | packages/peer-client/src/sync.ts:31-35 | later time, then greater counter, then the node identifier that is greater at the first differing character |
| `Strings.FirstDifferenceDecides` | packages/peer-client/src/sync.ts:34 | the first differing character decides, and a proper prefix comes first |
| `Hlc.CreateIsLeast` | packages/peer-client/src/sync.ts:9-15 | no stamp from the reading on that is later than the clock is earlier than the one taken |
| `Hlc.MergeIsLeast` | packages/peer-client/src/sync.ts:17-29 | no stamp from the reading on that is later than both clocks is earlier than the merged one |
| `StateSync.StateSync.constructor` | packages/peer-client/src/sync.ts:49-60 | an empty replica whose clock is the physical reading |
| `StateSync.StateSync.Set` | packages/peer-client/src/sync.ts:89-106 | writes the stamped entry without comparing, and sends exactly the stored entry |
| `StateSync.StateSync.Delete` | packages/peer-client/src/sync.ts:132-150 | writes a stamped tombstone without comparing, and sends exactly it |
| `StateSync.StateSync.ReceiveEntry` | packages/peer-client/src/sync.ts:162-190 | merges the clock and keeps the greater stamp; an entry without a stamp changes nothing |
| `StateSync.StateSync.HandleFullState` | packages/peer-client/src/sync.ts:222-235 | the snapshot loop is the fold of single receptions |
| `StateSync.StateSync.HandleRemoteUpdate` | packages/peer-client/src/sync.ts:152-190 | every payload kind is a sequence of receptions; requests and unknown payloads are none |
| `StateSync.StateSync.LoadState` | packages/peer-client/src/sync.ts:237-247 | storing first and merging the clock afterwards gives the same state as receiving |
| `StateSync.StateSync.PurgeTombstones` | packages/peer-client/src/sync.ts:278-285 | the deleting loop leaves exactly the entries that are no expired tombstones |
| `StateSync.StateSync.Read` | packages/peer-client/src/sync.ts:108-112 | reads the store as the rows of `Reads` say |
| `StateSync.StateSync.ReadAll` | packages/peer-client/src/sync.ts:114-122 | exactly the live keys with their values |
| `StateSync.StateSync.FullStateMessage` | packages/peer-client/src/sync.ts:249-268 | nothing for an empty store, otherwise a listing of all of it |
| `Reads.GetAgreesWithGetAll` | packages/peer-client/src/sync.ts:108-122 | reading one key is reading all at that key; a deleted key is not listed |
| `Reads.ReadAfterWrite` | packages/peer-client/src/sync.ts:89-150 | after a set the key reads as its value, after a delete as undefined, every other key as before |
| `Reads.ReadAfterReceive` | packages/peer-client/src/sync.ts:152-190 | a received entry is read exactly if it is later than what is stored; other keys read as before and the clock passes its stamp |
| `Reads.WrittenAsAsked` | packages/peer-client/src/sync.ts:89-150 | a write records and sends the key, value, writer and version asked for, under the stamp the clock now shows |
| `Reads.ReadsAreLatest` | packages/peer-client/src/sync.ts:108-112 | on every run a key reads as the value of the greatest-stamped entry its node wrote or received, undefined if that is a delete or there is none |
| `Reads.ReadYourWrite` | packages/peer-client/src/sync.ts:89-112 | in every reachable state a node reads its own write at once, and no other node changes |
| `Reads.PurgeEffect` | packages/peer-client/src/sync.ts:278-285 | a purge drops exactly the tombstones older than 60000 ms and changes no answer |
| `Replication.JoinKeepsLatest` | packages/peer-client/src/sync.ts:166-190 | a store that holds the latest entry per key of what was seen still does after any reception |
| `Replication.WriteIsJoin` | packages/peer-client/src/sync.ts:89-106 | the unconditional local overwrite equals the comparing join when the clock dominates the store |
| `Replication.ReceiveAllKeeps` | packages/peer-client/src/sync.ts:222-235 | any sequence of receptions keeps the store the latest of what was seen and the clock ahead of it |
| `Replication.ReceiveAllClock` | packages/peer-client/src/sync.ts:17-29 | receptions only move the clock forward, to a reading taken and a counter within the steps made |
| `Replication.NextStamp` | packages/peer-client/src/sync.ts:84-87 | in every reachable state a node's next stamp is after all its causal past and equal to no earlier write's |
| `Replication.StepKeepsInv` | packages/peer-client/src/sync.ts:49-276 | every event of the system keeps the global invariant |
| `Replication.RunKeepsInv` | packages/peer-client/src/sync.ts:49-276 | so does every run |
| `Convergence.StampIdentifies` | packages/peer-client/src/sync.ts:31-35 | among logged writes with distinct stamps, equal stamps mean equal entries |
| `Convergence.ReplicaHoldsLatest` | packages/peer-client/src/sync.ts:84-190 | on every run a replica holds, per key, exactly the greatest-stamped entry it wrote or received |
| `Convergence.ReplicasConverge` | packages/peer-client/src/sync.ts:152-247 | replicas that saw the same entries for a key agree on it, and those that saw the same entries hold equal maps |
| `Convergence.AllDelivered` | packages/peer-client/src/sync.ts:152-247 | a replica that every write reached holds the last write of each key in the system |
| `Convergence.StoredStampsGrow` | packages/peer-client/src/sync.ts:84-190 | the stamp stored under a key never goes back, from any point of a run on |
| `Convergence.StampsAreUnique` | packages/peer-client/src/sync.ts:9-29 | no two writes of a run share a stamp |
| `Convergence.ClockCondition` | packages/peer-client/src/sync.ts:84-190 | a write that happened before another through writes, updates, deletes or snapshots has the strictly smaller stamp, with arbitrary clocks |
| `Convergence.OwnWritesIncrease` | packages/peer-client/src/sync.ts:84-87 | the writes of one node have strictly increasing stamps even if its clock moves back |
| `Convergence.ReceivedComesBefore` | packages/peer-client/src/sync.ts:166-180 | whatever a node wrote or received is before its next stamp |
| `Convergence.ClockDrift` | packages/peer-client/src/sync.ts:9-29 | every stamp in a clock, store, message or log has a time some replica read and a counter within the clock steps taken |
| `Convergence.RequestStateOrdersNothing` | packages/peer-client/src/sync.ts:270-276 | a run in which a write heard of through a state request is stamped after the later write |
| `Convergence.HeardFirstIff` | packages/peer-client/src/sync.ts:84-190 | on a whole run every write is after everything heard of by its writer if and only if, at each write, what was heard through state requests only is already before the stamp to be taken |
| `Convergence.ClockConditionWithoutRequests` | packages/peer-client/src/sync.ts:152-190 | a special case: without delivered state requests the clock condition holds for every kind of message |
| `TombstonePurge.ReceiveLooksAlikeIff` | packages/peer-client/src/sync.ts:108-190 | after a reception a purging and a never-purging replica look alike if and only if it resurrects nothing |
| `TombstonePurge.PurgeInvisibleIff` | packages/peer-client/src/sync.ts:278-285 | over every sequence of inputs purging is invisible if and only if no live entry resurrects a purged key |
| `TombstonePurge.PurgeInvisibleLocallyIff` | packages/peer-client/src/sync.ts:278-285 | the same with a condition on the purging replica alone: it adopts no live entry that is no later than a tombstone of its key it purged before |
| `TombstonePurge.NoneStaleResurrectsNothing` | packages/peer-client/src/sync.ts:278-285 | if nothing older than an already purged tombstone for its key arrives, nothing is resurrected |
| `TombstonePurge.PurgeInvisible` | packages/peer-client/src/sync.ts:108-122 | under that condition both replicas answer alike for ever |
| `TombstonePurge.LateUpdateIsVisible` | packages/peer-client/src/sync.ts:278-285 | inputs after which only the purging replica shows a deleted key |
| `OfflineRoom.OfflineSyncRoom.constructor` | packages/peer-client/src/offline-sync-room.ts:49-65 | a room with a clock of its own, nothing loaded, over the given disk |
| `OfflineRoom.OfflineSyncRoom.Load` | packages/peer-client/src/offline-sync-room.ts:67-88 | the saved clock is merged and every saved entry is loaded |
| `OfflineRoom.OfflineSyncRoom.SetOrDelete` | packages/peer-client/src/offline-sync-room.ts:112-159 | memory, disk and clock after a write; it is sent exactly when online and connected, otherwise queued |
| `OfflineRoom.OfflineSyncRoom.ApplyRemoteEntry` | packages/peer-client/src/offline-sync-room.ts:368-400 | memory and disk take the same greater entry and the clock is saved |
| `OfflineRoom.OfflineSyncRoom.HandleRemoteUpdate` | packages/peer-client/src/offline-sync-room.ts:324-366 | an operation or a snapshot is the fold of applied entries; a closed room ignores it |
| `OfflineRoom.OfflineSyncRoom.BroadcastFullState` | packages/peer-client/src/offline-sync-room.ts:306-322 | the batches together are the whole store in order, none empty or over the batch size |
| `OfflineRoom.OfflineSyncRoom.FlushPendingOps` | packages/peer-client/src/offline-sync-room.ts:276-304 | the store, then every pending operation exactly as queued; the queue ends empty; offline nothing happens |
| `OfflineRoom.OfflineSyncRoom.SendBatch` | packages/peer-client/src/offline-sync-room.ts:287-294 | a batch sends its operations in order and dequeues each of them |
| `OfflineRoom.OfflineSyncRoom.Close` | packages/peer-client/src/offline-sync-room.ts:513-531 | closing saves the clock once |
| `OfflineRuns.ApplyKeepsInv` | packages/peer-client/src/offline-sync-room.ts:368-400 | a remote entry keeps every accepted write superseded and the saved clock ahead |
| `OfflineRuns.WriteIsNewest` | packages/peer-client/src/offline-sync-room.ts:112-126 | a new write is stamped after all earlier ones and supersedes those of its key |
| `OfflineRuns.RestartKeepsInv` | packages/peer-client/src/offline-sync-room.ts:67-88 | closing and reopening at any wall-clock times keep the invariant |
| `OfflineRuns.RunKeepsInv` | packages/peer-client/src/offline-sync-room.ts:67-531 | every run of writes, messages, flushes, closings and restarts keeps it |
| `OfflineRuns.QueueStaysWithinLimit` | packages/peer-client/src/offline-sync-room.ts:257-262 | on every run the pending operations stay within the limit |
| `OfflineRuns.WriteEffect` | packages/peer-client/src/offline-sync-room.ts:112-159 | a write is stored with its value in memory and on disk, and queued as stored exactly if offline or disconnected and below the limit; nothing else changes |
| `OfflineRuns.RemoteEffect` | packages/peer-client/src/offline-sync-room.ts:324-400 | an operation is stored exactly if it has a key and is later than what is there; the clock passes it and is saved |
| `OfflineRuns.FlushEffect` | packages/peer-client/src/offline-sync-room.ts:276-304 | a flush empties the queue exactly if online, and changes nothing else |
| `OfflineRuns.ClosedStaysPut` | packages/peer-client/src/offline-sync-room.ts:513-531 | until it is reopened a closed room keeps its store, clock and what it saved, whatever arrives |
| `OfflineRuns.CloseAndReopen` | packages/peer-client/src/offline-sync-room.ts:67-88 | closing saves the clock only; reopening gives an open, offline room with the same store and queue |
| `OfflineRuns.NoWriteIsLost` | packages/peer-client/src/offline-sync-room.ts:112-159 | every accepted write, also one the pending limit refused, is held or superseded in memory and on disk |
| `OfflineRuns.FlushMerges` | packages/peer-client/src/offline-sync-room.ts:276-322 | however a flush arrives, a receiver ends with the later of both entries for every non-empty key: what the full state alone gives |
| `OfflineRuns.FlushDeliversWrite` | packages/peer-client/src/offline-sync-room.ts:368-369 | a receiver without the key learns of a write, by a stamp at least as great, if and only if its key is not empty |
| `OfflineRuns.EmptyKeyIsDropped` | packages/peer-client/src/offline-sync-room.ts:368-369 | a reachable room with a write under the empty key, whose flush leaves a fresh receiver empty |
| `OfflineRuns.FlushStampsAtLeast` | packages/peer-client/src/offline-sync-room.ts:276-322 | after a flush every receiver holds a stamp at least as great for the key of each write |
| `OfflineRuns.FlushSendsArrival` | packages/peer-client/src/offline-sync-room.ts:276-304 | what a flush sends is such an arrival for any listing of the queue |
| `OfflineRuns.NoStampIsReissued` | packages/peer-client/src/offline-sync-room.ts:218-221 | the stamps of a room strictly increase over its whole life, restarts included |
| `OfflineRuns.RestartedClockDominates` | packages/peer-client/src/offline-sync-room.ts:67-88 | after any restart the clock is strictly ahead of every reloaded entry, so the next write wins locally as in a join |
| `OfflineRuns.InitDominatesIff` | packages/peer-client/src/offline-sync-room.ts:74-82 | for an arbitrary disk the reloaded clock dominates at all readings if and only if the entries are within one step of the saved clock |
| `OfflineRuns.CrashInsideWrite` | packages/peer-client/src/offline-sync-room.ts:124-126 | a disk left between the two stores of a write, after which the room's next write loses everywhere else |
| `CrashRuns.ReopenIff` | packages/peer-client/src/offline-sync-room.ts:67-88 | a restart leaves the clock ahead of everything if and only if it covers the entries stored without their clock |
| `CrashRuns.AheadIff` | packages/peer-client/src/offline-sync-room.ts:112-159 | on a whole run with crashes inside handlers the clock is always ahead if and only if every restart covers what crashes exposed since a clock was saved |
| `CrashRuns.CoveredRunsAreSafe` | packages/peer-client/src/offline-sync-room.ts:112-159 | on such runs stamps strictly increase and every write, interrupted or not, is held or superseded on disk |
| `CrashRuns.FallsBackIff` | packages/peer-client/src/offline-sync-room.ts:218-221 | some next write repeats or goes behind an earlier own stamp if and only if the restarted clock is behind it |
| `CrashRuns.StampRepeats` | packages/peer-client/src/offline-sync-room.ts:124-126 | a crash, a restart and a write after which two entries carry one stamp |
| `RoomNetwork.NetStepKeepsInv` | packages/peer-client/src/offline-sync-room.ts:67-531 | every write, message, closing and restart of any room keeps the network invariant |
| `RoomNetwork.StampsUnique` | packages/peer-client/src/offline-sync-room.ts:112-159 | no two writes of the whole network share a stamp, with restarts at any wall-clock times |
| `RoomNetwork.RoomHoldsLatest` | packages/peer-client/src/offline-sync-room.ts:368-400 | every room holds, in memory and on disk, exactly the greatest-stamped entry per key it wrote or took |
| `RoomNetwork.RoomsConverge` | packages/peer-client/src/offline-sync-room.ts:276-400 | rooms that saw the same entries for a key agree on it, and rooms that saw the same under non-empty keys hold equal stores there |
| `RoomNetwork.FlushMaySay` | packages/peer-client/src/offline-sync-room.ts:276-322 | flushes, snapshots and operations are messages of the network model |
| `MatchKey.BuildKey` | matchmaker/matchmaker.go:62-76 | the key is a function of group size and criteria, independent of the order the map is ranged over |
| `MatchKey.ListingUnique` | matchmaker/matchmaker.go:67-71 | a set of names has one ascending listing |
| `MatchKey.KeyGivesGroupSize` | matchmaker/matchmaker.go:62-76 | equal keys have equal group sizes, for arbitrary criteria |
| `MatchKey.PrintedKeyInjective` | matchmaker/matchmaker.go:62-76 | without separators in names and printed values, keys are equal if and only if the requests are as printed |
| `MatchKey.PrintedKeySharedIff` | matchmaker/matchmaker.go:62-76 | a printed request shares its key with another printed one if and only if it has two names or more, or an equals sign in its one name or value |
| `MatchKey.KeyCollision` | matchmaker/matchmaker.go:62-76 | two different printed criteria with one key |
| `TypedCriteria.BuildRequestKey` | matchmaker/matchmaker.go:62-76 | the key of typed criteria is the key of their printing |
| `TypedCriteria.MistakableIff` | matchmaker/matchmaker.go:73 | some other value prints like a value if and only if it is no string, or a string such a value prints as |
| `TypedCriteria.KeyInjective` | matchmaker/matchmaker.go:62-76 | without separators, and with the values of one request not mistakable, keys are equal if and only if the typed requests are |
| `TypedCriteria.KeySharedIff` | matchmaker/matchmaker.go:62-76 | a typed request shares its key with another one if and only if its printing is ambiguous or one of its values is mistakable |
| `TypedCriteria.TypesCollide` | matchmaker/matchmaker.go:73 | the number 1 and the string "1", or true and "true", give different requests one key |
| `Matchmaker.QueueObject.CutFirst` | matchmaker/matchmaker.go:144-160 | the loop cuts out the first entry for a fingerprint and reports whether there was one |
| `Matchmaker.QueueObject.RemovePeerLocked` | matchmaker/matchmaker.go:144-160 | the peer leaves the list and the one bucket named |
| `Matchmaker.QueueObject.RequestLocked` | matchmaker/matchmaker.go:87-140 | list, index and answer after a request under a key: a group leaves both, or the requester joins both |
| `Matchmaker.QueueObject.RequestMatch` | matchmaker/matchmaker.go:78-140 | the request under the built key; an answer has exactly the size asked for, two at least, with the requester last |
| `Matchmaker.QueueObject.Clean` | matchmaker/matchmaker.go:92-100 | exactly the open entries of other peers remain, in order |
| `Matchmaker.QueueObject.DropAll` | matchmaker/matchmaker.go:106-116 | exactly the entries outside the group remain, in order |
| `Matchmaker.QueueObject.RemoveLocked` | matchmaker/matchmaker.go:162-180 | the peer leaves the list and the bucket of its own entry |
| `Matchmaker.Matchmaker.GetQueue` | matchmaker/matchmaker.go:42-60 | one queue per namespace, made empty on first use, others untouched |
| `Matchmaker.Matchmaker.RequestMatch` | matchmaker/matchmaker.go:78-140 | only the queue of the namespace changes, by the request |
| `Matchmaker.Matchmaker.RemoveFromQueue` | matchmaker/matchmaker.go:162-180 | only the queue of the namespace changes, by the removal |
| `Matchmaker.Matchmaker.RemoveFromAllQueues` | matchmaker/matchmaker.go:182-203 | the removal is applied to the queue of every namespace |
| `MatchRuns.RemovePeerKeepsInv` | matchmaker/matchmaker.go:144-160 | a removal keeps the queue invariant and takes out exactly the fingerprint's entries |
| `MatchRuns.GroupIsBucket` | matchmaker/matchmaker.go:92-104 | all candidates have the requester's group size, and a group is always the whole cleaned bucket |
| `MatchRuns.MatchEffect` | matchmaker/matchmaker.go:102-128 | a match empties its bucket, leaves the others alone and takes exactly the group and the requester off the list |
| `MatchRuns.WaitEffect` | matchmaker/matchmaker.go:130-140 | an unmatched requester joins list and bucket once, in place of its own and of closed entries |
| `MatchRuns.RunKeepsInv` | matchmaker/matchmaker.go:78-203 | every run of requests, removals and closings keeps the invariant |
| `MatchTheorems.EveryRunIsTidy` | matchmaker/matchmaker.go:78-203 | on all runs fingerprints are unique in list and buckets and open list entries are in the bucket of their key |
| `MatchTheorems.NoGroupSitsUnmatched` | matchmaker/matchmaker.go:78-140 | a bucket for group size g never holds more than g - 1 entries |
| `MatchTheorems.GroupFormation` | matchmaker/matchmaker.go:78-140 | a request is matched if and only if g - 1 other open peers wait under its key, with exactly them, distinct and in order of arrival |
| `MatchTheorems.NoTicketTwice` | matchmaker/matchmaker.go:102-128 | on all runs one request is never placed in two groups |
| `MatchTheorems.RequestAgreesIff` | matchmaker/matchmaker.go:144-160 | a request keeps list and index in agreement if and only if the requester was not waiting, open, under another key |
| `MatchTheorems.AgreeIffNoSwitches` | matchmaker/matchmaker.go:78-203 | from any agreeing state on, agreement lasts through a run if and only if no waiting peer switches keys |
| `MatchTheorems.ListAndIndexAgree` | matchmaker/matchmaker.go:78-203 | the same from the empty queue |
| `MatchTheorems.AgreementMeans` | matchmaker/matchmaker.go:78-203 | agreement is that open list entries are exactly the open index entries, each in one bucket, one per fingerprint |
| `MatchTheorems.KeySwitchMatchesTwice` | matchmaker/matchmaker.go:144-160 | a run in which one peer is matched for two requests |
| `MatchAnswers.AnswerIsGoodGroup` | matchmaker/matchmaker.go:78-140 | after any run an answer is nothing or as many distinct fingerprints as asked for, two at least, the requester last, the others of open peers whose last request under that key asked for that size, in the order these came |
| `MatchAnswers.EveryEntryStands` | matchmaker/matchmaker.go:78-140 | on every run an entry of a bucket stands for the last request of its fingerprint under that key |
| `MatchAnswers.LatestIff` | matchmaker/matchmaker.go:144-160 | at every moment of a run everybody would be matched for their latest request if and only if nobody asks with an open entry in another bucket |
| `MatchAnswers.SupersededRequestMatched` | matchmaker/matchmaker.go:144-160 | a peer that asked for two and then for more is still matched for two |
| `MatchAnswers.LeaveEffect` | matchmaker/matchmaker.go:162-180 | a peer that leaves is off the list and out of the bucket of its entry; everybody else stays where they were |
| `TokenBucket.CreditExact` | middleware/ratelimit.go:80-95 | on a clock that counts tokens, the tokens are the least candidate |
| `TokenBucket.CreditMatches` | middleware/ratelimit.go:80-95 | the bucket in seconds refines the bucket on that clock |
| `TokenBucket.TokensExact` | middleware/ratelimit.go:80-95 | for any bucket and history, tokens are exactly the least of the uncapped bucket and a bucket full at each request |
| `TokenBucket.TokensOfFreshBucket` | middleware/ratelimit.go:65-95 | on a fresh bucket tokens are the minimum over earlier requests of burst plus earned minus granted |
| `TokenBucket.TokensStayInRange` | middleware/ratelimit.go:80-95 | tokens stay between zero and the burst |
| `TokenBucket.WindowBound` | middleware/ratelimit.go:58-96 | no window is granted more than the burst plus the rate times its length |
| `TokenBucket.RefusedIff` | middleware/ratelimit.go:91-95 | a request is refused if and only if the closed form is below one for some earlier request |
| `RateLimiter.RateLimiter.constructor` | middleware/ratelimit.go:32-50 | empty shards, 32 of them if the count is not positive, and an index in range for every count |
| `RateLimiter.RateLimiter.Allow` | middleware/ratelimit.go:58-96 | the shards act as one map in which the client's bucket, made on first use, is charged |
| `RateLimiter.RateLimiter.Charge` | middleware/ratelimit.go:80-95 | the locked part answers and updates as the bucket functions say |
| `RateLimiter.RateLimiter.Remove` | middleware/ratelimit.go:98-103 | exactly the client leaves the map |
| `RateLimiter.RateLimiter.Sweep` | middleware/ratelimit.go:109-121 | the pass over all shards drops exactly the stale buckets |
| `SweepRuns.SweepInvisible` | middleware/ratelimit.go:105-121 | when ten minutes fill a bucket, sweeping changes no answer on any run |
| `SweepRuns.SweepVisible` | middleware/ratelimit.go:105-121 | otherwise there is a run on which it does |
| `SweepRuns.SweepInvisibleIff` | middleware/ratelimit.go:105-121 | sweeping is unobservable on all runs if and only if rate * 600 >= burst |
| `LimiterRace.ExtraGrants` | middleware/ratelimit.go:58-121 | with finding and charging apart and T requests in flight, grants are those of one never-swept bucket plus at most T for every drop |
| `LimiterRace.ExtraIsReached` | middleware/ratelimit.go:58-121 | for every T up to the burst one drop lets the burst and T more be granted at one instant |
| `LimiterRace.ChargeMatches` | middleware/ratelimit.go:80-95 | a charge on the bucket in the map answers and leaves what it would on a bucket never swept |
| `LimiterRace.UninterruptedRequest` | middleware/ratelimit.go:58-121 | uninterrupted, finding and charging is the limiter's request, and the sweep its sweep |
| `SweepRuns.BurstAnswers` | middleware/ratelimit.go:80-95 | n requests at one instant are all granted if and only if there are n tokens |
| `SweepRuns.OwnBucket` | middleware/ratelimit.go:58-96 | a client's bucket is a fresh one charged at exactly its own requests, whatever others did |
| `SweepRuns.AnswerDependsOnOwnRequests` | middleware/ratelimit.go:58-96 | a request is decided by the client's own earlier requests alone |
| `Registry.ShardIndex` | hub/hub.go:84-104 | the masked index is in range for every shard count |
| `Registry.ShardFor` | hub/hub.go:84-104 | the accumulator loop computes that index and fits in 16 bits |
| `Registry.ShardIndexIsMod` | hub/hub.go:99 | for powers of two the mask is the remainder |
| `Registry.HexIsPositional` | hub/hub.go:87-98 | the accumulator reads four hexadecimal digits of either case, most significant first |
| `Registry.EveryShardIsUsed` | hub/hub.go:84-100 | with a power of two of at most 65536 shards every shard is the one of some fingerprint |
| `Bits.BitAndBits` | hub/hub.go:99 | a bit of the mask operation is set exactly if it is set in both operands |
| `Registry.Registry.constructor` | hub/hub.go:44-82 | empty shards stand for the empty map with counter zero |
| `Registry.Registry.Register` | hub/hub.go:106-137 | the shards simulate one flat map and the counter its size: replaced, refused at the limit, or added |
| `Registry.Registry.Unregister` | hub/hub.go:147-160 | exactly the fingerprint leaves the flat map, and the counter follows |
| `Registry.Registry.GetPeer` | hub/hub.go:182-188 | looking in one shard is looking in the flat map |
| `Registry.LimitKept` | hub/hub.go:123-130 | with atomic handlers the limit is never passed |
| `Registry.RegisterEffect` | hub/hub.go:106-137 | the peer is registered exactly if its fingerprint was or there was room; everybody else stays as registered |
| `RegisterRace.RunKeepsInv` | hub/hub.go:106-160 | every interleaving of load, insert, add, delete and subtract keeps the race invariant |
| `RegisterRace.CounterLaw` | hub/hub.go:106-160 | the counter is always registered minus inserted-uncounted plus deleted-uncounted |
| `RegisterRace.BoundedOvershoot` | hub/hub.go:106-137 | with T registrations in flight at most maxPeers + T - 1 peers are registered; exactly the limit for T = 1 |
| `RegisterRace.BoundIsTight` | hub/hub.go:106-137 | for every limit and T an interleaving that respects the locks reaches the bound |
| `RegisterRace.LimitKeptIff` | hub/hub.go:106-137 | no interleaving passes the limit if and only if registrations come one at a time or the limit is zero |
| `RegisterRace.UninterruptedRegister` | hub/hub.go:106-137 | uninterrupted, the three steps do what the registration does to registry and counter |
| `RegisterRace.UninterruptedUnregister` | hub/hub.go:147-160 | uninterrupted, the two steps take out exactly the fingerprint |
| `Hub.Hub.RegisterPeer` | hub/hub.go:106-137 | the sharded registry and the new object's empty list after a registration |
| `Hub.Hub.HandleJoin` | hub/hub.go:242-271 | both records after a join, a refused join, or one that creates the namespace |
| `Hub.Hub.HandleLeave` | hub/hub.go:273-295 | the leave whose effect `MembershipEffects.LeaveHasEffect` states |
| `Hub.Hub.HandleCreateRoom` | hub/hub.go:456-488 | both records after a room was made with a clamped size, or refused because the name exists |
| `Hub.Hub.HandleJoinRoom` | hub/hub.go:490-524 | both records after joining a room; missing, non-room and full targets change nothing |
| `Hub.Hub.HandleKick` | hub/hub.go:549-587 | the kick whose effect `MembershipEffects.KickHasEffect` states |
| `Hub.Hub.UnregisterPeer` | hub/hub.go:147-180 | the peer leaves the registry and every namespace it lists |
| `Hub.Hub.LeaveThose` | hub/hub.go:165-175 | the loop over the listed namespaces is one simultaneous removal |
| `Hub.Hub.CleanupSpaces` | namespace/namespace.go:224-235 | exactly the empty namespaces disappear |
| `Hub.Hub.Add` | namespace/namespace.go:46-54 | a full namespace refuses, also a peer that is already in it |
| `Hub.Hub.RemoveFrom` | namespace/namespace.go:56-60 | the member leaves, and an emptied room is removed |
| `Hub.Hub.AddRoom` | namespace/namespace.go:183-192 | a new room with its owner in it |
| `Hub.Hub.Shares` | peer/peer.go:93-104 | the loop answers whether two lists meet |
| `Membership.OneSpaceKeepsInv` | hub/hub.go:242-295 | whatever a registered peer does to one namespace keeps the invariant if both records change together |
| `Membership.RunKeepsInv` | hub/hub.go:147-587 | every run of the handlers without live re-registration keeps it |
| `Membership.TwoSidedMembership` | hub/hub.go:147-587 | a registered peer lists a namespace if and only if it exists and maps its fingerprint to that peer object; members are registered |
| `Membership.SharesMeansCommonSpace` | peer/peer.go:93-104 | two registered peers share a namespace if and only if some namespace has both |
| `Membership.SizesKept` | namespace/namespace.go:30-60 | namespaces stay within their size and rooms within thirty |
| `Membership.RegisterKeepsInvIff` | hub/hub.go:112-121 | a registration keeps the agreement if and only if the fingerprint was free or its old peer was in no namespace |
| `Membership.ReplacedPeerStays` | hub/hub.go:112-121 | a reachable hub in which a second registration leaves an unregistered object in a namespace |
| `MembershipEffects.EveryStepHasItsEffect` | hub/hub.go:106-587 | after any run each handler has its effect, told by memberships, lists, existing namespaces and their kinds: who comes in, goes out and stays, what appears and disappears, and that only a room's creator kicks |
| `MembershipEffects.OwnerIsCreator` | hub/hub.go:456-488 | on every run the owner of a room is the peer whose create_room brought it into being |
| `MembershipEffects.LeaveHasEffect` | hub/hub.go:273-295 | a leaving peer is out of both records, everybody else stays, and the namespace goes exactly if it was a room with nobody else in it |
| `MembershipEffects.KickHasEffect` | hub/hub.go:549-587 | the creator's kick takes exactly the named registered peer out of exactly that room; any other kick changes nothing |
| `MembershipEffects.JoinHasEffect` | hub/hub.go:242-271 | the peer is in exactly if it was or the namespace was not full; a new namespace has the default size and is no room |
| `MembershipEffects.OpenRoomHasEffect` | hub/hub.go:456-488 | a free name gives a room of its creator, alone in it, of a size between 1 and 30; a taken name changes nothing |
| `MembershipEffects.EnterRoomHasEffect` | hub/hub.go:490-524 | only an existing room that is not full lets somebody in |
| `MembershipEffects.DisconnectHasEffect` | hub/hub.go:147-180 | the peer is in nothing, everybody else stays, and the rooms it was alone in go |
| `MembershipEffects.TidyHasEffect` | namespace/namespace.go:224-235 | exactly the namespaces without members go |
| `Routing.Connections.SendRaw` | peer/peer.go:141-159 | a closed or full connection takes nothing, any other exactly one message |
| `Routing.Connections.Snapshot` | namespace/namespace.go:105-115 | the open members |
| `Routing.Connections.BroadcastRaw` | namespace/namespace.go:118-126 | the loop sends once to every open member with room but the excluded one, in whatever order it visits them |
| `RoutingRuns.StepKeepsInv` | hub/hub.go:297-642 | every send, every message taken from the broker and every other change of a node keeps the invariant |
| `RoutingRuns.AtMostOnce` | hub/hub.go:391-445 | no connection takes a message twice, a sender its own broadcast, or a copy other than what was sent; a message that left its node never comes back |
| `RoutingRuns.NothingIsLost` | hub/hub.go:589-642 | for every other node a published message waits exactly once or was delivered; with empty inboxes all are delivered |
| `RoutingRuns.TakenExactlyOnce` | hub/hub.go:614-642 | when a node takes another's message, exactly the due connections have one copy in every continuation, all others none |
| `RoutingRuns.EchoIsIgnored` | hub/hub.go:596-599 | a taken message counts as delivered if and only if another node sent it; a node's own echo changes no connection |
| `RoutingRuns.BroadcastExactlyOnce` | hub/hub.go:417-445 | a member's broadcast gives exactly the open members with room on its node, but not the sender, one copy; anybody else's reaches no connection of any node, ever |
| `RoutingRuns.LocalPointExactlyOnce` | hub/hub.go:297-314 | a local target, by fingerprint or alias, has one copy in every continuation exactly if it can take it and some namespace of the node has both; no other connection ever has one |
| `RoutingRuns.SentAsAsked` | hub/hub.go:297-445 | what is recorded and published is the sender's fingerprint and the resolved target, and every node gets a copy exactly if a member broadcasts or the target is not registered here |
| `RoutingRuns.CapacityKept` | peer/peer.go:141-159 | messages taken and buffer slots left add up to the same over every run of deliveries |
| `RoutingRuns.RemotePointExactlyOnce` | hub/hub.go:317-322 | for a target registered on one other node, its copies plus those waiting for its node are one, and nobody else gets any |
| `RoutingRuns.RunKeepsReached` | hub/hub.go:589-642 | whom a node delivered a message to never changes afterwards |
| `Transfer.ChunkRoundTrip` | packages/peer-client/src/transfer.ts:18-32 | decoding gives the data back, and the index if and only if it fits in 32 bits |
| `Transfer.DecodedIndexFits` | packages/peer-client/src/transfer.ts:27-32 | no frame carries an index of 2^32 or more |
| `Transfer.ChunkStarts` | packages/peer-client/src/transfer.ts:78-79 | an index is below the chunk count if and only if its slice starts inside the file |
| `Transfer.ChunksAreFile` | packages/peer-client/src/transfer.ts:311-338 | the slices of the send loop put together are the file |
| `Transfer.SendOne` | packages/peer-client/src/transfer.ts:311-338 | one round frames the slice of its index |
| `Transfer.SendLoop` | packages/peer-client/src/transfer.ts:311-338 | the loop sends the frames of the file in order, counts their bytes, and completes exactly if it is not stopped |
| `Transfer.FileReceiver.constructor` | packages/peer-client/src/transfer.ts:66-69 | nothing is being received |
| `Transfer.FileReceiver.NewSlots` | packages/peer-client/src/transfer.ts:241 | empty slots, or an exception exactly from 2^32 on |
| `Transfer.FileReceiver.HandleOffer` | packages/peer-client/src/transfer.ts:238-247 | empty slots for the offered transfer, also if it was offered before; from 2^32 chunks on an exception and no change |
| `Transfer.FileReceiver.HandleBinaryChunk` | packages/peer-client/src/transfer.ts:261-273 | only the sender of the transfer named by the channel fills an empty slot in range |
| `Transfer.FileReceiver.AssembleFile` | packages/peer-client/src/transfer.ts:384-399 | absent, a missing index, or the joined slots, and the transfer is dropped in the last case only |
| `Transfer.FileReceiver.FindMissing` | packages/peer-client/src/transfer.ts:388-392 | the first empty slot, and none if and only if all are filled |
| `Transfer.FileReceiver.Join` | packages/peer-client/src/transfer.ts:393-396 | the filled slots in order |
| `TransferRuns.ReceivedIsFilled` | packages/peer-client/src/transfer.ts:261-273 | on every run the counter of a transfer is its number of filled slots |
| `TransferRuns.SlotsFilledIff` | packages/peer-client/src/transfer.ts:261-273 | until a completion finds all chunks a slot is filled if and only if its index arrived from the sender, early completions notwithstanding; then the transfer is gone |
| `TransferRuns.SlotsHoldChunks` | packages/peer-client/src/transfer.ts:261-273 | a filled slot holds the chunk of its index, whatever came before and after |
| `TransferRuns.AssemblesIff` | packages/peer-client/src/transfer.ts:384-399 | assembly succeeds if and only if every index arrived and no completion succeeded before; otherwise it names a missing index or finds nothing |
| `TransferRuns.TransferRoundTrip` | packages/peer-client/src/transfer.ts:227-273 | from an accepted offer on, in any order, with duplicates, foreign or broken chunks and early completions, a completion gives the file if and only if every frame arrived and none before it did |
| `TransferRuns.FileArrivesIff` | packages/peer-client/src/transfer.ts:227-273 | after a first offer some arrival of its frames gives the file if and only if it has fewer than 2^32 chunks |
| `TransferRuns.TooManyChunks` | packages/peer-client/src/transfer.ts:238-247 | the offer of a file of 2^32 one-byte chunks changes nothing, and the transfer stays absent whatever arrives |
| `TransferRuns.DestroyedIff` | packages/peer-client/src/transfer.ts:227-258 | exactly which events, from anybody, cost a transfer its received chunks |

## Left out

- `operational` mode of `StateSync` and `merge` mode of the offline room: the merge function is arbitrary and its results are not sent, so they promise no convergence.
- Encryption, key exchange, group keys and the CRDT wrapper: calls into WebCrypto and Yjs.
- JavaScript numbers and strings: stamps and counters are unbounded integers, and node identifiers are compared by character code, which differs from UTF-16 order outside the basic plane.
- Interleaving of asynchronous handlers: a handler of the offline room, the matchmaker, the rate limiter and the hub runs without interruption, except in `RegisterRace`, `LimiterRace` and, for crashes, `CrashRuns`; a `close` that overtakes an awaiting handler and the `_syncing` flag are not modelled.
- LimiterRace: one client, and no `Remove`, which forgets a bucket on purpose.
- RoomNetwork: restarts happen between handlers; what crashes inside them do is said of one room in `CrashRuns`.
- OfflineRoom.OfflineSyncRoom.BroadcastFullState: requires a positive batch size, because the loop of the source does not end on zero; FlushPendingOps likewise.
- OfflineRoom.OfflineSyncRoom.HandleRemoteUpdate: requires that memory and disk agree, which `OfflineRuns.NoWriteIsLost` shows of every run.
- IndexedDB is three maps, its transactions do not fail, and queued operations are named by an identifier given from outside.
- Replication: a reply to `request_state` is a snapshot that a replica may send at any time; entries given to `loadState` were written in the same system.
- Membership: handlers run for registered peers and no fingerprint is registered while it is live; `RegisterKeepsInvIff` says when that matters.
- RegisterRace: locks are not modelled, so more interleavings are covered than the server has; `BoundIsTight` uses only those that locks allow.
- Peers, waiting entries, buckets and namespaces reached by reference are records with an explicit identity in maps and sequences; aliasing shows as equal identities.
- TokenBucket: `float64` is `real`, and times are monotone where a lemma says so.
- Offers whose chunk count is no natural number: counts are naturals here.
- Hashes of client identifiers are an arbitrary function; how `%v` renders numbers, arrays and objects is an arbitrary function; `sort.Strings` is an insertion sort with the same result; shifting and or-ing hexadecimal digits is base-16 arithmetic.
- Aliases: the table is given to `Routing` as it is; collisions and generation are not modelled.
- Routing: whether two peers share a namespace is read off the namespaces, which `Membership.SharesMeansCommonSpace` justifies; encoding errors and error replies are left out.
- Discovery, metadata, room information, match notifications and pings: they read state or forward messages and change none of the state modelled here.
- `resume` and repeated `accept` of a file transfer, acknowledgements, progress and backpressure: they concern a second send loop or timing.
- The older copies of sync and transfer under `packages/peerserver-client`, React hooks, transports, configuration and the Redis client.
