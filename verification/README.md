# onced in Dafny

onced is an idempotency gateway. A request that carries an idempotency key runs its side effect once; a
retry of it is served the stored answer. This project models the stack that promises this and proves the
promises for every input, every run and every crash point:

1. **The write-ahead log** (`Crc32`, `Division`, `Frames`, `Records`, `Layout`, `Codec`, `Wal`, `Journal`,
   `TamperEvidence`, `WalStore`):
   records framed by length, checksummed with CRC-32 (clause 3.2.9 of IEEE 802.3) and chained by hash;
   replay that tells a torn tail from corruption; strict and group-commit durability; compaction by rename.
   The disk is a sequence of bytes, synced bytes survive, an unfinished append leaves any prefix of itself,
   and a rename is atomic.
2. **The engine** (`Engine`, `Operations`, `EngineObject`, `Fencing`, `Pruning`): leases, fences, TTL and fingerprints.
3. **The fault environment** (`Simulation`, `Simulator`): workers that outlive the process, takeovers, flushes,
   clock jumps and crashes. The assertions that the repository's simulator samples are proved for every schedule.
4. **Replication, gateway and router** (`Replication`, `Gateway`, `GatewayObject`, `Router`, `RouterObject`,
   `Replies`, `RoundRobin`, `Sharding`, `Contention`): every interleaving of locked begins, unlocked forwards and locked completes.
5. **Algorithms of their own** (`Limiter`, `Rules`, `Sketch`) **and the HTTP/1.1 messages** (`Http`, `Wire`, `Unicode`,
   `HttpStream`).

`Prelude`, `Keys`, `Texts` and `LittleEndian` hold the shared vocabulary. State machines are values with a step
function; code that updates objects in place is a class whose methods are proved equal to those steps, so the
theorems about runs hold of the objects. `dafny verify dfyconfig.toml` checks everything.

## What is taken as given

- SHA-256 (section 6.2 of FIPS 180-4), HMAC-SHA256 and the routing hash are arbitrary total functions. Nothing is
  assumed injective: a statement about the hash chain ends in "or here is a collision".
- Time, the backend's answers, the order in which a hash map is walked and the limiter's choice of a victim are
  parameters or arbitrary choices.
- Lengths are cast to 32 bits by the code. `Records.RoundTrip` proves that a record reads back exactly when its
  lengths and its fence fit, and the log theorems ask this of the records written (`Faithful`, which
  `Records.FaithfulIff` spells out).
- Fences and metric counters are unbounded; times saturate as in the code.
- The limiter's floating-point comparison is the same inequality multiplied out over the integers.
- A write that fails is a crash.

## What the proofs found

- **Group commit with two requests on one key.** A fence lost with the unflushed writes is minted again after a
  crash, so a stale worker can commit its outcome under another request's fingerprint and that request is then
  served the wrong answer (`Simulation.MixupFires`). All oracles hold exactly when the mode is strict or no key is
  used with two fingerprints (`Simulation.QuietIff`). The store's documentation says of group commit that
  exactly-once simply holds (crates/onced-core/src/wal.rs:295-301).
- **Recycling across a crash.** The fence counter is re-seeded from keys in progress only, so after a key is
  completed, the process restarts and the key is recycled past its TTL, a fence that an old worker still holds is
  minted again and accepted from that worker (`Fencing.RecyclingAcrossCrashReissues`). A restart is safe for every
  continuation up to the next one exactly when each key not in progress was last handed out a fence that a key in progress reaches
  (`Fencing.RestartIff`). The comment at crates/onced-core/src/engine.rs:78-80 says a minted fence never collides.
- **Pruning** is seen by a later begin exactly when that begin's clock is behind the prune and the key had not
  expired by it (`Pruning.PruneShowsIff`). This is why `Sharding.ShardingIsInvisible` asks that no keyed request
  look at a clock behind an earlier sweep of a shard; without sweeps it asks nothing, and `Sharding.UntimelyShowsIff`
  says exactly which requests could otherwise tell.
- **The limiter's limit is not a bound.** It is documented as up to `limit` hits per trailing window
  (crates/onced-core/src/abuse.rs:61). That holds exactly when `limit * (window - 2) < window`, for windows that fit
  twice into the clock, and in general by `Limiter.KeepsLimitIff`. Otherwise the bound of `Limiter.TrailingBound`
  holds, and `Limiter.BoundIsMet` shows runs that meet it.
- **Fingerprint input.** The claim that distinct requests never give the same bytes
  (crates/onced-gateway/src/gateway.rs:349-352) holds for the requests the parser delivers exactly as long as method
  and target have at most 2^32 bytes (`Gateway.DistinguishesIff`). One byte more and the length prefix wraps:
  `Gateway.CanonicalCollides` gives two requests the parser delivers. At exactly 2^32 bytes the prefix reads as the
  empty field, which the parser refuses, so nothing is lost yet; the body needs no bound.
- **Round robin at the turn.** Keyless requests are said to be spread evenly (crates/onced-gateway/src/router.rs:65-67).
  As many of them as there are shards go to different shards exactly when the counter does not come round among them
  or the number of shards divides 2^64 (`RoundRobin.RoundRobinIff`).

Where comments and code differ the model follows the code: a replicated write goes to node 0, which serves reads,
before the others, although the comment at crates/onced-core/src/replication.rs:54-57 has the primary last; the
record frame holds a 32-byte chain value, which the repository's technical documentation leaves out; the
fingerprint is one keyed hash, where that documentation has four salted passes; open refuses a complete record
with a bad checksum although crates/onced-core/src/wal.rs:280-282 says a corrupt tail is truncated.

## Model

| member | source | states |
|---|---|---|
| Simulation.NoOracleFires | crates/onced-sim/src/lib.rs:218-452 | for every schedule below the TTL, strict or with one fingerprint per key, no assertion of the simulator fires |
| Simulation.StepHolds | crates/onced-sim/src/lib.rs:218-452 | every enabled action keeps the invariant and fires no oracle |
| Simulation.QuietIff | crates/onced-sim/src/lib.rs:283-294 | all schedules are quiet if and only if the mode is strict or no key has two fingerprints |
| Simulation.MixupFires | crates/onced-core/src/wal.rs:295-301 | group commit with two fingerprints on a key: a concrete schedule on which mismatch safety fails |
| Simulation.BeginHolds | crates/onced-sim/src/lib.rs:283-336 | a replay is the committed outcome and goes only to the fingerprint that committed it |
| Simulation.CompleteHolds | crates/onced-sim/src/lib.rs:338-399 | strict mode completes a key once and never answers Unknown; AlreadyCompleted implies a commit |
| Simulation.FlushHolds | crates/onced-sim/src/lib.rs:242-272 | a flush never changes a durable outcome |
| Simulation.CrashHolds | crates/onced-sim/src/lib.rs:412-452 | every durable outcome replays after a crash |
| Simulation.FencesStayBelow | crates/onced-core/src/engine.rs:114-118 | each action raises the fences in use by at most one |
| Simulator.Simulator.constructor | crates/onced-sim/src/lib.rs:178-203 | a new simulation is the initial state, over an empty log |
| Simulator.Simulator.DoBegin | crates/onced-sim/src/lib.rs:283-336 | over the real log, is the begin action; its assertions hold |
| Simulator.Simulator.DoComplete | crates/onced-sim/src/lib.rs:338-399 | over the real log, is the complete action; its assertions hold |
| Simulator.Simulator.RecordCommit | crates/onced-sim/src/lib.rs:350-373 | what the oracles record of a commit, counting one completion in strict mode |
| Simulator.Simulator.MarkDurable | crates/onced-sim/src/lib.rs:258-272 | a durable outcome is set once and never replaced |
| Simulator.Simulator.MarkAllDurable | crates/onced-sim/src/lib.rs:248-256 | the loop makes every committed outcome durable |
| Simulator.Simulator.DoFlush | crates/onced-sim/src/lib.rs:242-256 | over the real log, is the flush action |
| Simulator.Simulator.DoAdvanceClock | crates/onced-sim/src/lib.rs:401-410 | moves the clock and nothing else |
| Simulator.Simulator.CheckRecovered | crates/onced-sim/src/lib.rs:427-451 | the recovery loop finds every committed outcome replayed and changes nothing |
| Simulator.Simulator.DoCrash | crates/onced-sim/src/lib.rs:412-452 | reopening the bytes on disk is the crash action |
| Simulator.Simulator.Perform | crates/onced-sim/src/lib.rs:218-240 | one step of the program is one step of the transition system and keeps its invariant |
| Simulator.Simulator.Run | crates/onced-sim/src/lib.rs:205-211 | the whole program ends where the transition system does and no assertion fails |
| Simulator.Reopened | crates/onced-sim/src/lib.rs:455-460 | reopening a held log gives its index and root with nothing pending |
| Journal.CrashAtAnyByte | crates/onced-core/src/wal.rs:337-449 | after any puts and flushes and any byte cut of the unfinished append, open gives the index, root and length of a prefix of the puts that contains every flushed one |
| Journal.CrashFrom | crates/onced-core/src/wal.rs:337-449 | the same from any consistent store, and nothing is lost when the append finished |
| Journal.CommitTorn | crates/onced-core/src/wal.rs:406-417 | a torn append keeps exactly its whole records; the truncated rest is shorter than one record |
| Journal.RunKeeps | crates/onced-core/src/wal.rs:406-515 | any run of puts, flushes and compactions refines the ledger of durable index, root and buffered writes |
| Journal.StepKeeps | crates/onced-core/src/wal.rs:406-515 | each operation keeps file, pending bytes, index and root consistent with the ledger |
| Journal.CompactionIsAtomic | crates/onced-core/src/wal.rs:455-515 | at every crash point of compaction and for every walk order, open gives the old durable index or exactly the filtered one with the stored root |
| Journal.RecoveryThenPuts | crates/onced-core/src/wal.rs:337-449 | puts and a flush on any recovered file reopen to the recovered index updated by them |
| Journal.FreshKeeps | crates/onced-core/src/wal.rs:388-400 | whatever bytes open accepts, the opened store is consistent |
| Journal.FileOfHistory | crates/onced-core/src/wal.rs:436-449 | file and pending bytes together are one chained append of all puts |
| Wal.OpenIsStable | crates/onced-core/src/wal.rs:337-401 | for arbitrary bytes, reopening the truncated file gives the same index, root and length |
| Wal.AcceptedIsLog | crates/onced-core/src/wal.rs:352-369 | what replay accepts of arbitrary bytes is exactly a chained log of valid payloads with its index and root |
| Wal.ReplayLog | crates/onced-core/src/wal.rs:352-369 | replay of a chained log followed by anything applies its writes and goes on behind it |
| Wal.TornAppendOpens | crates/onced-core/src/wal.rs:371-390 | a log with a torn append opens to the whole records and the length where they end |
| Wal.ReplayTorn | crates/onced-core/src/wal.rs:352-386 | replay of a cut append stops behind its last whole record and leaves no complete frame |
| Wal.AppendHolds | crates/onced-core/src/wal.rs:436-449 | appending chained records to an accepted log gives an accepted log with the writes applied |
| Wal.WholeFit | crates/onced-core/src/wal.rs:265-278 | the number of whole records in a cut is the largest that fits |
| WalStore.OpenLog | crates/onced-core/src/wal.rs:348-386 | the replay loop computes the specified result, both errors included |
| WalStore.RewriteLog | crates/onced-core/src/wal.rs:464-472 | the compaction loop writes one chained record per entry, each entry once |
| WalStore.OncedIsClosed | crates/onced-core/src/wal.rs:150-246 | every record the decoder accepts can be written back and read again |
| WalStore.WalStore.Recover | crates/onced-core/src/wal.rs:388-400 | opening cuts the file to the accepted log with nothing pending |
| WalStore.WalStore.Put | crates/onced-core/src/wal.rs:436-449 | buffers one record chained to the root, and in strict mode commits it |
| WalStore.WalStore.FlushPending | crates/onced-core/src/wal.rs:406-417 | moves the pending bytes to the file |
| WalStore.WalStore.Flush | crates/onced-core/src/wal.rs:451-453 | commits everything buffered |
| WalStore.WalStore.Compact | crates/onced-core/src/wal.rs:455-515 | is the journal's compaction for some walk order of the surviving entries |
| WalStore.WalStore.MaxInProgressFence | crates/onced-core/src/wal.rs:421-430 | the maximum fence among keys in progress, 0 if there is none |
| TamperEvidence.RootCommitsToLog | crates/onced-core/src/wal.rs:352-369 | two fully accepted logs with one root are byte-identical, or their link inputs hold a collision or a preimage of genesis |
| TamperEvidence.SamePayloads | crates/onced-core/src/wal.rs:70-78 | equal roots mean equal payload sequences, a collision, or a genesis preimage |
| TamperEvidence.BadFrameIsRefused | crates/onced-core/src/wal.rs:357-386 | a complete frame that fails checksum, parse or chain makes open fail with the matching error |
| TamperEvidence.BurstIsRefused | crates/onced-core/src/wal.rs:202-211 | a changed burst within four bytes of any record behind its length field makes open fail; in the payload, as interior corruption |
| TamperEvidence.BurstShows | crates/onced-core/src/wal.rs:202-211 | such a burst separates stored checksum from payload, or changes the chain field alone |
| Crc32.DetectsBursts | crates/onced-core/src/wal.rs:58-68 | payloads of any length that differ only within four consecutive bytes have different checksums |
| Division.ChecksumIff | crates/onced-core/src/wal.rs:56-68 | for data of any length the checksum, and nothing else, is the complemented and reflected remainder of the message with its first 32 bits inverted, divided by the generator of clause 3.2.9 of IEEE 802.3 written by its exponents |
| Division.RemainderIsUnique | crates/onced-core/src/wal.rs:56-68 | a polynomial has one remainder of degree below 32 |
| Division.GeneratorReflected | crates/onced-core/src/wal.rs:64 | the program's constant is that generator without its highest power, reflected |
| Division.ResidueIsConstant | crates/onced-core/src/wal.rs:58-68 | data followed by its checksum leaves the same register whatever the data |
| Crc32.ComputeChecksum | crates/onced-core/src/wal.rs:58-68 | the bit loop computes the checksum that Division.ChecksumIff characterises |
| Crc32.TurnsInjective | crates/onced-core/src/wal.rs:62-65 | the register step can be undone |
| Crc32.TurnsLinear | crates/onced-core/src/wal.rs:62-65 | the register step is linear over exclusive or |
| Crc32.RunBack | crates/onced-core/src/wal.rs:58-68 | up to four bytes are determined by the registers before and after them |
| Records.RoundTrip | crates/onced-core/src/wal.rs:150-246 | decoding an encoding followed by any bytes returns key, state, chain and exact length, if and only if lengths and fence fit |
| Records.FaithfulIff | crates/onced-core/src/wal.rs:80-95 | a write survives encoding if and only if its texts are UTF-8 and its lengths and fence fit |
| Records.ParsedIsEncodable | crates/onced-core/src/wal.rs:213-245 | whatever payload parses can be encoded again |
| Records.TakeAllHeadersBack | crates/onced-core/src/wal.rs:173-177 | a header map of any size reads back whole |
| Frames.StrictPrefixIsTorn | crates/onced-core/src/wal.rs:202-211 | no strict prefix of a record decodes or counts as complete |
| Frames.DecodeIsLocal | crates/onced-core/src/wal.rs:265-278 | bytes behind a complete frame do not influence decoding |
| Frames.DecodedIsFrame | crates/onced-core/src/wal.rs:202-246 | a decoded record with the right chain is byte for byte the frame of its payload |
| Frames.FrameFields | crates/onced-core/src/wal.rs:182-190 | where a frame holds its fields; its length field is right if and only if the payload is below 2^32 bytes |
| Layout.FrameLayout | crates/onced-core/src/wal.rs:182-190 | a record byte by byte: length, checksum, hash of the previous hash with checksum and payload, payload |
| Layout.LeaseLayout | crates/onced-core/src/wal.rs:151-163 | the payload of a lease by offsets |
| Layout.OutcomeLayout | crates/onced-core/src/wal.rs:164-179 | the payload of an outcome by offsets |
| Layout.HeaderLayout | crates/onced-core/src/wal.rs:173-177 | where each header of the sorted map lies |
| Layout.GenesisIsZero | crates/onced-core/src/wal.rs:49-51 | the chain starts from 32 zero bytes |
| Layout.LittleEndianPlaces | crates/onced-core/src/wal.rs:80-92 | the lowest byte of a number comes first |
| Codec.Reader.ReadSlice | crates/onced-core/src/wal.rs:109-114 | takes the next bytes or fails at the end, never partially |
| Codec.Reader.ReadNumber | crates/onced-core/src/wal.rs:115-126 | reads a little-endian number of the given width |
| Codec.Reader.ReadText | crates/onced-core/src/wal.rs:130-136 | reads a length-prefixed string and refuses invalid UTF-8 |
| Codec.Reader.ReadHeaders | crates/onced-core/src/wal.rs:225-231 | the header loop reads what the specification takes |
| Codec.Reader.ReadState | crates/onced-core/src/wal.rs:215-244 | reads either state and refuses other tags |
| Codec.DecodeRecord | crates/onced-core/src/wal.rs:202-246 | the imperative decoder computes the specified result |
| Codec.EncodeHeaders | crates/onced-core/src/wal.rs:173-177 | the header loop writes the map in sorted order |
| Texts.SortedAscends | crates/onced-core/src/wal.rs:174-177 | a sorted map is walked in ascending order of its names |
| Texts.LessIff | crates/onced-core/src/lib.rs:66-67 | which is decided by the first byte that differs, a beginning coming first |
| Codec.EncodeRecord | crates/onced-core/src/wal.rs:150-191 | the imperative encoder builds the specified frame |
| LittleEndian.ReadsBack | crates/onced-core/src/wal.rs:80-92 | a number reads back from its bytes if and only if it fits them |
| Fencing.RestartIff | crates/onced-core/src/engine.rs:77-88 | after a restart every continuation without another one keeps each key's fences increasing if and only if every key not in progress was last handed out a fence not above the highest one in progress |
| Fencing.FencesIncrease | crates/onced-core/src/engine.rs:77-137 | they do in every strict run with crashes but no recycling or pruning, and in every crash-free run |
| Fencing.OnlyNewestCompletes | crates/onced-core/src/engine.rs:198-226 | over every run, a handed-out fence is accepted if and only if it is the newest and the key is in progress, is stale if and only if a newer one was handed out and the key is in progress, and is told completed or unknown if and only if the key is |
| Fencing.RecyclingAcrossCrashReissues | crates/onced-core/src/wal.rs:421-430 | a concrete run in which a crash after recycling hands out a fence twice and the old holder may complete |
| Fencing.RunInv | crates/onced-core/src/engine.rs:77-137 | in any run a lease carries its key's newest fence and the counter is above it |
| Pruning.PruningIsInvisible | crates/onced-core/src/engine.rs:97-112 | inserting a prune changes no later answer, minted fence or re-seeded counter and accepts no refused completion, if later begins are not before it |
| Pruning.PruneShowsIff | crates/onced-core/src/engine.rs:155-171 | a prune changes a begin's answer if and only if it dropped a key that had not expired by the begin's clock |
| Pruning.SameSeed | crates/onced-core/src/engine.rs:77-88 | pruned and unpruned stores re-seed the same counter |
| Operations.CompletedIsImmutable | crates/onced-core/src/engine.rs:140-226 | through any begins, completions, prunes and crashes a completed key keeps its outcome until its TTL, replayed to its fingerprint and a mismatch to any other |
| Operations.HeldIsBound | crates/onced-core/src/engine.rs:172-184 | through any begins, takeovers, refused completions, prunes and crashes a key in progress stays bound to its fingerprint: any other is a mismatch at any clock and changes nothing, the same waits until the lease is over and then runs |
| EngineObject.Engine.WithTtl | crates/onced-core/src/engine.rs:77-88 | starts over the store with its counter above every fence in progress |
| EngineObject.Engine.Begin | crates/onced-core/src/engine.rs:140-193 | decides as the state machine does and writes exactly one record when it starts, none otherwise |
| EngineObject.Engine.Complete | crates/onced-core/src/engine.rs:198-226 | commits as the state machine does and writes exactly one record when it commits, none otherwise |
| EngineObject.Engine.Start | crates/onced-core/src/engine.rs:121-137 | mints a fence and stores the lease under it |
| EngineObject.Engine.PruneExpired | crates/onced-core/src/engine.rs:102-112 | drops exactly the expired completed keys, by one compaction |
| EngineObject.Engine.Flush | crates/onced-core/src/engine.rs:93-95 | commits the store and changes nothing visible |
| Replication.FailoverIsACrash | crates/onced-core/src/replication.rs:53-79 | whatever writes the process dies in and whichever node is promoted, the engine is where one strict node is after the same operations and crashes |
| Replication.AcknowledgedSurvives | crates/onced-core/src/replication.rs:53-79 | dying inside a write: acknowledged completions still replay and no fence in progress is minted again |
| Replication.CompletionSurvives | crates/onced-core/src/replication.rs:1-15 | a completion replays after any later operations, deaths and promotions until its TTL |
| Replication.FencesSurvive | crates/onced-core/src/engine.rs:77-88 | through any deaths and promotions without recycling, each key's fences strictly increase |
| Replication.StepMatches | crates/onced-core/src/replication.rs:53-79 | each event keeps the nodes equal and matches one node, a death being a crash before or after the write |
| Replication.ReplicatedStore.Put | crates/onced-core/src/replication.rs:53-63 | the loop writes every node, passing in index order through the states a death can leave |
| Replication.ReplicatedStore.Compact | crates/onced-core/src/replication.rs:71-75 | the loop filters every node, in the same order |
| Sharding.ShardingIsInvisible | crates/onced-gateway/src/router.rs:95-193 | for every interleaving of begins, completes and one-shard sweeps the router's answers and aggregated counters are those of one engine over the union of the shard stores, and the states agree up to an injective renaming of fences and keys past their TTL |
| Sharding.RestartedRouter | crates/onced-gateway/src/router.rs:83-93 | the same for a router whose shards are restarted over any stores, against one engine restarted over their union |
| Sharding.UntimelyShowsIff | crates/onced-gateway/src/router.rs:95-102 | after a sweep of one shard the router answers a request unlike the single engine if and only if exactly one of them lost the key to the sweep and the request's clock is behind its expiry |
| Sharding.RunsMatch | crates/onced-gateway/src/router.rs:227-242 | related systems answer every run alike and stay related |
| Sharding.StepMatches | crates/onced-gateway/src/router.rs:95-193 | each begin, complete or sweep step answers alike and keeps the relation |
| Sharding.Sweeping | crates/onced-gateway/src/router.rs:97-102 | sweeping one shard of the router keeps it related to the single engine, swept or not |
| Sharding.BeginMatches | crates/onced-core/src/engine.rs:140-193 | begin decides alike on states equal up to renaming and keys past their TTL |
| Sharding.CompleteMatches | crates/onced-core/src/engine.rs:198-226 | complete accepts a token exactly when it accepts the renamed one |
| Sharding.UnionHolds | crates/onced-gateway/src/router.rs:117-120 | the union of the stores shows each key as its owning shard does |
| Contention.ForwardedOnce | crates/onced-gateway/src/gateway.rs:222-296 | requests under one key within the first lease: one forward at most, and every client's response field by field: 422 to whoever asks something else, 409 before the backend's answer, the marked answer to the first, and after it replays of that answer if below 500, 409 otherwise |
| Contention.ServedByContent | crates/onced-gateway/src/gateway.rs:222-296 | the same history with "the same request" meaning the same method, target and body, or the keyed hash has collided on the first request and another |
| Contention.FromUntouched | crates/onced-gateway/src/router.rs:227-242 | the exact order of such a key's moves: one run, waiting, one backend answer, then only replays or only waiting |
| Contention.RunsAgainIff | crates/onced-gateway/src/gateway.rs:271-276 | while a key is held the same request is forwarded again if and only if it comes at or after the end of the lease |
| Contention.Elsewhere | crates/onced-gateway/src/router.rs:95-193 | events of other keys, and sweeps before its expiry, leave a key's state and tickets alone |
| Contention.MovesAreReplies | crates/onced-gateway/src/gateway.rs:233-295 | over a whole run, the responses a key's clients receive are those its moves stand for |
| Replies.ForwardIsAnswered | crates/onced-gateway/src/gateway.rs:253-296 | whatever happens meanwhile, the client of a forwarded request receives its backend's status, headers and body, marked created if keyed and below 500, or a 502 |
| Replies.KeylessPassesThrough | crates/onced-gateway/src/gateway.rs:225-229 | a request without a key is always forwarded, its client receives exactly the backend's response or a 502, and no store changes |
| Replies.OtherContentRefused | crates/onced-gateway/src/gateway.rs:243-246 | under a key in use for one request another method, target or body is told 422 at any clock and changes no store, or the keyed hash has collided |
| Replies.SameContentServed | crates/onced-gateway/src/gateway.rs:233-242 | the same content is told 409 within the lease, forwarded after it, and served the stored response once completed |
| Replies.KeyMeans | crates/onced-gateway/src/gateway.rs:225-230 | the key is the value of the first header spelling idempotency-key in any case |
| Router.Conservation | crates/onced-gateway/src/router.rs:106-115 | in every reachable state requests equal created, replayed, in-progress, mismatched, failed and passed-through ones plus forwards under way |
| Router.CountersAreTallies | crates/onced-gateway/src/gateway.rs:50-83 | after every run each aggregated counter is the number of requests that ended its way, and requests the number that arrived |
| Router.AggregateMoves | crates/onced-gateway/src/router.rs:106-115 | an event moves the aggregate by what it counts in its one shard |
| Router.StartedBalances | crates/onced-gateway/src/router.rs:83-93 | a new router has counted nothing |
| RouterObject.Router.RouteShard | crates/onced-gateway/src/router.rs:156-161 | by key hash, or round-robin without a key |
| RoundRobin.RoundRobinIff | crates/onced-gateway/src/router.rs:154-161 | as many keyless requests as shards go to different shards if and only if the counter does not come round among them or the number of shards divides 2^64 |
| RoundRobin.RoutedInTurn | crates/onced-gateway/src/router.rs:154-161 | whatever happens in between, each keyless request takes the next number modulo 2^64 and the shard of that number |
| RouterObject.IdentityMeans | crates/onced-gateway/src/router.rs:143 | a caller is the value of the first header spelling x-forwarded-for in any case, or anonymous |
| RouterObject.Router.BeginOn | crates/onced-gateway/src/router.rs:166-179 | one shard begins, the others are untouched |
| RouterObject.Router.CompleteOn | crates/onced-gateway/src/router.rs:182-193 | one shard completes, the others are untouched |
| RouterObject.Router.AggregateMetrics | crates/onced-gateway/src/router.rs:106-115 | the loop computes the aggregate the conservation law is about |
| RouterObject.Router.DenyIfAbusive | crates/onced-gateway/src/router.rs:142-152 | the rule set at the hash of the identity counts the request; a denial is counted and answered 429 with the first tripped rule and its action, field by field |
| RouterObject.Router.PruneExpired | crates/onced-gateway/src/router.rs:97-102 | the loop is one sweep event per shard in turn and leaves requests in flight alone |
| RouterObject.Router.Dispatch | crates/onced-gateway/src/router.rs:234-241 | a request served without interruption is an arrival followed by its finish |
| GatewayObject.Gateway.BeginPhase | crates/onced-gateway/src/gateway.rs:222-248 | decides and counts as the phase whose replies `Replies` and `Contention` give field by field; the log is written only for a keyed forward |
| GatewayObject.Gateway.CompletePhase | crates/onced-gateway/src/gateway.rs:253-296 | answers as `Replies.ForwardIsAnswered` gives field by field and counts as specified; nothing is cached for a failure or a 5xx |
| GatewayObject.Gateway.HandleAfterAbuse | crates/onced-gateway/src/gateway.rs:200-208 | both phases around one forward, or the first alone, with the state after it |
| GatewayObject.Gateway.PruneExpired | crates/onced-gateway/src/gateway.rs:159-161 | prunes the engine and keeps the counters |
| Gateway.PhasesCount | crates/onced-gateway/src/gateway.rs:222-296 | a begin counts a request unsettled exactly when it forwards, a complete always settles one |
| Gateway.CanonicalIsInjective | crates/onced-gateway/src/gateway.rs:345-370 | requests with non-empty method and target of at most 2^32 bytes and equal fingerprint input are equal, whatever the bodies |
| Gateway.CanonicalCollides | crates/onced-gateway/src/gateway.rs:361-367 | two different requests the parser delivers, one target 2^32 + 1 bytes long, with equal fingerprint input |
| Gateway.DistinguishesIff | crates/onced-gateway/src/gateway.rs:349-352 | delivered requests with method and target of at most n bytes have distinct fingerprint input if and only if n is at most 2^32 |
| Gateway.FingerprintTells | crates/onced-gateway/src/gateway.rs:353-370 | equal fingerprints of delivered requests mean the same method, target and body, or two different length-prefixed inputs, one of each, with equal keyed hash |
| Gateway.FingerprintIs | crates/onced-gateway/src/gateway.rs:353-370 | a fingerprint is the keyed hash of the length-prefixed method, target and body, whatever the headers |
| Gateway.OutcomeRoundTrip | crates/onced-gateway/src/gateway.rs:372-386 | a served outcome stored again is the same outcome |
| Gateway.ReplayGathers | crates/onced-gateway/src/gateway.rs:372-386 | a replay shows status, body and each header name once, in ascending order, with its last value |
| Limiter.TrailingBound | crates/onced-core/src/abuse.rs:86-139 | an interval of one window ending at a hit `e` into its fixed window admits at most limit * (1 + e / window) hits |
| Limiter.FewerThanTwice | crates/onced-core/src/abuse.rs:86-139 | any trailing window admits strictly fewer than twice a positive limit |
| Limiter.CountersAreTrue | crates/onced-core/src/abuse.rs:111-126 | under a monotone clock the counters are the true hit counts of the two latest windows |
| Limiter.AdmittedIff | crates/onced-core/src/abuse.rs:86-139 | under a monotone clock a hit is admitted if and only if hits in its window * window + hits in the previous one * (window - time % window) <= limit * window, refused hits included |
| Limiter.WindowBound | crates/onced-core/src/abuse.rs:128-138 | no fixed window admits more than the limit |
| Limiter.KeepsLimitIff | crates/onced-core/src/abuse.rs:61 | no trailing window of any run admits more than the limit if and only if limit * reach < window, where reach is window - 2 or what the clock leaves |
| Limiter.BoundIsMet | crates/onced-core/src/abuse.rs:128-138 | for every offset up to window - 2 a run admits as many hits as the trailing bound allows |
| Limiter.LimitIsExceeded | crates/onced-core/src/abuse.rs:61 | whenever that condition fails some run admits more than the limit in one trailing window |
| Limiter.SlidingWindowLimiter.WithCapacity | crates/onced-core/src/abuse.rs:68-77 | a limiter starts with no key tracked |
| Limiter.SlidingWindowLimiter.Evict | crates/onced-core/src/abuse.rs:91-100 | only a new key at capacity displaces one tracked key |
| Limiter.SlidingWindowLimiter.Check | crates/onced-core/src/abuse.rs:86-139 | records the hit and decides as the bounds speak of; tracked keys never exceed the cap |
| Rules.RuleSet.AddRule | crates/onced-core/src/abuse.rs:184-191 | appends a rule with a fresh limiter |
| Rules.RuleSet.Evaluate | crates/onced-core/src/abuse.rs:194-206 | every rule records the request and the first one over budget decides |
| Sketch.EstimateBounds | crates/onced-core/src/sketch.rs:52-67 | an estimate lies between the saturated true count and the saturated total |
| Sketch.EstimateIs | crates/onced-core/src/sketch.rs:43-67 | an estimate is the least over the rows of the saturated counts of all keys with the same hash modulo the width |
| Sketch.OrderIndependent | crates/onced-core/src/sketch.rs:52-67 | the same adds in any order give the same estimate |
| Sketch.LoneKeyIsExact | crates/onced-core/src/sketch.rs:10-13 | one row whose hash puts no other key where it puts this one makes the estimate exact |
| Sketch.CountMinSketch.constructor | crates/onced-core/src/sketch.rs:34-41 | a new sketch has counted nothing |
| Sketch.CountMinSketch.Add | crates/onced-core/src/sketch.rs:53-59 | the row loop keeps every cell at the saturated sum of the counts that fall in it |
| Sketch.CountMinSketch.Estimate | crates/onced-core/src/sketch.rs:62-67 | the minimum over rows of the saturated sum of all colliding counts |
| Http.RequestRoundTrip | crates/onced-gateway/src/http.rs:48-154 | parsing a written request and any tail returns it, Content-Length and Connection normalised, and leaves the tail, if and only if it is well formed; a carriage return inside a field is |
| Http.ForwardedRequest | crates/onced-gateway/src/http.rs:48-154 | whatever request the proxy parses, the next hop parses the same from what it writes, headers normalised |
| Http.ParsedIsGood | crates/onced-gateway/src/http.rs:48-97 | whatever the parser delivers has non-empty words without spaces and trimmed UTF-8 headers |
| Wire.ParsesRequest | crates/onced-gateway/src/http.rs:48-97 | what the parser makes of any request line and header lines, padded, with either line end and in any case: as many bytes of body as the first Content-Length declares, none without one, and an error if there are fewer |
| Wire.ParsesResponse | crates/onced-gateway/src/http.rs:158-214 | the same of responses, read to the end without a Content-Length |
| Wire.SameNameIff | crates/onced-gateway/src/http.rs:26-33 | names are equal exactly up to the case of ASCII letters |
| Wire.FindMeans | crates/onced-gateway/src/http.rs:26-33 | a lookup finds the first header of the name in any case, or nothing if there is none |
| Wire.HeaderPassedOn | crates/onced-gateway/src/http.rs:141-154 | each header is passed on in its place unless it spells content-length or connection, which are written anew |
| Wire.ResponseHeaderPassedOn | crates/onced-gateway/src/http.rs:101-118 | the same of responses and content-length |
| Wire.RequestWritten | crates/onced-gateway/src/http.rs:141-154 | a written request letter by letter |
| Wire.ResponseWritten | crates/onced-gateway/src/http.rs:101-118 | a written response letter by letter |
| Wire.Places | crates/onced-gateway/src/http.rs:79-83 | lengths are read as decimal numbers |
| Unicode.Utf8Iff | crates/onced-gateway/src/http.rs:49-52 | lines are accepted exactly if they are encodings of Unicode scalar values (section 3 of RFC 3629) |
| Unicode.WhiteAtStart | crates/onced-gateway/src/http.rs:72-74 | what is trimmed at the start is exactly the White_Space characters |
| Unicode.WhiteAtEnd | crates/onced-gateway/src/http.rs:72-74 | and at the end |
| Http.ResponseRoundTrip | crates/onced-gateway/src/http.rs:99-214 | the same for responses, if and only if the headers are well formed and the body fits its length field or nothing follows |
| Http.ForwardedResponse | crates/onced-gateway/src/http.rs:99-214 | whatever response the proxy parses, its client parses the same from what it writes, headers normalised |
| Http.HeadersReadBack | crates/onced-gateway/src/http.rs:62-77 | any list of well-formed headers reads back |
| Http.NumberReadsBack | crates/onced-gateway/src/http.rs:79-83 | a printed number parses to itself if and only if it is within range |
| HttpStream.Reader.ReadLine | crates/onced-gateway/src/http.rs:49-52 | the next line with its line feed, refused if not UTF-8 |
| HttpStream.Reader.ReadHeaders | crates/onced-gateway/src/http.rs:62-77 | the header loop computes the specified headers and stops where they end |
| HttpStream.Reader.ReadRequest | crates/onced-gateway/src/http.rs:48-97 | the parser computes the specified request, end of input, malformed input or short body, and stops where the message or the malformed line ends |
| HttpStream.Reader.ReadResponse | crates/onced-gateway/src/http.rs:158-214 | the parser computes the specified response, reading to the end without a length, and stops where the message or the malformed line ends |
| HttpStream.Writer.WriteOthers | crates/onced-gateway/src/http.rs:109-114 | the loop writes the headers the writer does not own |
| HttpStream.Writer.WriteResponse | crates/onced-gateway/src/http.rs:101-118 | appends the specified response |
| HttpStream.Writer.WriteRequest | crates/onced-gateway/src/http.rs:141-154 | appends the specified request |

## Left out

- Sockets, threads and async runtimes (crates/onced-gateway/src/server.rs, crates/onced-fast, crates/onced-uring): plumbing over libraries.
- SHA-256, HMAC and the routing hash themselves: they are parameters.
- crates/onced-core/src/hll.rs, velocity.rs and pow.rs: their claims are floating-point estimates or short window arithmetic.
- Metrics text, the health endpoint, environment parsing and the command line.
- Directory syncs and the error paths of failing writes: a failing write is a crash.
- MemoryStore (crates/onced-core/src/store.rs): it is the plain map `Keys.Index` with `Keys.Update`, which the other stores are proved against.
- The simulator's random generator and statistics: every schedule is covered instead.
- Replication.ReplicatedStore: a node is the index a strict-mode store recovers, so the loops update values and aliasing of nodes is not modelled; flush is then a no-op.
- Gateway.Metrics: counters are unbounded, where the code would wrap at 2^64.
- HttpStream.Reader.ReadRequest: where the position stands after a body cut short is not stated, because Read::read_exact leaves it unspecified; transport errors and a failing allocation of the body are not modelled.
- HttpStream.Reader.ReadResponse: likewise after a body cut short.
- Limiter.SlidingWindowLimiter.Check: rounding of the floating-point estimate is not modelled.
- RouterObject.Router.Dispatch: serves one request at a time; interleaved requests are the runs of `Router.Run`, where a denial is an event of its own.
