# svckit: a verified model of its protocols

A Dafny 4.11 model of the stateful parts of svckit, with proofs of what they
promise. `dafny verify dfyconfig.toml` checks all of it.

How the model is built. Instants and durations are integers of nanoseconds.
Whatever the code gets from outside (a Redis, SQL, AMQP or HTTP answer, the
clock, a random draw, the MAC, another goroutine) is a parameter, so every
theorem holds for every such answer. An object the source updates in place is a
class; each of its methods is proved to do one step of a function on values,
and the theorems are about runs of those steps. Where callers overlap, each
round trip is one step and steps interleave freely.

| files | component |
|---|---|
| `Json`, `CanonicalMarshal`, `EventSigning`, `Sorting` | canonical JSON, signing and verifying events |
| `RateLimitStore`, `RateLimitProtocol`, `RateLimiting` | the fixed-window limiter over a key store with expiry |
| `SecretCache`, `SecretCacheStaleness`, `SecretRetry`, `SecretChain` | the secret resolution stack |
| `PgRoles`, `PgReaders`, `PgCluster` | the Postgres cluster manager |
| `RedisNodes`, `RedisCluster`, `AmqpNodes`, `AmqpCluster` | Redis and RabbitMQ failover |
| `HttpBreaker`, `Tracing` | the HTTP client's breaker, retry loop and trace headers |
| `Balancing`, `Backoff`, `Text`, `Wrappers` | ticket and least-load fairness, 64-bit backoff, strings, shared types |

## Where the code differs from its documentation

The model follows the code. Each of these is a lemma below.

- `secrets/cached.go:10-12` says the TTL bounds how long a rotated-out value is
  used. The bound is the TTL plus the time between reading the backend and
  storing the entry, and it is reached (`TtlAloneIsNoBound`).
- "The writer immediately reads what it wrote" (`secrets/cached.go:52-53`) holds
  if and only if no other call was about to store another value for that path
  when the Set began (`SetIsReadIff`, `ServesWhatIsHeld`); otherwise the Set can
  be undone in the cache (`OverlappedSetIsLost`).
- The signature covers whole seconds: an expiry can be moved within its second
  (`ExpirySlack`).
- The first call after a block is granted in every run if and only if the block
  lasts at least a minute (`GrantsAfterBlocksIff`); with the default table it may
  be denied again for public and internal endpoints alone
  (`DefaultsGrantAfterBlocks`). `FirstAfterBlock` says exactly when it is.
- k concurrent callers can exceed the limit of a minute: by k - 1 when each reads
  the counter in the minute its clock reading gave it (`OvershootReached`), and by
  2k - 1 when they may be held up between the two (`OvershootReachedLate`); by no
  more in either case.
- A successful ping brings a degraded Redis node back if and only if the ping
  took longer than the circuit breaker timeout (`DegradedRecovers`): the branch
  at `rediscluster/health.go:98-104` measures from the time the same check set.
- Detection does not keep one writer. From one writer, a query leaves one exactly
  if it confirms what was known of its node, and otherwise two or none
  (`WritersAfterQuery`); a probe leaves one exactly if the writer accepted it, and
  otherwise two (`WritersAfterProbe`); DNS detection takes the role from nodes
  configured by host name (`WritersAfterDns`). `WriterKept` is the condition for
  whole runs.
- A promotion leaves its target as the only writer if and only if no other
  goroutine has the last word on some node (`PromotionLeavesOneWriter`):
  `SetWriterNode` locks one node at a time, and detection takes no cluster lock
  (`ProbeDuringPromotion`).
- `Reader`'s fallback to the writer (`pgcluster/manager.go:347-351`) serves if and
  only if some writer has become healthy since the scan for readers and the
  circuit has not been opened meanwhile (`GetReader`); with nothing happening in
  between it cannot succeed (`GetReaderUndisturbed`). Likewise the pool handed out
  is the one the node has after the scan, which a failing health check may have
  dropped: then `Reader` returns no pool and no error.
- Doubling in `Retrying` wraps around when the cap, or a first wait above the
  cap, is 2^62 ns or more (`WaitsExact`, `WaitFromAboveCap`).
- `calculateBackoff` panics if and only if base * 2^attempt, wrapped to 64 bits,
  or the cap is below 4 ns (`BackoffRange`). With the default base of a second
  and cap of thirty that is first so at attempt 34 (`DefaultsPanic`), and for
  every base from attempt 64 on (`HugeAttemptPanics`). `ExecuteWithRetry` then
  ends in that panic instead of trying its other nodes (`FailingCallTriesAll`), and
  `connectToNode` in that panic instead of opening a pool (`OpenExactly`).
- A failure limit below one, which `NewCircuitBreaker` accepts, works as one
  (`BreakerSummarises`).

## Model

| member | source | states |
|---|---|---|
| Json.RoundTrip | eventbus/signing.go:179-222 | A parser recovers every JSON tree, of any nesting, from its canonical text |
| Json.ParseCanonical | eventbus/signing.go:179-222 | The parser stops exactly at the end of the printed value, whatever follows it |
| Json.CanonicalInjective | eventbus/signing.go:179-222 | Distinct trees never share a canonical text |
| Json.CanonicalPrefixFree | eventbus/signing.go:179-222 | The text of anything but a number is a prefix of no other value's text |
| Json.CanonicalForms | eventbus/signing.go:179-222 | The text of each kind of value, from its parts |
| Json.CanonicalParts | eventbus/signing.go:196-217 | The parts: the items in order, or the quoted keys in order, each with its value |
| Json.EscapeTable | eventbus/signing.go:218-222 | How each character stands in a string (section 7 of RFC 8259, as encoding/json prints it) |
| Json.KeyLeqMeans | eventbus/signing.go:183-187 | A key comes first when it is a prefix or smaller at the first difference |
| CanonicalMarshal.MarshalCanonicalJSON | eventbus/signing.go:179-222 | With keys walked in arbitrary order at every depth the result is still the one canonical text |
| CanonicalMarshal.MarshalObject | eventbus/signing.go:181-205 | The object branch: gather keys, sort, append parts, join |
| CanonicalMarshal.MarshalArray | eventbus/signing.go:207-217 | The array branch |
| CanonicalMarshal.SortedKeysInOrder | eventbus/signing.go:183-187 | The key list of the canonical text is in byte order and holds each key once |
| CanonicalMarshal.SortedIsUnique | eventbus/signing.go:183-187 | Any sorted listing of the keys is that list |
| EventSigning.SignedLayout | eventbus/signing.go:136-150 | The signed bytes, field by field in order, each time as the n with n * 10^9 <= t < (n + 1) * 10^9 |
| EventSigning.NormalizeIdempotent | eventbus/signing.go:158-176 | Normalising already normalised data changes nothing |
| EventSigning.NormalizeIsFloats | eventbus/signing.go:158-176 | Normalising only replaces numbers by their float64 form, and fails only when one is out of range |
| EventSigning.NormalizeParts | eventbus/signing.go:158-176 | Part by part: numbers become what their float64 prints as or fail, shapes and everything else stay |
| EventSigning.TextsAgree | eventbus/signing.go:128-156 | Two events have equal canonical bytes iff ids, types, sources, users and normalised data agree and each of the three times lies in the same second |
| EventSigning.ClaimMeans | eventbus/signing.go:240-258 | Which claims there are and when each holds; the error of one that does not |
| EventSigning.ValidateRequiredClaims | eventbus/signing.go:238-262 | The loop reports the error of the first claim that fails, and none iff all hold |
| EventSigning.SignExactly | eventbus/signing.go:46-84 | Signing succeeds iff the claims hold, the data's numbers fit and the key has 16 bytes; the first that fails is the error, and the result carries the MAC of the canonical bytes |
| EventSigning.VerifyExactly | eventbus/signing.go:87-126 | What verifying refuses, in order: expiry, claims, data, short key, another signature than the MAC |
| Text.BlankMeans | eventbus/signing.go:242-256 | A text trims to nothing iff it holds only white space |
| EventSigning.VerifyExact | eventbus/signing.go:46-126 | A signature is accepted iff the event is unexpired, the key is the signing key, the claims hold and everything covered is unchanged |
| EventSigning.AcceptedWasSigned | eventbus/signing.go:86-126 | An accepted event whose signature was issued agrees with an event signed under the verifier's key |
| EventSigning.SignedSurvivesWire | eventbus/signing.go:46-176 | After any number of JSON encodings and decodings a signed event arrives with its data normalised and is accepted exactly until it expires |
| EventSigning.ExpirySlack | eventbus/signing.go:137-145 | A changed expiry is accepted iff it is not past and lies in the signed second, so less than 10^9 ns away |
| RateLimitStore.KeyTextInjective | middleware/rate_limiting.go:163-165 | Distinct clients, endpoint types, minutes and kinds of key have distinct Redis keys, colons in client ids included |
| RateLimitStore.KeyLayout | middleware/rate_limiting.go:163-165 | The keys as Redis has them, part by part, the minute as its first second |
| RateLimitProtocol.OvershootBound | middleware/rate_limiting.go:160-217 | With k interleaving callers and failing commands, each reading the counter in the minute of its clock reading, grants in one minute never exceed limit + k - 1 |
| RateLimitProtocol.OvershootBoundAlways | middleware/rate_limiting.go:160-217 | However long callers are held up between any two steps, grants for one minute never exceed limit + 2k - 1 |
| RateLimitProtocol.OvershootReached | middleware/rate_limiting.go:160-217 | Some interleaving of that kind gets exactly limit + k - 1 grants |
| RateLimitProtocol.OvershootReachedLate | middleware/rate_limiting.go:160-217 | Some interleaving gets exactly limit + 2k - 1 |
| RateLimiting.RateLimiter.IsAllowed | middleware/rate_limiting.go:152-218 | One call on the store object, with any failing command, is the step the run theorems are about |
| RateLimiting.CallDecides | middleware/rate_limiting.go:152-218 | What one call decides, from the stored block and counter, the configuration and the failing command |
| RateLimiting.CallLeaves | middleware/rate_limiting.go:190-217 | What it leaves: a grant one more in the counter and a minute from now, a denial the block, nothing else |
| RateLimiting.FailedIncrement | middleware/rate_limiting.go:204-212 | A failing increment is no grant but may count |
| RateLimiting.DefaultDecisions | middleware/rate_limiting.go:39-75 | The default table in requests a minute and seconds of block |
| RateLimiting.CallIsARun | middleware/rate_limiting.go:152-218 | An atomic call is a run of the concurrent protocol by one caller |
| RateLimiting.BlockHolds | middleware/rate_limiting.go:167-200 | After a denial no call before the block's end is granted, and no later denial moves the end |
| RateLimiting.FirstAfterBlock | middleware/rate_limiting.go:167-217 | The first call after a block is granted iff its minute is not the minute of the denial |
| RateLimiting.LongBlockThenGrant | middleware/rate_limiting.go:39-75 | After a block of at least a minute the first call is granted |
| RateLimiting.ShortBlockDeniesAgain | middleware/rate_limiting.go:60-69 | With a shorter block there is a run whose first call after the block is denied again |
| RateLimiting.GrantsAfterBlocksIff | middleware/rate_limiting.go:167-217 | The first call after a block is granted in every run iff the block is not shorter than a minute |
| RateLimiting.DefaultsGrantAfterBlocks | middleware/rate_limiting.go:39-75 | In the default table that fails exactly for public and internal endpoints |
| RateLimiting.MinuteQuota | middleware/rate_limiting.go:179-217 | Atomic calls get at most the limit in one minute window |
| RateLimiting.SpanQuota | middleware/rate_limiting.go:179-217 | Any sixty seconds hold at most twice the limit in grants |
| RateLimiting.SpanQuotaReached | middleware/rate_limiting.go:179-217 | Some run has exactly twice the limit in sixty seconds |
| SecretCache.CacheTransparent | secrets/cached.go:35-76 | Calls that do not overlap get the bare store's answer, or, where that errs, possibly the one it would give if it were up, for every run, clock and TTL |
| SecretCache.ServesUntilExpiry | secrets/cached.go:35-76 | A stored value answers every Get and Exists of its path until s + ttl, backend up or not, unless another is stored; from then on the backend is asked |
| SecretCache.EntriesAppearWithValues | secrets/cached.go:43-60 | A miss, a rejected Set and Exists create no entry |
| SecretCache.CachedStore.Get | secrets/cached.go:35-50 | The method does the step of the run theorem |
| SecretCache.CachedStore.Set | secrets/cached.go:54-60 | The method does the step of the run theorem, writing through |
| SecretCache.CachedStore.Exists | secrets/cached.go:62-70 | The method does the step of the run theorem and changes nothing |
| SecretCacheStaleness.StalenessBound | secrets/cached.go:35-76 | Over all interleavings with outside rotation, a hit at t was held by the backend later than t - ttl - gap |
| SecretCacheStaleness.GetIsARun | secrets/cached.go:35-50 | A Get that nobody overlaps is a run of the interleaved steps with the same outcome |
| SecretCacheStaleness.SetIsARun | secrets/cached.go:54-60 | So is a Set |
| SecretCacheStaleness.TtlAloneIsNoBound | secrets/cached.go:9-12 | That bound is reached: a value is served ttl + gap - 1 after it was rotated out |
| SecretCacheStaleness.ServesWhatIsHeld | secrets/cached.go:35-76 | Once backend and cache hold a value, every continuation that writes no other serves only it, iff no caller is about to store another |
| SecretCacheStaleness.SetIsReadIff | secrets/cached.go:52-60 | After a Set every later Get reads what it wrote, iff no other caller was about to store another value when it began |
| SecretCacheStaleness.OverlappedSetIsLost | secrets/cached.go:52-60 | An instance: an overlapping Get puts the old value back |
| SecretRetry.RetryingStore.Get | secrets/retry.go:29-49 | Retries exactly while missing or unavailable, with the given waits, until another answer or ctx ends it |
| SecretRetry.VerdictMeans | secrets/retry.go:29-49 | It goes on exactly while the secret is missing or the backend down, and ends with the value, the other error or the cancellation |
| SecretRetry.WaitsExact | secrets/retry.go:29-49 | Every wait is min(initial * 2^k, max) iff the cap is below 2^62 |
| SecretRetry.WaitFromAboveCap | secrets/retry.go:30-47 | Starting above the cap every wait but the first is the cap, iff the first is below 2^62 |
| SecretChain.Get | secrets/chain.go:20-33 | The loop is first-found lookup, other errors ending it |
| SecretChain.ResolveMeans | secrets/chain.go:20-33 | The first member that has the value or another error than not found decides, else the last report |
| SecretChain.ExistsMeans | secrets/chain.go:44-55 | The first member that does not say no decides |
| SecretChain.ChainFlattens | secrets/chain.go:14-55 | A chain of chains answers Get and Exists as the flat chain |
| SecretChain.ChainAgrees | secrets/chain.go:20-55 | Exists agrees with Get in the chain when it does in every member |
| SecretChain.Set | secrets/chain.go:37-42 | Accepted, the chain finds the value and answers for every other path as before; refused, nothing changes; an empty chain is read-only |
| PgRoles.RolesOverRuns | pgcluster/writer_detection.go:85-271 | Over every run a node is writer iff priority 0, reader iff priority at least 1, healthy only with a pool |
| PgRoles.StepPriority | pgcluster/writer_detection.go:107-194 | A priority changes only with the role: 0 for a new writer, 1 for a former one; other nodes stay |
| PgRoles.RoleStep | pgcluster/writer_detection.go:107-268 | The same whatever the node was; who is found in the role it has is left alone |
| PgRoles.PingMeans | pgcluster/health.go:65-104 | A checked node is healthy iff its ping is answered in time and loses its pool iff the error is permanent |
| PgRoles.ConnectMeans | pgcluster/health.go:53-61 | A node without a pool is connected, or failed |
| PgRoles.UnreachableNotHealthy | pgcluster/health.go:40-104 | Once checked, a node that answers nothing in time is not healthy again, whatever else happens |
| PgRoles.PromotionLeavesOneWriter | pgcluster/writer_detection.go:253-268 | After a run in which a promotion visits every node, others at work, the target is the one writer iff nobody has a contrary last word |
| PgRoles.PromotionAlone | pgcluster/writer_detection.go:253-268 | With only health checks around it a promotion leaves its target as the one writer |
| PgRoles.ProbeDuringPromotion | pgcluster/writer_detection.go:130-163 | An instance: a probe between two visits leaves two writers |
| PgRoles.LastWordDecides | pgcluster/writer_detection.go:85-271 | After any run a node is writer exactly as the last step that said anything of it said |
| PgRoles.WriterKept | pgcluster/writer_detection.go:85-271 | From one writer a whole run leaves that one alone iff the last word on every node agrees with it |
| PgRoles.WritersAfterQuery | pgcluster/writer_detection.go:107-124 | From one writer a query leaves one iff it confirms what was known of its node; else two, or none |
| PgRoles.WritersAfterProbe | pgcluster/writer_detection.go:130-163 | From one writer a probe leaves one iff the writer accepted it, else two |
| PgRoles.ProbeLeavesTwoWriters | pgcluster/writer_detection.go:130-163 | An instance, from the initial state |
| PgRoles.WritersAfterDns | pgcluster/writer_detection.go:166-194 | After a run in which DNS detection visits every node the writers are the nodes at the address and the old writers without one, iff nobody has a contrary last word |
| PgRoles.ResolutionAlone | pgcluster/writer_detection.go:166-194 | With only health checks around it, the nodes at the address become writers and no other node with an address |
| PgRoles.OpenExactly | pgcluster/manager.go:245-257 | The pool is opened by the first attempt that succeeds, if every backoff before it gets a wait; the loop panics in the first that gets none, and else gives up |
| PgCluster.DatabaseNode.OpenPool | pgcluster/manager.go:245-257 | The retry loop does what that lemma is about |
| PgCluster.DatabaseNode.ConnectTo | pgcluster/manager.go:259-291 | Connecting sets health and pool together; failure keeps the old pool |
| PgCluster.DatabaseNode.CheckHealth | pgcluster/health.go:40-104 | The health transition |
| PgCluster.ClusterManager.InitializeNodes | pgcluster/manager.go:182-226 | Writer at priority 0, readers at 1, 2, ...; fails iff none is healthy |
| PgCluster.ClusterManager.SetWriterNode | pgcluster/writer_detection.go:235-271 | Visits the nodes one by one for the first node of that name, others at work in between; an unknown name changes nothing |
| PgCluster.ClusterManager.UpdateWriterByIP | pgcluster/writer_detection.go:166-194 | Visits the nodes one by one, each following its address, others at work in between; the role invariant is kept |
| PgCluster.ClusterManager.QueryAnswered | pgcluster/writer_detection.go:107-124 | The role update of a detection query |
| PgCluster.ClusterManager.ProbeSucceeded | pgcluster/writer_detection.go:152-160 | The role update of a probe |
| PgCluster.ClusterManager.CheckNodeHealth | pgcluster/health.go:40-104 | A health check keeps the role invariant and touches one node |
| PgReaders.SortOrderSorts | pgcluster/manager.go:416-423 | The exchange sort is a permutation and puts the priorities in order |
| PgReaders.SortedOrderStays | pgcluster/manager.go:416-423 | Priorities in order, equal ones too, leave the configuration order |
| PgCluster.SortByPriority | pgcluster/manager.go:416-423 | The loops arrange the array in that one order, which priorities alone determine |
| PgReaders.ReaderOrderIsSorted | pgcluster/manager.go:404-426 | Exactly the eligible nodes, each once, sorted by priority |
| PgCluster.ClusterManager.GetHealthyReaders | pgcluster/manager.go:404-426 | The method returns the nodes in that order |
| PgReaders.ServesReadable | pgcluster/manager.go:353-374 | Whatever the strategy, the node that serves is eligible |
| PgReaders.PriorityPicksWriter | pgcluster/manager.go:359-361 | No eligible node has a smaller priority number than the one served, and a writer serves whenever one is eligible |
| PgReaders.LeastServes | pgcluster/manager.go:363-364 | Under least connections an eligible node of least read count serves |
| PgReaders.AnyReaderDrawn | pgcluster/manager.go:356-357 | At random any eligible node may be drawn, without a ticket |
| PgReaders.ReadsFair | pgcluster/manager.go:366-374 | While no node changes, m round-robin reads raise the count of each of the n eligible nodes by floor(m/n) or ceil(m/n), and of no other |
| PgReaders.InterleavedReadsFair | pgcluster/manager.go:366-374 | The same when callers interleave between drawing a ticket and raising the count of its node |
| PgReaders.LeastReadsFair | pgcluster/manager.go:363-374 | While no node changes, reads by least connections keep the gap within max(1, initial gap) |
| PgCluster.ClusterManager.IsCircuitOpen | pgcluster/manager.go:475-488 | Refuses until more than the timeout has passed, then closes |
| PgCluster.ClusterManager.OpenCircuitBreaker | pgcluster/manager.go:491-497 | Opens at now, keeping the time of an open circuit |
| PgCluster.ClusterManager.GetWriter | pgcluster/manager.go:306-330 | Serves the first healthy writer iff the circuit lets it and there is one; otherwise opens the circuit |
| PgCluster.ClusterManager.GetReader | pgcluster/manager.go:336-375 | With readers found it moves the counters by the step the run theorems are about; without, the fallback serves iff the circuit still lets it and a writer has become healthy meanwhile |
| PgCluster.ClusterManager.GetReaderUndisturbed | pgcluster/manager.go:336-375 | With nobody at work in between it serves iff the circuit lets it and some node is eligible, and a failed fallback leaves the circuit open |
| PgCluster.ClusterManager.SelectLeastConnectedReader | pgcluster/manager.go:429-446 | The first node of least read count |
| Balancing.NodesFair | rediscluster/adapter.go:272-277 | Any m consecutive tickets give each of the n nodes of an order floor(m/n) or ceil(m/n) turns, and no other node any |
| RedisNodes.SelectionsFair | rediscluster/adapter.go:253-278 | While no node changes, m selections by ticket pick each of the n usable nodes floor(m/n) or ceil(m/n) times, and no other |
| RedisNodes.KeyAffinity | rediscluster/adapter.go:259-271 | A key stays with its node while the usable nodes are the same, and takes no ticket |
| RedisNodes.AnyNodePicked | rediscluster/adapter.go:259-271 | Any usable node may be drawn, and is the node of some key |
| AmqpNodes.SelectionsFair | amqpcluster/adapter.go:211-235 | The same for the healthy nodes of the RabbitMQ cluster |
| AmqpNodes.KeyAffinity | amqpcluster/adapter.go:211-235 | The same for RabbitMQ |
| AmqpNodes.AnyNodePicked | amqpcluster/adapter.go:211-235 | The same for RabbitMQ |
| AmqpNodes.AskingMeans | amqpcluster/adapter.go:360-382 | When a node takes a message, and what a rejection and a missing channel do to it |
| Balancing.InterleavedNodesFair | rediscluster/adapter.go:272-277 | Callers interleaving between drawing a ticket and using it, the nodes' own counters grow by floor(m/n) or ceil(m/n) |
| Balancing.GapNeverGrows | pgcluster/manager.go:429-446 | Under least connections the gap never exceeds max(1, initial gap) |
| Balancing.LeastConnectionsFair | pgcluster/manager.go:429-446 | From equal counts it gives each node floor(m/n) or ceil(m/n) |
| Backoff.BackoffRange | rediscluster/adapter.go:399-407 | For every attempt, base and cap the wait is in [b, b + b/4), b the wrapped product capped, and the draw panics iff the wrapped product or the cap is below 4 |
| Backoff.BackoffWithoutOverflow | rediscluster/adapter.go:399-407 | Below 63 bits b is min(base * 2^attempt, max) |
| Backoff.DefaultsPanic | rediscluster/adapter.go:399-407 | With the default base and cap attempts up to 33 get a wait and attempt 34 panics |
| Backoff.BackoffCapped | pgcluster/manager.go:295-303 | Whatever overflows, a wait stays below the cap and a quarter |
| Backoff.BackoffGrows | pgcluster/manager.go:295-303 | Below the cap every wait exceeds the one before, whatever the draws |
| Backoff.HugeAttemptPanics | rediscluster/adapter.go:399-407 | From attempt 64 on every call panics |
| RedisNodes.OutsideKeepsSound | rediscluster/health.go:42-114 | Over any steps healthy implies a client and degraded implies the error threshold |
| RedisNodes.ExecuteKeepsSound | rediscluster/adapter.go:306-396 | A whole retry call, disturbed at will, keeps that invariant |
| RedisNodes.CountersOnlyGrow | rediscluster/health.go:71-109 | Counters fall only when a failed node answers and starts over healthy with none |
| RedisNodes.DegradedRecovers | rediscluster/health.go:96-104 | Over any run of answered pings a degraded node is healthy again at some point iff some ping outlasted the breaker timeout |
| RedisNodes.AnswerRecovers | rediscluster/health.go:96-104 | One answered ping does it iff it outlasted the timeout, and otherwise changes nothing |
| RedisNodes.FailedPing | rediscluster/health.go:65-91 | A node whose ping fails is usable afterwards iff reconnecting succeeded; else failed and without a client |
| RedisNodes.AnsweredPing | rediscluster/health.go:92-109 | An answer brings a failed node back without errors and leaves a healthy one alone |
| RedisNodes.Connecting | rediscluster/adapter.go:171-231 | What connecting does to state, client and error count |
| RedisNodes.DeadNodeNotSelected | rediscluster/health.go:42-114 | Once checked, a node whose server answers nothing is never picked, whatever else happens |
| RedisNodes.ErrorDegrades | rediscluster/adapter.go:385-396 | A healthy node is degraded iff its errors reach the threshold |
| RedisNodes.AtMostOncePerNode | rediscluster/adapter.go:306-362 | No node is tried twice, the operation runs at most once for each, and at most MaxRetries + 1 nodes are tried |
| RedisNodes.RunsAreCounted | rediscluster/adapter.go:328-342 | Whatever others do, runs equal what the call adds to the counters, plus one for a cache miss, less the attempts that found the client gone |
| RedisNodes.FailingCallTriesAll | rediscluster/adapter.go:253-362 | With tickets, and as long as one more error degrades no node, a failing call tries min(n, MaxRetries + 1) distinct nodes iff every backoff on the way gets a wait; else it panics in the first that gets none |
| RedisNodes.FailingCallByDefault | rediscluster/adapter.go:306-362 | With the default base and cap that is so iff n or MaxRetries is at most 34; else it panics after 35 nodes |
| RedisNodes.CallEnds | rediscluster/adapter.go:315-362 | A call gives up iff none of the attempts 0 to MaxRetries ends it, and what ends one is its result |
| RedisNodes.AttemptEnds | rediscluster/adapter.go:317-358 | How an attempt ends a call, case by case |
| RedisNodes.AttemptCounts | rediscluster/adapter.go:323-346 | What an attempt counts, on which node |
| RedisNodes.AnsweredCallSucceeds | rediscluster/adapter.go:306-362 | A call that reaches, up to attempt MaxRetries, an untried usable node that answers succeeds |
| RedisCluster.RedisNode.ConnectTo | rediscluster/adapter.go:171-231 | The connection step |
| RedisCluster.RedisNode.CheckHealth | rediscluster/health.go:42-114 | The health transition |
| RedisCluster.RedisNode.CheckDegradation | rediscluster/adapter.go:385-396 | The degradation step |
| RedisCluster.ClusterAdapter.SelectNode | rediscluster/adapter.go:253-294 | Picks a healthy node with a client by strategy, none iff there is none |
| RedisCluster.ClusterAdapter.MarkNodeFailed | rediscluster/adapter.go:475-488 | Fails the first node of that URL and no other |
| RedisCluster.ClusterAdapter.ExecuteWithRetry | rediscluster/adapter.go:306-382 | The loop over node objects, other goroutines at work, does the rounds the theorems are about |
| AmqpNodes.PublishFailure | amqpcluster/adapter.go:337-382 | Publish fails iff every node healthy on entry refuses; each is then degraded or has no channel |
| AmqpNodes.PublishSuccess | amqpcluster/adapter.go:337-382 | It succeeds through exactly one node, whose counter alone goes up |
| AmqpCluster.Node.PublishTo | amqpcluster/adapter.go:360-382 | A rejection counts an error and degrades a healthy node |
| AmqpCluster.ClusterAdapter.SelectNodeForPublish | amqpcluster/adapter.go:211-235 | Picks a healthy node by strategy |
| AmqpCluster.ClusterAdapter.Publish | amqpcluster/adapter.go:337-357 | The method on node objects does what the two theorems describe |
| HttpBreaker.BreakerSummarises | httpclient/client.go:49-78 | Over every sequential run the breaker holds the exhausted calls since the last 2xx or 4xx and is not closed iff they reach max(1, limit) |
| HttpBreaker.RefusedExactly | httpclient/client.go:49-78 | A call is refused iff that count reached the limit and the last exhaustion is no older than the timeout |
| HttpBreaker.CountsUncleared | httpclient/client.go:65-78 | That count is the number of exhausted calls with no 2xx or 4xx after them |
| HttpBreaker.LoopExactly | httpclient/client.go:574-645 | An admitted call is answered by the first reply below 500, exhausted iff all MaxRetries + 1 replies are network errors or 500 and more, else cancelled; one request for each attempt |
| HttpBreaker.BreakerAfterCall | httpclient/client.go:612-645 | 2xx and 4xx close the breaker, exhaustion counts and may open it, all else leaves it |
| HttpBreaker.StaysHalfOpen | httpclient/client.go:49-63 | A call let through that proves nothing leaves the breaker half open |
| HttpBreaker.NextWaitTruncates | httpclient/client.go:594-598 | With any multiplier the next wait is the product without its fraction, capped |
| HttpBreaker.NoRequestWhileOpen | httpclient/client.go:563-645 | No request goes out within the timeout while not closed, and none sends more than MaxRetries + 1 |
| HttpBreaker.ExhaustedReopens | httpclient/client.go:72-78 | One exhausted call at the limit opens the breaker again |
| HttpBreaker.WaitClosedForm | httpclient/client.go:586-598 | With a whole multiplier m the k-th wait is min(initial * m^k, max) |
| HttpBreaker.CircuitBreaker.CanExecute | httpclient/client.go:49-63 | The admission step |
| HttpBreaker.CircuitBreaker.RecordFailure | httpclient/client.go:72-78 | The failure step |
| HttpBreaker.Client.Do | httpclient/client.go:563-645 | The retry loop, its outcome, requests and waits; it sends at most MaxRetries + 1 requests, and exactly so many when exhausted |
| Tracing.TraceparentRoundTrip | httpclient/client.go:322-341 | Parsing inverts rendering for valid identifiers (section 3.2.2 of W3C Trace Context) and rejects what invalid ones render |
| Tracing.TraceparentText | httpclient/client.go:322-330 | Valid identifiers are rendered as version 00, sampled; others not at all |
| Tracing.ParseAccepts | httpclient/client.go:332-341 | Exactly the values with a two-character version, valid identifiers and a further field parse |
| Tracing.ChainRoundTrip | httpclient/client.go:312-314 | A service chain survives its header iff no name holds the arrow and it is not one empty name |
| Tracing.HopKeepsTrace | httpclient/client.go:257-391 | The callee sees the same trace; its parent is the caller's span, or with identifiers no traceparent carries the span the caller worked under |
| Tracing.ForeignRequest | httpclient/client.go:365-391 | No headers start another trace; a traceparent alone is continued under a fresh span |
| Tracing.HeadersRoundTrip | httpclient/client.go:300-391 | Headers bring a context across as it is, but for the parent |
| Tracing.TraceOverHops | httpclient/client.go:257-391 | Over any number of hops, from any proper chain, the trace stays and the chain grows by the callers in order |
| Text.SplitJoin | httpclient/client.go:385-388 | Splitting undoes joining when no part holds the separator |
| Text.JoinSplit | httpclient/client.go:332-333 | Joining undoes splitting, always |

## Left out

- UTF-8: strings are sequences of Unicode characters and the canonical text is a string; its byte encoding, one fixed code per character, and the replacement of invalid UTF-8 are not part of this model.
- Numbers are tokens over `[0-9+-.eE]`; conversion to float64 and back is a parameter, assumed only to be stable on what it printed.
- Event data enters as its JSON tree: Go values that encoding/json cannot marshal, cycles, and its limit on nesting depth are not part of this model. The parser reads what the printer prints, not blanks or surrogate pairs.
- HMAC-SHA256 and base64 are one function of key and text, assumed injective in both; that HMAC pads a short key with zero bytes, so that keys differing only in trailing zeros sign alike, and hashes one longer than a block, is not modelled. The default configuration read from the environment is not part of this model.
- RFC 3339 text of times: the wire keeps instants exactly.
- RateLimiting.RateLimiter.IsAllowed: the retry-after number, metrics and the fail-open HTTP wrapper are not modelled; one Redis store and one clock are assumed, and durations below a millisecond are not rounded.
- SecretCache.CacheTransparent: a write that takes effect although Set reports an error counts as a rotation from outside.
- Locks, background tickers, shutdown and logging: a state change under a lock is one step. The nested locking in the health checks is not modelled, so nothing is claimed about progress of reconnection.
- PgCluster.DatabaseNode.ConnectTo: what opening came to is given; a panic in `OpenPool` is not a step of the node.
- PgCluster.ClusterManager.GetReader: but for the steps between its two scans a read is one atomic call, and so are `Writer` and an AMQP publish. The overflow of the 64-bit ticket is not modelled; nor is it in the other adapters.
- `extractIPFromURL`: a node carries the address it yields.
- `updatePrimaryClient` and the clients outside `ExecuteWithRetry`; the lengths of the sleeps inside `ExecuteWithRetry` (`Backoff` has them).
- RabbitMQ health checks, declarations and subscriptions.
- HttpBreaker.Client.Do: requests are sequential, since the breaker takes no lock; float rounding of waits is not modelled.
- Trace contexts are values: `AddToServiceChain` appends to a slice that contexts of one trace may share, and that aliasing is not modelled. Header values are ASCII text and reach the peer as sent.
- Dispatching, broadcast, middleware other than the limiter, configuration loading, audit and the router adapters: only simple members.
