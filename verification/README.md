# Verified models of the webitel Go kit

This project models eight components of the kit in Dafny and proves what they promise: the
consistent-hash ring, the Consul watch protocol, three rate limiters, the ETag codec, the gRPC
connection pool, the CEL filter translation, the error chains, and the two-level cache with its
circuit breaker. Objects whose methods update fields are classes, loops are loops with
invariants, and pure code is functions; every method is proved against a function or a property,
and the lemmas say what that function or property means over all inputs and all runs.

| file | component |
|---|---|
| `Ring.dfy`, `Consistent.dfy` | hash ring as values; the ring object, `Set` runs and subset selection |
| `WatchProtocol.dfy` | registry, service sets, broadcasters and watchers as interleaved atomic steps |
| `Gcra.dfy`, `SlidingWindow.dfy`, `FixedWindow.dfy` | token-bucket script, sliding-log script, local fixed window |
| `Base32.dfy`, `Base32Value.dfy`, `Etag.dfy`, `Decimal.dfy` | varints and base32, tags and identifiers, decimal text |
| `Pool.dfy` | connection pool as an ownership ledger |
| `Filters.dfy` | CEL expressions, filter trees, evaluators and the translation |
| `ErrorChain.dfy` | values, causes, shims and searches |
| `Breaker.dfy`, `TwoLevelCache.dfy` | circuit breaker; L1/L2 cache behind it, over timed runs |
| `Wrappers.dfy`, `Collections.dfy` | optional values and results; sets and sequences |

What the code leaves to its surroundings is a parameter: hash functions, clocks, the outcome of
dialling and of calls to a backend, the moments at which Redis drops an expired key or a local
cache loses an entry, and the order in which goroutines take their steps.

Where a natural claim is false of the code, the code is modelled as it is and the exact boundary
is proved:

- `eltKey` joins index and name without a separator. Two names share a replica key, and with it a
  ring point under every hash, iff one is the other behind digits u such that the number written 1
  followed by u is below the number of replicas: with 20 any single digit (1.2.3.4 and 11.2.3.4),
  with the 160 of subset selection also 12 (1.2.3.4 and 121.2.3.4). The stability results therefore
  ask for collision-free points.
- `GetN` panics if min(n, count) is negative, since that is the capacity it allocates. Otherwise its
  loop exits iff min(n, count) lies between 1 and the number of owners or the key's walk does not
  start at index 0. So n = 0 can hang, and so can n >= 1 when the count exceeds the owners, as after
  adding one element twice; on the keys where it does not hang it then returns all owners.
- `Set` keeps the old value of a name that stays.
- A failed first lookup in `GetWatcher` leaves a set that is never polled and never removed, and
  nothing else does: a registered set is polled or waiting for its lookup iff that did not fail, and
  it can be removed iff none of its watchers failed.
- In the sliding window, requests with equal timestamps count once, and retry-after is too long
  exactly for a call that took the last place at the timestamp of an earlier one.
- The fixed window's retry-after is one instant short; limits of 2^32 and more act modulo 2^32.
- `EtagOrId` accepts any oid inside an ETag, zero and negative ones too.
- A conjunction inside `exists` is translated to a weaker filter: they agree on lists of at most one
  element, and for two equalities on every record only if the two are the same. `all` is translated
  to the filter of `exists`, and `!=` inside `exists` to what `all` would mean: each is right exactly
  on nonempty lists on which the body has one truth. Inside `exists`, null checks and nested
  comprehensions lose the loop variable's alias, and equalities about the record lose the list.
- A left operand that is not a path is not an error: its root is dropped and the column is what is
  selected above it. Filter and expression agree on every record iff the operand is a path, or the
  comparison is `like` against something that is no string.
- `Values` and `Lookup` disagree below a cause.
- A cache write is lost to L2, with success reported, exactly while the breaker is open and its
  timeout has not passed; such a write, like one that fails in L2, breaks the staleness bound. The
  type comment of the breaker presents this as graceful degradation; the code is followed.

The Go standard library, Redis, CEL and protobuf pieces the code calls are modelled by their
documented behaviour: `sort.Search` and `sort.Sort`, `strconv`, base32 (sections 3.2 and 6 of
RFC 4648, with Go's skipping of line breaks), Protocol Buffers varints, sorted sets with
`ZREMRANGEBYSCORE` and `EXPIRE`, and the expansion of the `exists` and `all` macros.

## Model

| member | source | states |
|---|---|---|
| `Ring.OwnerOrderStable` | infra/transport/internal/consistent/consistent.go:86-110 | for every key, the clockwise list of distinct owners with one member deleted is the list of the ring without that member |
| `Ring.AddDisturbsOne` | infra/transport/internal/consistent/consistent.go:86-93 | adding a new name to a collision-free ring: for every key and n, the first n owners other than the newcomer keep their order and at most one is displaced |
| `Ring.RemoveDisturbsOne` | infra/transport/internal/consistent/consistent.go:103-110 | removing a member of a collision-free ring, likewise, in the other direction |
| `Ring.TopStable` | infra/transport/internal/consistent/consistent.go:203-243 | the n nearest owners with and without one member differ by that member and at most one displaced owner |
| `Ring.GetMovesOnlyToNew` | infra/transport/internal/consistent/consistent.go:149-160 | the nearest owner of a key changes only to the new member |
| `Ring.RotationIsWalk` | infra/transport/internal/consistent/consistent.go:162-171 | reading the sorted index from the search result, wrapping once, is the clockwise order of the points by distance from the key |
| `Ring.WalkUnique` | infra/transport/internal/consistent/consistent.go:267-278 | a set of points has one clockwise enumeration, so the sorted index is determined by the circle |
| `Ring.OwnersFromComplete` | infra/transport/internal/consistent/consistent.go:203-243 | from any start the walk meets every owner exactly once |
| `Ring.RingDeterminedByMembers` | infra/transport/internal/consistent/consistent.go:114-136 | without collisions the circle depends only on the members, not on how they came |
| `Ring.EveryMemberOwns` | infra/transport/internal/consistent/consistent.go:86-93 | if every name has a replica point shared with no other name, every member owns a point of the ring |
| `Ring.CollisionFreeOwnPoints` | infra/transport/internal/consistent/consistent.go:86-93 | collision-free names have such points |
| `Ring.JoinExtends` | infra/transport/internal/consistent/consistent.go:86-93 | add is an extension by points of the new member only, undone by deleting those points |
| `Ring.LeaveRestores` | infra/transport/internal/consistent/consistent.go:103-110 | remove gives the ring of the other members, which the removed one extends |
| `Ring.SharedKeysExactly` | infra/transport/internal/consistent/consistent.go:73-76 | two different names share a replica key with indices below the replica count iff one is the other behind decimal digits u such that the number written 1 followed by u is below the replica count |
| `Ring.CollisionFreeExactly` | infra/transport/internal/consistent/consistent.go:73-76 | a set of names is collision-free only if no name is another behind such digits, and, for a hash without collisions on replica keys, exactly then |
| `Ring.DigitPrefixCollides` | infra/transport/internal/consistent/consistent.go:73-76 | a name behind digits shares a key with it iff the digits are short enough for the replica count, and then the two collide under every hash function |
| `Ring.ReplicaCounts` | infra/transport/internal/consistent/consistent.go:58-76 | with 20 replicas exactly the one-digit prefixes collide; with 160 the prefix 12 does too |
| `ConsistentHash.Consistent.constructor` | infra/transport/internal/consistent/consistent.go:64-70 | an empty ring: index, count and members agree |
| `ConsistentHash.Consistent.UpdateSortedHashes` | infra/transport/internal/consistent/consistent.go:267-278 | the index is strictly increasing and holds exactly the circle's keys |
| `ConsistentHash.Consistent.Add` | infra/transport/internal/consistent/consistent.go:79-93 | new circle, members and count; coherence kept; the count stays exact iff the name was new |
| `ConsistentHash.Consistent.Remove` | infra/transport/internal/consistent/consistent.go:96-110 | new circle, members and count; coherence kept; the count stays exact iff the name was present; no other member loses a point if names do not collide |
| `ConsistentHash.Consistent.Set` | infra/transport/internal/consistent/consistent.go:114-136 | members become the offered names, a name that stays keeps its old value, the circle is the old one without the points of those who left and with the newcomers joined in order; an exact count stays exact, a whole ring stays whole if nobody leaves or the present names do not collide |
| `ConsistentHash.Consistent.Search` | infra/transport/internal/consistent/consistent.go:162-171 | first index above the key, or 0 |
| `ConsistentHash.Consistent.Get` | infra/transport/internal/consistent/consistent.go:149-160 | the owner of the lowest point above the key's hash, or of the lowest point of all; that is the first owner clockwise; the empty-circle error on an empty circle |
| `ConsistentHash.Collect` | infra/transport/internal/consistent/consistent.go:216-242 | wherever the loop of GetN exits, it returns what its step machine leaves with: the wanted prefix of the owners met, or all of them |
| `ConsistentHash.Consistent.GetN` | infra/transport/internal/consistent/consistent.go:203-243 | for every n and count for which the source's loop ends: the empty-circle error, a panic for a negative min(n, count), else the first min(n, count) owners clockwise, or all owners if that number is 0 or too large |
| `ConsistentHash.NearestAreDistinct` | infra/transport/internal/consistent/consistent.go:203-243 | those answers are pairwise distinct owners of the ring, min(n, owners) of them |
| `ConsistentHash.LoopExits` | infra/transport/internal/consistent/consistent.go:218-242 | the loop as a step machine: it exits iff the wanted number is between 1 and the number of owners or the walk does not start at index 0, and then with the wanted owners or, ended by its guard, with all of them |
| `ConsistentHash.GetNInRange` | infra/transport/internal/consistent/consistent.go:203-243 | on a nonempty whole ring with an exact count whose members have points of their own, for n >= 1 and every key, GetN ends with min(n, count) distinct members, led by the answer of Get |
| `ConsistentHash.EndsExactly` | infra/transport/internal/consistent/consistent.go:203-243 | the same in terms of the key: it hangs iff the wanted number is out of range and the key is below all points or not below any |
| `ConsistentHash.SomeKeyHangs` | infra/transport/internal/consistent/consistent.go:203-243 | under every hash function a nonempty ring has a key for which GetN hangs when asked for 0 members or counting more members than own points |
| `ConsistentHash.AddTwice` | infra/transport/internal/consistent/consistent.go:79-93 | adding one element twice makes the count 2 with one owner, and GetN(key, 2) then hangs for some key |
| `ConsistentHash.SetHistory` | infra/transport/internal/consistent/consistent.go:114-136 | after any sequence of Set calls the members are those of the last offer and index and count are exact; without collisions the ring is the ring of that offer |
| `ConsistentHash.Subset` | infra/transport/internal/subset/subset.go:5-24 | the input if it is short enough or empty, a panic for a negative number, else the first min(num, owners) owners of the ring of the input (all of them for 0), collisions included, for every input on which the source ends |
| `ConsistentHash.SubsetSelects` | infra/transport/internal/subset/subset.go:5-24 | for every positive number, with a ring point of its own for each name, it ends with instances of the input under min(num, names) names; chosen ones are distinct and nearest first |
| `ConsistentHash.SubsetStable` | infra/transport/internal/subset/subset.go:5-24 | the same instances in any order or repetition give the same outcome, hanging included |
| `WatchProtocol.StepKeeps` | infra/discovery/consul/registry.go:225-270 | every atomic step of registering, broadcasting, reading and stopping keeps the protocol's invariant |
| `WatchProtocol.NoLostUpdate` | infra/discovery/consul/service.go:30-41 | in every reachable state a watcher with an empty mailbox, no read in flight and no signal due has read the newest list |
| `WatchProtocol.DeliversLastStored` | infra/discovery/consul/service.go:30-41 | after a store, until the next one, every watcher at rest has read exactly that list |
| `WatchProtocol.CatchUp` | infra/discovery/consul/watcher.go:21-35 | a registered watcher can always reach the newest list within four steps of broadcaster and reader |
| `WatchProtocol.SignalAll` | infra/discovery/consul/service.go:35-40 | the signalling loop ends with exactly the pending mailboxes filled and nothing else changed |
| `WatchProtocol.BroadcastAlone` | infra/discovery/consul/service.go:30-41 | broadcast runs to its end from every reachable state: list stored, exactly the mailboxes of the listed watchers filled, nothing else changed |
| `WatchProtocol.StoreDue` | infra/discovery/consul/service.go:31-32 | storing a list makes exactly the watchers of the set due for a signal |
| `WatchProtocol.LockDue` | infra/discovery/consul/service.go:32-33 | taking the read lock leaves exactly the listed watchers due |
| `WatchProtocol.SignalDue` | infra/discovery/consul/service.go:35-40 | a signal moves one watcher from due to told, and nobody else |
| `WatchProtocol.LoadKeeps` | infra/discovery/consul/registry.go:255-255 | looking at the list after joining keeps the invariant, and leaves the watcher up to date or with a self-signal to come |
| `WatchProtocol.SelfSignalKeeps` | infra/discovery/consul/registry.go:256-261 | after the self-signal the watcher has a full mailbox, a read in flight, the newest list or a signal due; the invariant is kept |
| `WatchProtocol.WakeUpFindsList` | infra/discovery/consul/watcher.go:21-35 | in every reachable state a watcher with a full mailbox or a read in flight belongs to a set with a stored list, so Next blocks until there is one |
| `WatchProtocol.ReadReturnsNewest` | infra/discovery/consul/watcher.go:21-35 | a read returns the newest stored list, which is never empty |
| `WatchProtocol.WakesOncePerSignal` | infra/discovery/consul/watcher.go:21-35 | in every run a watcher reads at most once for each signal sent to it |
| `WatchProtocol.AnyListDelivered` | infra/discovery/consul/service.go:30-41 | from every reachable state in which a set is polled, any list can be stored and brought to a handed-out watcher |
| `WatchProtocol.LifeCycle` | infra/discovery/consul/registry.go:379-390 | in every reachable state a set is registered iff its count is positive iff it is not cancelled, and the count is the number of holding watchers |
| `WatchProtocol.TryDeleteDropsOwnSetOnly` | infra/discovery/consul/registry.go:379-390 | giving back a reference never removes another set of the same name, and removes its own only as its last holder |
| `WatchProtocol.BumpRefCounted` | infra/discovery/consul/registry.go:225-242 | find-or-create under the registry lock keeps counts and registration in step |
| `WatchProtocol.FailedLookupSticks` | infra/discovery/consul/registry.go:263-267 | after a failed first lookup the set stays registered for good and nothing is ever stored on it |
| `WatchProtocol.FirstLookupCanFail` | infra/discovery/consul/registry.go:225-267 | from every reachable state a caller asking for an unregistered name can get there |
| `WatchProtocol.NeglectedOnlyByFailure` | infra/discovery/consul/registry.go:225-270 | in every reachable state a registered set is polled, or its creator has still to finish its lookup, iff that lookup did not fail |
| `WatchProtocol.RemovableExactly` | infra/discovery/consul/registry.go:379-390 | from every reachable state some run takes a set out of the registry iff no watcher of it is left with a failed lookup |
| `WatchProtocol.RemovedGoesQuiet` | infra/discovery/consul/registry.go:379-390 | the poll loop of a removed set can end, and afterwards in every run the set is never polled and nothing is stored on it |
| `Gcra.Key.Run` | infra/ratelimit/zone/redis/token_bucket.lua:10-62 | the script line by line equals its functional form on the stored key |
| `Gcra.RateGuarantee` | infra/ratelimit/zone/redis/token_bucket.lua:10-62 | over every run and every closed interval the total allowed cost is at most burst + length * rate / period |
| `Gcra.RefinesTokenBucket` | infra/ratelimit/zone/redis/token_bucket.lua:10-55 | every run answers as a continuous token bucket that starts full and refills with rate tokens per period: same verdicts, same remaining |
| `Gcra.ExpiryUnobservable` | infra/ratelimit/zone/redis/token_bucket.lua:52-55 | dropping expired keys at any time changes no reply of any run |
| `Gcra.RetryExact` | infra/ratelimit/zone/redis/token_bucket.lua:41-50 | a denied cost within the burst is allowed exactly from date + retry_after on |
| `Gcra.BeyondBurstNever` | infra/ratelimit/zone/redis/token_bucket.lua:35-50 | a cost beyond the burst is denied at every time |
| `Gcra.ResetExact` | infra/ratelimit/zone/redis/token_bucket.lua:42-52 | with no further request the bucket is full exactly from date + reset_after on |
| `Gcra.SpentBound` | infra/ratelimit/zone/redis/token_bucket.lua:33-55 | from any stored state the spending within an interval is bounded by what the stored arrival time leaves |
| `SlidingWindow.Key.Run` | infra/ratelimit/zone/redis/sliding_window.lua:4-63 | the script with its loop equals its functional form on the set, the expiry and the reply |
| `SlidingWindow.StepExact` | infra/ratelimit/zone/redis/sliding_window.lua:17-51 | a request is accepted iff fewer than max distinct timestamps are in its window, and the set stays the window |
| `SlidingWindow.RunExact` | infra/ratelimit/zone/redis/sliding_window.lua:17-51 | in every run the set equals the accepted timestamps of the last per seconds, drops included, and never exceeds max |
| `SlidingWindow.AcceptsByCount` | infra/ratelimit/zone/redis/sliding_window.lua:32-51 | with increasing times a request is accepted iff fewer than max requests were accepted in the window |
| `SlidingWindow.LimitHolds` | infra/ratelimit/zone/redis/sliding_window.lua:32-51 | with increasing times any max + 1 consecutive accepted requests span at least per seconds |
| `SlidingWindow.DropUnobservable` | infra/ratelimit/zone/redis/sliding_window.lua:51-51 | dropping the key after its EXPIRE changes neither reply nor later state |
| `SlidingWindow.SameTimestampEscapes` | infra/ratelimit/zone/redis/sliding_window.lua:48-50 | with a limit of two, three requests at one timestamp are all accepted |
| `SlidingWindow.RetryExact` | infra/ratelimit/zone/redis/sliding_window.lua:33-56 | after a denial, or after the last free place was taken at a fresh timestamp, the next request is accepted exactly from date + retry_after on |
| `SlidingWindow.RetryAfterRun` | infra/ratelimit/zone/redis/sliding_window.lua:17-63 | after every legal run and every further call, retry_after is exact for whatever call comes next iff the further call did not come at an accepted timestamp with one place left in the window |
| `SlidingWindow.ResetAfterRun` | infra/ratelimit/zone/redis/sliding_window.lua:33-63 | after every legal run and every further call the oldest stamp stays in the window until date + reset_after and leaves it then |
| `SlidingWindow.NoWindowNoLimit` | infra/ratelimit/zone/redis/sliding_window.lua:47-51 | without a window every call is accepted and leaves no key |
| `SlidingWindow.SharedLastPlaceHappens` | infra/ratelimit/zone/redis/sliding_window.lua:48-56 | two calls at one time with a limit of two get there |
| `SlidingWindow.RemainingExact` | infra/ratelimit/zone/redis/sliding_window.lua:32-63 | remaining counts the places left after an accepted request |
| `FixedWindow.Limiter.Take` | infra/ratelimit/zone/local/fixed_window.go:48-75 | takeN on the fields equals its functional form, truncations included |
| `FixedWindow.SoftTake` | infra/ratelimit/zone/local/fixed_window.go:58-74 | without hard, a cost beyond the rest is granted in part and counted in full; counted equals granted iff the cost fits or nothing is left, and otherwise the reported rest wraps around |
| `FixedWindow.Limiter.Request` | infra/ratelimit/zone/local/fixed_window.go:77-88 | requestAt on the fields equals its functional form |
| `FixedWindow.RequestEffect` | infra/ratelimit/zone/local/fixed_window.go:48-88 | all or nothing: granted iff it fits the effective limit, nothing counted and nothing remaining when denied, no wrap-around, remaining, retry and reset exact |
| `FixedWindow.WindowBound` | infra/ratelimit/zone/local/fixed_window.go:53-74 | one window admits at most the limit |
| `FixedWindow.SpanBound` | infra/ratelimit/zone/local/fixed_window.go:53-74 | any closed span as long as the window admits at most twice the limit, over every run with non-decreasing dates |
| `FixedWindow.RetryStrict` | infra/ratelimit/zone/local/fixed_window.go:53-57 | a denied request is granted only strictly after date + retry_after, not at that instant |
| `Varint.RoundTrip` | pkg/etag/etag.go:165-170 | a varint of any 64-bit value is read back as itself, with its length, in front of any bytes |
| `Varint.EncodeIsLeb` | pkg/etag/etag.go:165-170 | the bytes written for a value hold it seven bits at a time, low ones first, each but the last marked, with no needless byte |
| `Varint.DecodesExactly` | pkg/etag/etag.go:183-190 | from any bytes, a first varint of at most ten bytes is read as the value it stands for, if that fits in 64 bits, and nothing else is read |
| `Varint.DecodeBounded` | pkg/etag/etag.go:183-190 | what is read fits in 64 bits |
| `Base32.RoundTrip` | pkg/etag/etag.go:197-201 | decoding the text of any byte sequence gives the bytes back |
| `Base32Value.DigitsNumber` | pkg/etag/etag.go:197-201 | the digits of any bytes: as many as the bits take, each whole group the number of its five bytes, highest first, the last group shifted by its padding |
| `Base32Value.PackNumber` | pkg/etag/etag.go:217-222 | any eight digits and the bytes read from them are the same 40-bit number |
| `Base32Value.LeftoverDropped` | pkg/etag/etag.go:217-222 | one, three or six digits left over are dropped without an error |
| `Base32.AlphabetRuns` | pkg/etag/etag.go:197-198 | the digit table is the ETag alphabet |
| `Base32.ForeignCharacter` | pkg/etag/etag.go:217-222 | text with a character outside the alphabet does not decode |
| `Etag.ConsumeTag` | pkg/etag/etag.go:178-195 | the loop reads the tag at the front of the bytes, or reports length 0 |
| `Etag.TagRoundTrip` | pkg/etag/etag.go:165-195 | reading back an appended tag gives the same tag for every type, oid and version, negative ones included |
| `Etag.TagLayout` | pkg/etag/etag.go:165-170 | an appended tag is read as version, type and oid in that order, whatever follows |
| `Etag.TrailingBytesRefused` | pkg/etag/etag.go:217-231 | a tag with bytes behind it does not decode |
| `Etag.ConversionsTruncate` | pkg/etag/etag.go:191-194 | the conversions of what was read take away multiples of their width |
| `Etag.EtagRoundTrip` | pkg/etag/etag.go:203-231 | encoding succeeds exactly on valid triples and decoding returns the same triple |
| `Etag.EncodeInjective` | pkg/etag/etag.go:203-215 | two triples never share an ETag |
| `Etag.IdRoundTrip` | pkg/etag/oid.go:9-30 | a formatted identifier is parsed back to the same oid |
| `Etag.OidsArePositive` | pkg/etag/oid.go:9-30 | identifiers are the positive 64-bit numbers in decimal, and only those |
| `Etag.LanguagesDisjoint` | pkg/etag/etag.go:271-288 | no text is both an ETag and a decimal identifier |
| `Etag.EtagOrIdRecovers` | pkg/etag/etag.go:271-288 | an encoded tag gives (oid, version) for its own type and an error for another; a formatted id gives (oid, no version) |
| `Etag.EtagBranchUnchecked` | pkg/etag/etag.go:271-278 | the ETag branch passes on any oid the bytes hold, zero and negative included; the id branch only positive ones |
| `Etag.LineBreakSkipped` | pkg/etag/etag.go:217-222 | decoding is not injective: line breaks anywhere are skipped |
| `Decimal.ParseFormatted` | pkg/etag/oid.go:15-29 | parsing the decimal text of a non-negative 64-bit number gives the number |
| `Decimal.ReadsExactly` | pkg/etag/oid.go:15-19 | digits, alone or behind one sign, are read as their value if it is within 64 bits, and nothing else is read |
| `Decimal.DigitsGrow` | pkg/etag/oid.go:9-30 | the ten digits stand for 0 to 9 in the order of their characters |
| `ConnectionPool.Pool.constructor` | infra/transport/gRPC/pool/pool.go:40-84 | capacity and init clamped; the slots one by one: connections used just now, then permissions to dial |
| `ConnectionPool.NewWithContext` | infra/transport/gRPC/pool/pool.go:62-84 | a pool iff every dial succeeds; at the first failure an error, with the number of open connections dropped |
| `ConnectionPool.Pool.Get` | infra/transport/gRPC/pool/pool.go:124-160 | the whole new state in each case: kept connection, idle one closed and redialled, failed dial put back, closed pool, given-up wait; a connection is handed out again iff no idle timeout is set or none has passed since its last use, and closed otherwise |
| `ConnectionPool.Pool.MarkUnhealthy` | infra/transport/gRPC/pool/pool.go:162-164 | marks the lease and keeps the books |
| `ConnectionPool.Pool.GiveBack` | infra/transport/gRPC/pool/pool.go:166-207 | the whole new state in each case; in an open pool the send always finds room, so the default arm is never taken |
| `ConnectionPool.Pool.Close` | infra/transport/gRPC/pool/pool.go:93-118 | afterwards exactly the leased connections are open |
| `ConnectionPool.Pool.CapacityBound` | infra/transport/gRPC/pool/pool.go:40-84 | live connections never exceed the capacity |
| `ConnectionPool.LiveBounded` | infra/transport/gRPC/pool/pool.go:93-207 | live connections are no more than slots and held leases |
| `ConnectionPool.Drive` | infra/transport/gRPC/pool/pool.go:93-207 | every run of calls with any outcomes keeps idle slots plus leases equal to the capacity and one holder per live connection; with an idle timeout every connection handed out had been dialled or given back no longer ago |
| `ConnectionPool.Pool.DrainedIsEmpty` | infra/transport/gRPC/pool/pool.go:93-207 | a closed pool with all leases back has no live connection |
| `ConnectionPool.CloseAndDrain` | infra/transport/gRPC/pool/pool.go:93-207 | closing the pool and returning every lease closes every connection |
| `Filters.TranslationSound` | pkg/filters/parse.go:10-94 | a translatable expression gets a filter that is never falser than it on any record, and equal unless && occurs inside an exists that ranges over two or more elements |
| `Filters.ParsesExactly` | pkg/filters/parse.go:10-94 | the translation succeeds exactly on the translatable expressions, a property of the expression alone, inside comprehensions and out |
| `Filters.ComparisonSound` | pkg/filters/parse.go:69-94 | a comparison of a path and its filter agree on every record |
| `Filters.NullSound` | pkg/filters/parse.go:120-137 | so do the null checks |
| `Filters.ComparisonMeaning` | pkg/filters/parse.go:188-213 | each comparison name is mapped to the comparison that means the same |
| `Filters.ExtractIsJoin` | pkg/filters/parse.go:145-166 | the extracted column splits back into the path, with the loop variable replaced by its parent |
| `Filters.SplitJoin` | pkg/filters/parse.go:145-166 | a dotted column determines its segments |
| `Filters.BodySound` | pkg/filters/comprehension.go:40-124 | the body of exists under its alias against the disjunction over the list: implied, and equal if it holds only disjunctions |
| `Filters.ExistsSound` | pkg/filters/comprehension.go:10-37 | the same for the whole comprehension |
| `Filters.ConjunctionInExists` | pkg/filters/comprehension.go:70-96 | the converse fails with &&: two elements may each satisfy one half |
| `Filters.ConjunctionAgreesOnlyIfSame` | pkg/filters/comprehension.go:70-96 | for two equalities joined by && the filter agrees with exists on every record iff the two are the same |
| `Filters.SplitDisagrees` | pkg/filters/comprehension.go:70-96 | for any two different equalities a record on which the filter is true and exists is not |
| `Filters.AllTranslatesAsExists` | pkg/filters/comprehension.go:30-35 | all is translated as exists; for bodies without && that agrees with all on a record iff the list is nonempty and the body has one truth on all its elements |
| `Filters.AllMistaken` | pkg/filters/comprehension.go:30-35 | on the list 1, 2 the expression all(x, x == 1) is false and its filter true |
| `Filters.InequalityInExists` | pkg/filters/comprehension.go:98-136 | x != c inside exists is translated to what all would mean; it is right iff the list is nonempty and the inequality has one truth on it |
| `Filters.InequalityMistaken` | pkg/filters/comprehension.go:98-136 | on the empty list and on 1, 2 the expression exists(x, x != 1) and its filter have opposite truths |
| `Filters.OuterFieldInExists` | pkg/filters/comprehension.go:98-124 | an equality about the record inside exists is translated without the list: right iff the list has an element or the equality is false |
| `Filters.NullCheckInExists` | pkg/filters/comprehension.go:62-63 | a null check inside exists asks about a field of the record named like the loop variable; with no such field the filter is Unknown, and agrees iff no element passes the check and some leaves it Unknown |
| `Filters.NullCheckMistaken` | pkg/filters/comprehension.go:62-63 | on a list that holds a null the expression exists(x, isnull(x)) is true and its filter Unknown |
| `Filters.NestedExistsRefused` | pkg/filters/comprehension.go:30-36 | a comprehension directly inside one is refused |
| `Filters.NestedExistsForgetsAlias` | pkg/filters/comprehension.go:48-49 | below a connective it is translated as if it stood alone, under no outer alias |
| `Filters.NestedInExists` | pkg/filters/comprehension.go:10-52 | for exists(x, b or r.exists(y, l == c)) with r below x, on a record without a field x: the inner filter is Unknown, and the exact condition for agreement |
| `Filters.NestedMistaken` | pkg/filters/comprehension.go:10-52 | a record on which such an expression is true and its filter Unknown |
| `Filters.RootDropped` | pkg/filters/parse.go:145-166 | for a left operand whose root is no identifier the column is the selected fields above the root, empty iff there are none, and no error is raised; the expression itself has no value |
| `Filters.ComparisonAgreesOnlyOnPaths` | pkg/filters/parse.go:69-94 | a comparison with any left operand is translated, and agrees with its filter on every record iff the operand is a path or it is like against a constant that is no string |
| `Filters.PlantedDisagrees` | pkg/filters/parse.go:69-94 | for every other comparison a record on which the expression is Unknown and the filter is not |
| `Filters.NullCheckAgreesOnlyOnPaths` | pkg/filters/parse.go:120-137 | a null check agrees with its filter on every record iff its operand is a path |
| `Filters.CallOperandDropped` | pkg/filters/parse.go:145-166 | f(x) == c gets the empty column, and f(x).g == c the column g |
| `ErrorChain.Unwrap` | pkg/errors/errors.go:112-141 | every unwrapping step strictly shrinks, so iteration terminates |
| `ErrorChain.UnwrapCause` | pkg/errors/errors.go:112-141 | the skipping loop computes that step |
| `ErrorChain.IsSees` | pkg/errors/errors.go:155-172 | errors.Is finds exactly the main-chain nodes and what the outermost cause finds |
| `ErrorChain.IsReaches` | pkg/errors/errors.go:155-172 | closed form: main chain, outermost cause, its outermost cause, and so on |
| `ErrorChain.OlderCauseHidden` | pkg/errors/errors.go:135-140 | a second cause hides the first from every search |
| `ErrorChain.CauseIsOutermost` | pkg/errors/werror.go:120-127 | Cause returns the outermost cause of the main chain |
| `ErrorChain.Lookup` | pkg/errors/werror.go:143-193 | the loop returns the outermost binding on the main chain, causes ignored |
| `ErrorChain.Values` | pkg/errors/werror.go:198-211 | the loop collects for each key the first binding met along Unwrap |
| `ErrorChain.ValuesReports` | pkg/errors/werror.go:198-211 | that is: bindings above the first cause, then those of that cause |
| `ErrorChain.ValuesAgreeWithLookup` | pkg/errors/werror.go:143-211 | Values and Lookup agree on a key iff there is no cause, or it is bound above it, or below it stands what the cause reports |
| `ErrorChain.ValueUnderCauseLost` | pkg/errors/werror.go:198-211 | a value set before a cause is lost to Values |
| `ErrorChain.Wrap` | pkg/errors/werror.go:48-63 | the last value per key and the last cause win, the main chain only grows, nil stays nil |
| `ErrorChain.ApplyEffect` | pkg/errors/wrapper.go:25-113 | what WithValue and WithCause add to a chain |
| `CircuitBreaker.Guard.Operate` | pkg/cache/circuitbreaker.go:54-137 | a guarded operation on the fields equals one step of the breaker |
| `CircuitBreaker.FailuresAreTrailing` | pkg/cache/circuitbreaker.go:71-83 | in every run the counter is the trailing run of inner failures, and the state is closed iff it is below the threshold |
| `CircuitBreaker.AdmittedExactly` | pkg/cache/circuitbreaker.go:54-83 | over every run, the next operation reaches the inner cache iff fewer than the threshold of last inner calls failed in a row, or the timeout has passed since the last of them was recorded |
| `CircuitBreaker.FailingBackendBound` | pkg/cache/circuitbreaker.go:54-83 | an all-failing stretch of length L makes at most threshold + L / timeout inner calls |
| `TwoLevelCache.MultiLevel.Get` | pkg/cache/multilevel.go:20-34 | the reply and the new L1 and breaker state in each case; what it returns was the L2 value of the key within the last L1 time to live |
| `TwoLevelCache.MultiLevel.Set` | pkg/cache/multilevel.go:36-41 | new L1, L2 and breaker state; the staleness bound is kept iff L1 is not written, or the breaker admits the L2 call and that succeeds, or L2 holds the value at this time anyway |
| `TwoLevelCache.MultiLevel.Delete` | pkg/cache/multilevel.go:50-55 | new L1, L2 and breaker state; the bound is kept for every outcome |
| `TwoLevelCache.Run` | pkg/cache/multilevel.go:20-55 | every run of cache and breaker ends in its functional state and log; if no write enters L1 and is then refused by the breaker or fails, every value served was in L2 within the last time to live |
| `TwoLevelCache.SkippedWriteServed` | pkg/cache/circuitbreaker.go:100-103 | a write made while the breaker is open and its timeout has not passed reports success, and the next read serves a value that L2 did not hold within the bound |
| `TwoLevelCache.OutageLosesBound` | pkg/cache/circuitbreaker.go:76-103 | from a new breaker, as many failing reads as the threshold bring that about |

## Left out

- WatchProtocol.StepKeeps: the protocol is a step function on a state value rather than methods on objects, because its properties are about interleavings inside the methods; pointer aliasing is not captured. Stop's check of its cancel field is one step.
- ConsistentHash.Consistent.GetN: is stated for the calls that end; EndsExactly says that the others do not.
- ConsistentHash.SubsetStable: asks for collision-free names, since a shared point goes to whoever joined last.
- Filters.TranslationSound: asks for path operands, and inside comprehensions for `exists` over a list whose paths meet no further list, with bodies of `==`, `&&` and `||`; single `!=`, null checks, equalities about the record and nested comprehensions in a body have their own lemmas. Names are nonempty and hold no dot. Null and kind mismatches are Unknown on both sides, and `like` is any predicate.
- TwoLevelCache.MultiLevel.Get: each operation is atomic and the L1 time to live is positive; a delay between reading L2 and refilling L1 would lengthen the bound by that delay.
- CircuitBreaker.FailingBackendBound: operations are atomic; under real concurrency a half-open breaker admits every caller.
- ConnectionPool.Pool.constructor: is the pool of a construction whose dials succeed; failing ones are in NewWithContext. Races between Close and calls in flight are not modelled.
- Gcra.Key.Run: times and amounts are real numbers; the rounding of doubles and the truncation of `remaining` to an integer reply are not modelled.
- SlidingWindow.RunExact: timestamps are non-negative (not before the script's epoch) and do not go back; entries below zero would never be pruned.
- ErrorChain.IsSees: errors that wrap several errors and foreign `Is`/`As` methods are not modelled; message text is not either.
- GetTwo, Members and the two hash functions of the ring; watcher contexts, service registration and the key-value watcher of the Consul client.
- The Redis fixed window, the local token bucket and the rate-limit routing: counters and wrappers over libraries.
- SetTTL of both caches, the loading cache, Ristretto, Redis and codecs; the ETag field helpers and multi-id input; size formatting.
- PostgreSQL pools, RabbitMQ, HTTP proxying, telemetry, configuration, profiling, generated code, interceptors and loggers.
