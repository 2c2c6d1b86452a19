# WireGuard UI: verified models

Dafny models of the stateful cores of the panel, with proofs. `dafny verify dfyconfig.toml`
checks all of them. Code that changes state in the original is a class or a method with loops
here, proved against a specification function; the theorems are about those functions, over every
input, every reachable state or every run.

**Addresses** (`IpBytes`, `IpAllocator`, `SubnetRanges`). Addresses are 4 or 16 bytes, as Go's
`net.IP` holds them; carry, masks, broadcast and containment are proved to be arithmetic on the
number the bytes denote (section 3.1 of RFC 4632, section 2.3 of RFC 4291). On that rest the
first-free search (least free address, and exactly when it stops), allocation checks, the pruning
of subnet ranges, and which suggested addresses are acceptable.

**Clients** (`ClientStore`, `TelegramIndex`). The client handlers as atomic steps on the stored
records and on the Telegram index, whose slices share no backing array and are filtered in place.
Over every run the index equals a query over the records, and allocations stay disjoint unless the
server addresses of the installation are of the one kind that allows a clash.

**Traffic** (`TrafficHistory`, `TrafficRing`, `TrafficSeries`, `TrafficResponse`, `TrafficCache`,
`TrafficSnapshot`, `TrafficTotals`, `TrafficReplay`, `PeerRanking`, `SharedMaps`). The 1440-slot ring
of 30-minute buckets, updated in place, against an unbounded list of samples: every bucket, bar, total
and peak of a response is the one the whole history gives. `TrafficResponse` says the same in
milliseconds, range by range, for times from 1970 on. Rates are reals. `SharedMaps` shows why the
per-bucket maps may be treated as values: no map is ever reachable from the cache and a snapshot.

**Users and sessions** (`UserState`, `UserSafety`, `SessionRevocation`, `UserDirectory`,
`SessionClock`). Stored users, the digest cache and every cookie ever issued. Cookies live in
browsers, so that set only grows, and a theorem about it covers every cookie somebody may still
hold. Handlers require a cookie the server signed; each states its own guard and effect.

**Configuration** (`PendingConf`, `WgPanel`). The canonical file, its side-car, the staging file and
the tunnel, with the outcome of every system call as an input, so that failures and crashes at any
file step are covered. The configuration in force is the side-car if there is one, else the
canonical file.

**Limiters** (`RateLimiter`, `FloodGate`) and **fingerprints** (`Fingerprint`, `Base64Url`). The origins
made from certificate fingerprints are decoded by section 5 of RFC 4648.

## Where a claim fails, and exactly when

- The ring loses samples when the clock goes back far enough: `TrafficRing.ReadExactIff` says a
  bucket is exact if and only if no later sample of another bucket took its slot;
  `TrafficRing.ClockSetBackLosesSamples` is an instance.
- `GetAllocatedIPs` fails on an unparsable server address, which the environment can supply
  unchecked, and both client handlers ignore the error. The check is sound exactly when the
  addresses all parse or already the first does not (`ClientStore.CheckSoundIff`);
  `ClientStore.ClashingRun` creates two clients with one address in every other case.
- Subnet ranges are pruned at startup only. After an interface edit a range may suggest an address
  that is refused: `SubnetRanges.SuggestionAcceptableIff`, `SubnetRanges.StaleRangeRefused`.
- A client enabled with an unparsable Telegram id, which the handlers refuse but the store accepts,
  leaves a stale index entry: `ClientStore.SaveKeepsIndexExactIff`.
- The first-free search in a network of prefix length 0 with nothing free runs for ever:
  `IpAllocator.SearchNeverStops`.
- `model/user.go:12` says suspension invalidates sessions by bumping the epoch. The code does not
  bump it, and enabling the account brings the old cookies back:
  `SessionRevocation.SuspensionIsReversible`.
- Revoking sessions acts on an account, not on a name. Every cookie accepted for the account before, and
  every one with its password hash, is rejected for ever (`SessionRevocation.RevokedForever`); every
  cookie under its name for as long as an account of that name exists without interruption
  (`SessionRevocation.StaleWhileNamed`). A cookie of another account that once had the name comes back
  when that account gets the name back: `SessionRevocation.RenamedBackRevives`.
- The removal of an old side-car ignores errors. When it fails, apply reports success and the
  restart promotes the old side-car over the new file: `PendingConf.ApplyMakesEffective`,
  `PendingConf.ShadowedRestart`.
- Apply truncates its target, so unlike promotion it is crash-safe only in the cases of
  `PendingConf.ApplyCrashSafeIff`, which leave out the ordinary one. An apply that fails may put an
  older configuration in force: `PendingConf.FailedApplyHarmlessIff`.
- The flood gate reads the wall clock. The clocks that keep grants apart are exactly those that, once
  past a waiting time, never read within it again: `FloodGate.KeepsApartIff`;
  `FloodGate.ClockJumpGrantsEarly` is an instance of another.

## What is taken as given

- The CRC-32 of a user snapshot is injective on the snapshot; a new bcrypt hash was never used
  before, and every account has its own.
- Generated client ids and keys are new to the store.
- Each handler is one atomic step; store writes succeed.
- The limiter's clock does not go back (Go's monotonic reading); the traffic theorems that say so
  need a wall clock that does not go back.
- `systemctl restart` loads the configured file. The unit is named after the base name of the
  configured path only (`util/wg_quick.go:77-83`), so this holds for files in the directory the
  unit reads.

## Model

| member | source | states |
|---|---|---|
| IpBytes.NumInjective | util/util.go:410-413 | addresses of one family are equal, byte for byte, exactly when they denote the same big-endian number |
| IpBytes.Inc | util/util.go:357-364 | the in-place increment leaves the byte string of the next address |
| IpBytes.IncrementedIsSuccessor | util/util.go:357-364 | that byte string denotes the number plus one, modulo 256^n |
| IpBytes.CarryChain | util/util.go:357-364 | where the carry stops, for every trailing run of 255 bytes |
| IpBytes.MaskedIsRoundedDown | util/util.go:407 | masking rounds the number down to a multiple of 2^(host bits), for every prefix length and both families |
| IpBytes.ContainsIffInRange | util/util.go:407 | bytewise membership in a network is an interval of numbers of the same family |
| IpBytes.FilledIsLast | util/util.go:374-376 | filling the host bits gives the last number of the interval |
| IpBytes.GetBroadcastIP | util/util.go:367-378 | the result is in the network and no address of the network is greater |
| IpBytes.ContainsCIDRIffSubset | util/util.go:110-114 | the comparison of prefix lengths plus one membership test decides inclusion of the two address sets, both ways |
| IpBytes.NestedMember | util/util.go:110-114 | an address of a contained network is in the containing one |
| IpAllocator.GetBroadcastAndNetworkAddrsLookup | util/util.go:381-395 | exactly the first and last addresses of the parsable interface networks |
| IpAllocator.NetworkIsBlock | util/util.go:374-407 | in numbers: a network is the block of 2^(host bits) addresses, beginning at a multiple of that size, that holds the given address, and its two ends are what the lookup collects |
| IpAllocator.SearchStep | util/util.go:407-419 | one increment skips no free address, and leaving the network means none is left |
| IpAllocator.GetAvailableIP | util/util.go:399-422 | the numerically least free address; an error exactly when the text is malformed or nothing is free; terminates |
| IpAllocator.SearchNeverStops | util/util.go:407-419 | for prefix length 0 with nothing free the search is still running after any number of steps, so the termination condition of GetAvailableIP is exact |
| IpAllocator.ValidateIPAllocation | util/util.go:426-462 | accepted exactly when every wanted entry is well-formed, not taken and in a server network; crashes exactly when, all entries before it passing, the scan for one meets an unparsable server entry first |
| IpAllocator.BlockedScan | util/util.go:445-451 | such a scan finds no network, whatever stands behind the unparsable entry |
| IpAllocator.ScanNetworks | util/util.go:444-451 | the inner scan finds a network, or crashes, exactly as stated |
| SubnetRanges.ParseSubnetRanges | util/config.go:95-135 | no network survives under two names or twice, nothing is invented, with distinct names nothing is lost, and the order list names the pieces with something new, in their order |
| SubnetRanges.CollectNew | util/config.go:114-127 | the inner loop keeps exactly the parsable networks not seen before |
| SubnetRanges.KeepInsideExact | util/util.go:523-551 | pruning keeps exactly the networks inside a server network and is idempotent |
| SubnetRanges.KeepInsideConcat | util/util.go:523-551 | and keeps their order: pruning a concatenation is concatenating the pruned parts |
| SubnetRanges.SubnetRangeTable.ValidateAndFix | util/util.go:504-554 | every listed range is pruned to exactly that, empty ranges disappear, an unparsable server address changes nothing |
| SubnetRanges.SubnetRangeTable.FindRange | util/util.go:465-484 | the first range, in list order, that holds the address, by its position modulo 65536 and so by its position below that; remembered answers equal fresh ones |
| SubnetRanges.SuggestIPAllocation | handler/routes.go:1789-1852 | the least free address of exactly the searched networks that have one; all acceptable for interface networks and for ranges pruned against the present interfaces |
| SubnetRanges.SuggestionIsAllocatable | handler/routes.go:1813-1837 | an address found free in an interface network, or in a range pruned against the present interfaces, passes validation |
| SubnetRanges.SuggestionAcceptableIff | handler/routes.go:1814-1837 | for any range table: a suggestion is acceptable exactly when a server network in reach of the scan holds it |
| SubnetRanges.StaleRangeRefused | handler/routes.go:1545-1567 | after an interface edit a range pruned at startup suggests an address that validation refuses |
| TelegramIndex.WithoutExact | util/util.go:881-889 | filtering keeps exactly the other elements, and distinctness |
| TelegramIndex.WithoutOrder | util/util.go:881-889 | and order: of two kept elements the earlier one stays the earlier one |
| TelegramIndex.FilterInPlace | util/util.go:881-889 | the filter that overwrites its own slice yields the order-preserving filter of the old contents |
| TelegramIndex.TgIndex.RemoveTgToClientID | util/util.go:864-879 | the client leaves every list, empty lists leave the index, backing arrays stay unshared |
| TelegramIndex.TgIndex.Append | util/util.go:857-861 | append in place or into a larger array: one list grows, no other changes |
| TelegramIndex.TgIndex.UpdateTgToClientID | util/util.go:840-862 | detached everywhere, then attached to the one user |
| ClientStore.GetAllocatedIPs | util/util.go:304-354 | exactly the addresses of the server and of the other clients, or an error exactly when one of them does not parse |
| ClientStore.SavingKeepsDisjoint | handler/routes.go:1013-1017 | saving a list the handlers accept keeps allocations disjoint, when the server addresses all parse or already the first does not |
| ClientStore.CheckSoundIff | handler/routes.go:1237-1241 | the handlers' allocation check keeps every store disjoint if and only if that is so |
| ClientStore.BadServerAddressHidesAllocations | handler/routes.go:1013-1017 | with an unparsable server address the taken list is dropped and every address of a network in reach is accepted |
| ClientStore.BadServerAddressClash | handler/routes.go:1013-1017 | in all other cases, two creations from the empty store that are both accepted with one address |
| ClientStore.DetachedExact | util/util.go:864-879 | after detaching, the index answers the query over the other clients |
| ClientStore.AttachedExact | util/util.go:840-862 | attaching restores the exact index for the saved client |
| ClientStore.SaveKeepsIndexExactIff | store/jsondb/jsondb.go:339-358 | saving keeps the index equal to the query over stored clients if and only if it is not an enabled client with an unparsable user id that was listed before |
| ClientStore.ClientStore.SaveClient | store/jsondb/jsondb.go:339-358 | the new collection and the new index |
| ClientStore.ClientStore.NewClient | handler/routes.go:992-1098 | exactly when it succeeds, whatever the server addresses are, what it stores, and that allocations stay disjoint and the index exact |
| ClientStore.ClientStore.UpdateClient | handler/routes.go:1206-1315 | the same, with the client's own addresses not held against it |
| ClientStore.ClientStore.SetClientStatus | handler/routes.go:1323-1361 | only the enabled flag changes; allocations stay disjoint, the index exact |
| ClientStore.ClientStore.RemoveClient | handler/routes.go:1472-1498 | the record goes, the index stays exact |
| ClientStore.ClientStore.SaveServerInterfaces | handler/routes.go:1545-1567 | only parsable lists are stored, and they make the allocations sound |
| ClientStore.ClientStore.Restart | store/jsondb/jsondb.go:175-186 | the rebuilt index is exact |
| ClientStore.ClientStore.CheckAddresses | handler/routes.go:1013-1017 | accepts exactly what the acceptance predicate of those theorems says |
| ClientStore.Run | handler/routes.go:992-1567 | over every run of the six steps: index exact, keys unique, and allocations disjoint when the first server addresses all parse or already the first does not |
| ClientStore.ClashingRun | handler/routes.go:992-1098 | in the remaining case a run of two creations ends with one address held twice |
| TrafficHistory.HistoryOrdered | handler/wg_traffic_cache.go:412 | a clock that never goes back gives samples in bucket order (division truncates) |
| TrafficHistory.RateTimesTime | handler/wg_traffic_cache.go:397-407 | the rates of a sample times the seconds since the reading before are the bytes by which the aggregate counters went up; nothing on a reset |
| TrafficHistory.WindowSplits | handler/wg_traffic_cache.go:538-578 | sums over adjacent windows add up to the sum over both |
| TrafficHistory.MaxIsGreatest | handler/wg_traffic_cache.go:421-423 | the stored maximum is the greatest sample rate |
| TrafficHistory.SumAtMostCountTimesMax | handler/wg_traffic_cache.go:417-423 | rate sum at most count times maximum, for every set of samples |
| TrafficHistory.SumIsTotal | handler/wg_traffic_cache.go:417-420 | the stored sums are the sample rates added up one by one, the stored counts their number |
| TrafficHistory.AverageTimesCount | handler/wg_traffic_cache.go:580-587 | an average times the number of samples is their total; 0 without samples |
| TrafficHistory.AverageAtMostMax | handler/wg_traffic_cache.go:659-663 | no average exceeds the maximum |
| TrafficHistory.BytesConserved | handler/wg_traffic_cache.go:428-461 | for every run and every peer, present throughout or not: all bytes attributed to it are its positive counter steps between consecutive recorded readings |
| TrafficHistory.WindowBytesConserved | handler/wg_traffic_cache.go:428-461 | the same for the samples of every window of buckets |
| TrafficHistory.MovesTelescope | handler/wg_traffic_cache.go:442-449 | over any stretch of a run in which a peer stays and is not reset, what is added is last counter minus first |
| TrafficHistory.MovesInWindowTelescope | handler/wg_traffic_cache.go:442-449 | the same within a window, for a peer first seen in the course of the run |
| TrafficRing.StoreRepresents | handler/wg_traffic_cache.go:412-461 | storing a sample, with lazy reset, keeps the ring standing for the history |
| TrafficRing.ReadExactIff | handler/wg_traffic_cache.go:546-551 | for any order of samples: a bucket reads back as the sum of all its samples if and only if it was not overwritten |
| TrafficRing.RecentNotOverwritten | handler/wg_traffic_cache.go:330-349 | in bucket order nothing from the last 1440 buckets is overwritten |
| TrafficRing.EachSlotOnce | handler/wg_traffic_cache.go:330-336 | the last 1440 buckets occupy every slot exactly once |
| TrafficRing.WindowExact | handler/wg_traffic_cache.go:546-578 | a window read equals the window sum of the history |
| TrafficRing.WiderWindowMoreBytes | handler/wg_traffic_cache.go:491-502 | per peer, a longer window ending now never reports fewer bytes |
| TrafficRing.RefreshRepresents | handler/wg_traffic_cache.go:393-479 | one refresh keeps rates, recent rates and ring standing for the history |
| TrafficRing.RunRepresents | handler/wg_traffic_cache.go:381-481 | so does every run of refreshes from a fresh cache |
| TrafficRing.RingRefinesHistory | handler/wg_traffic_cache.go:330-349 | with a clock that never goes back, each bucket less than 1440 older than the newest sampled one equals the unbounded history |
| TrafficRing.ClockSetBackLosesSamples | handler/wg_traffic_cache.go:412-416 | a run with the clock set back by 30 days after which a bucket no longer reads back as its sample |
| TrafficTotals.ReadTotals | handler/wg_traffic_cache.go:363-377 | the aggregate is the sum over all rows, each peer has the sum over its own rows on all devices, and the aggregate is also the sum over the peers |
| TrafficTotals.StepsBalance | handler/wg_traffic_cache.go:442-449 | without resets the steps of all peers add up to the step of the aggregate |
| TrafficTotals.AggregateConserved | handler/wg_traffic_cache.go:381-481 | over a run with steady peers, all per-peer bytes add up to the aggregate counter difference |
| PeerRanking.SortedUnique | handler/wg_traffic_cache.go:622-629 | two sorted lists with the same entries are the same list |
| PeerRanking.RankingUnique | handler/wg_traffic_cache.go:617-630 | so the peer list does not depend on the map's iteration order |
| PeerRanking.LexLessIff | handler/wg_traffic_cache.go:625-627 | the key order: equal up to some position, where the one ends or has the smaller character |
| PeerRanking.RankOrder | handler/wg_traffic_cache.go:622-629 | of two entries of the list the earlier has more bytes in all, or as many and the smaller key |
| PeerRanking.RankPeers | handler/wg_traffic_cache.go:617-630 | the method produces that list |
| TrafficSeries.BarsTileWindow | handler/wg_traffic_cache.go:491-502 | bars times group size is the window length, for every range |
| TrafficSeries.FallbackIsNeutral | handler/wg_traffic_cache.go:659-663 | the average fallback never changes the peak |
| TrafficSeries.PeakExact | handler/wg_traffic_cache.go:651-668 | the peak scan equals the greatest sample rate of the last 48 buckets |
| TrafficSeries.BarsExact | handler/wg_traffic_cache.go:538-578 | every bar sums exactly the samples of its own part of the window |
| TrafficSeries.SeriesExact | handler/wg_traffic_cache.go:504-676 | a response read from the ring is the response of the history when no bucket of the window was overwritten |
| TrafficSeries.RunSeriesExact | handler/wg_traffic_cache.go:504-676 | for every run with a forward clock, every range and every time whose window the newest sample cannot have displaced |
| TrafficSeries.PeakCoversBars | handler/wg_traffic_cache.go:651-668 | in a 24-hour response the reported peak is at least the TX average of every bar |
| TrafficSeries.PeerTotalsExact | handler/wg_traffic_cache.go:556-577 | for every run, range and peer: listed in a response exactly when its counters went up within the window, with what they went up by |
| TrafficSeries.TotalIsCounterDifference | handler/wg_traffic_cache.go:556-577 | for a peer first seen in some reading and present from there on without reset, last counter minus that one |
| TrafficResponse.HalfHourOf | handler/wg_traffic_cache.go:412 | in milliseconds: a sample is counted in the half hour its reading was taken in |
| TrafficResponse.BetweenIsTaken | handler/wg_traffic_cache.go:412 | so the samples of whole half hours are those of the readings taken in them |
| TrafficResponse.BucketsRead | handler/wg_traffic_cache.go:491-578 | each range by its numbers: 48 bars of one bucket, 56 of six or 60 of twenty-four, ending with the current bucket |
| TrafficResponse.BarsInMs | handler/wg_traffic_cache.go:483-612 | each bar is the sum over its 30-minute, 3-hour or 12-hour slice of the 24, 168 or 720 hours up to the end of the current half hour, the peer totals over all of them |
| TrafficResponse.RunBarsInMs | handler/wg_traffic_cache.go:483-612 | for every run, range and recent time: made of exactly the readings taken in those slices |
| TrafficResponse.RecentInMs | handler/wg_traffic_cache.go:330-349 | which times are recent enough, as a number of milliseconds for each range |
| TrafficResponse.TotalsInMs | handler/wg_traffic_cache.go:556-577 | for every run and peer: listed exactly when its counters went up in the last 24 hours, 7 days or 30 days, with what they went up by |
| TrafficResponse.RangesNested | handler/wg_traffic_cache.go:491-502 | over one run and one time no peer has more bytes in the 24-hour response than in the 7-day one, nor there more than in the 30-day one |
| TrafficResponse.BarAverages | handler/wg_traffic_cache.go:580-587 | a bar's averages times its number of samples are the sample rates added up |
| TrafficResponse.BarTop | handler/wg_traffic_cache.go:592-603 | no peer moved more bytes within a bar than the one it names, if any moved some |
| TrafficResponse.LatestFigures | handler/wg_traffic_cache.go:513-530 | the latest rates, the greatest of the last 15 samples, the counters last read |
| TrafficResponse.PeakInMs | handler/wg_traffic_cache.go:651-674 | the peak is the greatest sample rate of the last 24 hours times 8 over a million, or the latest rate when that is zero |
| TrafficSnapshot.SnapshotRoundTrip | handler/wg_traffic_cache.go:216-308 | snapshot then restore, into whatever cache, loses only the previous reading |
| TrafficSnapshot.RestoredIff | handler/wg_traffic_cache.go:216-275 | accepted exactly with version 1, half-hour buckets and 1440 entries in every list, and then slot by slot what the snapshot says; otherwise nothing changes |
| TrafficSnapshot.RestoredRepresents | handler/wg_traffic_cache.go:216-308 | the restored cache stands for the same history |
| TrafficCache.TrafficCache.IdxFor | handler/wg_traffic_cache.go:330-336 | the slot of a bucket, negative numbers included |
| TrafficCache.TrafficCache.ResetBucket | handler/wg_traffic_cache.go:338-349 | one slot emptied for its new bucket, the others untouched |
| TrafficCache.TrafficCache.AddPeerSteps | handler/wg_traffic_cache.go:428-461 | the per-peer loop adds exactly the positive steps, in any map order |
| TrafficCache.TrafficCache.StoreSample | handler/wg_traffic_cache.go:412-461 | the arrays hold the abstract ring after the sample |
| TrafficCache.TrafficCache.RefreshOnce | handler/wg_traffic_cache.go:381-481 | the arrays and fields hold the abstract cache after the refresh |
| TrafficCache.TrafficCache.ToSnapshot | handler/wg_traffic_cache.go:278-308 | the snapshot of the abstract cache |
| TrafficCache.TrafficCache.ApplySnapshot | handler/wg_traffic_cache.go:216-275 | the restored abstract cache; unchanged when the snapshot is rejected |
| TrafficCache.TrafficCache.AddGroup | handler/wg_traffic_cache.go:546-578 | the inner loop reads exactly its group of buckets into bar and window totals |
| TrafficCache.TrafficCache.BuildBars | handler/wg_traffic_cache.go:538-612 | all bars, and per-peer totals equal to one read of the whole window |
| TrafficCache.TrafficCache.TopPeer | handler/wg_traffic_cache.go:595-603 | a peer with the most bytes of the bar, or none when nothing moved |
| TrafficCache.TrafficCache.ScanPeak | handler/wg_traffic_cache.go:651-668 | the loop computes the abstract peak scan |
| TrafficCache.TrafficCache.BuildSeries | handler/wg_traffic_cache.go:504-676 | the response is the abstract response of the cache, and each range reads its own buckets: the last 48 singly, 336 in sixes, 1440 in twenty-fours |
| TrafficReplay.RestoredSeries | handler/wg_traffic_cache.go:216-308 | a response after a restart equals the one before it except for the live peer list |
| TrafficReplay.LifeRepresents | handler/wg_traffic_cache.go:115-136 | over any life of refreshes, flushes and restarts from snapshots of any age, the cache stands for exactly the samples not lost between a flush and a restart |
| TrafficReplay.LifeSeriesExact | handler/wg_traffic_cache.go:504-676 | a response after such a life, with a forward clock, is the one computed from all those samples |
| TrafficReplay.Live | handler/wg_traffic_cache.go:115-676 | the same through the real arrays, from refreshes and restarts to the response, with the slices of each range in milliseconds |
| TrafficReplay.NothingForgotten | handler/wg_traffic_cache.go:381-481 | without restarts those samples are all samples of the run |
| SharedMaps.CloneAll | handler/wg_traffic_cache.go:301-306 | the snapshot gets fresh maps with equal contents, none shared |
| SharedMaps.LoadAll | handler/wg_traffic_cache.go:242-252 | so does the cache on restore |
| SharedMaps.SampleAfterSnapshot | handler/wg_traffic_cache.go:278-308 | any later samples leave a taken snapshot unchanged |
| SharedMaps.SampleAfterRestore | handler/wg_traffic_cache.go:216-275 | nor do they change a snapshot restored from |
| UserSafety.AcceptedCookieIsCurrent | handler/session.go:121-126 | an accepted cookie belongs to an existing, enabled account with the same admin flag and digest |
| UserSafety.UpdateUserKeeps | handler/routes.go:407-498 | the edit, rename included, keeps all invariants |
| UserSafety.EditKeepsAdmin | handler/routes.go:460-467 | the demotion guard of the edit leaves an active administrator |
| UserSafety.SetAdminKeeps | handler/routes.go:591-626 | the role change keeps all invariants |
| UserSafety.SetDisabledKeeps | handler/routes.go:629-679 | suspending and enabling keep all invariants |
| UserSafety.RemoveUserKeeps | handler/routes.go:553-588 | removal keeps all invariants |
| UserSafety.RemovePasskeyKeeps | handler/passkeys.go:474-533 | passkey removal keeps all invariants |
| UserSafety.PasskeySettingKeeps | handler/routes.go:1722-1745 | switching passkeys off keeps all invariants |
| UserSafety.StepKeepsInvariant | handler/routes.go:407-718 | every handler keeps: records keyed by name, digest cache exact, an active administrator, no accepted cookie for a suspended account |
| UserSafety.RunKeepsInvariant | store/jsondb/jsondb.go:166-236 | so does every run, restarts included |
| UserSafety.FirstRunInvariant | store/jsondb/jsondb.go:138-173 | the state the first run leaves has all these properties |
| UserSafety.ReachableInvariant | store/jsondb/jsondb.go:138-236 | so every state reachable from the first run has them |
| UserSafety.DigestEqualIff | util/util.go:891-949 | two records have one digest exactly when they agree on names, hashes, flags, epoch, trimmed display name and e-mail, on how often each non-empty credential id occurs, and on the trimmed labels of those ids |
| SessionRevocation.BumpKills | handler/routes.go:682-718 | a revocation or passkey removal that meets its guard leaves the epoch one higher and every other account as it was; every cookie with the account's password hash is dead, every cookie issued under its name rejected |
| SessionRevocation.OtherwiseNothing | handler/routes.go:682-709 | any other revocation or passkey removal changes nothing |
| SessionRevocation.PasswordChangeKills | handler/routes.go:451-458 | an edit that sets a password and meets its guard stores the new hash and kills every cookie with the old one |
| SessionRevocation.StepTraceable | store/jsondb/jsondb.go:221-236 | no step lets an account's epoch go down or a used hash return |
| SessionRevocation.DeadForever | handler/session.go:121-126 | a dead cookie is rejected in every later state, whatever happens |
| SessionRevocation.RevokedForever | handler/routes.go:682-718 | after a bump or a new password, no cookie accepted for the account before, and none with its hash, is ever accepted again, even after renames |
| SessionRevocation.StaleWhileNamed | handler/passkeys.go:518-520 | cookies issued under a name before a bump stay rejected while an account of that name exists |
| SessionRevocation.RenamedBackRevives | handler/routes.go:407-718 | a cookie of another account that once had the name is rejected after a revocation and accepted again when that account gets its name back |
| SessionRevocation.SuspensionIsReversible | handler/routes.go:649-666 | suspending rejects a cookie and enabling accepts it again: no epoch is bumped |
| UserDirectory.FindPasskey | handler/passkeys.go:438-444 | the search loop decides whether the credential is stored |
| UserDirectory.FilterPasskeys | handler/passkeys.go:504-510 | the in-place filter yields the order-preserving filter |
| UserDirectory.GetDBUserCRC32 | util/util.go:891-949 | the loops build exactly the snapshot that is hashed, whatever the order of the label map |
| UserDirectory.WithoutCredentialLength | handler/passkeys.go:511 | the unchanged-length test detects exactly a missing credential |
| UserDirectory.WithoutCredentialPieces | handler/passkeys.go:504-510 | the filter keeps order: every passkey but those with the id stays where it was among the rest |
| UserDirectory.UserDirectory.constructor | store/jsondb/jsondb.go:138-173 | the first run: one administrator, its digest, no session, and the invariant |
| UserDirectory.UserDirectory.SaveUser | store/jsondb/jsondb.go:221-230 | record and digest written together |
| UserDirectory.UserDirectory.DeleteUser | store/jsondb/jsondb.go:233-236 | record and digest removed together |
| UserDirectory.UserDirectory.IsValidSession | handler/session.go:121-126 | for a cookie the server issued: accepted exactly when its account exists, is not suspended and would be given this very cookie now |
| UserDirectory.UserDirectory.SetLoginSession | handler/passkeys.go:312-325 | the issued cookie and the refreshed digest |
| UserDirectory.UserDirectory.CountOtherAdmins | handler/routes.go:56-64 | the loop counts exactly the other active administrators |
| UserDirectory.UserDirectory.EnsureCanDemote | handler/routes.go:44-69 | refuses exactly when the last active administrator would go |
| UserDirectory.UserDirectory.EnsureLeavingActiveAdmin | handler/routes.go:72-97 | the same for suspension |
| UserDirectory.UserDirectory.Login | handler/routes.go:263-314 | a session exactly for a right password, a valid stored name and an account not suspended, the cookie of that account and the only one written; no record or digest changes |
| UserDirectory.UserDirectory.PasskeyFinishLogin | handler/passkeys.go:694-801 | the same with passkeys on and the assertion verified |
| UserDirectory.UserDirectory.UpdateUser | handler/routes.go:407-498 | the exact guard and the record written under the new name; otherwise nothing changes; a session exactly for an own edit without a new password |
| UserDirectory.UserDirectory.CreateUser | handler/routes.go:501-550 | the exact guard and the record written; otherwise nothing changes; no session |
| UserDirectory.UserDirectory.RemoveUser | handler/routes.go:553-588 | the exact guard and the one record removed; otherwise nothing changes; no session |
| UserDirectory.UserDirectory.SetUserAdmin | handler/routes.go:591-626 | the exact guard, only that flag changes; a session exactly for the own account |
| UserDirectory.UserDirectory.SetUserDisabled | handler/routes.go:629-679 | the exact guards of suspending and enabling, only that flag changes |
| UserDirectory.UserDirectory.RevokeUserSessions | handler/routes.go:682-718 | for an accepted administrator and a valid, stored, enabled account the epoch goes up by one, nothing else changes and no cookie issued under the name is accepted; otherwise nothing changes |
| UserDirectory.UserDirectory.PasskeyFinishRegister | handler/passkeys.go:385-471 | the exact guard and the credential and label added; otherwise nothing changes |
| UserDirectory.UserDirectory.PasskeyRemove | handler/passkeys.go:474-533 | the exact guard; the credential and its label go, the epoch goes up by one and no cookie issued under the name is accepted; otherwise nothing changes |
| UserDirectory.UserDirectory.PasskeyRename | handler/passkeys.go:536-588 | the exact guard and the trimmed label; otherwise nothing changes |
| UserDirectory.UserDirectory.ClearStoredPasskeys | handler/passkeys.go:43-61 | every account loses its passkeys, every digest is renewed, nothing else changes |
| UserDirectory.UserDirectory.SavePasskeySetting | handler/routes.go:1716-1745 | switching off clears every account for an accepted administrator, whose session is renewed; otherwise only the switch changes, or nothing |
| UserDirectory.UserDirectory.Restart | store/jsondb/jsondb.go:166-173 | records and cookies stay, the refilled digest cache is the one before |
| UserDirectory.UserDirectory.Handle | handler/routes.go:263-718 | one request of any kind: the step, the invariant, an accepted session |
| SessionClock.AcceptedIffInTime | handler/session.go:111-119 | a series of requests is accepted exactly when each follows the last activity within its idle window and the lifetime |
| SessionClock.FirstRequest | handler/passkeys.go:286-302 | in seconds, from login to request: the configured minutes, else 7 days with "remember me" and one day without, at least 15 days for the app, and the lifetime |
| SessionClock.TimeoutEnforced | handler/passkeys.go:286-302 | with a timeout set, browser sessions are never idle longer between accepted requests |
| SessionClock.LifetimeIsHard | handler/session.go:117 | no activity keeps a session past its lifetime |
| SessionClock.ExpiredStaysExpired | handler/session.go:61-81 | a session idle beyond the app's window stays dead for every client |
| SessionClock.AppRevives | handler/session.go:30-40 | one refused to a browser for idling is accepted again exactly for the app, within its window |
| SessionClock.Session.Refresh | handler/session.go:134-176 | when the daily refresh applies |
| SessionClock.Session.Serve | handler/session.go:61-90 | after the idle touch, the page refresh never has an effect |
| PendingConf.PromotionKeepsEffective | util/wg_quick.go:115-139 | at every file step of a promotion, torn writes included, the configuration in force is unchanged and the canonical file is whole |
| PendingConf.PromotionDone | util/wg_quick.go:115-139 | success leaves the canonical file in force, exactly unless a differing side-car was not seen; when the side-car is gone |
| PendingConf.StartLoadsEffective | util/wg_quick.go:55-74 | a successful start runs the configuration in force, exactly unless a differing side-car was not seen |
| PendingConf.RestartLoadsEffective | util/wg_quick.go:187-215 | the same for a restart with its systemd and fallback paths, and exactly when the side-car is gone after it |
| PendingConf.RestartKeepsEffective | util/wg_quick.go:187-215 | no outcome of a restart changes the configuration in force |
| PendingConf.StopOutcome | util/wg_quick.go:31-41 | a stop succeeds exactly when allowed and the command does, and then the tunnel is down |
| PendingConf.StartSucceedsIff | util/wg_quick.go:55-74 | exactly when a start succeeds, and that one refused or failing in promotion leaves the tunnel alone |
| PendingConf.RestartSucceedsIff | util/wg_quick.go:187-215 | exactly when a restart succeeds, by systemd or by down and up |
| PendingConf.ApplyMakesEffective | handler/routes.go:1901-1925 | a finished apply puts its rendering in force if and only if it used the side-car, or removed the old one, or there was none that differs |
| PendingConf.FailedApplyHarmlessIff | handler/routes.go:1903-1917 | exactly which failed applies leave the configuration in force alone |
| PendingConf.ApplyTornStates | handler/routes.go:1903-1913 | exactly what is in force after each file step of an apply, torn writes included |
| PendingConf.ApplyCrashSafeIff | handler/routes.go:1901-1913 | exactly which applies have the old or the new configuration in force at every file step |
| PendingConf.ApplyNotCrashSafe | util/util.go:625-641 | replacing one non-empty configuration by another is never crash-safe |
| PendingConf.ApplyRestartConverges | handler/routes.go:1854-1864 | a successful apply with restart leaves the new peers in the kernel on Linux |
| PendingConf.ApplyThenStart | handler/routes.go:1905-1908 | applying while stopped and starting later runs exactly what was applied |
| PendingConf.ApplyWithoutRestart | handler/routes.go:1866-1873 | a finished apply without restart: with the tunnel up, on Linux, syncconf on and an absolute path it succeeds exactly when the command does and the tunnel keeps its base and has the rendering as its peers; with the tunnel down, syncconf off or not on Linux it succeeds and the tunnel is as it was |
| PendingConf.ApplyRestartOutcome | handler/routes.go:1854-1864 | a finished apply with restart fails exactly on Linux when the restart fails and the syncconf behind it fails or finds no tunnel |
| PendingConf.ShadowedRestart | handler/routes.go:1903-1904 | when the old side-car could not be removed, apply reports success and the restart runs the old configuration |
| PendingConf.RunEffective | handler/routes.go:1876-1926 | over any run with failed applies and commands, crashes in promotion and outside interference, the last written rendering is in force, as long as no apply is shadowed or fails harmfully |
| PendingConf.StepEffectiveIff | handler/routes.go:1876-1926 | exactly which steps do to the configuration in force what they should |
| PendingConf.StartRunsLastApplied | util/wg_quick.go:55-74 | and a successful start after it runs that rendering |
| WgPanel.WgPanel.Promote | util/wg_quick.go:115-139 | the effects in order, one recorded disk per file step |
| WgPanel.WgPanel.RunWgQuickDown | util/wg_quick.go:31-41 | the stop: when it succeeds, and that the tunnel is down then |
| WgPanel.WgPanel.RunWgQuickUp | util/wg_quick.go:55-74 | the start, with the configuration in force kept at every recorded step |
| WgPanel.WgPanel.RestartWgQuick | util/wg_quick.go:187-215 | the restart, likewise |
| WgPanel.WgPanel.ApplyToDisk | handler/routes.go:1876-1926 | the apply and its file steps; which file is written, and without restart the exact outcome for the tunnel |
| WgPanel.WgPanel.ApplyKernel | handler/routes.go:1854-1874 | restart, fallback and optional syncconf; without restart the running peers replaced exactly when syncconf is on, on Linux, with the tunnel up |
| RateLimiter.EveryWindowBounded | pushnotify/pushnotify.go:256-273 | every half-open window of every run holds at most max acceptances |
| RateLimiter.RecentTwice | pushnotify/pushnotify.go:261-266 | pruning early loses nothing a later pruning would keep |
| RateLimiter.KeptIsExact | pushnotify/pushnotify.go:256-269 | the pruned lists answer as the full history would, at any later time |
| RateLimiter.KeptCountsGrants | pushnotify/pushnotify.go:261-267 | so the number of hits kept is the number of grants younger than the window |
| RateLimiter.CallKeepsExact | pushnotify/pushnotify.go:256-273 | one call, granted or refused, keeps them so |
| RateLimiter.RateLimiter.Allow | pushnotify/pushnotify.go:256-273 | granted exactly when fewer than max of all grants given to the token are younger than the window; each grant is recorded, a refusal writes nothing |
| RateLimiter.RateLimiter.GrantsBounded | pushnotify/pushnotify.go:256-273 | of the grants actually given to a token at most max lie in any half-open window |
| RateLimiter.PruneHits | pushnotify/pushnotify.go:261-266 | the pruning loop |
| FloodGate.SweepBetweenGrants | telegram/bot.go:153-161 | whatever the clock does, between two grants to one user a sweep read a clock more than 60*FloodWait seconds after the first |
| FloodGate.GrantsFarApart | telegram/bot.go:81-98 | any two grants to one user are more than 60*FloodWait seconds apart, under a clock that never reads within a waiting time again after reading past it |
| FloodGate.KeepsApartIff | telegram/bot.go:81-161 | the clock readings under which that holds for every run of requests are exactly those |
| FloodGate.NondecreasingStaysPast | telegram/bot.go:153-161 | a clock that does not go back is such a clock |
| FloodGate.NotifiedAreWaiting | telegram/bot.go:82-86 | notified users are always waiting |
| FloodGate.RunNotices | telegram/bot.go:82-97 | at most one notice per waiting period |
| FloodGate.GateDecides | telegram/bot.go:81-161 | from the log alone: a user granted and not released since must wait and is told so once, anyone else is granted, a sweep releases exactly those granted more than 60*FloodWait seconds ago |
| FloodGate.ClockJumpGrantsEarly | telegram/bot.go:153-161 | for a clock that jumps ahead for one sweep there are requests granted too close together |
| FloodGate.FloodGate.OnMessage | telegram/bot.go:81-98 | granted when not waiting, told at the first message while waiting, ignored after that; the run goes on by this event |
| FloodGate.FloodGate.OnSendConfig | telegram/bot.go:121-135 | granted exactly when the bot is up, the gate applies and the user is not waiting; the run goes on by this event |
| FloodGate.FloodGate.UpdateFloodWait | telegram/bot.go:153-161 | exactly the users waiting longer than 60*FloodWait seconds go, and their marks; deleting while ranging in any order |
| Fingerprint.Normalize | handler/android_assetlinks.go:86-105 | accepts exactly white space around 64 hexadecimal digits with blanks and colons anywhere; prints their bytes as upper-case pairs with colons between them |
| Fingerprint.AcceptedIff | handler/android_assetlinks.go:86-96 | which spellings are accepted, by their characters |
| Fingerprint.BytesSpelled | handler/android_assetlinks.go:86-105 | the k-th byte is spelled by the 2k-th and the next digit, at their positions in 0123456789abcdef |
| Fingerprint.NormalFormPrints | handler/android_assetlinks.go:97-104 | the normal form prints exactly those bytes |
| Fingerprint.Idempotent | handler/android_assetlinks.go:86-105 | normalising twice is normalising once |
| Fingerprint.Canonical | handler/android_assetlinks.go:86-105 | two accepted spellings normalise equally exactly when they denote the same 32 bytes |
| Fingerprint.NormalFormDecodes | handler/passkeys.go:90-97 | dropping colons and decoding a normal form always succeeds, with the right bytes |
| Base64Url.EncodingDenotes | handler/passkeys.go:98 | for every byte string: read by positions in the 64-character alphabet as base-64 digits, the encoding is the number the bytes denote, shifted by 0, 4 or 2 zero bits for lengths 0, 1, 2 modulo 3, and as short as that allows |
| Base64Url.DenotesOne | handler/passkeys.go:98 | no string denotes two byte strings in this way |
| Base64Url.SextetsNumber | handler/passkeys.go:98 | the six-bit groups write that number |
| Fingerprint.OriginsDistinct | handler/passkeys.go:98 | distinct digests give distinct origins |
| Fingerprint.ApkOrigins | handler/passkeys.go:83-101 | one origin per accepted fragment, in order: the prefix, then a string that so denotes its bytes |

## Left out

- HTTP binding, JSON, templates, locale, mail, QR codes, FCM sending, WebAuthn verification and `wgctrl`: inputs or abstract outcomes.
- Failed writes of the JSON store and the permission fix-ups after them.
- Old accounts that store a plaintext password and no hash, and two accounts given one hash through the environment.
- Interleavings of handlers; the check-then-save sequences hold no lock.
- Rounding of floating-point rates and overflow of 64-bit counters in the traffic cache.
- The arrays `topPeerBps` and `topPeerKey`, which are written and saved but never read by a response, the check of their lengths on restore, and `updated_age_secs`.
- Textual parsing of addresses and IPv4-mapped IPv6 networks, where Go changes family while printing and comparing.
- Splitting the subnet range setting into pieces.
- The remaining format checks of the client form (allowed IPs, keys), which are one flag of the form; the deletion of stored private keys.
- Trimming of passkey label keys inside the digest, and label keys that are not credential ids.
- Uniqueness of addresses inside one client's own list, and agreement of client addresses with the server networks after an interface edit: the code promises neither.
- `hashes.json` and the "pending changes" badge, the first write of the configuration at startup, changes of the configured file path between steps, a process dying in the middle of an apply as a step of a run (`PendingConf.ApplyCrashSafeIff` covers the single apply).
- The check digit of an xid, in a library: of the 20 characters the last can only be one of two.
- Clock readings before 1970 in the millisecond theorems of `TrafficResponse`; the bucket theorems cover them.
- SessionRevocation.RevokedForever: covers the cookies of the revoked account; for which other cookies of that name some later run brings them back is shown for the family of `RenamedBackRevives` only, because labels, passkeys, roles and suspension can also be edited back.
- Small clamps (session minutes, MTU, log tails), zip entry names, push token lists.
- RateLimiter.RateLimiter.Allow: asks for a clock that does not go back, which Go's monotonic readings give.
