# Host monitoring: a verified model

This project models the parts of a host-monitoring system (agents, an ingest and a
master server, a browser front end) whose correctness depends on interleaving,
history or exact bookkeeping, and proves what they guarantee. `dafny verify
dfyconfig.toml` checks everything.

The files, by subject:

- **Share links.** `Tokens`, `Access`, `ShareProtocol` (tables and transactions,
  statement by statement, with row locks), `ShareTheorems` (safety over every
  interleaving), `ShareAuthority` (who may commit), `ShareProgress` (no deadlock, and
  what an exchange left alone does).
- **Reading hosts.** `HostViews` (which hosts and fields a reader sees), `HostStream`
  (the event stream as a state machine that runs against the share transactions),
  `StreamTrace` (what holds for every reader), `StreamTheorems` (what holds for readers
  with a share session).
- **Login limiter.** `AuthLimits`.
- **Host store.** `HostTypes`, `HostStore` (the mutable store), `HostRuns` (whole
  runs of it), `MetricSeries` (slices that share backing arrays), `Mailboxes`
  (broadcast over one-place channels), `StoreMailboxes` (the store and its watchers
  together).
- **Metrics.** `MetricPoints`, `MetricIdentity` (identity and de-duplication),
  `MetricValidation`, `DigestRecovery` (agent to server and back to a digest),
  `DiskCounters`, `Rates`, `CollectorFanIn`.
- **Browser.** `HistoryMerge`.
- **Shared.** `Text` (Go strings, sorting), `Sums`.

State machines are deterministic functions of a state and an action; an action that is
blocked or does not apply leaves the state unchanged, so every interleaving is the run
of some list of actions. Clocks, random bytes and the order in which a Go map is ranged
over are arguments or arbitrary choices.

Findings that differ from what one would expect:

- The server folds a metric batch by name alone and the last point wins. Labelled points
  under the name of a reading, such as the per-core CPU points, replace the agent's own
  reading. `CoreReplacesHostReading` is an input where that loses the host's CPU usage;
  `RecoveredExactly` says, for all inputs, when a reading is recovered and when not.
- The newest host list can be lost to a watcher, both when two broadcasts overlap on its
  channel and when an older broadcast comes late (`OverlapCanDropTheNewerList`,
  `LateBroadcastCanReplaceTheNewerList`). For every run, overlapping or not, what the
  watcher has is the store state that was put into its channel last
  (`LastDepositDecides`), so it has the newest list if and only if that state is the
  current one (`NewestExactlyWhenCurrent`). The one transient exception, a channel that a
  broadcast has emptied and not yet refilled, is named in both.
- A frame of the stream may still go out after its share has been revoked if its look-up
  came first (`UpdateDeliveredExactlyWhenAllowed`), but at most one
  (`SilentAfterRevocation`).
- A peer of the login limiter is undisturbed by others exactly as long as it always finds
  room in the shared table (`PeerIsolation`).
- A minute can admit 39 attempts of one peer, not 20, and never more (`AtMost39InAnyMinute`,
  `ThirtyNineIsReached`).
- The clean-up of expired sessions during an exchange never removes anything, because a
  session expires with its share; hence a share has 100 exchanges for its whole life.
- Points that have not been validated can collide on their identity
  (`UncheckedPointsCanCollide`).
- Merging history cuts only those series to the window for which a point arrived; the
  others are left as they are (`MergeLatestHistory`).

## Model

| member | source | states |
|---|---|---|
| `Tokens.DecodeUndoesEncode` | pkg/access/tokens.go:15-24 | decoding unpadded base64url gives back the encoded bytes, for every length |
| `Tokens.NewTokenAccepted` | pkg/access/tokens.go:10-17 | every token made from 32 random bytes has 43 characters, is accepted and decodes to those bytes |
| `Tokens.AcceptedExactly` | pkg/access/tokens.go:19-29 | a hash is given to exactly the canonical encodings of 32 bytes; two accepted tokens differ in bytes and in hash |
| `Tokens.SloppySpellingsRefused` | pkg/access/tokens.go:23-26 | the other spellings that the lenient decoder reads as the same bytes are all refused |
| `ShareRequests.Validate` | pkg/access/shares.go:44-63 | the loops with early exits accept exactly the valid requests: bounds, known fields, no repetition |
| `ShareRequests.AcceptList` | pkg/access/shares.go:49-61 | one pass with a set of what was seen decides "all acceptable and all distinct" |
| `ShareTheorems.CountForcesEveryHost` | pkg/access/postgres/shares.go:74-79 | for a list without repetition, as many matching rows as names means every named host is of the tenant, and conversely |
| `ShareTheorems.StepKeeps` | pkg/access/postgres/shares.go:50-231 | every statement of every transaction, rollback and change of users, tenants or hosts keeps the invariant of rows, locks and counts |
| `ShareTheorems.RunKeeps` | pkg/access/postgres/shares.go:50-231 | the invariant holds after every interleaving |
| `ShareTheorems.RevocationIsFinal` | pkg/access/postgres/shares.go:130-244 | once a revocation has committed, in every continuation the share has no session, no further exchange, and neither link nor session token finds it, whatever was under way |
| `ShareTheorems.ExchangedAtMostHundredTimes` | pkg/access/postgres/shares.go:187-231 | in every interleaving a share is exchanged at most 100 times over its whole life |
| `ShareTheorems.TenantQuotaAndScope` | pkg/access/postgres/shares.go:50-98 | in every interleaving a tenant has at most 100 shares, each over at least one host and only over hosts of that tenant |
| `ShareTheorems.GrantNeverChanges` | pkg/access/postgres/shares.go:83-94 | title, tenant, hosts, fields, creator and expiry of a share never change; after revocation the count of exchanges does not either |
| `ShareTheorems.NoneExpired` | pkg/access/postgres/shares.go:206-206 | the set of expired sessions that the clean-up during an exchange would remove is empty |
| `ShareAuthority.CommitsAreAuthorised` | pkg/access/postgres/shares.go:29-44 | in every interleaving, whoever is demoted or deactivated meanwhile: when a creation or revocation commits, its caller still is an active administrator of the share's own active tenant, and a created share names that caller |
| `ShareAuthority.LockedRowsStay` | pkg/access/postgres/shares.go:34-36 | no step changes a user or tenant row that an open transaction has locked, shared or for update |
| `ShareProgress.NoDeadlock` | pkg/access/postgres/shares.go:29-231 | with tenant and share locks for update, shared user locks and uncommitted keys: while any transaction is open, one of them can complete its next statement, whatever fresh names it draws |
| `ShareProgress.ExchangeAloneSucceeds` | pkg/access/postgres/shares.go:187-231 | left alone, an exchange succeeds exactly when the link is valid then and was exchanged fewer than 100 times; the new session opens the share exactly until the share expires; a failed one changes no row |
| `HostViews.ProjectHost` | server/internal/master/service/shares.go:134-159 | a user sees the snapshot; anyone else exactly the allow-listed keys, each with the host's own value |
| `HostViews.ProjectHosts` | server/internal/master/service/shares.go:161-167 | the projections of a list, in order |
| `HostViews.ReadHosts` | server/internal/master/service/shares.go:94-113 | refuses invalid readers, otherwise lists exactly the allowed hosts in order |
| `HostViews.Allowed` | server/internal/master/service/shares.go:106-111 | a host is in the result exactly when it is listed and the reader may see it |
| `HostViews.SelectHistories` | server/internal/master/transport/http/stream.go:48-60 | histories of exactly the given hosts that have one, with exactly the known metrics, unaltered |
| `HostViews.LatestByHost` | server/internal/master/transport/http/stream.go:178-195 | an entry for exactly the hosts that have reported, each with its own latest points |
| `HostStream.SessionShare` | pkg/access/postgres/shares.go:233-244 | the share a session token leads to is the only one it can authenticate for, and none if the session or share is not good now |
| `StreamTrace.EveryFrameIsCheckedAndPermitted` | server/internal/master/transport/http/stream.go:33-145 | for users, share readers and the demo reader alike, in every run: each frame is sent for one event or the opening, after a check made in between against the tables of that moment; no check serves two frames; users see whole hosts of their own tenant only, others only hosts and fields on their list |
| `StreamTrace.FrameIsPermitted` | server/internal/master/service/shares.go:98-159 | a frame built for a reader's task shows nothing the reader may not see, for every kind of reader |
| `StreamTheorems.StepSound` | server/internal/master/transport/http/stream.go:33-145 | every step of the stream, and every step of a share transaction beside it, keeps what a completed check knows |
| `StreamTheorems.EveryFrameWasAllowed` | server/internal/master/transport/http/stream.go:33-145 | in every run each frame to a share reader follows, between its event and its sending, a look-up in which session and share were unexpired and not revoked, and shows only the share's own hosts and granted fields |
| `StreamTheorems.SilentAfterRevocation` | server/internal/master/transport/http/stream.go:93-133 | after a revocation nothing more is sent, except for at most one frame whose look-up was already made |
| `StreamTheorems.UpdateDeliveredExactlyWhenAllowed` | server/internal/master/transport/http/stream.go:101-133 | with any share transactions between any two steps, the frame for an event is sent if and only if it is an update of an allowed host and, in the tables at the look-up, the session is good and the access unchanged |
| `StreamTheorems.CurrentMatches` | server/internal/master/transport/http/access.go:65-67 | a reader that passes the comparison has exactly the hosts and fields of the share, although they are read in a second statement |
| `AuthLimits.AuthGuard.Allow` | server/internal/master/transport/http/auth_limits.go:25-46 | the in-place eviction and update compute `Decide`, whatever the order of eviction |
| `AuthLimits.TableBounded` | server/internal/master/transport/http/auth_limits.go:25-46 | on any trace the table has at most 1024 entries and every count is between 1 and 20 |
| `AuthLimits.AtMost39InAnyMinute` | server/internal/master/transport/http/auth_limits.go:25-46 | with nondecreasing times at most 39 attempts of a peer are allowed in any half-open minute |
| `AuthLimits.ThirtyNineIsReached` | server/internal/master/transport/http/auth_limits.go:25-46 | a trace that reaches 39 |
| `AuthLimits.PeerIsolation` | server/internal/master/transport/http/auth_limits.go:25-46 | the decisions for a peer on a mixed trace are those of a limiter that sees only its own calls, if and only if it always finds room |
| `HostStore.Store.RegisterAgent` | pkg/hostruntime/repository/memory/store.go:64-109 | the new tables as a function of the old; the returned snapshot is the stored one |
| `HostStore.Store.TenantCode` | pkg/hostruntime/repository/memory/store.go:71-77 | an assigned tenant wins over a requested one, a requested one over a fresh one |
| `HostStore.Store.Heartbeat` | pkg/hostruntime/repository/memory/store.go:111-163 | the new tables as a function of the old, with one point on each of sixteen series; nothing for an unknown host |
| `HostStore.Store.ReconcileOffline` | pkg/hostruntime/repository/memory/store.go:238-270 | marks exactly the overdue hosts, whatever the order, and returns how many |
| `HostStore.RecordReadings` | pkg/hostruntime/repository/memory/store.go:143-158 | the sixteen calls extend every series, each by its own reading |
| `HostStore.PruneMetricHistory` | pkg/hostruntime/repository/memory/store.go:365-375 | drops exactly the leading points that are older than an hour |
| `HostRuns.StatesAgree` | pkg/hostruntime/repository/memory/store.go:64-140 | in every run agent and overall state agree and each host is filed under its uid and tenant |
| `HostRuns.TenantNeverChanges` | pkg/hostruntime/repository/memory/store.go:71-100 | a host stays in the tenant it was first put in, whatever later registrations ask for |
| `HostRuns.VersionCountsChanges` | pkg/hostruntime/repository/memory/store.go:97-140 | the version of a host is the number of operations that changed it |
| `HostRuns.OfflineExactlyWhenSilent` | pkg/hostruntime/repository/memory/store.go:238-270 | with a nondecreasing clock, right after a reconciliation the offline hosts are those last seen more than 15 seconds ago; a second one changes nothing |
| `HostRuns.PrunedIsFilter` | pkg/hostruntime/repository/memory/store.go:365-375 | on an ordered series, dropping from the front keeps exactly the recent points |
| `HostRuns.SeriesIsRecentLog` | pkg/hostruntime/repository/memory/store.go:111-163 | with nondecreasing times each stored series is the whole heartbeat log cut to the last hour |
| `HostRuns.SeriesShareTimes` | pkg/hostruntime/repository/memory/store.go:143-158 | the series of a host are in order and share their timestamps |
| `MetricSeries.Slice.Append` | pkg/hostruntime/repository/memory/store.go:355-363 | appends in place or in a new array, never into an array owned by someone else |
| `MetricSeries.Slice.Record` | pkg/hostruntime/repository/memory/store.go:355-375 | one recorded point on a slice is the pruned extension of its contents |
| `MetricSeries.Slice.Clone` | pkg/hostruntime/repository/memory/store.go:333-341 | a new array with the same contents |
| `MetricSeries.CloneHistory` | pkg/hostruntime/repository/memory/store.go:343-353 | every series of a host is copied to an array of its own |
| `MetricSeries.CopySurvivesHeartbeats` | pkg/hostruntime/repository/memory/store.go:333-375 | a copy of a whole history handed out earlier is not altered by any number of later points on any of its series, however the arrays grow |
| `Mailboxes.CollectHosts` | pkg/hostruntime/repository/memory/store.go:304-314 | the values gathered in any order and sorted by their uids: exactly the hosts, in order, and for hosts filed under their own uids the one sorted list |
| `Mailboxes.ListIsCompleteAndSorted` | pkg/hostruntime/repository/memory/store.go:304-314 | the list has every host once, nothing else, ascending by uid |
| `Mailboxes.EveryDeliveryIsAPastState` | pkg/hostruntime/repository/memory/store.go:316-331 | in every interleaving a received list is that of a store state that has existed |
| `StoreMailboxes.EveryDeliveryIsACompleteList` | pkg/hostruntime/repository/memory/store.go:64-331 | in every interleaving of registrations, heartbeats, reconciliations, broadcasts, subscriptions and receipts, a received list has every host of the store after some first part of the operations, once, ascending by uid |
| `Mailboxes.NothingBlocks` | pkg/hostruntime/repository/memory/store.go:272-331 | in every reachable state each broadcast step makes progress and a new subscriber's first list finds room |
| `Mailboxes.UndisturbedBroadcastDelivers` | pkg/hostruntime/repository/memory/store.go:316-331 | if no other broadcast touches a channel meanwhile, a broadcast's list is afterwards in the channel or the last one received from it |
| `Mailboxes.LastDepositDecides` | pkg/hostruntime/repository/memory/store.go:272-331 | in every run, with broadcasts overlapping and overtaking at will, the state put into a channel last is what waits there or was received from it last, unless a broadcast has just emptied it to refill it |
| `Mailboxes.NewestExactlyWhenCurrent` | pkg/hostruntime/repository/memory/store.go:272-331 | in every run the watcher has the newest list if and only if the last state put into its channel is the current one |
| `Mailboxes.LatestDepositIsNewest` | pkg/hostruntime/repository/memory/store.go:272-331 | it has the newest list when the latest mutation's broadcast, or a later subscription, put its list in last |
| `Mailboxes.OverlapCanDropTheNewerList` | pkg/hostruntime/repository/memory/store.go:316-331 | a reachable run in which overlapping broadcasts leave the watcher with the older list |
| `Mailboxes.LateBroadcastCanReplaceTheNewerList` | pkg/hostruntime/repository/memory/store.go:316-331 | a reachable run without overlap in which a late older broadcast takes out the newer list |
| `MetricIdentity.MetricPointIdentity` | agent/internal/service/agent.go:237-248 | the identity does not depend on the order in which the labels are gathered |
| `MetricIdentity.IdentityInjective` | agent/internal/service/agent.go:237-248 | for points the server accepts, equal identities mean equal name and labels, and conversely |
| `MetricIdentity.UncheckedPointsCanCollide` | agent/internal/service/agent.go:237-248 | two different series with one identity, one of them with a label value the server refuses |
| `MetricDedup.AppendMetricPoints` | agent/internal/service/agent.go:218-235 | the loop computes `Appended`: the base and the extra points whose identity is new, stamped |
| `MetricDedup.ExactlyOnePerSeries` | agent/internal/service/agent.go:218-235 | on valid points with distinct base series: base first and unchanged, one point per name and label map, the first one offered, no series missing |
| `MetricValidation.CheckLabels` | server/internal/ingest/service/metric_validation.go:46-55 | decides validity of the labels and counts their bytes, whatever the order |
| `MetricValidation.CheckCollectors` | server/internal/ingest/service/metric_validation.go:58-81 | decides validity of all collector reports with the early stop on the running count of names |
| `MetricValidation.ValidateMetricBatch` | server/internal/ingest/service/metric_validation.go:27-86 | accepts exactly the batches that meet all limits, totals taken over the whole batch |
| `DigestRecovery.DigestFromMetricBatch` | server/internal/ingest/service/service.go:170-212 | each field is the converted value of the last point of its name, or zero |
| `DigestRecovery.BasePoints` | agent/internal/service/agent.go:111-129 | after the uptime one unlabelled point for each reading, in the fixed order |
| `DigestRecovery.DigestRecovered` | agent/internal/service/agent.go:109-147 | the server recovers the agent's reading of every metric whose name no labelled extra point bears, integers within 2^53 |
| `DigestRecovery.OverriddenExactly` | agent/internal/service/agent.go:111-130 | extra points under a reading's name survive de-duplication if and only if one of them is labelled |
| `DigestRecovery.RecoveredExactly` | server/internal/ingest/service/service.go:170-212 | the server's value equals the agent's reading if and only if no labelled extra point bears its name or the last such point that is no repetition converts to the same value |
| `DigestRecovery.CoreReplacesHostReading` | agent/internal/service/system_metrics_extended.go:156-165 | an input: one per-core CPU point with another value makes the server store that value as the host's CPU usage |
| `DigestRecovery.LabelledExtraDecides` | server/internal/ingest/service/service.go:170-212 | in that case the server's value is that of the last extra point of the name in the batch |
| `DiskCounters.NumberedPartitionOfDisk` | agent/internal/service/system_metrics_gopsutil.go:155-175 | a numbered partition (sd, vd, xvd, hd) belongs to the disk without its number, and the disk to itself |
| `DiskCounters.LetteredPartitionOfDisk` | agent/internal/service/system_metrics_gopsutil.go:155-175 | an NVMe or MMC partition belongs to the disk before the last p |
| `DiskCounters.SumDiskCounters` | agent/internal/service/system_metrics_gopsutil.go:117-153 | the totals are the sums over distinct disks of the largest counters, modulo 2^64, whatever the order of the map |
| `DiskCounters.LargestIsMaximum` | agent/internal/service/system_metrics_gopsutil.go:131-144 | the counter taken for a disk is attained and not exceeded |
| `DiskCounters.TotalsIgnoreOrder` | agent/internal/service/system_metrics_gopsutil.go:117-153 | the totals do not depend on order or repetition in the list |
| `DiskCounters.PartitionAddsNothing` | agent/internal/service/system_metrics_gopsutil.go:117-175 | a partition whose counter does not exceed its disk's leaves the total unchanged |
| `DiskCounters.PartitionBesideItsDisk` | agent/internal/service/system_metrics_gopsutil.go:117-190 | on Linux, listing /dev/sda1 (or /dev/nvme0n1p2) beside its disk leaves the total unchanged as long as it does not count more than the disk |
| `DiskCounters.DisksAreAdded` | agent/internal/service/system_metrics_gopsutil.go:146-152 | a further disk adds exactly its own counter |
| `Rates.PerSecond` | agent/internal/service/system_metrics_gopsutil.go:102-115 | a whole rate that leaves out less than one unit per second |
| `Rates.Sampler.Sample` | agent/internal/service/system_metrics_gopsutil.go:72-97 | the rates and the new baseline; without a reading the baseline stays |
| `Rates.BaselineIsOneSample` | agent/internal/service/system_metrics_gopsutil.go:72-97 | stored counters and time always come from one sample, the last that had a reading |
| `Rates.RatesConserveGrowth` | agent/internal/service/system_metrics_gopsutil.go:72-115 | over a reset-free run with increasing times the rates account for no more than the growth and for less than one unit per second short of it |
| `CollectorFanIn.UniqueMetricNames` | agent/internal/service/system_metrics_extended.go:613-624 | each name once, ascending |
| `CollectorFanIn.Assemble` | agent/internal/service/system_metrics_extended.go:72-101 | the second loop computes `Assembled` from the received results |
| `CollectorFanIn.OneStatusEach` | agent/internal/service/system_metrics_extended.go:76-92 | one status for every collector, in declared order |
| `CollectorFanIn.PointsExactlyFromAvailable` | agent/internal/service/system_metrics_extended.go:93-100 | a point is collected if and only if a collector that is not Unavailable delivered it |
| `CollectorFanIn.NoSendBlocks` | agent/internal/service/system_metrics_extended.go:49-68 | in every run, also after the deadline, a collector that finishes finds room in the channel |
| `CollectorFanIn.OutcomeDependsOnResultsOnly` | agent/internal/service/system_metrics_extended.go:34-102 | two runs that received the same results collect the same, whatever order and cut-off; a collector is available if and only if its non-empty result arrived |
| `HistoryMerge.MergeRefinesMap` | web/src/shared/features/hosts/model.ts:386-395 | merging a point is a map update cut to the window, listed in strictly ascending order |
| `HistoryMerge.MergesRefineMap` | web/src/shared/features/hosts/model.ts:372-399 | the same for any sequence of merges while the clock advances |
| `HistoryMerge.MergeIdempotent` | web/src/shared/features/hosts/model.ts:386-395 | merging a point again at the same time changes nothing |
| `HistoryMerge.MergeOrderIsIrrelevant` | web/src/shared/features/hosts/model.ts:386-395 | at a fixed time points with distinct timestamps may be merged in any order |
| `HistoryMerge.MergeLatestHistory` | web/src/shared/features/hosts/model.ts:355-399 | a metric with a usable new point is merged, every other one is left as it was |

## Left out

- The rest of the share store: audit rows, the listing of shares and the check of the demo principal. They add no new state that the theorems speak of.
- Deletion of hosts, users and tenants, and moving a user or host to another tenant: no code of the modelled files does so, and the environment of the share protocol does not either.
- How the recheck decides for signed-in users and for the demo reader: the account store is not part of this model, so that decision is arbitrary; what frames show and when they are checked is proved for all readers, what a passed check implies only for readers with a share session.
- Locks of other transactions on users and tenants: changes of these rows are single statements that wait for the modelled locks.
- Keep-alive lines of the stream: they carry no data. Failures to encode or write a frame are modelled as a hang-up.
- The semaphore of four login slots beside the attempt limiter.
- Configurations, maintenance windows and acknowledged alerts in the host store.
- Strings that are not valid UTF-8. Tables of Unicode letters and digits are a parameter that must be right for ASCII; lower-casing of disk names is ASCII only and path separators are `/`.
- Floating-point rounding and overflow of rates beyond 64 bits: quotients are exact; integers that pass through a float are exact up to 2^53 and arbitrary beyond.
- SHA-256 itself: a free constructor, that is, injective.
- The individual collectors: their results are arbitrary, under the collector's own name.
- History points in the browser whose stored timestamp does not parse, the normalisation of a whole history and the choice of points for a chart: easy members.
- Where the stream gets its hosts: the host list and the stored histories it reads are arbitrary arguments.
- The PostgreSQL host store, the Redis window and event bus, HTTP and gRPC plumbing, JSON, password hashing, request forgery tokens, the user interface, configuration and installation.
