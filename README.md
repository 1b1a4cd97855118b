# Ring coordination engine (Hank `Rings`), modelled in Dafny

Hank is a distributed key-value serving system. A *ring* is a group of serving hosts; each
host holds, per *domain* (a partitioned dataset), a list of partition replicas, each with a
partition number, a `deletable` flag and the domain-group version it was last updated to.
A *domain-group version* binds a version number to a collection of domain versions.

The `Rings` class answers questions about one snapshot of a ring, plus one command:

- which hosts hold a partition, which hosts are in a given state;
- which partition ids in `[0, numParts)` no host holds;
- whether the ring is *assigned* for a domain-group version (enough distinct ids per domain),
  or *up to date* with it (every non-deletable replica at that version, and enough distinct
  non-deletable ids per domain);
- which version is the most recent, whether an update is pending;
- folds of host-level statistics (update progress, serving status, runtime statistics) into
  ring-wide, per-host and per-domain aggregates;
- `commandAll`, which enqueues a command on every host. It is the one operation that changes state.

The model has four modules:

- `Coordinator` (`coordinator.dfy`): the snapshot entities. `Host` is a class whose
  `commandQueue` is mutable; its address, state and per-domain partitions are constants of
  the snapshot. `Ring`, `Domain`, `DomainGroupVersion`, `HostDomain` and
  `HostDomainPartition` are datatypes. A Java `null` is `None`.
- `Rings` (`rings.dfy`): specification functions (`AssignedIds`, `LiveIds`, `AllAtVersion`,
  `Assigned`, `UpToDate`, ...). Each Java loop is a method proved equal to them, with lemmas
  relating the two verdicts and the unassigned set.
- `Aggregation` (`aggregation.dfy`): an aggregator type is an abstract value type with a
  `zero` (a freshly constructed aggregator) and a `combine` (`aggregate`/`add`). `Fold` is
  aggregation over a sequence and `SumOver` is aggregation over a map in no particular order.
  Also here: order independence of both, and `Regroup` (total = total of group totals).
- `RingStatistics` (`ring_statistics.dfy`): the four statistics operations and the two folds
  over hosts. The host-level `Hosts.*` primitives are function parameters.

The hash-map loops pick entries with `:|`, so the proofs hold for every iteration order.

The cardinality tests at `Rings.java:136` and `Rings.java:178` compare a count of distinct
ids with `numParts`. They amount to "every id in `[0, numParts)` is held" only when every
held id lies in that range (`CountIsCoverage`, `AssignedIffNothingUnassigned`). Two concrete
scenarios show what happens otherwise:

- `CountWithoutCoverage`: ids `{0, 7}` of a two-partition domain pass both tests while
  partition 1 is held by nobody.
- `UpToDateWithoutAssigned`: a deletable replica with an out-of-range id makes a ring up to
  date but not assigned.

So "up to date implies assigned" is proved under the range hypothesis only
(`UpToDateImpliesAssigned`).

Where the documentation and the code differ, the model follows the code. A version whose
domain-version collection is empty (not null) is reported up to date, because the loop at
`Rings.java:157` has nothing to reject and `Rings.java:182` returns true. The ensures of
`IsUpToDate` states this case outright.

## Model

| member | source | states |
|---|---|---|
| Coordinator.Host.GetHostDomain | src/java/com/rapleaf/hank/coordinator/Rings.java:100-103 | a host's entry for a domain is present exactly when the host has that domain (absent is the null the callers test) |
| Coordinator.Host.EnqueueCommand | src/java/com/rapleaf/hank/coordinator/Rings.java:35 | an accepted write appends the command to the queue; a rejected write (the IOException) leaves the queue unchanged and is reported |
| Coordinator.Ring.UpdatingToVersionNumber | src/java/com/rapleaf/hank/coordinator/Rings.java:82 | the number of the version being updated to is present exactly when that version is, and is its version number |
| Coordinator.PartitionRange | src/java/com/rapleaf/hank/coordinator/Rings.java:95-97 | the ids filled in are exactly 0 .. numParts - 1, numParts of them, none for numParts <= 0 |
| Rings.FirstRejection | src/java/com/rapleaf/hank/coordinator/Rings.java:34-36 | the index where commandAll stops: every earlier write was accepted and the write there was rejected, or all were accepted |
| Rings.CommandAll | src/java/com/rapleaf/hank/coordinator/Rings.java:33-37 | hosts before the first rejected enqueue have the command appended, all later hosts are untouched, and the outcome is Pass exactly when no write was rejected, else Fail at that host |
| Rings.GetHostsForDomainPartition | src/java/com/rapleaf/hank/coordinator/Rings.java:48-60 | a host is in the result iff it is in the ring and its entry for the domain has a partition with that number, deletable or not |
| Rings.GetHostsInState | src/java/com/rapleaf/hank/coordinator/Rings.java:71-79 | a host is in the result iff it is in the ring and in the requested state |
| Rings.IsUpdatePending | src/java/com/rapleaf/hank/coordinator/Rings.java:81-83 | an update is pending iff the ring has a version it is updating to |
| Rings.GetMostRecentVersion | src/java/com/rapleaf/hank/coordinator/Rings.java:194-202 | the updating-to version when an update is pending, else the current version; none iff the ring has neither |
| Rings.AllPartitions | src/java/com/rapleaf/hank/coordinator/Rings.java:94-97 | the pre-filled set is exactly the id range of the domain |
| Rings.RemovePartitionNumbers | src/java/com/rapleaf/hank/coordinator/Rings.java:104-106 | removing one host's partitions takes exactly that host's partition numbers out of the set |
| Rings.GetUnassignedPartitions | src/java/com/rapleaf/hank/coordinator/Rings.java:93-110 | the result is the id range minus the ids held by any host; an id is in it iff it is in [0, numParts) and no host holds it, hosts without the domain contributing nothing |
| Rings.UnassignedMembership | src/java/com/rapleaf/hank/coordinator/Rings.java:93-110 | an id is unassigned iff it is in range and held by no host of the ring |
| Rings.AssignedIdsMembership | src/java/com/rapleaf/hank/coordinator/Rings.java:126-134 | an id is among the accumulated assigned ids iff some host of the ring holds a partition with that number |
| Rings.CollectAssignedIds | src/java/com/rapleaf/hank/coordinator/Rings.java:126-134 | the loop collects exactly the assigned ids of the domain, deletable replicas included |
| Rings.IsAssigned | src/java/com/rapleaf/hank/coordinator/Rings.java:121-141 | true iff for every referenced domain the number of distinct assigned ids equals numParts |
| Rings.AssignedIdsInRange | src/java/com/rapleaf/hank/coordinator/Rings.java:126-134 | when every held id is in range, the assigned ids are a subset of [0, numParts) |
| Rings.CountIsCoverage | src/java/com/rapleaf/hank/coordinator/Rings.java:136 | for ids within [0, n), having n distinct ids is the same as covering the whole range |
| Rings.AssignedIffNothingUnassigned | src/java/com/rapleaf/hank/coordinator/Rings.java:121-141 | with ids in range, isAssigned holds iff getUnassignedPartitions is empty for every referenced domain |
| Rings.LiveIdsMembership | src/java/com/rapleaf/hank/coordinator/Rings.java:161-176 | an id is among the accumulated live ids iff some host holds a non-deletable partition with that number |
| Rings.LiveIdsAreAssigned | src/java/com/rapleaf/hank/coordinator/Rings.java:164-172 | the ids isUpToDate counts are among those isAssigned counts |
| Rings.AddLiveIdsAtVersion | src/java/com/rapleaf/hank/coordinator/Rings.java:164-174 | one host's scan fails iff some non-deletable partition has no version or another version; otherwise it adds exactly that host's non-deletable ids |
| Rings.CollectLiveIdsAtVersion | src/java/com/rapleaf/hank/coordinator/Rings.java:161-176 | the scan over all hosts fails iff some non-deletable partition of the domain is not at the version; otherwise it yields exactly the live ids |
| Rings.IsUpToDate | src/java/com/rapleaf/hank/coordinator/Rings.java:152-183 | false for a missing version or collection; otherwise true iff every referenced domain has all non-deletable replicas at the version and as many distinct live ids as partitions; an empty collection yields true |
| Rings.UpToDateImpliesAssigned | src/java/com/rapleaf/hank/coordinator/Rings.java:152-183 | with ids in range, a ring up to date for a version is also assigned for it |
| Rings.SingleHostVerdicts | src/java/com/rapleaf/hank/coordinator/Rings.java:121-183 | on a one-host ring and one domain, isAssigned and isUpToDate reduce to that host's counts and version check |
| Rings.CountWithoutCoverage | src/java/com/rapleaf/hank/coordinator/Rings.java:136 | ids 0 and 7 of a two-partition domain pass both cardinality tests while partition 1 is unassigned |
| Rings.UpToDateWithoutAssigned | src/java/com/rapleaf/hank/coordinator/Rings.java:178 | a deletable replica with an out-of-range id yields a ring that is up to date but not assigned |
| Aggregation.FoldAppend | src/java/com/rapleaf/hank/coordinator/Rings.java:187-191 | for a commutative monoid, aggregating a concatenation is combining the two aggregates |
| Aggregation.FoldPermutation | src/java/com/rapleaf/hank/coordinator/Rings.java:188-190 | for a commutative monoid, the order in which values are aggregated does not change the result |
| Aggregation.SumOverRemove | src/java/com/rapleaf/hank/coordinator/Rings.java:226-230 | the unordered sum over a map may take any entry last: hash-map iteration order does not matter |
| Aggregation.SumOverAdd | src/java/com/rapleaf/hank/coordinator/Rings.java:228 | adding a fresh entry to a map combines its value into the sum |
| Aggregation.GroupKeysAdd | src/java/com/rapleaf/hank/coordinator/Rings.java:250-254 | adding an entry adds exactly its group to the groups present |
| Aggregation.GroupAtAdded | src/java/com/rapleaf/hank/coordinator/Rings.java:250-255 | the new entry's group aggregate becomes the old one (or zero for a new group) combined with its value |
| Aggregation.GroupAtOther | src/java/com/rapleaf/hank/coordinator/Rings.java:250-255 | every other group keeps its aggregate |
| Aggregation.Regroup | src/java/com/rapleaf/hank/coordinator/Rings.java:223-259 | summing all entries equals summing the per-group aggregates |
| RingStatistics.PerHost | src/java/com/rapleaf/hank/coordinator/Rings.java:188-189 | one host-level value per host, in visiting order |
| RingStatistics.PerHostPermutation | src/java/com/rapleaf/hank/coordinator/Rings.java:188 | visiting the same hosts in another order yields the same values in another order |
| RingStatistics.HostOrderIrrelevant | src/java/com/rapleaf/hank/coordinator/Rings.java:185-211 | the ring aggregate does not depend on the order the host set is iterated in |
| RingStatistics.AggregateOverHosts | src/java/com/rapleaf/hank/coordinator/Rings.java:187-191 | the loop leaves a fresh aggregator combined with every host's value in order |
| RingStatistics.ComputeUpdateProgress | src/java/com/rapleaf/hank/coordinator/Rings.java:185-192 | the ring's update progress is the aggregate of every host's progress towards the version |
| RingStatistics.ComputeServingStatusAggregator | src/java/com/rapleaf/hank/coordinator/Rings.java:204-211 | the ring's serving status is the aggregate of every host's serving status for the version |
| RingStatistics.ComputeRuntimeStatistics | src/java/com/rapleaf/hank/coordinator/Rings.java:213-221 | the result has a key iff the host is in the ring, mapped to that host's statistics |
| RingStatistics.EntriesMembership | src/java/com/rapleaf/hank/coordinator/Rings.java:226-229 | a (host, domain) entry is visited iff the host has statistics for the domain, with that value |
| RingStatistics.EntriesAdd | src/java/com/rapleaf/hank/coordinator/Rings.java:227-228 | visiting one more inner entry adds exactly that (host, domain) pair |
| RingStatistics.EntriesStartHost | src/java/com/rapleaf/hank/coordinator/Rings.java:226-227 | starting on a new host visits no entry yet |
| RingStatistics.AddHostToRingTotal | src/java/com/rapleaf/hank/coordinator/Rings.java:227-229 | the inner loop adds exactly one host's aggregators to the running total |
| RingStatistics.ComputeRuntimeStatisticsForRing | src/java/com/rapleaf/hank/coordinator/Rings.java:223-232 | the ring total is the unordered sum of every (host, domain) aggregator |
| RingStatistics.ComputeRuntimeStatisticsForHost | src/java/com/rapleaf/hank/coordinator/Rings.java:234-242 | a fresh aggregator (zero) for a host without statistics, else the host-level total of its map |
| RingStatistics.AddToGroup | src/java/com/rapleaf/hank/coordinator/Rings.java:250-255 | the per-domain step: the entry's domain gets its aggregator (fresh if missing) combined with the value; other domains unchanged |
| RingStatistics.AddHostToDomainTotals | src/java/com/rapleaf/hank/coordinator/Rings.java:249-256 | the inner loop adds exactly one host's aggregators to their domains' totals |
| RingStatistics.ComputeRuntimeStatisticsForDomains | src/java/com/rapleaf/hank/coordinator/Rings.java:244-259 | one aggregator per domain, equal to the sum of that domain's aggregators over all hosts |
| RingStatistics.DomainsReported | src/java/com/rapleaf/hank/coordinator/Rings.java:248-254 | a domain has an aggregator in the per-domain view iff some host reports statistics for it |
| RingStatistics.RingTotalIsSumOfDomainTotals | src/java/com/rapleaf/hank/coordinator/Rings.java:223-259 | the ring total equals the sum of the per-domain totals |

## Left out

- HostState and HostCommand are enums defined outside `Rings.java`. HostState is modelled with four constants and HostCommand as an opaque named value. The engine only compares or forwards them.
- IOException from reading the coordination store is not modelled: reads always succeed. Only the command write in `commandAll` can fail, through the `accepts` parameter.
- The `Hosts.*` primitives (update progress, serving status, runtime statistics) are function parameters, and the `Coordinator` argument of `computeRuntimeStatistics` is folded into the `hostStatistics` parameter. The aggregator classes are abstract values with `zero` and `combine`.
- IsCommutativeMonoid is a hypothesis of ComputeRuntimeStatisticsForRing, ComputeRuntimeStatisticsForDomains and the order-independence lemmas. The aggregator classes are not part of this model, so their laws are assumed, not proved.
- ComputeRuntimeStatisticsForDomains returns a plain map: the ordering by domain of the source's sorted map is not modelled.
- The aggregator already stored in the per-domain map is updated in place by `add`. The model stores the combined value instead, which is the same observable result when no other reference to that aggregator exists.
- Hash-set and hash-map results are Dafny sets and maps. The ring's host collection is a sequence; `DistinctHosts` states that it has no duplicates, as a set does.
- GetHostsForDomainPartition: requires every host to have an entry for the domain, because the source dereferences the entry without a null check.
- IsAssigned: takes a present version and requires its domain-version collection, because the source dereferences both without a null check.
- UpToDateImpliesAssigned: proved only when every held id lies in `[0, numParts)`; UpToDateWithoutAssigned shows it fails otherwise.
- The version comparison at `Rings.java:169` is modelled as numeric equality. The declared type of `getVersionNumber` is not part of this model.
- The loops over one host's partitions or map entries are separate methods (AddLiveIdsAtVersion, AddHostToRingTotal, AddHostToDomainTotals) rather than nested inline. They keep the source's order and early exits.
