/** The ring coordination engine's queries over a ring snapshot: which hosts hold what,
    which partitions nobody holds, whether a ring is assigned or up to date for a
    domain-group version, which version is the most recent; and commandAll, the one
    operation that changes state. */
module Rings {
  import opened Coordinator

  // ---------------------------------------------------------------------------------------
  // Specification functions

  /** Host `h` holds partition `p` of `domain`, deletable or not. */
  predicate HoldsPartition(h: Host, domain: Domain, p: int) {
    domain in h.hostDomains && p in PartitionNumbers(h.hostDomains[domain])
  }

  /** Host `h` holds partition `p` of `domain` as a non-deletable replica. */
  predicate HoldsLivePartition(h: Host, domain: Domain, p: int) {
    domain in h.hostDomains && p in NonDeletableNumbers(h.hostDomains[domain])
  }

  /** The partition numbers of `domain` on one host; a host without the domain has none. */
  function HostIds(h: Host, domain: Domain): set<int> {
    if domain in h.hostDomains then PartitionNumbers(h.hostDomains[domain]) else {}
  }

  /** The partition numbers of `domain` held by the hosts, accumulated host by host. */
  function AssignedIds(hosts: seq<Host>, domain: Domain): set<int>
    decreases |hosts|
  {
    if hosts == [] then {}
    else AssignedIds(hosts[..|hosts| - 1], domain) + HostIds(hosts[|hosts| - 1], domain)
  }

  /** The numbers of `domain`'s non-deletable partitions on one host. */
  function HostLiveIds(h: Host, domain: Domain): set<int> {
    if domain in h.hostDomains then NonDeletableNumbers(h.hostDomains[domain]) else {}
  }

  /** The numbers of `domain`'s non-deletable partitions held by the hosts. */
  function LiveIds(hosts: seq<Host>, domain: Domain): set<int>
    decreases |hosts|
  {
    if hosts == [] then {}
    else LiveIds(hosts[..|hosts| - 1], domain) + HostLiveIds(hosts[|hosts| - 1], domain)
  }

  /** Every non-deletable partition of `domain` on the hosts records `version`. */
  predicate AllAtVersion(hosts: seq<Host>, domain: Domain, version: int) {
    forall h :: h in hosts && domain in h.hostDomains ==> PartitionsAtVersion(h.hostDomains[domain].partitions, version)
  }

  /** Every non-deletable partition in `parts` records `version`. */
  predicate PartitionsAtVersion(parts: seq<HostDomainPartition>, version: int) {
    forall p :: p in parts && !p.deletable ==> p.currentDomainGroupVersion == Some(version)
  }

  /** isAssigned's test for one domain: as many distinct ids as the domain has partitions. */
  predicate DomainAssigned(hosts: seq<Host>, domain: Domain) {
    |AssignedIds(hosts, domain)| == domain.numParts
  }

  /** isAssigned's answer: every referenced domain passes the test. */
  predicate Assigned(hosts: seq<Host>, domainVersions: seq<DomainVersion>) {
    forall k :: 0 <= k < |domainVersions| ==> DomainAssigned(hosts, domainVersions[k].domain)
  }

  /** isUpToDate's test for one domain: versions all match and the live ids are as many as the
      domain's partitions. */
  predicate DomainUpToDate(hosts: seq<Host>, domain: Domain, version: int) {
    AllAtVersion(hosts, domain, version) && |LiveIds(hosts, domain)| == domain.numParts
  }

  /** isUpToDate's answer. A missing version or a missing domain-version collection is never
      up to date; an empty collection is. */
  predicate UpToDate(hosts: seq<Host>, dgv: Option<DomainGroupVersion>) {
    && dgv.Some?
    && dgv.value.domainVersions.Some?
    && forall k :: 0 <= k < |dgv.value.domainVersions.value| ==>
         DomainUpToDate(hosts, dgv.value.domainVersions.value[k].domain, dgv.value.versionNumber)
  }

  /** Every partition number of `domain` on the hosts lies in [0, numParts): the data model's
      invariant on partition numbers. */
  ghost predicate IdsInRange(hosts: seq<Host>, domain: Domain) {
    forall h, i :: h in hosts && HoldsPartition(h, domain, i) ==> 0 <= i < domain.numParts
  }

  /** The index of the first host whose enqueue the store rejects, or |accepts| if none does. */
  function FirstRejection(accepts: seq<bool>): (k: nat)
    ensures k <= |accepts|
    ensures forall i :: 0 <= i < k ==> accepts[i]
    ensures k < |accepts| ==> !accepts[k]
  {
    if accepts == [] || !accepts[0] then 0 else 1 + FirstRejection(accepts[1..])
  }

  // ---------------------------------------------------------------------------------------
  // Lemmas on the specification

  /** The accumulated id set is exactly the ids some host holds. */
  lemma {:induction false} AssignedIdsMembership(hosts: seq<Host>, domain: Domain, i: int)
    ensures i in AssignedIds(hosts, domain) <==> exists h :: h in hosts && HoldsPartition(h, domain, i)
    decreases |hosts|
  {
    if hosts != [] {
      var init, last := hosts[..|hosts| - 1], hosts[|hosts| - 1];
      assert hosts == init + [last];
      AssignedIdsMembership(init, domain, i);
      if i in HostIds(last, domain) {
        assert HoldsPartition(last, domain, i);
      }
      if exists h :: h in hosts && HoldsPartition(h, domain, i) {
        var h :| h in hosts && HoldsPartition(h, domain, i);
        assert h in init || h == last;
      }
    }
  }

  /** The accumulated live id set is exactly the ids some host holds as a live replica. */
  lemma {:induction false} LiveIdsMembership(hosts: seq<Host>, domain: Domain, i: int)
    ensures i in LiveIds(hosts, domain) <==> exists h :: h in hosts && HoldsLivePartition(h, domain, i)
    decreases |hosts|
  {
    if hosts != [] {
      var init, last := hosts[..|hosts| - 1], hosts[|hosts| - 1];
      assert hosts == init + [last];
      LiveIdsMembership(init, domain, i);
      if i in HostLiveIds(last, domain) {
        assert HoldsLivePartition(last, domain, i);
      }
      if exists h :: h in hosts && HoldsLivePartition(h, domain, i) {
        var h :| h in hosts && HoldsLivePartition(h, domain, i);
        assert h in init || h == last;
      }
    }
  }

  /** Live replicas are replicas: the ids isUpToDate counts are among those isAssigned counts. */
  lemma {:induction false} LiveIdsAreAssigned(hosts: seq<Host>, domain: Domain)
    ensures LiveIds(hosts, domain) <= AssignedIds(hosts, domain)
    decreases |hosts|
  {
    if hosts != [] {
      var last := hosts[|hosts| - 1];
      LiveIdsAreAssigned(hosts[..|hosts| - 1], domain);
      assert HostLiveIds(last, domain) <= HostIds(last, domain);
    }
  }

  /** With every id in range, counting `numParts` distinct ids is the same as covering the
      whole range: the cardinality test stands in for set equality. */
  lemma CountIsCoverage(ids: set<int>, n: int)
    requires ids <= PartitionRange(n)
    requires 0 <= n
    ensures |ids| == n <==> ids == PartitionRange(n)
  {
    var range := PartitionRange(n);
    if |ids| == n {
      assert |range - ids| + |ids| == |range|;
      assert |range - ids| == 0;
      assert range - ids == {};
    }
  }

  /** In range, the accumulated ids are a subset of the partition range. */
  lemma AssignedIdsInRange(hosts: seq<Host>, domain: Domain)
    requires IdsInRange(hosts, domain)
    ensures AssignedIds(hosts, domain) <= PartitionRange(domain.numParts)
  {
    forall i | i in AssignedIds(hosts, domain)
      ensures 0 <= i < domain.numParts
    {
      AssignedIdsMembership(hosts, domain, i);
    }
  }

  /** With ids in range and non-negative partition counts, isAssigned holds exactly when
      getUnassignedPartitions is empty for every referenced domain. */
  lemma AssignedIffNothingUnassigned(hosts: seq<Host>, domainVersions: seq<DomainVersion>)
    requires forall k :: 0 <= k < |domainVersions| ==>
               IdsInRange(hosts, domainVersions[k].domain) && 0 <= domainVersions[k].domain.numParts
    ensures Assigned(hosts, domainVersions) <==>
            forall k :: 0 <= k < |domainVersions| ==>
              PartitionRange(domainVersions[k].domain.numParts) - AssignedIds(hosts, domainVersions[k].domain) == {}
  {
    forall k | 0 <= k < |domainVersions|
      ensures DomainAssigned(hosts, domainVersions[k].domain) <==>
              PartitionRange(domainVersions[k].domain.numParts) - AssignedIds(hosts, domainVersions[k].domain) == {}
    {
      var domain := domainVersions[k].domain;
      AssignedIdsInRange(hosts, domain);
      CountIsCoverage(AssignedIds(hosts, domain), domain.numParts);
    }
  }

  /** With ids in range, a ring up to date for a version is assigned for it. */
  lemma UpToDateImpliesAssigned(hosts: seq<Host>, dgv: DomainGroupVersion)
    requires UpToDate(hosts, Some(dgv))
    requires forall k :: 0 <= k < |dgv.domainVersions.value| ==> IdsInRange(hosts, dgv.domainVersions.value[k].domain)
    ensures Assigned(hosts, dgv.domainVersions.value)
  {
    var dvs := dgv.domainVersions.value;
    forall k | 0 <= k < |dvs|
      ensures DomainAssigned(hosts, dvs[k].domain)
    {
      var domain := dvs[k].domain;
      var n := domain.numParts;
      assert DomainUpToDate(hosts, domain, dgv.versionNumber);
      LiveIdsAreAssigned(hosts, domain);
      AssignedIdsInRange(hosts, domain);
      CountIsCoverage(LiveIds(hosts, domain), n);
      CountIsCoverage(AssignedIds(hosts, domain), n);
    }
  }

  /** An id is unassigned exactly when it is in range and no host holds it. */
  lemma UnassignedMembership(hosts: seq<Host>, domain: Domain)
    ensures forall i :: i in PartitionRange(domain.numParts) - AssignedIds(hosts, domain) <==>
              0 <= i < domain.numParts && forall h :: h in hosts ==> !HoldsPartition(h, domain, i)
  {
    forall i ensures i in AssignedIds(hosts, domain) <==> exists h :: h in hosts && HoldsPartition(h, domain, i) {
      AssignedIdsMembership(hosts, domain, i);
    }
  }

  /** Appending a partition adds its number to an entry's numbers. */
  lemma NumbersAppend(parts: seq<HostDomainPartition>, p: HostDomainPartition)
    ensures PartitionNumbers(HostDomain(parts + [p])) == PartitionNumbers(HostDomain(parts)) + {p.partitionNumber}
    ensures NonDeletableNumbers(HostDomain(parts + [p])) ==
              NonDeletableNumbers(HostDomain(parts)) + (if p.deletable then {} else {p.partitionNumber})
  {
  }

  /** The numbers of one more prefix of a host's partitions. */
  lemma NumbersPrefixStep(parts: seq<HostDomainPartition>, j: nat)
    requires j < |parts|
    ensures PartitionNumbers(HostDomain(parts[..j + 1])) ==
              PartitionNumbers(HostDomain(parts[..j])) + {parts[j].partitionNumber}
    ensures NonDeletableNumbers(HostDomain(parts[..j + 1])) ==
              NonDeletableNumbers(HostDomain(parts[..j])) + (if parts[j].deletable then {} else {parts[j].partitionNumber})
  {
    assert parts[..j + 1] == parts[..j] + [parts[j]];
    NumbersAppend(parts[..j], parts[j]);
  }

  /** One more partition scanned: the version check extends the prefix's. */
  lemma PartitionsAtVersionStep(parts: seq<HostDomainPartition>, j: nat, version: int)
    requires j < |parts|
    ensures PartitionsAtVersion(parts[..j + 1], version) <==>
              PartitionsAtVersion(parts[..j], version) &&
              (parts[j].deletable || parts[j].currentDomainGroupVersion == Some(version))
  {
    assert parts[..j + 1] == parts[..j] + [parts[j]];
  }

  /** One more host visited: its live ids join the collected ones, and its version check
      extends the prefix's. */
  lemma HostStep(hosts: seq<Host>, k: nat, domain: Domain, version: int)
    requires k < |hosts|
    ensures LiveIds(hosts[..k + 1], domain) == LiveIds(hosts[..k], domain) + HostLiveIds(hosts[k], domain)
    ensures AllAtVersion(hosts[..k + 1], domain, version) <==>
              AllAtVersion(hosts[..k], domain, version) && AllAtVersion([hosts[k]], domain, version)
  {
    assert hosts[..k + 1] == hosts[..k] + [hosts[k]];
  }

  /** The range grows by its upper end. */
  lemma PartitionRangeStep(i: nat)
    ensures PartitionRange(i + 1) == PartitionRange(i) + {i}
  {
  }

  // ---------------------------------------------------------------------------------------
  // Scenarios: why the range hypothesis above is needed

  /** A ring of one host holds what that host holds. */
  lemma SingleHost(h: Host, domain: Domain)
    ensures AssignedIds([h], domain) == HostIds(h, domain)
    ensures LiveIds([h], domain) == HostLiveIds(h, domain)
  {
    assert [h][..0] == [];
  }

  /** isAssigned's and isUpToDate's answers on a ring of one host, for one domain. */
  lemma SingleHostVerdicts(h: Host, d: Domain, v: int)
    requires d in h.hostDomains
    ensures Assigned([h], [DomainVersion(d, 0)]) <==> |PartitionNumbers(h.hostDomains[d])| == d.numParts
    ensures UpToDate([h], Some(DomainGroupVersion(v, Some([DomainVersion(d, 0)])))) <==>
              PartitionsAtVersion(h.hostDomains[d].partitions, v) && |NonDeletableNumbers(h.hostDomains[d])| == d.numParts
  {
    SingleHost(h, d);
    var dvs := [DomainVersion(d, 0)];
    assert dvs[0].domain == d;
    assert Assigned([h], dvs) <==> DomainAssigned([h], d);
    assert AllAtVersion([h], d, v) <==> PartitionsAtVersion(h.hostDomains[d].partitions, v);
    assert UpToDate([h], Some(DomainGroupVersion(v, Some(dvs)))) <==> DomainUpToDate([h], d, v);
  }

  /** The numbers and the version check of an entry with two partitions. */
  lemma TwoPartitions(p: HostDomainPartition, q: HostDomainPartition, v: int)
    ensures PartitionNumbers(HostDomain([p, q])) == {p.partitionNumber, q.partitionNumber}
    ensures NonDeletableNumbers(HostDomain([p, q])) ==
              (if p.deletable then {} else {p.partitionNumber}) + (if q.deletable then {} else {q.partitionNumber})
    ensures PartitionsAtVersion([p, q], v) <==>
              (p.deletable || p.currentDomainGroupVersion == Some(v)) && (q.deletable || q.currentDomainGroupVersion == Some(v))
  {
    var parts := [p, q];
    assert p == parts[0] && q == parts[1];
    assert forall x :: x in parts <==> x == p || x == q;
  }

  /** A host holding ids 0 and 7 of a two-partition domain: isAssigned and isUpToDate hold,
      yet partition 1 is held by nobody. */
  lemma CountWithoutCoverage(h: Host, d: Domain, v: int)
    requires d.numParts == 2
    requires h.hostDomains == map[d := HostDomain([HostDomainPartition(0, false, Some(v)), HostDomainPartition(7, false, Some(v))])]
    ensures Assigned([h], [DomainVersion(d, 0)])
    ensures UpToDate([h], Some(DomainGroupVersion(v, Some([DomainVersion(d, 0)]))))
    ensures PartitionRange(d.numParts) - AssignedIds([h], d) == {1}
  {
    SingleHost(h, d);
    SingleHostVerdicts(h, d, v);
    TwoPartitions(HostDomainPartition(0, false, Some(v)), HostDomainPartition(7, false, Some(v)), v);
    assert |{0, 7}| == 2;
    PartitionRangeStep(0);
    PartitionRangeStep(1);
  }

  /** A ring up to date for a one-partition domain but not assigned for it: a deletable replica
      with an out-of-range id adds to isAssigned's count and not to isUpToDate's. */
  lemma UpToDateWithoutAssigned(h: Host, d: Domain, v: int)
    requires d.numParts == 1
    requires h.hostDomains == map[d := HostDomain([HostDomainPartition(0, false, Some(v)), HostDomainPartition(5, true, None)])]
    ensures UpToDate([h], Some(DomainGroupVersion(v, Some([DomainVersion(d, 0)]))))
    ensures !Assigned([h], [DomainVersion(d, 0)])
  {
    SingleHostVerdicts(h, d, v);
    TwoPartitions(HostDomainPartition(0, false, Some(v)), HostDomainPartition(5, true, None), v);
    assert |{0, 5}| == 2;
  }

  // ---------------------------------------------------------------------------------------
  // Operations

  /** Enqueues `command` on every host in turn. `accepts[k]` is the coordination store's
      answer to the write at the k-th host; the first rejection aborts the rest, and the hosts
      already commanded keep their command. */
  method CommandAll(ring: Ring, command: HostCommand, accepts: seq<bool>) returns (outcome: Outcome)
    requires DistinctHosts(ring.hosts)
    requires |accepts| == |ring.hosts|
    modifies set h | h in ring.hosts
    ensures outcome == if FirstRejection(accepts) == |accepts| then Pass else Fail(FirstRejection(accepts))
    ensures forall i :: 0 <= i < |ring.hosts| ==>
              ring.hosts[i].commandQueue ==
                if i < FirstRejection(accepts) then old(ring.hosts[i].commandQueue) + [command]
                else old(ring.hosts[i].commandQueue)
  {
    var k := 0;
    while k < |ring.hosts|
      invariant 0 <= k <= |ring.hosts|
      invariant forall i :: 0 <= i < k ==> accepts[i]
      invariant forall i :: 0 <= i < |ring.hosts| ==>
                  ring.hosts[i].commandQueue ==
                    if i < k then old(ring.hosts[i].commandQueue) + [command]
                    else old(ring.hosts[i].commandQueue)
    {
      var ok := ring.hosts[k].EnqueueCommand(command, accepts[k]);
      if !ok {
        return Fail(k);
      }
      k := k + 1;
    }
    return Pass;
  }

  /** The hosts whose entry for `domain` holds partition `partition`, deletable or not. Like
      the source, it reads every host's entry for the domain without a null check. */
  method GetHostsForDomainPartition(ring: Ring, domain: Domain, partition: int) returns (results: set<Host>)
    requires forall h :: h in ring.hosts ==> domain in h.hostDomains
    ensures forall h :: h in results <==> h in ring.hosts && HoldsPartition(h, domain, partition)
  {
    results := {};
    var k := 0;
    while k < |ring.hosts|
      invariant 0 <= k <= |ring.hosts|
      invariant forall h :: h in results <==> h in ring.hosts[..k] && HoldsPartition(h, domain, partition)
    {
      var host := ring.hosts[k];
      var domainById := host.hostDomains[domain];
      var j := 0;
      while j < |domainById.partitions|
        invariant 0 <= j <= |domainById.partitions|
        invariant forall q :: 0 <= q < j ==> domainById.partitions[q].partitionNumber != partition
        invariant forall h :: h in results <==> h in ring.hosts[..k] && HoldsPartition(h, domain, partition)
      {
        if domainById.partitions[j].partitionNumber == partition {
          results := results + {host};
          break;
        }
        j := j + 1;
      }
      assert ring.hosts[..k + 1] == ring.hosts[..k] + [host];
      k := k + 1;
    }
    assert ring.hosts[..k] == ring.hosts;
  }

  /** The hosts in state `state`. */
  method GetHostsInState(ring: Ring, state: HostState) returns (results: set<Host>)
    ensures forall h :: h in results <==> h in ring.hosts && h.state == state
  {
    results := {};
    var k := 0;
    while k < |ring.hosts|
      invariant 0 <= k <= |ring.hosts|
      invariant forall h :: h in results <==> h in ring.hosts[..k] && h.state == state
    {
      var host := ring.hosts[k];
      if host.state == state {
        results := results + {host};
      }
      assert ring.hosts[..k + 1] == ring.hosts[..k] + [host];
      k := k + 1;
    }
    assert ring.hosts[..k] == ring.hosts;
  }

  /** An update is pending exactly when the ring records a version it is updating to. */
  function IsUpdatePending(ring: Ring): (pending: bool)
    ensures pending <==> ring.updatingToVersion.Some?
  {
    ring.UpdatingToVersionNumber() != None
  }

  /** The version being updated to if there is one, else the current version, else none. */
  function GetMostRecentVersion(ring: Ring): (r: Option<DomainGroupVersion>)
    ensures IsUpdatePending(ring) ==> r == ring.updatingToVersion
    ensures !IsUpdatePending(ring) ==> r == ring.currentVersion
    ensures r.None? <==> ring.updatingToVersion.None? && ring.currentVersion.None?
  {
    if ring.updatingToVersion.Some? then ring.updatingToVersion
    else if ring.currentVersion.Some? then ring.currentVersion
    else None
  }

  /** The ids in [0, numParts) that no host holds for `domain`; hosts without the domain are
      skipped. */
  method GetUnassignedPartitions(ring: Ring, domain: Domain) returns (unassigned: set<int>)
    ensures unassigned == PartitionRange(domain.numParts) - AssignedIds(ring.hosts, domain)
    ensures forall i :: i in unassigned <==>
              0 <= i < domain.numParts && forall h :: h in ring.hosts ==> !HoldsPartition(h, domain, i)
  {
    unassigned := AllPartitions(domain.numParts);
    var k := 0;
    while k < |ring.hosts|
      invariant 0 <= k <= |ring.hosts|
      invariant unassigned == PartitionRange(domain.numParts) - AssignedIds(ring.hosts[..k], domain)
    {
      var hc := ring.hosts[k];
      var hdc := hc.GetHostDomain(domain);
      if hdc.Some? {
        unassigned := RemovePartitionNumbers(unassigned, hdc.value.partitions);
      }
      assert ring.hosts[..k + 1][..k] == ring.hosts[..k];
      k := k + 1;
    }
    assert ring.hosts[..k] == ring.hosts;
    UnassignedMembership(ring.hosts, domain);
  }

  /** The set {0, ..., numParts - 1}, built by adding the ids one by one. */
  method AllPartitions(numParts: int) returns (ids: set<int>)
    ensures ids == PartitionRange(numParts)
  {
    ids := {};
    var i := 0;
    while i < numParts
      invariant 0 <= i
      invariant i <= numParts || i == 0
      invariant ids == PartitionRange(i)
      decreases numParts - i
    {
      PartitionRangeStep(i);
      ids := ids + {i};
      i := i + 1;
    }
    assert i == numParts || (numParts <= 0 && i == 0);
  }

  /** Removes from `unassigned` the number of every partition in `parts`. */
  method RemovePartitionNumbers(unassigned: set<int>, parts: seq<HostDomainPartition>) returns (remaining: set<int>)
    ensures remaining == unassigned - PartitionNumbers(HostDomain(parts))
  {
    remaining := unassigned;
    var j := 0;
    while j < |parts|
      invariant 0 <= j <= |parts|
      invariant remaining == unassigned - PartitionNumbers(HostDomain(parts[..j]))
    {
      NumbersPrefixStep(parts, j);
      remaining := remaining - {parts[j].partitionNumber};
      j := j + 1;
    }
    assert parts[..j] == parts;
  }

  /** The distinct partition numbers of `domain` across the hosts, deletable included. */
  method CollectAssignedIds(hosts: seq<Host>, domain: Domain) returns (assignedPartitions: set<int>)
    ensures assignedPartitions == AssignedIds(hosts, domain)
  {
    assignedPartitions := {};
    var k := 0;
    while k < |hosts|
      invariant 0 <= k <= |hosts|
      invariant assignedPartitions == AssignedIds(hosts[..k], domain)
    {
      var hostDomain := hosts[k].GetHostDomain(domain);
      if hostDomain.Some? {
        var parts := hostDomain.value.partitions;
        var j := 0;
        while j < |parts|
          invariant 0 <= j <= |parts|
          invariant assignedPartitions == AssignedIds(hosts[..k], domain) + PartitionNumbers(HostDomain(parts[..j]))
        {
          NumbersPrefixStep(parts, j);
          assignedPartitions := assignedPartitions + {parts[j].partitionNumber};
          j := j + 1;
        }
        assert parts[..j] == parts;
      }
      assert hosts[..k + 1][..k] == hosts[..k];
      k := k + 1;
    }
    assert hosts[..k] == hosts;
  }

  /** Whether every referenced domain has as many distinct assigned ids as partitions;
      deletable replicas count and recorded versions are ignored. The source dereferences the
      version and its collection without a null check. */
  method IsAssigned(ring: Ring, domainGroupVersion: DomainGroupVersion) returns (allAssigned: bool)
    requires domainGroupVersion.domainVersions.Some?
    ensures allAssigned <==> Assigned(ring.hosts, domainGroupVersion.domainVersions.value)
  {
    var domainVersions := domainGroupVersion.domainVersions.value;
    var k := 0;
    while k < |domainVersions|
      invariant 0 <= k <= |domainVersions|
      invariant forall q :: 0 <= q < k ==> DomainAssigned(ring.hosts, domainVersions[q].domain)
    {
      var domain := domainVersions[k].domain;
      var assignedPartitions := CollectAssignedIds(ring.hosts, domain);
      if |assignedPartitions| != domain.numParts {
        return false;
      }
      k := k + 1;
    }
    return true;
  }

  /** Scans the non-deletable partitions of `domain` across the hosts, failing fast on the
      first one whose recorded version is unset or differs from `version`; on success also
      gives their distinct ids. */
  method CollectLiveIdsAtVersion(hosts: seq<Host>, domain: Domain, version: int) returns (ok: bool, assignedPartitions: set<int>)
    ensures ok <==> AllAtVersion(hosts, domain, version)
    ensures ok ==> assignedPartitions == LiveIds(hosts, domain)
  {
    assignedPartitions := {};
    var k := 0;
    while k < |hosts|
      invariant 0 <= k <= |hosts|
      invariant AllAtVersion(hosts[..k], domain, version)
      invariant assignedPartitions == LiveIds(hosts[..k], domain)
    {
      var host := hosts[k];
      var hostDomain := host.GetHostDomain(domain);
      if hostDomain.Some? {
        var atVersion;
        atVersion, assignedPartitions := AddLiveIdsAtVersion(hostDomain.value.partitions, version, assignedPartitions);
        if !atVersion {
          assert host in hosts && domain in host.hostDomains;
          return false, assignedPartitions;
        }
      }
      HostStep(hosts, k, domain, version);
      k := k + 1;
    }
    assert hosts[..k] == hosts;
    ok := true;
  }

  /** The inner loop over one host's partitions of a domain: false on the first non-deletable
      partition at another version, otherwise `collected` with the non-deletable ids added. */
  method AddLiveIdsAtVersion(parts: seq<HostDomainPartition>, version: int, collected: set<int>)
    returns (ok: bool, assignedPartitions: set<int>)
    ensures ok <==> PartitionsAtVersion(parts, version)
    ensures ok ==> assignedPartitions == collected + NonDeletableNumbers(HostDomain(parts))
  {
    assignedPartitions := collected;
    var j := 0;
    while j < |parts|
      invariant 0 <= j <= |parts|
      invariant PartitionsAtVersion(parts[..j], version)
      invariant assignedPartitions == collected + NonDeletableNumbers(HostDomain(parts[..j]))
    {
      var partition := parts[j];
      NumbersPrefixStep(parts, j);
      PartitionsAtVersionStep(parts, j, version);
      if !partition.deletable {
        if partition.currentDomainGroupVersion.None? || partition.currentDomainGroupVersion.value != version {
          assert partition in parts;
          return false, assignedPartitions;
        }
        assignedPartitions := assignedPartitions + {partition.partitionNumber};
      }
      j := j + 1;
    }
    assert parts[..j] == parts;
    ok := true;
  }

  /** Whether the ring is up to date with `domainGroupVersion`: false for a missing version or
      a missing domain-version collection, false on the first non-deletable partition at
      another version, false when a domain's live ids are not as many as its partitions. */
  method IsUpToDate(ring: Ring, domainGroupVersion: Option<DomainGroupVersion>) returns (upToDate: bool)
    ensures upToDate <==> UpToDate(ring.hosts, domainGroupVersion)
    ensures domainGroupVersion.Some? && domainGroupVersion.value.domainVersions == Some([]) ==> upToDate
  {
    if domainGroupVersion.None? || domainGroupVersion.value.domainVersions.None? {
      return false;
    }
    var version := domainGroupVersion.value.versionNumber;
    var domainVersions := domainGroupVersion.value.domainVersions.value;
    var k := 0;
    while k < |domainVersions|
      invariant 0 <= k <= |domainVersions|
      invariant forall q :: 0 <= q < k ==> DomainUpToDate(ring.hosts, domainVersions[q].domain, version)
    {
      var domain := domainVersions[k].domain;
      var ok, assignedPartitions := CollectLiveIdsAtVersion(ring.hosts, domain, version);
      if !ok {
        return false;
      }
      if |assignedPartitions| != domain.numParts {
        return false;
      }
      k := k + 1;
    }
    return true;
  }
}
