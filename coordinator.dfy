/** The coordination store's entities as the ring coordination engine sees them:
    a point-in-time snapshot of a ring, its hosts and their partitions. */
module Coordinator {

  datatype Option<T> = None | Some(value: T)

  /** Fail-fast result of an operation that may hit an I/O failure at some host. */
  datatype Outcome = Pass | Fail(failedAt: nat)

  /** A named, partitioned dataset; its partition ids are meant to be 0 .. numParts - 1. */
  datatype Domain = Domain(name: string, numParts: int)

  /** One binding of a domain-group version: a domain and its data version. */
  datatype DomainVersion = DomainVersion(domain: Domain, versionNumber: int)

  /** A numbered domain-group version. Its collection of domain versions may be absent
      (a null collection), which isUpToDate treats differently from an empty one. */
  datatype DomainGroupVersion = DomainGroupVersion(versionNumber: int, domainVersions: Option<seq<DomainVersion>>)

  datatype HostState = Idle | Serving | Updating | Offline

  /** An instruction for a host; the engine never interprets it. */
  datatype HostCommand = HostCommand(name: string)

  /** One partition replica on a host. */
  datatype HostDomainPartition = HostDomainPartition(partitionNumber: int, deletable: bool, currentDomainGroupVersion: Option<int>)

  /** The partitions a host holds for one domain. */
  datatype HostDomain = HostDomain(partitions: seq<HostDomainPartition>)

  /** A serving node. Everything but its command queue is read from the snapshot and does not
      change while the engine runs; the command queue is the one thing the engine mutates. */
  class Host {
    const address: string
    const state: HostState
    const hostDomains: map<Domain, HostDomain>
    var commandQueue: seq<HostCommand>

    constructor (address: string, state: HostState, hostDomains: map<Domain, HostDomain>)
      ensures this.address == address && this.state == state && this.hostDomains == hostDomains
      ensures commandQueue == []
    {
      this.address := address;
      this.state := state;
      this.hostDomains := hostDomains;
      commandQueue := [];
    }

    /** The host's partitions for `domain`, or None where the Java accessor returns null. */
    function GetHostDomain(domain: Domain): (r: Option<HostDomain>)
      ensures r.Some? <==> domain in hostDomains
    {
      if domain in hostDomains then Some(hostDomains[domain]) else None
    }

    /** Appends `command` to the queue when the coordination store accepts the write
        (`accepted`); a rejected write is the IOException and leaves the queue as it was. */
    method EnqueueCommand(command: HostCommand, accepted: bool) returns (ok: bool)
      modifies this
      ensures ok == accepted
      ensures commandQueue == if accepted then old(commandQueue) + [command] else old(commandQueue)
    {
      ok := accepted;
      if accepted {
        commandQueue := commandQueue + [command];
      }
    }
  }

  /** A ring snapshot: its member hosts (a set in the store, hence no host twice) and the
      versions it is at and is updating to. */
  datatype Ring = Ring(ringNumber: int, hosts: seq<Host>,
                       currentVersion: Option<DomainGroupVersion>,
                       updatingToVersion: Option<DomainGroupVersion>)
  {
    /** The version number of the update in flight, if any. */
    function UpdatingToVersionNumber(): (r: Option<int>)
      ensures r.Some? <==> updatingToVersion.Some?
      ensures r.Some? ==> r.value == updatingToVersion.value.versionNumber
    {
      if updatingToVersion.Some? then Some(updatingToVersion.value.versionNumber) else None
    }
  }

  /** The ring's host collection is a set: no host appears twice. */
  predicate DistinctHosts(hosts: seq<Host>) {
    forall i, j :: 0 <= i < j < |hosts| ==> hosts[i] != hosts[j]
  }

  /** The partition numbers in a host's domain entry, deletable or not. */
  function PartitionNumbers(hd: HostDomain): set<int> {
    set p | p in hd.partitions :: p.partitionNumber
  }

  /** The partition numbers of the entry's non-deletable partitions. */
  function NonDeletableNumbers(hd: HostDomain): set<int> {
    set p | p in hd.partitions && !p.deletable :: p.partitionNumber
  }

  /** The full id range 0 .. n - 1 of a domain with n partitions (empty when n <= 0). */
  function PartitionRange(n: int): (r: set<int>)
    ensures forall i :: i in r <==> 0 <= i < n
    ensures |r| == if n <= 0 then 0 else n
    decreases if n <= 0 then 0 else n
  {
    if n <= 0 then {} else PartitionRange(n - 1) + {n - 1}
  }
}
