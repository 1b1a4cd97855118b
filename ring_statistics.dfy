/** The ring-level folds of host-level facts: update progress, serving status and runtime
    statistics, with the ring-wide, per-host and per-domain views of the latter. The host-level
    primitives are parameters; the aggregators are values of a monoid (see Aggregation). */
module RingStatistics {
  import opened Coordinator
  import opened Aggregation

  // ---------------------------------------------------------------------------------------
  // Folds over the ring's hosts

  /** The host-level values, in the order the ring's hosts are visited. */
  function PerHost<A>(hosts: seq<Host>, f: Host -> A): (r: seq<A>)
    ensures |r| == |hosts|
    ensures forall i :: 0 <= i < |hosts| ==> r[i] == f(hosts[i])
  {
    seq(|hosts|, i requires 0 <= i < |hosts| => f(hosts[i]))
  }

  /** A host-level primitive that also takes the domain-group version, fixed at `dgv`. */
  function AtVersion<A>(f: (Host, DomainGroupVersion) -> A, dgv: DomainGroupVersion): Host -> A {
    (h: Host) => f(h, dgv)
  }

  lemma PerHostAppend<A>(xs: seq<Host>, ys: seq<Host>, f: Host -> A)
    ensures PerHost(xs + ys, f) == PerHost(xs, f) + PerHost(ys, f)
  {
  }

  /** Taking host `k` out of the visit takes its value out of the visited values. */
  lemma PerHostWithout<A>(hosts: seq<Host>, k: nat, f: Host -> A)
    requires k < |hosts|
    ensures multiset(PerHost(hosts, f)) == multiset(PerHost(hosts[..k] + hosts[k + 1..], f)) + multiset{f(hosts[k])}
  {
    var left, right := hosts[..k], hosts[k + 1..];
    var pl, pr := PerHost(left, f), PerHost(right, f);
    assert PerHost(hosts, f) == pl + [f(hosts[k])] + pr;
    PerHostAppend(left, right, f);
    MultisetInsert(pl, pr, f(hosts[k]));
  }

  /** Visiting the same hosts in another order visits the same values in another order. */
  lemma {:induction false} PerHostPermutation<A>(hosts: seq<Host>, others: seq<Host>, f: Host -> A)
    requires multiset(hosts) == multiset(others)
    ensures multiset(PerHost(hosts, f)) == multiset(PerHost(others, f))
    decreases |hosts|
  {
    if hosts == [] {
      assert |others| == |multiset(others)| == 0;
    } else {
      var n := |hosts| - 1;
      assert hosts[n] in multiset(others);
      var k :| 0 <= k < |others| && others[k] == hosts[n];
      RemoveMatchingLast(hosts, others, k);
      assert hosts[..n] + hosts[n + 1..] == hosts[..n];
      PerHostPermutation(hosts[..n], others[..k] + others[k + 1..], f);
      PerHostWithout(hosts, n, f);
      PerHostWithout(others, k, f);
    }
  }

  /** A ring's aggregate does not depend on the order in which its host set is iterated,
      provided the aggregator is a commutative monoid. */
  lemma HostOrderIrrelevant<A(!new)>(m: Monoid<A>, hosts: seq<Host>, others: seq<Host>, f: Host -> A)
    requires IsCommutativeMonoid(m)
    requires multiset(hosts) == multiset(others)
    ensures Fold(m, PerHost(hosts, f)) == Fold(m, PerHost(others, f))
  {
    PerHostPermutation(hosts, others, f);
    FoldPermutation(m, PerHost(hosts, f), PerHost(others, f));
  }

  /** Aggregates the host-level value of every host into a fresh aggregator. */
  method AggregateOverHosts<A>(m: Monoid<A>, hosts: seq<Host>, perHost: Host -> A) returns (result: A)
    ensures result == Fold(m, PerHost(hosts, perHost))
  {
    result := m.zero;
    var k := 0;
    while k < |hosts|
      invariant 0 <= k <= |hosts|
      invariant result == Fold(m, PerHost(hosts[..k], perHost))
    {
      assert PerHost(hosts[..k + 1], perHost)[..k] == PerHost(hosts[..k], perHost);
      result := m.combine(result, perHost(hosts[k]));
      k := k + 1;
    }
    assert hosts[..k] == hosts;
  }

  /** The ring's update progress towards `dgv`: the fold of every host's progress. */
  method ComputeUpdateProgress<P>(ring: Ring, dgv: DomainGroupVersion, progress: Monoid<P>,
                                  hostProgress: (Host, DomainGroupVersion) -> P) returns (result: P)
    ensures result == Fold(progress, PerHost(ring.hosts, AtVersion(hostProgress, dgv)))
  {
    result := AggregateOverHosts(progress, ring.hosts, AtVersion(hostProgress, dgv));
  }

  /** The ring's serving status for `dgv`: the fold of every host's serving status. */
  method ComputeServingStatusAggregator<S>(ring: Ring, dgv: DomainGroupVersion, status: Monoid<S>,
                                           hostStatus: (Host, DomainGroupVersion) -> S) returns (result: S)
    ensures result == Fold(status, PerHost(ring.hosts, AtVersion(hostStatus, dgv)))
  {
    result := AggregateOverHosts(status, ring.hosts, AtVersion(hostStatus, dgv));
  }

  // ---------------------------------------------------------------------------------------
  // Runtime statistics: host -> domain -> aggregator

  /** The statistics flattened to one entry per (host, domain) pair. */
  ghost function Entries<A>(stats: map<Host, map<Domain, A>>): map<(Host, Domain), A> {
    map h, d | h in stats && d in stats[h] :: (h, d) := stats[h][d]
  }

  /** The domain of a flattened entry: the key the per-domain view groups by. */
  function DomainOf(e: (Host, Domain)): Domain {
    e.1
  }

  lemma EntriesMembership<A>(stats: map<Host, map<Domain, A>>, h: Host, d: Domain)
    ensures (h, d) in Entries(stats) <==> h in stats && d in stats[h]
    ensures (h, d) in Entries(stats) ==> Entries(stats)[(h, d)] == stats[h][d]
  {
    if h in stats && d in stats[h] {
      assert (h, d) in Entries(stats);
    }
  }

  lemma SetsAgree<T>(a: set<T>, b: set<T>)
    requires forall x :: x in a <==> x in b
    ensures a == b
  {
  }

  lemma MapsAgree<K, V>(a: map<K, V>, b: map<K, V>)
    requires a.Keys == b.Keys
    requires forall k :: k in a ==> a[k] == b[k]
    ensures a == b
  {
  }

  /** Putting back one of the removed keys, with its value, removes one key fewer. */
  lemma RestoreKey<K, V>(mp: map<K, V>, removed: set<K>, k: K)
    requires k in removed && removed <= mp.Keys
    ensures k !in mp - removed
    ensures (mp - removed)[k := mp[k]] == mp - (removed - {k})
  {
  }

  lemma OverwriteTwice<K, V>(mp: map<K, V>, k: K, a: V, b: V)
    ensures mp[k := a][k := b] == mp[k := b]
  {
  }

  lemma RemoveNothing<K, V>(mp: map<K, V>)
    ensures mp - {} == mp
  {
  }

  /** Visiting one more inner entry adds exactly that pair to the flattened statistics. */
  lemma EntriesAdd<A>(seen: map<Host, map<Domain, A>>, h: Host, partial: map<Domain, A>, d: Domain, v: A)
    requires d !in partial
    ensures (h, d) !in Entries(seen[h := partial])
    ensures Entries(seen[h := partial[d := v]]) == Entries(seen[h := partial])[(h, d) := v]
  {
    var after := Entries(seen[h := partial[d := v]]);
    var expected := Entries(seen[h := partial])[(h, d) := v];
    EntriesMembership(seen[h := partial], h, d);
    forall e
      ensures e in after <==> e in expected
    {
      EntriesAddAt(seen, h, partial, d, v, e);
    }
    SetsAgree(after.Keys, expected.Keys);
    forall e | e in expected
      ensures after[e] == expected[e]
    {
      EntriesAddAt(seen, h, partial, d, v, e);
    }
    MapsAgree(after, expected);
  }

  lemma EntriesAddAt<A>(seen: map<Host, map<Domain, A>>, h: Host, partial: map<Domain, A>, d: Domain, v: A,
                        e: (Host, Domain))
    ensures e in Entries(seen[h := partial[d := v]]) <==> e in Entries(seen[h := partial])[(h, d) := v]
    ensures e in Entries(seen[h := partial[d := v]]) ==>
              Entries(seen[h := partial[d := v]])[e] == Entries(seen[h := partial])[(h, d) := v][e]
  {
    EntriesMembership(seen[h := partial], e.0, e.1);
    EntriesMembership(seen[h := partial[d := v]], e.0, e.1);
  }

  /** Starting on a host not seen yet adds nothing to the flattened statistics. */
  lemma EntriesStartHost<A>(seen: map<Host, map<Domain, A>>, h: Host)
    requires h !in seen
    ensures Entries(seen[h := map[]]) == Entries(seen)
  {
    var started, before := Entries(seen[h := map[]]), Entries(seen);
    forall e
      ensures e in started <==> e in before
    {
      EntriesStartHostAt(seen, h, e);
    }
    SetsAgree(started.Keys, before.Keys);
    forall e | e in before
      ensures started[e] == before[e]
    {
      EntriesStartHostAt(seen, h, e);
    }
    MapsAgree(started, before);
  }

  lemma EntriesStartHostAt<A>(seen: map<Host, map<Domain, A>>, h: Host, e: (Host, Domain))
    requires h !in seen
    ensures e in Entries(seen[h := map[]]) <==> e in Entries(seen)
    ensures e in Entries(seen) ==> Entries(seen[h := map[]])[e] == Entries(seen)[e]
  {
    EntriesMembership(seen[h := map[]], e.0, e.1);
    EntriesMembership(seen, e.0, e.1);
  }

  /** One map of per-domain aggregators for every host of the ring. The coordinator the
      host-level primitive reads is folded into `hostStatistics`. */
  method ComputeRuntimeStatistics<A>(ring: Ring, hostStatistics: Host -> map<Domain, A>)
    returns (result: map<Host, map<Domain, A>>)
    ensures forall h :: h in result <==> h in ring.hosts
    ensures forall h :: h in result ==> result[h] == hostStatistics(h)
  {
    result := map[];
    var k := 0;
    while k < |ring.hosts|
      invariant 0 <= k <= |ring.hosts|
      invariant forall h :: h in result <==> h in ring.hosts[..k]
      invariant forall h :: h in result ==> result[h] == hostStatistics(h)
    {
      var host := ring.hosts[k];
      assert ring.hosts[..k + 1] == ring.hosts[..k] + [host];
      result := result[host := hostStatistics(host)];
      k := k + 1;
    }
    assert ring.hosts[..k] == ring.hosts;
  }

  /** The ring-wide aggregate: every (host, domain) aggregator added into a fresh one. */
  method ComputeRuntimeStatisticsForRing<A(!new)>(m: Monoid<A>, runtimeStatistics: map<Host, map<Domain, A>>)
    returns (result: A)
    requires IsCommutativeMonoid(m)
    ensures result == SumOver(m, Entries(runtimeStatistics))
  {
    result := m.zero;
    ghost var seen: map<Host, map<Domain, A>> := map[];
    var hostsLeft := runtimeStatistics.Keys;
    while hostsLeft != {}
      invariant hostsLeft <= runtimeStatistics.Keys
      invariant seen == runtimeStatistics - hostsLeft
      invariant result == SumOver(m, Entries(seen))
      decreases hostsLeft
    {
      var host :| host in hostsLeft;
      result := AddHostToRingTotal(m, result, seen, host, runtimeStatistics[host]);
      RestoreKey(runtimeStatistics, hostsLeft, host);
      seen := seen[host := runtimeStatistics[host]];
      hostsLeft := hostsLeft - {host};
    }
    RemoveNothing(runtimeStatistics);
  }

  /** The inner loop of the ring-wide aggregate: adds every aggregator of one host's map. */
  method AddHostToRingTotal<A(!new)>(m: Monoid<A>, total: A, ghost seen: map<Host, map<Domain, A>>,
                                      host: Host, inner: map<Domain, A>) returns (result: A)
    requires IsCommutativeMonoid(m)
    requires host !in seen
    requires total == SumOver(m, Entries(seen))
    ensures result == SumOver(m, Entries(seen[host := inner]))
  {
    result := total;
    var domainsLeft := inner.Keys;
    ghost var partial: map<Domain, A> := map[];
    EntriesStartHost(seen, host);
    while domainsLeft != {}
      invariant domainsLeft <= inner.Keys
      invariant partial == inner - domainsLeft
      invariant result == SumOver(m, Entries(seen[host := partial]))
      decreases domainsLeft
    {
      var domain :| domain in domainsLeft;
      RestoreKey(inner, domainsLeft, domain);
      EntriesAdd(seen, host, partial, domain, inner[domain]);
      SumOverAdd(m, Entries(seen[host := partial]), (host, domain), inner[domain]);
      result := m.combine(result, inner[domain]);
      partial := partial[domain := inner[domain]];
      domainsLeft := domainsLeft - {domain};
    }
    RemoveNothing(inner);
  }

  /** The aggregate of one host: the host-level primitive applied to its map, or a fresh
      aggregator (zero) when the host has no statistics. */
  function ComputeRuntimeStatisticsForHost<A>(m: Monoid<A>, runtimeStatistics: map<Host, map<Domain, A>>,
                                              host: Host, hostTotal: map<Domain, A> -> A): (r: A)
    ensures host !in runtimeStatistics ==> r == m.zero
    ensures host in runtimeStatistics ==> r == hostTotal(runtimeStatistics[host])
  {
    if host in runtimeStatistics then hostTotal(runtimeStatistics[host]) else m.zero
  }

  /** One aggregator per domain seen in any host's map: the domain's aggregators across hosts
      added into a fresh one. */
  method ComputeRuntimeStatisticsForDomains<A(!new)>(m: Monoid<A>, runtimeStatistics: map<Host, map<Domain, A>>)
    returns (result: map<Domain, A>)
    requires IsCommutativeMonoid(m)
    ensures result == Group(m, Entries(runtimeStatistics), DomainOf)
  {
    result := map[];
    ghost var seen: map<Host, map<Domain, A>> := map[];
    var hostsLeft := runtimeStatistics.Keys;
    while hostsLeft != {}
      invariant hostsLeft <= runtimeStatistics.Keys
      invariant seen == runtimeStatistics - hostsLeft
      invariant result == Group(m, Entries(seen), DomainOf)
      decreases hostsLeft
    {
      var host :| host in hostsLeft;
      result := AddHostToDomainTotals(m, result, seen, host, runtimeStatistics[host]);
      RestoreKey(runtimeStatistics, hostsLeft, host);
      seen := seen[host := runtimeStatistics[host]];
      hostsLeft := hostsLeft - {host};
    }
    RemoveNothing(runtimeStatistics);
  }

  /** The inner loop of the per-domain view: adds each aggregator of one host's map to its
      domain's aggregator, creating a fresh one for a domain not seen before. */
  method AddHostToDomainTotals<A(!new)>(m: Monoid<A>, totals: map<Domain, A>, ghost seen: map<Host, map<Domain, A>>,
                                         host: Host, inner: map<Domain, A>) returns (result: map<Domain, A>)
    requires IsCommutativeMonoid(m)
    requires host !in seen
    requires totals == Group(m, Entries(seen), DomainOf)
    ensures result == Group(m, Entries(seen[host := inner]), DomainOf)
  {
    result := totals;
    var domainsLeft := inner.Keys;
    ghost var partial: map<Domain, A> := map[];
    EntriesStartHost(seen, host);
    while domainsLeft != {}
      invariant domainsLeft <= inner.Keys
      invariant partial == inner - domainsLeft
      invariant result == Group(m, Entries(seen[host := partial]), DomainOf)
      decreases domainsLeft
    {
      var domain :| domain in domainsLeft;
      var value := inner[domain];
      RestoreKey(inner, domainsLeft, domain);
      EntriesAdd(seen, host, partial, domain, value);
      AddToGroup(m, result, Entries(seen[host := partial]), (host, domain), value);
      ghost var next := result[domain := m.combine(if domain in result then result[domain] else m.zero, value)];
      var aggregator: A;
      if domain in result {
        aggregator := result[domain];
      } else {
        aggregator := m.zero;
        OverwriteTwice(result, domain, aggregator, m.combine(aggregator, value));
        result := result[domain := aggregator];
      }
      result := result[domain := m.combine(aggregator, value)];
      assert result == next;
      partial := partial[domain := value];
      domainsLeft := domainsLeft - {domain};
    }
    RemoveNothing(inner);
  }

  /** The step of the per-domain loop: adding an entry to the aggregators of its domain. */
  lemma AddToGroup<A(!new)>(m: Monoid<A>, grouped: map<Domain, A>, entries: map<(Host, Domain), A>,
                            e: (Host, Domain), v: A)
    requires IsCommutativeMonoid(m)
    requires e !in entries
    requires grouped == Group(m, entries, DomainOf)
    ensures Group(m, entries[e := v], DomainOf) ==
            grouped[e.1 := m.combine(if e.1 in grouped then grouped[e.1] else m.zero, v)]
  {
    var after := Group(m, entries[e := v], DomainOf);
    var expected := grouped[e.1 := m.combine(if e.1 in grouped then grouped[e.1] else m.zero, v)];
    GroupKeysAdd(m, entries, DomainOf, e, v);
    GroupAtAdded(m, entries, DomainOf, e, v);
    forall y | y in grouped && y != e.1
      ensures after[y] == expected[y]
    {
      GroupAtOther(m, entries, DomainOf, e, v, y);
    }
    MapsAgree(after, expected);
  }

  /** A domain has an aggregator in the per-domain view exactly when some host reports it. */
  lemma DomainsReported<A>(m: Monoid<A>, stats: map<Host, map<Domain, A>>, d: Domain)
    ensures d in Group(m, Entries(stats), DomainOf) <==> exists h :: h in stats && d in stats[h]
  {
    if exists h :: h in stats && d in stats[h] {
      var h :| h in stats && d in stats[h];
      EntriesMembership(stats, h, d);
      assert DomainOf((h, d)) == d;
    }
  }

  /** The ring-wide aggregate equals the sum of the per-domain aggregates. */
  lemma RingTotalIsSumOfDomainTotals<A(!new)>(m: Monoid<A>, stats: map<Host, map<Domain, A>>)
    requires IsCommutativeMonoid(m)
    ensures SumOver(m, Entries(stats)) == SumOver(m, Group(m, Entries(stats), DomainOf))
  {
    Regroup(m, Entries(stats), DomainOf);
  }
}
