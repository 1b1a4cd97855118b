/** The aggregator value types (update progress, serving status, runtime statistics) seen
    abstractly: a value type with a zero (the freshly constructed aggregator) and a combine
    (its `aggregate` / `add`). Their laws are not proved here; lemmas that need them take
    IsCommutativeMonoid as a hypothesis. */
module Aggregation {

  datatype Monoid<!A> = Monoid(zero: A, combine: (A, A) -> A)

  /** The laws the aggregator types are designed to obey. Commutativity and associativity
      fire only where both sides of the equation are already in view, so that they do not
      feed each other new terms. */
  ghost predicate IsCommutativeMonoid<A(!new)>(m: Monoid<A>) {
    && (forall a :: m.combine(m.zero, a) == a)
    && (forall a, b {:trigger m.combine(a, b), m.combine(b, a)} :: m.combine(a, b) == m.combine(b, a))
    && (forall a, b, c {:trigger m.combine(m.combine(a, b), c), m.combine(a, m.combine(b, c))} ::
          m.combine(m.combine(a, b), c) == m.combine(a, m.combine(b, c)))
  }

  /** Start from zero and combine the values in order: what a loop of `aggregate` calls on a
      fresh aggregator computes. */
  function Fold<A>(m: Monoid<A>, xs: seq<A>): A
    decreases |xs|
  {
    if xs == [] then m.zero else m.combine(Fold(m, xs[..|xs| - 1]), xs[|xs| - 1])
  }

  /** Folding a concatenation is combining the two folds. */
  lemma {:induction false} FoldAppend<A(!new)>(m: Monoid<A>, xs: seq<A>, ys: seq<A>)
    requires IsCommutativeMonoid(m)
    ensures Fold(m, xs + ys) == m.combine(Fold(m, xs), Fold(m, ys))
    decreases |ys|
  {
    if ys == [] {
      assert xs + ys == xs;
      calc {
        m.combine(Fold(m, xs), m.zero);
        m.combine(m.zero, Fold(m, xs));
        Fold(m, xs);
      }
    } else {
      var ys' := ys[..|ys| - 1];
      var y := ys[|ys| - 1];
      assert (xs + ys)[..|xs + ys| - 1] == xs + ys';
      assert (xs + ys)[|xs + ys| - 1] == y;
      FoldAppend(m, xs, ys');
      calc {
        Fold(m, xs + ys);
        m.combine(Fold(m, xs + ys'), y);
        m.combine(m.combine(Fold(m, xs), Fold(m, ys')), y);
        m.combine(Fold(m, xs), m.combine(Fold(m, ys'), y));
        m.combine(Fold(m, xs), Fold(m, ys));
      }
    }
  }

  /** Taking the last element out of one of two permutations of each other, and one of its
      occurrences out of the other, leaves permutations of each other. */
  lemma RemoveMatchingLast<T>(xs: seq<T>, ys: seq<T>, k: nat)
    requires multiset(xs) == multiset(ys)
    requires xs != [] && k < |ys| && ys[k] == xs[|xs| - 1]
    ensures multiset(xs[..|xs| - 1]) == multiset(ys[..k] + ys[k + 1..])
  {
    var x, init := xs[|xs| - 1], xs[..|xs| - 1];
    var left, right := ys[..k], ys[k + 1..];
    assert xs == init + [x];
    assert ys == left + [x] + right;
    MultisetInsert(left, right, x);
    calc {
      multiset(init);
      (multiset(init) + multiset{x}) - multiset{x};
      multiset(xs) - multiset{x};
      multiset(ys) - multiset{x};
      (multiset(left + right) + multiset{x}) - multiset{x};
      multiset(left + right);
    }
  }

  /** Inserting an element anywhere adds one occurrence of it. */
  lemma MultisetInsert<T>(left: seq<T>, right: seq<T>, x: T)
    ensures multiset(left + [x] + right) == multiset(left + right) + multiset{x}
  {
    assert multiset(left + [x] + right) == multiset(left) + multiset{x} + multiset(right);
  }

  /** The fold does not depend on the order of the values: a set's iteration order cannot
      change an aggregate. */
  lemma {:induction false} FoldPermutation<A(!new)>(m: Monoid<A>, xs: seq<A>, ys: seq<A>)
    requires IsCommutativeMonoid(m)
    requires multiset(xs) == multiset(ys)
    ensures Fold(m, xs) == Fold(m, ys)
    decreases |xs|
  {
    if xs == [] {
      assert |ys| == |multiset(ys)| == 0;
    } else {
      var xs' := xs[..|xs| - 1];
      var x := xs[|xs| - 1];
      assert xs == xs' + [x];
      assert x in multiset(ys);
      var k :| 0 <= k < |ys| && ys[k] == x;
      var left, right := ys[..k], ys[k + 1..];
      assert ys == left + [x] + right;
      RemoveMatchingLast(xs, ys, k);
      FoldPermutation(m, xs', left + right);
      FoldAppend(m, left + [x], right);
      FoldAppend(m, left, right);
      assert (left + [x])[..|left + [x]| - 1] == left;
      calc {
        Fold(m, ys);
        m.combine(Fold(m, left + [x]), Fold(m, right));
        m.combine(m.combine(Fold(m, left), x), Fold(m, right));
        m.combine(Fold(m, left), m.combine(x, Fold(m, right)));
        m.combine(Fold(m, left), m.combine(Fold(m, right), x));
        m.combine(m.combine(Fold(m, left), Fold(m, right)), x);
        m.combine(Fold(m, left + right), x);
        m.combine(Fold(m, xs'), x);
        Fold(m, xs);
      }
    }
  }

  /** The combination of all values of a map, in no particular order: what iterating a hash
      map's entries into a fresh aggregator computes. */
  ghost function SumOver<K, A>(m: Monoid<A>, mp: map<K, A>): A
    decreases |mp|
  {
    if |mp| == 0 then m.zero
    else
      var k :| k in mp;
      m.combine(SumOver(m, mp - {k}), mp[k])
  }

  /** Any entry can be taken last: the sum does not depend on which key the definition picks. */
  lemma {:induction false} SumOverRemove<K, A(!new)>(m: Monoid<A>, mp: map<K, A>, k: K)
    requires IsCommutativeMonoid(m)
    requires k in mp
    ensures SumOver(m, mp) == m.combine(SumOver(m, mp - {k}), mp[k])
    decreases |mp|
  {
    var j :| j in mp && SumOver(m, mp) == m.combine(SumOver(m, mp - {j}), mp[j]);
    if j != k {
      var both := mp - {j} - {k};
      assert mp - {j} - {k} == mp - {k} - {j};
      assert |mp - {j}| < |mp|;
      assert |mp - {k}| < |mp|;
      SumOverRemove(m, mp - {j}, k);
      SumOverRemove(m, mp - {k}, j);
      calc {
        SumOver(m, mp);
        m.combine(SumOver(m, mp - {j}), mp[j]);
        m.combine(m.combine(SumOver(m, both), mp[k]), mp[j]);
        m.combine(SumOver(m, both), m.combine(mp[k], mp[j]));
        m.combine(SumOver(m, both), m.combine(mp[j], mp[k]));
        m.combine(m.combine(SumOver(m, both), mp[j]), mp[k]);
        m.combine(SumOver(m, mp - {k}), mp[k]);
      }
    }
  }

  /** Adding a fresh entry combines its value into the sum. */
  lemma SumOverAdd<K, A(!new)>(m: Monoid<A>, mp: map<K, A>, k: K, v: A)
    requires IsCommutativeMonoid(m)
    requires k !in mp
    ensures SumOver(m, mp[k := v]) == m.combine(SumOver(m, mp), v)
  {
    SumOverRemove(m, mp[k := v], k);
    assert mp[k := v] - {k} == mp;
  }

  /** The entries of `mp` whose key falls in group `x` under `g`. */
  ghost function Slice<K, G, A>(mp: map<K, A>, g: K -> G, x: G): map<K, A> {
    map k | k in mp && g(k) == x :: mp[k]
  }

  /** One aggregate per group: the sum of each group's entries, for every group that has one. */
  ghost function Group<K, G, A>(m: Monoid<A>, mp: map<K, A>, g: K -> G): map<G, A> {
    map x | x in (set k | k in mp :: g(k)) :: SumOver(m, Slice(mp, g, x))
  }

  /** A group with no entries sums to zero. */
  lemma SumOverEmpty<K, A>(m: Monoid<A>, mp: map<K, A>)
    requires mp == map[]
    ensures SumOver(m, mp) == m.zero
  {
  }

  /** Removing a key the map does not have leaves it as it was. */
  lemma RemoveAbsentKey<K, V>(mp: map<K, V>, k: K)
    requires k !in mp
    ensures mp - {k} == mp
  {
  }

  /** The new entry joins its own group's slice. */
  lemma SliceAdd<K, G, A>(mp: map<K, A>, g: K -> G, k: K, v: A)
    ensures Slice(mp[k := v], g, g(k)) == Slice(mp, g, g(k))[k := v]
  {
  }

  /** A group no key falls in has an empty slice. */
  lemma SliceOfAbsentGroup<K, G, A>(mp: map<K, A>, g: K -> G, x: G)
    requires x !in (set k | k in mp :: g(k))
    ensures Slice(mp, g, x) == map[]
  {
  }

  /** Adding an entry adds its group to the groups present. */
  lemma GroupKeysAdd<K, G, A>(m: Monoid<A>, mp: map<K, A>, g: K -> G, k: K, v: A)
    ensures Group(m, mp[k := v], g).Keys == Group(m, mp, g).Keys + {g(k)}
  {
    assert (set j | j in mp[k := v] :: g(j)) == (set j | j in mp :: g(j)) + {g(k)};
  }

  /** The new entry's group gains its value; a group new to the map starts from zero. */
  lemma GroupAtAdded<K, G, A(!new)>(m: Monoid<A>, mp: map<K, A>, g: K -> G, k: K, v: A)
    requires IsCommutativeMonoid(m)
    requires k !in mp
    ensures g(k) in Group(m, mp[k := v], g)
    ensures Group(m, mp[k := v], g)[g(k)] ==
            m.combine(if g(k) in Group(m, mp, g) then Group(m, mp, g)[g(k)] else m.zero, v)
  {
    var x := g(k);
    GroupKeysAdd(m, mp, g, k, v);
    SliceAdd(mp, g, k, v);
    SumOverAdd(m, Slice(mp, g, x), k, v);
    if x !in Group(m, mp, g) {
      SliceOfAbsentGroup(mp, g, x);
      SumOverEmpty(m, Slice(mp, g, x));
    }
  }

  /** Every other group keeps its aggregate. */
  lemma GroupAtOther<K, G, A>(m: Monoid<A>, mp: map<K, A>, g: K -> G, k: K, v: A, y: G)
    requires y != g(k)
    requires y in Group(m, mp, g)
    ensures y in Group(m, mp[k := v], g) && Group(m, mp[k := v], g)[y] == Group(m, mp, g)[y]
  {
    GroupKeysAdd(m, mp, g, k, v);
    assert Slice(mp[k := v], g, y) == Slice(mp, g, y);
  }

  /** Adding an entry leaves every other group as it was. */
  lemma GroupRestUnchanged<K, G, A>(m: Monoid<A>, mp: map<K, A>, g: K -> G, k: K, v: A)
    ensures Group(m, mp[k := v], g) - {g(k)} == Group(m, mp, g) - {g(k)}
  {
    var after, before := Group(m, mp[k := v], g) - {g(k)}, Group(m, mp, g) - {g(k)};
    GroupKeysAdd(m, mp, g, k, v);
    assert after.Keys == before.Keys;
    forall y | y in before
      ensures after[y] == before[y]
    {
      GroupAtOther(m, mp, g, k, v, y);
    }
  }

  /** Regrouping does not change the total: summing all entries equals summing the group
      aggregates. */
  lemma {:induction false} Regroup<K, G, A(!new)>(m: Monoid<A>, mp: map<K, A>, g: K -> G)
    requires IsCommutativeMonoid(m)
    ensures SumOver(m, mp) == SumOver(m, Group(m, mp, g))
    decreases |mp|
  {
    if |mp| == 0 {
      assert mp == map[];
      assert Group(m, mp, g) == map[];
    } else {
      var k :| k in mp;
      var v, rest, x := mp[k], mp - {k}, g(k);
      assert mp == rest[k := v];
      var before, after := Group(m, rest, g), Group(m, mp, g);
      SumOverRemove(m, mp, k);
      Regroup(m, rest, g);
      GroupAtAdded(m, rest, g, k, v);
      GroupRestUnchanged(m, rest, g, k, v);
      SumOverRemove(m, after, x);
      if x in before {
        SumOverRemove(m, before, x);
        calc {
          SumOver(m, after);
          m.combine(SumOver(m, after - {x}), after[x]);
          m.combine(SumOver(m, before - {x}), m.combine(before[x], v));
          m.combine(m.combine(SumOver(m, before - {x}), before[x]), v);
          m.combine(SumOver(m, before), v);
          m.combine(SumOver(m, rest), v);
          SumOver(m, mp);
        }
      } else {
        RemoveAbsentKey(before, x);
      }
    }
  }
}
