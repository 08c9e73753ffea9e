/** Sums of the weights held by a finite map: the model of SQL's `SUM(column)`. */
module Sums {

  ghost function Total<K>(m: map<K, nat>): nat
  {
    if m == map[] then 0
    else
      var k :| k in m;
      m[k] + Total(m - {k})
  }

  /** Any key may be taken out first: the sum does not depend on the order of summation. */
  lemma {:induction false} TotalRemove<K>(m: map<K, nat>, k: K)
    requires k in m
    ensures Total(m) == m[k] + Total(m - {k})
    decreases |m|
  {
    var j :| j in m && Total(m) == m[j] + Total(m - {j});
    if j != k {
      TotalRemove(m - {j}, k);
      TotalRemove(m - {k}, j);
      assert m - {j} - {k} == m - {k} - {j};
    }
  }

  lemma TotalAdd<K>(m: map<K, nat>, k: K, v: nat)
    requires k !in m
    ensures Total(m[k := v]) == Total(m) + v
  {
    TotalRemove(m[k := v], k);
    assert m[k := v] - {k} == m;
  }

  lemma {:induction false} TotalUnion<K>(a: map<K, nat>, b: map<K, nat>)
    requires a.Keys !! b.Keys
    ensures Total(a + b) == Total(a) + Total(b)
    decreases b.Keys
  {
    if b == map[] {
      assert a + b == a;
    } else {
      var k :| k in b.Keys;
      var rest := b - {k};
      assert rest.Keys == b.Keys - {k};
      TotalUnion(a, rest);
      assert a + b == (a + rest)[k := b[k]];
      TotalAdd(a + rest, k, b[k]);
      TotalRemove(b, k);
    }
  }

  /** Removing keys splits the sum in the part kept and the part removed. */
  lemma TotalSplit<K>(m: map<K, nat>, gone: set<K>)
    ensures Total(m) == Total(m - gone) + Total(map k | k in m && k in gone :: m[k])
  {
    var removed := map k | k in m && k in gone :: m[k];
    TotalUnion(m - gone, removed);
    assert (m - gone) + removed == m;
  }

  lemma TotalSubmap<K>(small: map<K, nat>, big: map<K, nat>)
    requires forall k :: k in small ==> k in big && small[k] == big[k]
    ensures Total(small) <= Total(big)
  {
    TotalSplit(big, big.Keys - small.Keys);
    assert big - (big.Keys - small.Keys) == small;
  }

  method SumValues<K(==)>(m: map<K, nat>) returns (sum: nat)
    ensures sum == Total(m)
  {
    sum := 0;
    var rest := m;
    while rest.Keys != {}
      invariant sum + Total(rest) == Total(m)
      decreases rest.Keys
    {
      var k :| k in rest.Keys;
      TotalRemove(rest, k);
      sum := sum + rest[k];
      assert (rest - {k}).Keys == rest.Keys - {k};
      rest := rest - {k};
    }
    assert rest == map[];
  }

  /** The part of `m` that `group` puts into group `g`. */
  function Fibre<K, G(==)>(m: map<K, nat>, group: map<K, G>, g: G): map<K, nat>
  {
    map k | k in m && k in group && group[k] == g :: m[k]
  }

  ghost function GroupTotals<K, G>(m: map<K, nat>, group: map<K, G>, groups: set<G>): map<G, nat>
  {
    map g | g in groups :: Total(Fibre(m, group, g))
  }

  /** Taking out one whole group leaves the sums of the others alone. */
  lemma OtherGroupsStay<K, G>(m: map<K, nat>, group: map<K, G>, groups: set<G>, g: G)
    requires g in groups
    ensures var rest := m - Fibre(m, group, g).Keys;
            GroupTotals(m, group, groups) - {g} == GroupTotals(rest, group, groups - {g})
  {
    hide Total;
    var rest := m - Fibre(m, group, g).Keys;
    forall h | h in groups - {g}
      ensures Fibre(rest, group, h) == Fibre(m, group, h)
    {
    }
    var a, b := GroupTotals(m, group, groups) - {g}, GroupTotals(rest, group, groups - {g});
    assert a.Keys == b.Keys;
    assert forall h :: h in a ==> a[h] == b[h];
  }

  /** Summing group by group is summing everything: no element is lost or counted twice. */
  lemma {:induction false} GroupsAddUp<K, G>(m: map<K, nat>, group: map<K, G>, groups: set<G>)
    requires forall k :: k in m ==> k in group && group[k] in groups
    ensures Total(GroupTotals(m, group, groups)) == Total(m)
    decreases groups
  {
    if groups == {} {
      assert m == map[];
      assert GroupTotals(m, group, groups) == map[];
    } else {
      hide Total;
      var g :| g in groups;
      var mine := Fibre(m, group, g);
      var rest := m - mine.Keys;
      GroupsAddUp(rest, group, groups - {g});
      assert mine + rest == m;
      TotalUnion(mine, rest);
      TotalRemove(GroupTotals(m, group, groups), g);
      OtherGroupsStay(m, group, groups, g);
    }
  }
}
