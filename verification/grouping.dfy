/** Counting and grouping the entries of a mapping, the two loops of the
    duplicate diagnostic, over keys and values of any type. */
module Grouping {
  import opened Wrappers
  import opened MapLoops

  /** The keys of `m` whose entry satisfies `p`. */
  function KeysWhere<K, V>(m: map<K, V>, p: V -> bool): set<K> {
    set k | k in m && p(m[k])
  }

  /** The keys of `m` whose entry `key` files under `g`; an entry that
      `key` sends to `None` belongs to no group. */
  function Group<K, V, G(==)>(m: map<K, V>, key: V -> Option<G>, g: G): set<K> {
    set k | k in m && key(m[k]) == Some(g)
  }

  /** Counts the entries satisfying `p`, one key at a time. */
  method CountWhere<K(!new), V>(m: map<K, V>, p: V -> bool) returns (n: nat)
    ensures n == |KeysWhere(m, p)|
  {
    n := 0;
    ghost var counted: set<K> := {};
    var rest := m.Keys;
    while rest != {}
      invariant rest <= m.Keys
      invariant forall k :: k in counted <==> k in m && k !in rest && p(m[k])
      invariant n == |counted|
      decreases |rest|
    {
      var k :| k in rest;
      if p(m[k]) {
        counted := counted + {k};
        n := n + 1;
      }
      rest := rest - {k};
    }
    SameMembers(counted, KeysWhere(m, p));
  }

  /** Files every key of `m` under the group its entry names: the result
      holds exactly the non-empty groups, each with all of its keys. */
  method GroupBy<K(!new), V, G(==, !new)>(m: map<K, V>, key: V -> Option<G>)
    returns (groups: map<G, set<K>>)
    ensures forall g :: g in groups <==> Group(m, key, g) != {}
    ensures forall g | g in groups :: groups[g] == Group(m, key, g)
  {
    groups := map[];
    var rest := m.Keys;
    while rest != {}
      invariant rest <= m.Keys
      invariant GroupLoop(m, key, rest, groups)
      decreases |rest|
    {
      var k :| k in rest;
      groups := GroupStep(m, key, rest, k, groups);
      rest := rest - {k};
    }
    GroupLoopDone(m, key, groups);
  }

  /** Once every key is filed, the groups are exactly the non-empty ones. */
  lemma GroupLoopDone<K(!new), V, G(!new)>(m: map<K, V>, key: V -> Option<G>, groups: map<G, set<K>>)
    requires GroupLoop(m, key, {}, groups)
    ensures forall g :: g in groups <==> Group(m, key, g) != {}
    ensures forall g | g in groups :: groups[g] == Group(m, key, g)
  {
    forall g | g in groups
      ensures groups[g] == Group(m, key, g)
    {
      SameMembers(groups[g], Group(m, key, g));
    }
    forall g | Group(m, key, g) != {}
      ensures g in groups
    {
      var k :| k in Group(m, key, g);
      assert key(m[k]) == Some(g);
    }
  }

  /** What the grouping loop knows once the keys outside `rest` are filed:
      every group present is non-empty and holds only filed keys of its own
      name, and every filed key sits in its group. */
  ghost predicate GroupLoop<K(!new), V, G(!new)>(m: map<K, V>, key: V -> Option<G>,
                                                     rest: set<K>, groups: map<G, set<K>>) {
    && (forall g | g in groups :: groups[g] != {})
    && (forall g, k | g in groups && k in groups[g] :: k in m && k !in rest && key(m[k]) == Some(g))
    && (forall k | k in m && k !in rest && key(m[k]).Some? ::
          key(m[k]).value in groups && k in groups[key(m[k]).value])
  }

  /** Files key `k` of `rest`. */
  method GroupStep<K(!new), V, G(==, !new)>(m: map<K, V>, key: V -> Option<G>,
                                            rest: set<K>, k: K, groups: map<G, set<K>>)
    returns (groups': map<G, set<K>>)
    requires rest <= m.Keys && k in rest
    requires GroupLoop(m, key, rest, groups)
    ensures GroupLoop(m, key, rest - {k}, groups')
  {
    match key(m[k])
    case None =>
      groups' := groups;
    case Some(g) =>
      var members := if g in groups then groups[g] else {};
      groups' := groups[g := members + {k}];
  }
}
