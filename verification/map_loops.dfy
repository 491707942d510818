/** The two loops of the merge, over mappings of any key and value type,
    and the facts about set sizes their counters need. */
module MapLoops {
  /** The keys of both mappings whose two entries satisfy `p`. */
  function SharedWhere<K, V>(r1: map<K, V>, r2: map<K, V>, p: (V, V) -> bool): set<K> {
    set k | k in r1 && k in r2 && p(r1[k], r2[k])
  }

  /** The conjunction of two relations. */
  function Both<V>(p: (V, V) -> bool, q: (V, V) -> bool): (V, V) -> bool {
    (a, b) => p(a, b) && q(a, b)
  }

  /** Keys whose entries satisfy both relations satisfy the first, and all
      of them are shared. */
  lemma SharedWhereBoth<K, V>(r1: map<K, V>, r2: map<K, V>, p: (V, V) -> bool, q: (V, V) -> bool)
    ensures SharedWhere(r1, r2, Both(p, q)) <= SharedWhere(r1, r2, p) <= r1.Keys * r2.Keys
  {
  }

  /** The loop over the first mapping's titles, with the record operations
      as parameters: a title missing from the second mapping is copied and
      counted as added; a shared one gets `merge` of its two records, and
      is counted as a conflict when `conflict` holds of them, and as
      resolved when besides `decided` holds. */
  method MergeFirst<K(!new), V>(r1: map<K, V>, r2: map<K, V>, merge: (V, V) -> V,
                          conflict: (V, V) -> bool, decided: (V, V) -> bool)
    returns (combined: map<K, V>, conflicts: nat, resolved: nat, added1: nat)
    ensures combined.Keys == r1.Keys
    ensures forall k | k in r1 && k !in r2 :: combined[k] == r1[k]
    ensures forall k | k in r1 && k in r2 :: combined[k] == merge(r1[k], r2[k])
    ensures added1 == |r1.Keys - r2.Keys|
    ensures conflicts == |SharedWhere(r1, r2, conflict)|
    ensures resolved == |SharedWhere(r1, r2, Both(conflict, decided))|
  {
    combined := map[];
    conflicts, resolved, added1 := 0, 0, 0;
    ghost var addedSet: set<K> := {};
    ghost var conflictSet: set<K> := {};
    ghost var resolvedSet: set<K> := {};
    var rest := r1.Keys;
    while rest != {}
      invariant FirstLoop(r1, r2, merge, conflict, decided, rest, combined, addedSet, conflictSet, resolvedSet)
      invariant added1 == |addedSet| && conflicts == |conflictSet| && resolved == |resolvedSet|
      decreases |rest|
    {
      var title :| title in rest;
      combined, addedSet, added1, conflictSet, conflicts, resolvedSet, resolved :=
        MergeStep(r1, r2, merge, conflict, decided, rest, title, combined,
                  addedSet, added1, conflictSet, conflicts, resolvedSet, resolved);
      rest := rest - {title};
    }
    SameMembers(combined.Keys, r1.Keys);
    SameMembers(addedSet, r1.Keys - r2.Keys);
    SameMembers(conflictSet, SharedWhere(r1, r2, conflict));
    SameMembers(resolvedSet, SharedWhere(r1, r2, Both(conflict, decided)));
  }

  /** What the loop over the first mapping knows once the keys outside
      `rest` are handled: `combined` holds exactly those keys with their
      entries, and the ghost sets hold the handled keys counted as added,
      as conflicts and as resolved. */
  ghost predicate FirstLoop<K(!new), V>(r1: map<K, V>, r2: map<K, V>, merge: (V, V) -> V,
                                  conflict: (V, V) -> bool, decided: (V, V) -> bool,
                                  rest: set<K>, combined: map<K, V>, addedSet: set<K>,
                                  conflictSet: set<K>, resolvedSet: set<K>)
  {
    && rest <= r1.Keys
    && (forall k :: k in combined <==> k in r1 && k !in rest)
    && (forall k | k in combined && k !in r2 :: combined[k] == r1[k])
    && (forall k | k in combined && k in r2 :: combined[k] == merge(r1[k], r2[k]))
    && (forall k :: k in addedSet <==> k in combined && k !in r2)
    && (forall k :: k in conflictSet <==> k in combined && k in r2 && conflict(r1[k], r2[k]))
    && (forall k :: k in resolvedSet <==> k in conflictSet && decided(r1[k], r2[k]))
  }

  /** One pass of the loop over the first mapping, on the key `title`. */
  method MergeStep<K(!new), V>(r1: map<K, V>, r2: map<K, V>, merge: (V, V) -> V,
                         conflict: (V, V) -> bool, decided: (V, V) -> bool,
                         rest: set<K>, title: K, combined: map<K, V>,
                         ghost addedSet: set<K>, added1: nat, ghost conflictSet: set<K>, conflicts: nat,
                         ghost resolvedSet: set<K>, resolved: nat)
    returns (combined': map<K, V>, ghost addedSet': set<K>, added1': nat, ghost conflictSet': set<K>,
             conflicts': nat, ghost resolvedSet': set<K>, resolved': nat)
    requires FirstLoop(r1, r2, merge, conflict, decided, rest, combined, addedSet, conflictSet, resolvedSet)
    requires added1 == |addedSet| && conflicts == |conflictSet| && resolved == |resolvedSet|
    requires title in rest
    ensures FirstLoop(r1, r2, merge, conflict, decided, rest - {title}, combined',
                      addedSet', conflictSet', resolvedSet')
    ensures added1' == |addedSet'| && conflicts' == |conflictSet'| && resolved' == |resolvedSet'|
  {
    var entry, isNew, isConflict, isResolved := MergeOne(r1, r2, merge, conflict, decided, title);
    combined' := combined[title := entry];
    addedSet', added1' := Count(addedSet, added1, title, isNew);
    conflictSet', conflicts' := Count(conflictSet, conflicts, title, isConflict);
    resolvedSet', resolved' := Count(resolvedSet, resolved, title, isResolved);
  }

  /** Adds `x` to a set of counted keys, and one to its counter, when `b`
      holds; the set is ghost, the counter is what the source keeps. */
  method Count<K>(ghost counted: set<K>, n: nat, x: K, b: bool) returns (ghost counted': set<K>, n': nat)
    requires n == |counted| && x !in counted
    ensures forall k :: k in counted' <==> k in counted || (b && k == x)
    ensures n' == |counted'|
  {
    if b {
      counted', n' := counted + {x}, n + 1;
    } else {
      counted', n' := counted, n;
    }
  }

  /** The handling of one title of the first mapping: the entry stored
      under it, and whether it counts as added, as a conflict and as
      resolved. */
  method MergeOne<K, V>(r1: map<K, V>, r2: map<K, V>, merge: (V, V) -> V,
                        conflict: (V, V) -> bool, decided: (V, V) -> bool, title: K)
    returns (entry: V, isNew: bool, isConflict: bool, isResolved: bool)
    requires title in r1
    ensures title !in r2 ==> entry == r1[title]
    ensures title in r2 ==> entry == merge(r1[title], r2[title])
    ensures isNew <==> title !in r2
    ensures isConflict <==> title in r2 && conflict(r1[title], r2[title])
    ensures isResolved <==> isConflict && decided(r1[title], r2[title])
  {
    var entry1 := r1[title];
    isNew, isConflict, isResolved := false, false, false;
    if title !in r2 {
      entry := entry1;
      isNew := true;
    } else {
      var entry2 := r2[title];
      if conflict(entry1, entry2) {
        isConflict := true;
        if decided(entry1, entry2) {
          isResolved := true;
        }
      }
      entry := merge(entry1, entry2);
    }
  }

  /** The loop over the second mapping: every title not yet present is
      copied from `source` and counted; present titles keep their entry. */
  method CopyMissing<K, V>(merged: map<K, V>, source: map<K, V>)
    returns (combined: map<K, V>, added: nat)
    ensures combined.Keys == merged.Keys + source.Keys
    ensures forall k | k in merged :: combined[k] == merged[k]
    ensures forall k | k in source && k !in merged :: combined[k] == source[k]
    ensures added == |source.Keys - merged.Keys|
  {
    combined, added := merged, 0;
    ghost var copied: set<K> := {};
    var rest := source.Keys;
    while rest != {}
      invariant rest <= source.Keys
      invariant forall k :: k in combined <==> k in merged || (k in source && k !in rest)
      invariant forall k | k in merged :: combined[k] == merged[k]
      invariant forall k | k in combined && k !in merged :: combined[k] == source[k]
      invariant forall k :: k in copied <==> k in combined && k !in merged
      invariant added == |copied|
      decreases |rest|
    {
      var title :| title in rest;
      if title !in combined {
        combined := combined[title := source[title]];
        copied := copied + {title};
        added := added + 1;
      }
      rest := rest - {title};
    }
    SameMembers(combined.Keys, merged.Keys + source.Keys);
    SameMembers(copied, source.Keys - merged.Keys);
  }

  /** Sets with the same members are equal. */
  lemma SameMembers<T>(a: set<T>, b: set<T>)
    requires forall x :: x in a <==> x in b
    ensures a == b
  {
  }

  lemma {:induction false} SubsetSize<T>(a: set<T>, b: set<T>)
    requires a <= b
    ensures |a| <= |b|
    decreases b
  {
    if a != {} {
      var x :| x in a;
      SubsetSize(a - {x}, b - {x});
    }
  }

  lemma UnionSize<T>(a: set<T>, b: set<T>)
    ensures |a + b| == |a - b| + |b - a| + |a * b|
  {
    assert a + b == (a - b) + (b - a) + (a * b);
    assert (a - b) !! (b - a);
    assert ((a - b) + (b - a)) !! (a * b);
  }
}
