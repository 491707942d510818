/** The values of a table's rows, collected per key in row order, for rows,
    keys and values of any type. */
module Collect {

  /** The keys of the rows. */
  function KeysOf<R, K>(rows: seq<R>, key: R -> K): set<K> {
    if rows == [] then {} else KeysOf(rows[..|rows| - 1], key) + {key(rows[|rows| - 1])}
  }

  /** The values of the rows whose key is `k`, in row order. */
  function ValuesOf<R, K(==), V>(rows: seq<R>, key: R -> K, val: R -> V, k: K): seq<V> {
    if rows == [] then []
    else
      var last := rows[|rows| - 1];
      ValuesOf(rows[..|rows| - 1], key, val, k) + (if key(last) == k then [val(last)] else [])
  }

  /** One more row adds its key. */
  lemma KeysOfSnoc<R, K>(rows: seq<R>, key: R -> K, i: nat)
    requires i < |rows|
    ensures KeysOf(rows[..i + 1], key) == KeysOf(rows[..i], key) + {key(rows[i])}
  {
    assert rows[..i + 1][..i] == rows[..i];
  }

  /** One more row adds its value to its own key only. */
  lemma ValuesOfSnoc<R, K, V>(rows: seq<R>, key: R -> K, val: R -> V, i: nat, k: K)
    requires i < |rows|
    ensures ValuesOf(rows[..i + 1], key, val, k) ==
              ValuesOf(rows[..i], key, val, k) + (if key(rows[i]) == k then [val(rows[i])] else [])
  {
    assert rows[..i + 1][..i] == rows[..i];
  }

  /** A key no row has collects no values. */
  lemma {:induction false} ValuesOfOutside<R, K, V>(rows: seq<R>, key: R -> K, val: R -> V, k: K)
    requires k !in KeysOf(rows, key)
    ensures ValuesOf(rows, key, val, k) == []
    decreases |rows|
  {
    if rows != [] {
      ValuesOfOutside(rows[..|rows| - 1], key, val, k);
    }
  }

  /** A key is present exactly when some row has it. */
  lemma {:induction false} KeysOfMembers<R, K>(rows: seq<R>, key: R -> K, k: K)
    ensures k in KeysOf(rows, key) <==> exists j | 0 <= j < |rows| :: key(rows[j]) == k
    decreases |rows|
  {
    if rows != [] {
      var n := |rows| - 1;
      var init := rows[..n];
      KeysOfMembers(init, key, k);
      if j :| 0 <= j < |init| && key(init[j]) == k {
        assert rows[j] == init[j];
      }
      if j :| 0 <= j < |rows| && key(rows[j]) == k {
        if j < n {
          assert init[j] == rows[j];
        }
      }
    }
  }

  /** A value is collected for a key exactly when some row pairs the two. */
  lemma {:induction false} ValuesOfMembers<R, K, V>(rows: seq<R>, key: R -> K, val: R -> V, k: K, v: V)
    ensures v in ValuesOf(rows, key, val, k) <==> exists j | 0 <= j < |rows| :: key(rows[j]) == k && val(rows[j]) == v
    decreases |rows|
  {
    if rows != [] {
      var n := |rows| - 1;
      var init := rows[..n];
      ValuesOfMembers(init, key, val, k, v);
      if j :| 0 <= j < |init| && key(init[j]) == k && val(init[j]) == v {
        assert rows[j] == init[j];
      }
      if j :| 0 <= j < |rows| && key(rows[j]) == k && val(rows[j]) == v {
        if j < n {
          assert init[j] == rows[j];
        }
      }
    }
  }
}
