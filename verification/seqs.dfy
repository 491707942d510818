/** Duplicate-free sequences, built in first-seen order. */
module Seqs {

  predicate NoDup<T(==)>(s: seq<T>) {
    forall i, j | 0 <= i < j < |s| :: s[i] != s[j]
  }

  /** Appends to `acc`, in order, every element of `xs` that is not yet
      present: the `if x not in lst: lst.append(x)` loop. */
  function AppendNew<T(==)>(acc: seq<T>, xs: seq<T>): seq<T>
    decreases |xs|
  {
    if xs == [] then acc
    else AppendNew(if xs[0] in acc then acc else acc + [xs[0]], xs[1..])
  }

  /** The elements of `xs`, each once, in the order of their first occurrence. */
  function Dedup<T(==,!new)>(xs: seq<T>): (r: seq<T>)
    ensures NoDup(r)
    ensures forall x :: x in r <==> x in xs
  {
    AppendNewMembers([], xs);
    AppendNewNoDup([], xs);
    AppendNew([], xs)
  }

  /** The appended sequence holds the old elements and the new ones, and
      nothing else. */
  lemma {:induction false} AppendNewMembers<T>(acc: seq<T>, xs: seq<T>)
    ensures forall x :: x in AppendNew(acc, xs) <==> x in acc || x in xs
    decreases |xs|
  {
    if xs != [] {
      var acc' := if xs[0] in acc then acc else acc + [xs[0]];
      AppendNewMembers(acc', xs[1..]);
      assert forall x :: x in xs <==> x == xs[0] || x in xs[1..] by {
        assert xs == [xs[0]] + xs[1..];
      }
    }
  }

  /** Appending keeps a duplicate-free accumulator duplicate-free. */
  lemma {:induction false} AppendNewNoDup<T>(acc: seq<T>, xs: seq<T>)
    requires NoDup(acc)
    ensures NoDup(AppendNew(acc, xs))
    decreases |xs|
  {
    if xs != [] {
      if xs[0] in acc {
        AppendNewNoDup(acc, xs[1..]);
      } else {
        NoDupSnoc(acc, xs[0]);
        AppendNewNoDup(acc + [xs[0]], xs[1..]);
      }
    }
  }

  lemma NoDupSnoc<T>(s: seq<T>, x: T)
    requires NoDup(s) && x !in s
    ensures NoDup(s + [x])
  {
    forall i, j | 0 <= i < j < |s + [x]|
      ensures (s + [x])[i] != (s + [x])[j]
    {
      if j == |s| {
        assert (s + [x])[i] == s[i];
      }
    }
  }

  /** Appending only elements already present changes nothing. */
  lemma {:induction false} AppendNewOfKnown<T>(acc: seq<T>, xs: seq<T>)
    requires forall x | x in xs :: x in acc
    ensures AppendNew(acc, xs) == acc
    decreases |xs|
  {
    if xs != [] {
      assert xs[0] in xs;
      AppendNewOfKnown(acc, xs[1..]);
    }
  }

  /** On a sequence without duplicates, `Dedup` is the identity: the order
      kept is the order of first occurrence. */
  lemma DedupOfNoDup<T(!new)>(xs: seq<T>)
    requires NoDup(xs)
    ensures Dedup(xs) == xs
  {
    AppendNewOfFresh([], xs);
  }

  /** The index of the first occurrence of `x` in `xs`. */
  function FirstIndex<T(==)>(xs: seq<T>, x: T): (i: nat)
    requires x in xs
    ensures i < |xs| && xs[i] == x
    ensures forall j | 0 <= j < i :: xs[j] != x
    decreases |xs|
  {
    if xs[0] == x then 0
    else
      assert xs == [xs[0]] + xs[1..];
      1 + FirstIndex(xs[1..], x)
  }

  /** `Dedup` lists the elements in the order of their first occurrence in
      the input, whatever duplicates the input holds. */
  lemma {:induction false} DedupFirstSeen<T(!new)>(xs: seq<T>)
    ensures forall i, j | 0 <= i < j < |Dedup(xs)| ::
              FirstIndex(xs, Dedup(xs)[i]) < FirstIndex(xs, Dedup(xs)[j])
    decreases |xs|
  {
    if xs != [] {
      var ys, x := xs[..|xs| - 1], xs[|xs| - 1];
      assert xs == ys + [x];
      DedupFirstSeen(ys);
      AppendNewSnoc([], ys, x);
      var d := Dedup(ys);
      var r := Dedup(xs);
      assert r == if x in d then d else d + [x];
      forall i, j | 0 <= i < j < |r|
        ensures FirstIndex(xs, r[i]) < FirstIndex(xs, r[j])
      {
        assert r[i] == d[i] && d[i] in ys;
        FirstIndexSnoc(ys, x, d[i]);
        if j < |d| {
          assert r[j] == d[j] && d[j] in ys;
          FirstIndexSnoc(ys, x, d[j]);
        } else {
          assert r[j] == x && x !in ys;
          FirstIndexSnoc(ys, x, x);
        }
      }
    }
  }

  /** One more element at the end moves no first occurrence, and a new
      element first occurs at the end. */
  lemma FirstIndexSnoc<T>(ys: seq<T>, x: T, y: T)
    requires y in ys || y == x
    ensures y in ys ==> FirstIndex(ys + [x], y) == FirstIndex(ys, y)
    ensures y !in ys ==> FirstIndex(ys + [x], y) == |ys|
  {
    var k := FirstIndex(ys + [x], y);
    if y in ys {
      var k' := FirstIndex(ys, y);
      assert (ys + [x])[k'] == y;
      assert k < |ys| && ys[k] == (ys + [x])[k];
    }
  }

  /** Appending elements that are all fresh and distinct appends them all. */
  lemma {:induction false} AppendNewOfFresh<T>(acc: seq<T>, xs: seq<T>)
    requires NoDup(xs)
    requires forall i | 0 <= i < |xs| :: xs[i] !in acc
    ensures AppendNew(acc, xs) == acc + xs
    decreases |xs|
  {
    if xs != [] {
      FreshTail(acc, xs);
      AppendNewOfFresh(acc + [xs[0]], xs[1..]);
      assert acc + [xs[0]] + xs[1..] == acc + xs;
    }
  }

  /** After the head of a fresh, distinct `xs` is appended, its tail is
      still fresh and distinct. */
  lemma FreshTail<T>(acc: seq<T>, xs: seq<T>)
    requires xs != [] && NoDup(xs)
    requires forall i | 0 <= i < |xs| :: xs[i] !in acc
    ensures NoDup(xs[1..])
    ensures forall i | 0 <= i < |xs[1..]| :: xs[1..][i] !in acc + [xs[0]]
  {
    var xs' := xs[1..];
    forall i | 0 <= i < |xs'|
      ensures xs'[i] !in acc + [xs[0]]
    {
      assert xs'[i] == xs[i + 1];
    }
    forall i, j | 0 <= i < j < |xs'|
      ensures xs'[i] != xs'[j]
    {
      assert xs'[i] == xs[i + 1] && xs'[j] == xs[j + 1];
    }
  }

  /** Appending one more element after `xs` is one more step of the loop. */
  lemma {:induction false} AppendNewSnoc<T>(acc: seq<T>, xs: seq<T>, x: T)
    ensures AppendNew(acc, xs + [x]) ==
              var a := AppendNew(acc, xs); if x in a then a else a + [x]
    decreases |xs|
  {
    if xs == [] {
      assert xs + [x] == [x];
      assert [x][1..] == [];
    } else {
      var acc' := if xs[0] in acc then acc else acc + [xs[0]];
      assert (xs + [x])[0] == xs[0];
      assert (xs + [x])[1..] == xs[1..] + [x];
      AppendNewSnoc(acc', xs[1..], x);
    }
  }
}
